# Sigil cipher layer — a Dafny model

This project models the byte-level core of the GlyphMatics security stack:

- the **SC-HA accelerator** primitives `GHASH`, `GSS14`, `POWGS32`, `DBSCORE`
  and `SIGILXOR`, and the security bundle `compute_security_bundle` assembles
  from them;
- the **stealth sigil** encoder and decoder (`StealthSigil.encode` /
  `StealthSigil.decode`). The encoder XOR-mixes a payload with a 16-byte key
  taken from the glyphstream's SHA-256 digest. It packs the glyphstream, its
  digest and a digest of the mixed payload into a rehydration sigil; the
  mixed payload itself is not stored (see Findings). The decoder re-derives
  the key and tries to recover the payload.

SHA-256 is never computed. Every operation that hashes takes the hash as a
parameter `sha: seq<byte> -> Digest`, where `Digest` is a 32-byte sequence. So every
theorem holds for any function with SHA-256's output length. The same goes
for the collaborators whose source is not part of this model:

- the glyph-note front end (parse, normalise, serialise to a glyphstream) is
  the `frontEnd` parameter of `Stealth.Engine`;
- `build_rehydration_sigil` and `rehydrate_sigil` are the `Sigils.Codec`
  parameter.

Two facts are assumed about the codec:

- `build_rehydration_sigil` never raises. `build` has type
  `(string, string, string) -> string`, so `Stealth.Encode`, `Stealth.EncodeFixed`,
  `Accelerator.Powgs32` and `Accelerator.SecurityBundle` fail only where their
  own code does.
- Rehydrating the sigil built from a given field triple returns that
  triple (`Sigils.RehydratesTo`). This is not assumed for every triple: a
  codec may parse or hex-check its fields and reject some. Only the lemmas
  that compose an encoder with a decoder take it as a hypothesis, and each
  takes it only for the one triple it builds.

We also assume `sha256hex(x)` equals `hashlib.sha256(x).hexdigest()`. The
model uses one function for both, `HexCodec.HexDigest`.

Python's `str.encode()` is modelled as real UTF-8 encoding (`Utf8.Encode`).
`hexdigest()` and `bytes.fromhex` are modelled as real hex codecs
(`HexCodec.Hex` and `HexCodec.FromHex`). `FromHex` includes `fromhex`'s
skipping of ASCII whitespace between digit pairs.

Modules, one per component:

| file | module | contents |
|---|---|---|
| results.dfy | `Results` | error kinds and `Result` |
| bytes.dfy | `Bytes` | byte values 0 to 255 and their bitwise `^` |
| digests.dfy | `Digests` | `Digest` and iterated hashing |
| utf8.dfy | `Utf8` | `str.encode()` |
| hex.dfy | `HexCodec` | `hexdigest()`, `bytes.fromhex` |
| xor.dfy | `RepeatingXor` | `SIGILXOR` and the repeating-key XOR |
| sigils.dfy | `Sigils` | the rehydration-sigil codec interface |
| accelerator.dfy | `Accelerator` | `GHASH`, `GSS14`, `POWGS32`, `DBSCORE`, the bundle |
| stealth.dfy | `Stealth` | stealth encode and decode, as written and corrected |

Two points about the stealth layer:

- The stealth decoder has no ciphertext/key length check. It XORs whatever
  `fromhex` returns.
- The comment at stealth_sigil.py:39 says the cipher goes into the structural
  slot. The encoder actually puts a digest of the cipher there (see Findings).

## Model

| member | source | states |
|---|---|---|
| Bytes.XorBits | sigil_cipher_hardware_accelerator.py:63 | the `^` of two `k`-bit numbers fits in `k` bits, so every XORed byte is a valid `bytes` element |
| Bytes.XorByte | sigil_cipher_hardware_accelerator.py:63 | `a ^ b` on byte values: each of the eight result bits is set exactly when it is set in one operand and not the other |
| Bytes.XorByteInvolution | sigil_cipher_hardware_accelerator.py:63 | `(a ^ b) ^ b == a` for byte values |
| Bytes.XorByteCancel | sigil_cipher_hardware_accelerator.py:63 | `(a ^ m) ^ (b ^ m) == a ^ b` for byte values |
| Digests.Rounds | sigil_cipher_hardware_accelerator.py:43-45 | zero rounds leave the input unchanged; one or more rounds yield a 32-byte digest |
| Digests.RoundsAdd | sigil_cipher_hardware_accelerator.py:44-45 | `a` rounds followed by `b` rounds are `a + b` rounds |
| Utf8.Encode | stealth_sigil.py:36 | `str.encode()` yields between one and four bytes per character |
| Utf8.EncodeAppend | sigil_cipher_hardware_accelerator.py:55 | encoding a concatenation concatenates the encodings |
| Utf8.DecodeEncode | stealth_sigil.py:36 | a UTF-8 decoder recovers the scalar values of every encoded string |
| Utf8.EncodeInjective | stealth_sigil.py:36 | distinct strings have distinct `encode()` bytes, so hashing the bytes hashes the string |
| Utf8.EncodeAscii | sigil_cipher_hardware_accelerator.py:48 | an ASCII string such as a hex digest encodes to one byte per character |
| HexCodec.Hex | stealth_sigil.py:40 | `hexdigest()` gives two lower-case hex digits per byte |
| HexCodec.HexDigest | sigil_cipher_hardware_accelerator.py:47 | a hex digest is 64 lower-case digits that decode back to the 32 digest bytes |
| HexCodec.FromHex | stealth_sigil.py:67 | `bytes.fromhex` either fails with the hex error or yields at most one byte per two characters |
| HexCodec.FromHexOfHex | stealth_sigil.py:40-67 | `fromhex` undoes `hexdigest()` on every byte string |
| HexCodec.HexOfFromHex | stealth_sigil.py:40-67 | every even-length lower-case hex string decodes, and re-encoding gives it back |
| HexCodec.FromHexAccepts | stealth_sigil.py:67 | without whitespace, `fromhex` succeeds iff the length is even and every character is a hex digit, and then yields half as many bytes |
| HexCodec.HexPrefix | stealth_sigil.py:36-41 | the first `2k` hex digits are the hex text of the first `k` bytes |
| RepeatingXor.Xor | sigil_cipher_hardware_accelerator.py:63 | output has the payload's length and byte `i` is `payload[i] ^ key[i % len(key)]` |
| RepeatingXor.SigilXor | sigil_cipher_hardware_accelerator.py:62-63 | fails, with division by zero, exactly when the payload is non-empty and the key empty; otherwise has the payload's length and cycles the key |
| RepeatingXor.XorInvolution | sigil_cipher_hardware_accelerator.py:63 | XOR with the same key twice returns the data |
| RepeatingXor.SigilXorInvolution | sigil_cipher_hardware_accelerator.py:62-63 | `SIGILXOR` applied twice with the same key returns the payload |
| RepeatingXor.KeystreamAt | sigil_cipher_hardware_accelerator.py:63 | the key repeated end to end has key byte `i % len(key)` at position `i` |
| RepeatingXor.XorIsKeystreamXor | sigil_cipher_hardware_accelerator.py:63 | the cipher equals the byte-wise XOR of the payload with the key repeated end to end |
| RepeatingXor.KeyCancelsAtPeriod | sigil_cipher_hardware_accelerator.py:63 | cipher bytes one key length apart XOR to their plaintext bytes' XOR, whatever the key |
| Accelerator.GhashPreimage | sigil_cipher_hardware_accelerator.py:25-27 | the last hash input of `GHASH` is 64 bytes: `h1` = digest of the data, then `h2` = digest of `h1` |
| Accelerator.Ghash | sigil_cipher_hardware_accelerator.py:25-28 | `GHASH` is 64 lower-case hex digits denoting the digest of `h1 + h2` |
| Accelerator.Gss14 | sigil_cipher_hardware_accelerator.py:33-37 | `GSS14` is always 64 lower-case hex digits |
| Accelerator.Gss14IsFourRounds | sigil_cipher_hardware_accelerator.py:33-37 | `GSS14` denotes four hash rounds over the sigil's bytes |
| Accelerator.PowgsFields | sigil_cipher_hardware_accelerator.py:42-48 | `POWGS32` passes the same string as glyphstream and integrity; its structural field is the digest of that string's bytes; both are 64 hex digits |
| Accelerator.Powgs32 | sigil_cipher_hardware_accelerator.py:42-49 | the `POWGS32` sigil is built from the `(ih, ih, sh)` triple: whenever the codec rehydrates that triple back (`RehydratesTo`), rehydrating the sigil yields exactly those fields |
| Accelerator.PowgsRounds | sigil_cipher_hardware_accelerator.py:43-48 | the `POWGS32` integrity field denotes 33 hash rounds (32 in the loop, one in `sha256hex`); the structural hash reads its 64 ASCII bytes |
| Accelerator.PowgsRehydrates | sigil_cipher_hardware_accelerator.py:42-49 | rehydrating `POWGS32` gives glyphstream = integrity = 33 rounds, and structural = digest of integrity |
| Accelerator.PowgsExtendsGss | sigil_cipher_hardware_accelerator.py:33-47 | the `POWGS32` digest is 29 further rounds over the digest `GSS14` prints |
| Accelerator.Dbscore | sigil_cipher_hardware_accelerator.py:54-57 | `DBSCORE` is 64 lower-case hex digits that decode to the digest of `(miner_id + sigil).encode()` |
| Accelerator.DbscoreSeesOnlyConcatenation | sigil_cipher_hardware_accelerator.py:55-56 | two (miner, sigil) pairs with the same concatenation score the same |
| Accelerator.DbscoreSplitExample | sigil_cipher_hardware_accelerator.py:55-56 | ("ab", "c") and ("a", "bc") score the same |
| Accelerator.SecurityBundle | sigil_cipher_hardware_accelerator.py:71-76 | the bundle has exactly the keys GSS, POWGS and DBS, each the primitive on the same sigil and miner |
| Accelerator.BundleChain | sigil_cipher_hardware_accelerator.py:71-76 | with an empty miner id, GSS is three more rounds over the digest DBS prints |
| Stealth.Key | stealth_sigil.py:36 | the key is 16 bytes and a prefix of the glyphstream's digest |
| Stealth.Cipher | stealth_sigil.py:37 | the cipher has the payload's length and byte `i` is `payload[i] ^ key[i % 16]` |
| Stealth.EncodeFields | stealth_sigil.py:36-44 | encode keeps the glyphstream; integrity and structural are 64 lower-case hex digits denoting the digests of the glyphstream and of the cipher, whatever the payload length |
| Stealth.Encode | stealth_sigil.py:28-46 | encode fails exactly when the front end fails, with its error |
| Stealth.Recover | stealth_sigil.py:60-76 | decode after rehydration succeeds iff the structural field is valid `fromhex` input. It returns the glyphstream and tree unchanged. Payload byte `i` is `cipher[i] ^ key[i % 16]` over the bytes `fromhex` gave |
| Stealth.Decode | stealth_sigil.py:52-76 | decode fails with the codec's error when rehydration fails; otherwise it is the recovery above on the rehydrated fields |
| Stealth.KeyFromIntegrity | stealth_sigil.py:36-41 | the key is the hex decoding of the first 32 characters of the integrity field |
| Stealth.XorStepsInverse | stealth_sigil.py:37-70 | the decode XOR undoes the encode XOR for the same glyphstream |
| Stealth.AsWrittenDecode | stealth_sigil.py:36-70 | decoding an encoded sigil yields the key XORed over the 32-byte cipher digest, so always 32 bytes |
| Stealth.AsWrittenLosesPayload | stealth_sigil.py:40-70 | encode then decode returns a different payload whenever its length is not 32, the empty one included |
| Stealth.SecretIsLost | stealth_sigil.py:40-70 | `b"secret"` comes back as 32 other bytes |
| Stealth.RecoverRejectsMalformed | stealth_sigil.py:67-70 | decode fails on a whitespace-free structural field of odd length or with a non-hex character; otherwise the payload has half its length |
| Stealth.EncodeFieldsFixed | stealth_sigil.py:39-44 | corrected: the structural field is the cipher's hex text, `2 * len(payload)` digits that decode to the cipher |
| Stealth.EncodeFixed | stealth_sigil.py:28-46 | corrected encode fails exactly when the front end fails |
| Stealth.FixedRoundTrip | stealth_sigil.py:37-70 | with the corrected encoder, decode returns every payload and the glyphstream |

## Findings

| source | as written | input that shows it | evidently intended | confidence | as-written member | corrected member |
|---|---|---|---|---|---|---|
| stealth_sigil.py:40 | encode stores `sha256(cipher).hexdigest()` in the structural slot, and decode (line 67) hex-decodes that slot as the cipher | any payload not 32 bytes long, e.g. `b"secret"` or `b""`, decodes to 32 unrelated bytes | the structural slot carries the cipher itself (line 39: "embed cipher length and cipher into structural seed"), so decode returns the payload | high; not executed | Stealth.AsWrittenLosesPayload | Stealth.FixedRoundTrip |

## Left out

- SHA-256 internals: the hash is a parameter known only by its 32-byte output.
- Parsing, normalising and serialising glyph notes (`parse_glyphnote`, `normalize_ast`, `ast_to_glyphstream`) are not part of this model. They are the `frontEnd` parameter.
- Sigil packing (`build_rehydration_sigil`, `rehydrate_sigil`) is not part of this model. It is the `Codec` parameter. Failures of `rehydrate_sigil` (including a missing dictionary key) are its `Result`.
- Stealth.Encode: assumes `build_rehydration_sigil` never raises, because `build` returns a plain string. An exception from it is not modelled. The same holds for Stealth.EncodeFixed, Accelerator.Powgs32 and Accelerator.SecurityBundle.
- `sha256hex` is not part of this model. It is assumed to be `hashlib.sha256(x).hexdigest()`.
- `security_core.py`: ledger, guardian voting, memory and agent orchestration over services not shown; it transforms no data.
- The class wrappers `SC_HA` and `StealthSigil` hold no logic beyond their methods. Their state (`self.ha`, `self.payload`) becomes arguments.
- `structural_hash`, `integrity_hash` and `json` are imported but never used by the modelled code.
- Utf8.Encode: Python strings may hold lone surrogates, on which `str.encode()` raises. Dafny characters are Unicode scalar values, so that error cannot arise here.
- HexCodec.FromHex: does not model the error position in the `ValueError` message, only that the call fails.
