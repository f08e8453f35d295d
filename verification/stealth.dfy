/** The stealth sigil (`StealthSigil`): a payload XOR-mixed with a key drawn
    from the glyphstream's digest, with only a digest of the mixed payload
    stored in a rehydration sigil, and the decoder that tries to recover it.

    Encoding is modelled from the glyphstream onward: turning cover text
    into a glyphstream (parse, normalise, serialise) is the `frontEnd`
    parameter of an `Engine`, and sigil packing is its `codec`.

    As written, encoding stores the hex digest of the cipher in the
    structural slot while decoding reads that slot as the cipher itself, so
    the decoder always yields 32 bytes (`AsWrittenDecode`). The `Fixed`
    members store the cipher's own hex text and round-trip
    (`FixedRoundTrip`). */
module Stealth {
  import opened Bytes
  import opened Digests
  import opened HexCodec
  import opened Results
  import opened Sigils
  import opened RepeatingXor
  import Utf8

  const KeyLength: nat := 16

  /** The collaborators the stealth codec runs with. */
  datatype Engine<A> = Engine(
    sha: Sha256,
    frontEnd: string -> Result<string>,
    codec: Codec<A>)

  /** The mapping `decode` returns: payload, glyphstream and parsed tree. */
  datatype Decoded<A> = Decoded(payload: seq<byte>, glyphstream: string, ast: A)

  /** `sha256b(g.encode())[:16]`, derived the same way by both directions. */
  function Key(sha: Sha256, g: string): (key: seq<byte>)
    ensures |key| == KeyLength
    ensures key <= sha(Utf8.Encode(g))
  {
    sha(Utf8.Encode(g))[..KeyLength]
  }

  /** The mixed payload: byte `i` is XORed with key byte `i % 16`. */
  function Cipher(sha: Sha256, payload: seq<byte>, g: string): (c: seq<byte>)
    ensures |c| == |payload|
    ensures forall i :: 0 <= i < |payload| ==> c[i] == XorByte(payload[i], Key(sha, g)[i % KeyLength])
  {
    Xor(payload, Key(sha, g))
  }

  /** The fields `encode` packs: the glyphstream, its hex digest as the
      integrity hash, and the hex digest of the cipher as the structural
      hash. Both digests are 64 characters whatever the payload length. */
  function EncodeFields(sha: Sha256, payload: seq<byte>, g: string): (f: Fields)
    ensures f.glyphstream == g
    ensures |f.integrity| == 64 && IsLowerHex(f.integrity)
    ensures |f.structural| == 64 && IsLowerHex(f.structural)
    ensures FromHex(f.integrity) == Success(sha(Utf8.Encode(g)))
    ensures FromHex(f.structural) == Success(sha(Cipher(sha, payload, g)))
  {
    var sh := HexDigest(sha, Cipher(sha, payload, g));
    var ih := HexDigest(sha, Utf8.Encode(g));
    Fields(g, ih, sh)
  }

  /** `StealthSigil(payload).encode(cover_text)`. */
  function Encode<A>(engine: Engine<A>, payload: seq<byte>, coverText: string): (r: Result<string>)
    ensures r.Failure? <==> engine.frontEnd(coverText).Failure?
    ensures r.Failure? ==> r.error == engine.frontEnd(coverText).error
  {
    var g :- engine.frontEnd(coverText);
    Success(Build(engine.codec, EncodeFields(engine.sha, payload, g)))
  }

  /** `decode` after `rehydrate_sigil`: re-derive the key from the
      glyphstream, read the structural field as hex, and XOR. */
  function Recover<A>(sha: Sha256, data: Rehydrated<A>): (r: Result<Decoded<A>>)
    ensures r.Success? <==> FromHex(data.fields.structural).Success?
    ensures r.Failure? ==> r.error == NonHexDigit
    ensures r.Success? ==> r.value.glyphstream == data.fields.glyphstream && r.value.ast == data.ast
    ensures r.Success? ==> |r.value.payload| == |FromHex(data.fields.structural).value|
    ensures r.Success? ==> forall i :: 0 <= i < |r.value.payload| ==>
      r.value.payload[i] == XorByte(FromHex(data.fields.structural).value[i], Key(sha, data.fields.glyphstream)[i % KeyLength])
  {
    var g := data.fields.glyphstream;
    var key := Key(sha, g);
    var cipher :- FromHex(data.fields.structural);
    Success(Decoded(Xor(cipher, key), g, data.ast))
  }

  /** `StealthSigil.decode(sigil)`. */
  function Decode<A>(engine: Engine<A>, sigil: string): (r: Result<Decoded<A>>)
    ensures r.Success? ==> engine.codec.rehydrate(sigil).Success?
    ensures r.Success? ==> r.value.glyphstream == engine.codec.rehydrate(sigil).value.fields.glyphstream
    ensures engine.codec.rehydrate(sigil).Failure? ==> r == Failure(engine.codec.rehydrate(sigil).error)
    ensures engine.codec.rehydrate(sigil).Success? ==> r == Recover(engine.sha, engine.codec.rehydrate(sigil).value)
  {
    var data :- engine.codec.rehydrate(sigil);
    Recover(engine.sha, data)
  }

  /** The key is the hex decoding of the first 32 characters of the
      integrity field that encode writes. */
  lemma KeyFromIntegrity(sha: Sha256, payload: seq<byte>, g: string)
    ensures FromHex(EncodeFields(sha, payload, g).integrity[..2 * KeyLength]) == Success(Key(sha, g))
  {
    var d := sha(Utf8.Encode(g));
    HexPrefix(d, KeyLength);
    FromHexOfHex(d[..KeyLength]);
  }

  /** The XOR steps of encode and decode undo each other for one glyphstream. */
  lemma XorStepsInverse(sha: Sha256, payload: seq<byte>, g: string)
    ensures Xor(Cipher(sha, payload, g), Key(sha, g)) == payload
  {
    XorInvolution(payload, Key(sha, g));
  }

  /** Decoding what encode produced, as written: it succeeds, keeps the
      glyphstream, and yields the key XORed over the 32-byte digest of the
      cipher rather than over the cipher. */
  lemma AsWrittenDecode<A>(engine: Engine<A>, payload: seq<byte>, coverText: string)
    requires engine.frontEnd(coverText).Success?
    requires RehydratesTo(engine.codec, EncodeFields(engine.sha, payload, engine.frontEnd(coverText).value))
    ensures Encode(engine, payload, coverText).Success?
    ensures var g := engine.frontEnd(coverText).value;
      var r := Decode(engine, Encode(engine, payload, coverText).value);
      && r.Success?
      && r.value.glyphstream == g
      && r.value.payload == Xor(engine.sha(Cipher(engine.sha, payload, g)), Key(engine.sha, g))
      && |r.value.payload| == DigestLength
  {
    var g := engine.frontEnd(coverText).value;
    var f := EncodeFields(engine.sha, payload, g);
    assert engine.codec.rehydrate(engine.codec.build(f.glyphstream, f.integrity, f.structural)).value.fields == f;
  }

  /** Hence encode then decode loses every payload whose length is not 32,
      the empty payload included. */
  lemma AsWrittenLosesPayload<A>(engine: Engine<A>, payload: seq<byte>, coverText: string)
    requires engine.frontEnd(coverText).Success?
    requires RehydratesTo(engine.codec, EncodeFields(engine.sha, payload, engine.frontEnd(coverText).value))
    requires |payload| != DigestLength
    ensures Encode(engine, payload, coverText).Success?
    ensures var r := Decode(engine, Encode(engine, payload, coverText).value);
      r.Success? && r.value.payload != payload
  {
    AsWrittenDecode(engine, payload, coverText);
  }

  /** The concrete case: the six bytes of `b"secret"` come back as 32 bytes. */
  lemma SecretIsLost<A>(engine: Engine<A>, coverText: string)
    requires engine.frontEnd(coverText).Success?
    requires RehydratesTo(engine.codec, EncodeFields(engine.sha, [0x73, 0x65, 0x63, 0x72, 0x65, 0x74], engine.frontEnd(coverText).value))
    ensures var secret: seq<byte> := [0x73, 0x65, 0x63, 0x72, 0x65, 0x74];
      var r := Decode(engine, Encode(engine, secret, coverText).value);
      r.Success? && |r.value.payload| == 32 && r.value.payload != secret
  {
    var secret: seq<byte> := [0x73, 0x65, 0x63, 0x72, 0x65, 0x74];
    AsWrittenLosesPayload(engine, secret, coverText);
    AsWrittenDecode(engine, secret, coverText);
  }

  /** Decoding fails on a structural field without whitespace whose length
      is odd or which holds a character that is not a hex digit. */
  lemma RecoverRejectsMalformed<A>(sha: Sha256, data: Rehydrated<A>)
    requires HasNoSpace(data.fields.structural)
    ensures Recover(sha, data).Failure? <==>
      (|data.fields.structural| % 2 == 1 ||
       exists i :: 0 <= i < |data.fields.structural| && !IsHexChar(data.fields.structural[i]))
    ensures Recover(sha, data).Success? ==> |Recover(sha, data).value.payload| == |data.fields.structural| / 2
  {
    FromHexAccepts(data.fields.structural);
  }

  /** The corrected fields: the structural slot holds the cipher's own hex
      text, two characters per payload byte. */
  function EncodeFieldsFixed(sha: Sha256, payload: seq<byte>, g: string): (f: Fields)
    ensures f.glyphstream == g
    ensures |f.integrity| == 64 && IsLowerHex(f.integrity)
    ensures |f.structural| == 2 * |payload| && IsLowerHex(f.structural)
    ensures FromHex(f.structural) == Success(Cipher(sha, payload, g))
  {
    var cipher := Cipher(sha, payload, g);
    FromHexOfHex(cipher);
    Fields(g, HexDigest(sha, Utf8.Encode(g)), Hex(cipher))
  }

  /** The corrected encoder. */
  function EncodeFixed<A>(engine: Engine<A>, payload: seq<byte>, coverText: string): (r: Result<string>)
    ensures r.Failure? <==> engine.frontEnd(coverText).Failure?
    ensures r.Failure? ==> r.error == engine.frontEnd(coverText).error
  {
    var g :- engine.frontEnd(coverText);
    Success(Build(engine.codec, EncodeFieldsFixed(engine.sha, payload, g)))
  }

  /** With the corrected encoder, decode returns every payload (empty, short
      or longer than the key) and the glyphstream it was hidden under. */
  lemma FixedRoundTrip<A>(engine: Engine<A>, payload: seq<byte>, coverText: string)
    requires engine.frontEnd(coverText).Success?
    requires RehydratesTo(engine.codec, EncodeFieldsFixed(engine.sha, payload, engine.frontEnd(coverText).value))
    ensures EncodeFixed(engine, payload, coverText).Success?
    ensures var r := Decode(engine, EncodeFixed(engine, payload, coverText).value);
      && r.Success?
      && r.value.payload == payload
      && r.value.glyphstream == engine.frontEnd(coverText).value
  {
    var g := engine.frontEnd(coverText).value;
    var f := EncodeFieldsFixed(engine.sha, payload, g);
    assert engine.codec.rehydrate(engine.codec.build(f.glyphstream, f.integrity, f.structural)).value.fields == f;
    XorStepsInverse(engine.sha, payload, g);
  }
}
