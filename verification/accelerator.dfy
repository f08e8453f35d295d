/** The SC-HA accelerator: fixed compositions of SHA-256, hex text and
    concatenation (`SigilCipherAccelerator`), and the bundle `SC_HA` builds
    from them. `SIGILXOR` is in module `RepeatingXor`. */
module Accelerator {
  import opened Bytes
  import opened Digests
  import opened HexCodec
  import opened Results
  import opened Sigils
  import Utf8

  /** The 64 bytes `GHASH` hashes last: `h1 = sha(data)` then `sha(h1)`. */
  function GhashPreimage(sha: Sha256, data: string): (m: seq<byte>)
    ensures |m| == 2 * DigestLength
    ensures m[..DigestLength] == sha(Utf8.Encode(data))
    ensures m[DigestLength..] == sha(m[..DigestLength])
  {
    var h1 := sha(Utf8.Encode(data));
    var h2 := sha(h1);
    h1 + h2
  }

  /** `GHASH(data)`. */
  function Ghash(sha: Sha256, data: string): (r: string)
    ensures |r| == 64 && IsLowerHex(r)
    ensures FromHex(r) == Success(sha(GhashPreimage(sha, data)))
  {
    HexDigest(sha, GhashPreimage(sha, data))
  }

  /** `GSS14(sigil)`: three hashing layers and a final hex digest. */
  function Gss14(sha: Sha256, sigil: string): (r: string)
    ensures |r| == 64 && IsLowerHex(r)
  {
    var h := sha(Utf8.Encode(sigil));
    var h := sha(h);
    var h := sha(h);
    HexDigest(sha, h)
  }

  /** `GSS14` is the hex text of four hash rounds over the sigil's bytes. */
  lemma Gss14IsFourRounds(sha: Sha256, sigil: string)
    ensures FromHex(Gss14(sha, sigil)) == Success(Rounds(sha, Utf8.Encode(sigil), 4))
  {
    var x := Utf8.Encode(sigil);
    assert Rounds(sha, x, 1) == sha(x);
    assert Rounds(sha, x, 2) == sha(sha(x));
    assert Rounds(sha, x, 3) == sha(sha(sha(x)));
  }

  /** The fields `POWGS32` packs: 32 hash rounds, `ih` the hex digest of the
      result, used as glyphstream and integrity hash, and `sh` the hex digest
      of `ih`'s own bytes. */
  function PowgsFields(sha: Sha256, sigil: string): (f: Fields)
    ensures f.glyphstream == f.integrity
    ensures |f.integrity| == 64 && IsLowerHex(f.integrity)
    ensures |f.structural| == 64 && IsLowerHex(f.structural)
    ensures FromHex(f.structural) == Success(sha(Utf8.Encode(f.integrity)))
  {
    var x := Rounds(sha, Utf8.Encode(sigil), 32);
    var ih := HexDigest(sha, x);
    var sh := HexDigest(sha, Utf8.Encode(ih));
    Fields(ih, ih, sh)
  }

  /** `POWGS32(sigil)`: the fields above wrapped into a rehydration sigil. */
  function Powgs32<A>(sha: Sha256, codec: Codec<A>, sigil: string): (r: string)
    ensures RehydratesTo(codec, PowgsFields(sha, sigil)) ==>
      codec.rehydrate(r).Success? && codec.rehydrate(r).value.fields == PowgsFields(sha, sigil)
  {
    var f := PowgsFields(sha, sigil);
    codec.build(f.integrity, f.integrity, f.structural)
  }

  /** The `POWGS32` integrity field is 33 rounds over the sigil's bytes (the
      loop's 32 and the one inside `sha256hex`), and its structural field
      hashes the 64 ASCII bytes of that field. */
  lemma PowgsRounds(sha: Sha256, sigil: string)
    ensures FromHex(PowgsFields(sha, sigil).integrity) == Success(Rounds(sha, Utf8.Encode(sigil), 33))
    ensures |Utf8.Encode(PowgsFields(sha, sigil).integrity)| == 64
  {
    var ih := PowgsFields(sha, sigil).integrity;
    forall i | 0 <= i < |ih|
      ensures Utf8.IsAscii(ih[i])
    {
      assert IsLowerHexChar(ih[i]);
    }
    Utf8.EncodeAscii(ih);
  }

  /** Rehydrating the `POWGS32` sigil gives back a triple whose glyphstream
      and integrity coincide and whose structural field is the digest of the
      integrity field, so the one-round structural-hash relation holds. */
  lemma PowgsRehydrates<A>(sha: Sha256, codec: Codec<A>, sigil: string)
    requires RehydratesTo(codec, PowgsFields(sha, sigil))
    ensures codec.rehydrate(Powgs32(sha, codec, sigil)).Success?
    ensures var f := codec.rehydrate(Powgs32(sha, codec, sigil)).value.fields;
      && f.glyphstream == f.integrity
      && FromHex(f.integrity) == Success(Rounds(sha, Utf8.Encode(sigil), 33))
      && FromHex(f.structural) == Success(sha(Utf8.Encode(f.integrity)))
  {
    var f := PowgsFields(sha, sigil);
    assert codec.rehydrate(codec.build(f.glyphstream, f.integrity, f.structural)).value.fields == f;
    PowgsRounds(sha, sigil);
  }

  /** `POWGS32` continues the `GSS14` chain: its integrity digest is 29 more
      rounds over the digest `GSS14` prints. */
  lemma {:induction false} PowgsExtendsGss(sha: Sha256, sigil: string)
    ensures FromHex(Gss14(sha, sigil)).Success?
    ensures FromHex(PowgsFields(sha, sigil).integrity)
         == Success(Rounds(sha, FromHex(Gss14(sha, sigil)).value, 29))
  {
    var x := Utf8.Encode(sigil);
    Gss14IsFourRounds(sha, sigil);
    PowgsRounds(sha, sigil);
    RoundsAdd(sha, x, 4, 29);
  }

  /** `DBSCORE(miner_id, sigil)`: the hex digest of the concatenated text. */
  function Dbscore(sha: Sha256, minerId: string, sigil: string): (r: string)
    ensures |r| == 64 && IsLowerHex(r)
    ensures FromHex(r) == Success(sha(Utf8.Encode(minerId + sigil)))
  {
    HexDigest(sha, Utf8.Encode(minerId + sigil))
  }

  /** `DBSCORE` sees only `miner_id + sigil`: any two splits of the same
      text score the same. */
  lemma DbscoreSeesOnlyConcatenation(sha: Sha256, m1: string, s1: string, m2: string, s2: string)
    requires m1 + s1 == m2 + s2
    ensures Dbscore(sha, m1, s1) == Dbscore(sha, m2, s2)
  {
  }

  /** The split ambiguity on a concrete pair: ("ab", "c") and ("a", "bc"). */
  lemma DbscoreSplitExample(sha: Sha256)
    ensures Dbscore(sha, "ab", "c") == Dbscore(sha, "a", "bc")
  {
    DbscoreSeesOnlyConcatenation(sha, "ab", "c", "a", "bc");
  }

  /** `compute_security_bundle(sigil, miner_id)`. */
  function SecurityBundle<A>(sha: Sha256, codec: Codec<A>, sigil: string, minerId: string): (b: map<string, string>)
    ensures b.Keys == {"GSS", "POWGS", "DBS"}
    ensures b["GSS"] == Gss14(sha, sigil)
    ensures b["POWGS"] == Powgs32(sha, codec, sigil)
    ensures b["DBS"] == Dbscore(sha, minerId, sigil)
  {
    map["GSS" := Gss14(sha, sigil), "POWGS" := Powgs32(sha, codec, sigil), "DBS" := Dbscore(sha, minerId, sigil)]
  }

  /** With an empty miner identity, `DBS` is the first round of the chain
      whose fourth round `GSS` prints. */
  lemma BundleChain<A>(sha: Sha256, codec: Codec<A>, sigil: string)
    ensures var b := SecurityBundle(sha, codec, sigil, "");
      && FromHex(b["DBS"]).Success?
      && FromHex(b["GSS"]) == Success(Rounds(sha, FromHex(b["DBS"]).value, 3))
  {
    var x := Utf8.Encode(sigil);
    assert "" + sigil == sigil;
    Gss14IsFourRounds(sha, sigil);
    RoundsPeel(sha, x, 3);
  }
}
