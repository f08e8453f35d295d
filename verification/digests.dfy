/** The abstract SHA-256 digest and its iteration.

    SHA-256 itself is not modelled: every operation that hashes takes the
    hash as a parameter `sha`, whose only known property is the one its type
    carries, namely that every digest is 32 bytes long. Everything proved
    about the sigil layer therefore holds for any such function. */
module Digests {
  import opened Bytes

  const DigestLength: nat := 32

  /** A raw SHA-256 digest (`hashlib.sha256(x).digest()`). */
  type Digest = s: seq<byte> | |s| == 32 witness seq(32, _ => 0 as byte)

  /** The shape of `sha256b`: bytes in, 32 bytes out. */
  type Sha256 = seq<byte> -> Digest

  /** `n` applications of the hash in sequence, each round hashing the
      previous round's output. */
  function Rounds(sha: Sha256, x: seq<byte>, n: nat): (h: seq<byte>)
    ensures n == 0 ==> h == x
    ensures n > 0 ==> |h| == DigestLength
  {
    if n == 0 then x else sha(Rounds(sha, x, n - 1))
  }

  /** Hashing `x` first and then iterating is the same as iterating once more. */
  lemma {:induction false} RoundsPeel(sha: Sha256, x: seq<byte>, n: nat)
    ensures Rounds(sha, sha(x), n) == Rounds(sha, x, n + 1)
  {
    if n > 0 {
      RoundsPeel(sha, x, n - 1);
    }
  }

  /** Rounds compose: `a` rounds followed by `b` rounds are `a + b` rounds. */
  lemma {:induction false} RoundsAdd(sha: Sha256, x: seq<byte>, a: nat, b: nat)
    ensures Rounds(sha, Rounds(sha, x, a), b) == Rounds(sha, x, a + b)
  {
    if b > 0 {
      RoundsAdd(sha, x, a, b - 1);
    }
  }
}
