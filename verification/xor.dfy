/** Repeating-key XOR, the `SIGILXOR` primitive and the mixing step of the
    stealth sigil: output byte `i` is `payload[i] ^ key[i % len(key)]`. */
module RepeatingXor {
  import opened Bytes
  import opened Results

  /** The list comprehension over a key that is not empty. */
  function Xor(data: seq<byte>, key: seq<byte>): (r: seq<byte>)
    requires |key| > 0
    ensures |r| == |data|
    ensures forall i :: 0 <= i < |data| ==> r[i] == XorByte(data[i], key[i % |key|])
  {
    if |data| == 0 then []
    else
      var n := |data| - 1;
      Xor(data[..n], key) + [XorByte(data[n], key[n % |key|])]
  }

  /** `SIGILXOR(payload, key)`: an empty payload never touches the key, a
      non-empty one with an empty key divides by zero. */
  function SigilXor(payload: seq<byte>, key: seq<byte>): (r: Result<seq<byte>>)
    ensures r.Failure? <==> |payload| > 0 && |key| == 0
    ensures r.Failure? ==> r.error == ZeroDivision
    ensures r.Success? ==> |r.value| == |payload|
    ensures r.Success? ==> forall i :: 0 <= i < |payload| ==> r.value[i] == XorByte(payload[i], key[i % |key|])
  {
    if |payload| == 0 then Success([])
    else if |key| == 0 then Failure(ZeroDivision)
    else Success(Xor(payload, key))
  }

  /** XOR with the same key undoes itself. */
  lemma XorInvolution(data: seq<byte>, key: seq<byte>)
    requires |key| > 0
    ensures Xor(Xor(data, key), key) == data
  {
    var once := Xor(data, key);
    var twice := Xor(once, key);
    forall i | 0 <= i < |data|
      ensures twice[i] == data[i]
    {
      var k := key[i % |key|];
      XorByteInvolution(data[i], k);
    }
  }

  /** Applying `SIGILXOR` twice with the same key returns the payload,
      whenever the first application succeeds. */
  lemma SigilXorInvolution(payload: seq<byte>, key: seq<byte>)
    requires SigilXor(payload, key).Success?
    ensures SigilXor(SigilXor(payload, key).value, key) == Success(payload)
  {
    if |payload| > 0 {
      XorInvolution(payload, key);
    }
  }

  /** The key stream: `key` repeated end to end and cut to length `n`. */
  function Keystream(key: seq<byte>, n: nat): (ks: seq<byte>)
    requires |key| > 0
    ensures |ks| == n
    decreases n
  {
    if n <= |key| then key[..n] else key + Keystream(key, n - |key|)
  }

  /** Byte-wise XOR of two equally long byte strings. */
  function XorPairwise(a: seq<byte>, b: seq<byte>): (r: seq<byte>)
    requires |a| == |b|
    ensures |r| == |a|
  {
    if |a| == 0 then [] else [XorByte(a[0], b[0])] + XorPairwise(a[1..], b[1..])
  }

  lemma {:induction false} XorPairwiseAt(a: seq<byte>, b: seq<byte>, i: nat)
    requires |a| == |b| && i < |a|
    ensures XorPairwise(a, b)[i] == XorByte(a[i], b[i])
  {
    if i > 0 {
      XorPairwiseAt(a[1..], b[1..], i - 1);
    }
  }

  /** Position `i` of the key stream is key byte `i % |key|`. */
  lemma {:induction false} KeystreamAt(key: seq<byte>, n: nat, i: nat)
    requires |key| > 0 && i < n
    ensures Keystream(key, n)[i] == key[i % |key|]
    decreases n
  {
    if n > |key| && i >= |key| {
      KeystreamAt(key, n - |key|, i - |key|);
      ModShift(i, |key|);
    }
  }

  /** Arithmetic helpers: a shift by one key length keeps the key index. */
  lemma MulStep(a: int, b: int, k: int)
    requires a < b && k > 0
    ensures a * k + k <= b * k
    decreases b - a
  {
    if b > a + 1 {
      MulStep(a, b - 1, k);
      assert (b - 1) * k + k == b * k;
    } else {
      assert (a + 1) * k == a * k + k;
    }
  }
  lemma ModUnique(n: int, k: int, q: int, r: int)
    requires k > 0 && n == q * k + r && 0 <= r < k
    ensures n % k == r
  {
    var q', r' := n / k, n % k;
    assert n == q' * k + r';
    if q' > q {
      MulStep(q, q', k);
    } else if q' < q {
      MulStep(q', q, k);
    }
  }
  lemma ModShift(i: nat, k: nat)
    requires 0 < k <= i
    ensures (i - k) % k == i % k
  {
    var q, r := (i - k) / k, (i - k) % k;
    assert i - k == q * k + r;
    assert i == (q + 1) * k + r;
    ModUnique(i, k, q + 1, r);
  }

  /** The cipher is the payload XORed with the key repeated end to end. */
  lemma XorIsKeystreamXor(data: seq<byte>, key: seq<byte>)
    requires |key| > 0
    ensures Xor(data, key) == XorPairwise(data, Keystream(key, |data|))
  {
    var ks := Keystream(key, |data|);
    forall i | 0 <= i < |data|
      ensures Xor(data, key)[i] == XorPairwise(data, ks)[i]
    {
      KeystreamAt(key, |data|, i);
      XorPairwiseAt(data, ks, i);
    }
  }

  /** The repeating-key weakness: two cipher bytes one key length apart
      XOR to the XOR of their plaintext bytes, independent of the key. */
  lemma KeyCancelsAtPeriod(data: seq<byte>, key: seq<byte>, i: nat)
    requires |key| > 0 && i + |key| < |data|
    ensures XorByte(Xor(data, key)[i], Xor(data, key)[i + |key|]) == XorByte(data[i], data[i + |key|])
  {
    var c := Xor(data, key);
    var n, j := |key|, i + |key|;
    ModShift(j, n);
    var k := key[i % n];
    assert key[j % n] == k;
    assert c[i] == XorByte(data[i], k);
    assert c[j] == XorByte(data[j], k);
    XorByteCancel(data[i], data[j], k);
  }
}
