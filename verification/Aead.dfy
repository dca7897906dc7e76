/**
The authenticated cipher under the Shadowsocks AEAD connections, and its nonce counter
(transport/shadowsocks/shadowaead/stream.go).  The cipher is kept abstract: every theorem of
this project about AEAD traffic holds for every `Aead` that satisfies `Lawful`.
*/
module AeadCipher {
  import opened Bytes

  datatype Aead = Aead(
    nonceSize: nat,
    tag: nat,
    seal: (Bytes, Bytes) -> Bytes,
    open: (Bytes, Bytes) -> Option<Bytes>)
  {
    /** Sealing adds exactly the tag, opening inverts sealing, and opening removes exactly the tag. */
    ghost predicate Lawful() {
      && (forall n, m {:trigger seal(n, m)} :: |seal(n, m)| == |m| + tag && open(n, seal(n, m)) == Some(m))
      && (forall n, c {:trigger open(n, c)} :: open(n, c).Some? ==> |c| == |open(n, c).value| + tag)
    }
  }

  /** `Lawful` is satisfiable: the cipher that appends `tag` zero bytes is lawful. */
  function PaddingAead(nonceSize: nat, tag: nat): (a: Aead)
    ensures a.Lawful() && a.nonceSize == nonceSize && a.tag == tag
  {
    Aead(nonceSize, tag,
         (n: Bytes, m: Bytes) => m + Zeros(tag),
         (n: Bytes, c: Bytes) => if |c| < tag then None else Some(c[..|c| - tag]))
  }

  // ---------------------------------------------------------------- the nonce counter

  /** The nonce of the k-th seal: k in little-endian, reduced modulo 256^size. */
  function NonceAt(k: nat, size: nat): (r: Bytes)
    ensures |r| == size
    decreases size
  {
    if size == 0 then [] else [k % 256] + NonceAt(k / 256, size - 1)
  }

  function Value(b: Bytes): nat {
    if b == [] then 0 else b[0] + 256 * Value(b[1..])
  }

  function Pow256(n: nat): (p: nat)
    ensures p > 0
  {
    if n == 0 then 1 else 256 * Pow256(n - 1)
  }

  /** What `increment` leaves in the slice: the carry runs while bytes wrap to zero. */
  function Incremented(b: Bytes): (r: Bytes)
    ensures |r| == |b|
  {
    if b == [] then []
    else if b[0] == 255 then [0] + Incremented(b[1..])
    else [b[0] + 1] + b[1..]
  }

  lemma {:induction false} ValueBound(b: Bytes)
    ensures Value(b) < Pow256(|b|)
  {
    if b != [] { ValueBound(b[1..]); }
  }

  /** `increment` is +1 modulo 256^N on the little-endian value, for every length N. */
  lemma {:induction false} IncrementIsSuccessor(b: Bytes)
    ensures Value(Incremented(b)) == (Value(b) + 1) % Pow256(|b|)
  {
    IncrementCarries(b);
    ValueBound(b);
    var p := Pow256(|b|);
    if Value(b) + 1 == p {
      ModUnique(p, p, 1, 0);
    } else {
      ModUnique(Value(b) + 1, p, 0, Value(b) + 1);
    }
  }

  lemma {:induction false} IncrementCarries(b: Bytes)
    ensures Value(Incremented(b)) == if Value(b) + 1 == Pow256(|b|) then 0 else Value(b) + 1
  {
    if b != [] {
      var t := b[1..];
      IncrementCarries(t);
      ValueBound(t);
      if b[0] == 255 {
        assert Incremented(b)[1..] == Incremented(t);
      } else {
        assert Incremented(b)[1..] == t;
      }
    }
  }

  lemma {:induction false} NonceValue(k: nat, size: nat)
    ensures Value(NonceAt(k, size)) == k % Pow256(size)
    decreases size
  {
    if size > 0 {
      NonceValue(k / 256, size - 1);
      assert NonceAt(k, size)[1..] == NonceAt(k / 256, size - 1);
      ModStep(k, Pow256(size - 1));
    }
  }

  lemma ModStep(k: nat, p: nat)
    requires p > 0
    ensures k % 256 + 256 * ((k / 256) % p) == k % (256 * p)
  {
    var q, r := (k / 256) / p, (k / 256) % p;
    assert k / 256 == p * q + r by { DivMod(k / 256, p); }
    assert k == (256 * p) * q + (256 * r + k % 256) by {
      assert 256 * (p * q) == (256 * p) * q;
    }
    ModUnique(k, 256 * p, q, 256 * r + k % 256);
  }

  lemma DivMod(x: nat, p: nat)
    requires p > 0
    ensures x == p * (x / p) + x % p
  {
  }

  lemma MultipleBounds(p: int, d: int)
    requires p > 0
    ensures d > 0 ==> p * d >= p
    ensures d < 0 ==> p * d <= -p
  {
    if d > 0 {
      assert p * (d - 1) >= 0;
    } else if d < 0 {
      assert p * (-1 - d) >= 0;
    }
  }

  lemma ModUnique(x: nat, p: nat, q: nat, r: nat)
    requires p > 0 && x == p * q + r && r < p
    ensures x % p == r
  {
    var d := q - x / p;
    assert p * d == x % p - r by { DivMod(x, p); }
    MultipleBounds(p, d);
  }

  /** Stepping the nonce of seal k gives the nonce of seal k+1, wrap-around included. */
  lemma {:induction false} IncrementNonce(k: nat, size: nat)
    ensures Incremented(NonceAt(k, size)) == NonceAt(k + 1, size)
    decreases size
  {
    if size > 0 {
      IncrementNonce(k / 256, size - 1);
      assert NonceAt(k, size)[1..] == NonceAt(k / 256, size - 1);
      if k % 256 == 255 {
        assert (k + 1) / 256 == k / 256 + 1;
      } else {
        assert (k + 1) / 256 == k / 256;
      }
    }
  }

  lemma {:induction false} ZeroNonce(size: nat)
    ensures NonceAt(0, size) == Zeros(size)
  {
    if size > 0 {
      ZeroNonce(size - 1);
    }
  }

  /** Two seals share a nonce exactly when their numbers agree modulo 256^N ... */
  lemma NonceRepeats(j: nat, k: nat, size: nat)
    ensures NonceAt(j, size) == NonceAt(k, size) <==> j % Pow256(size) == k % Pow256(size)
  {
    NonceValue(j, size);
    NonceValue(k, size);
    if Value(NonceAt(j, size)) == Value(NonceAt(k, size)) {
      ValueInjective(NonceAt(j, size), NonceAt(k, size));
    }
  }

  lemma {:induction false} ValueInjective(a: Bytes, b: Bytes)
    requires |a| == |b| && Value(a) == Value(b)
    ensures a == b
  {
    if a != [] {
      assert a[0] == b[0] && Value(a[1..]) == Value(b[1..]);
      ValueInjective(a[1..], b[1..]);
      assert a == [a[0]] + a[1..] && b == [b[0]] + b[1..];
    }
  }

  /** ... so no nonce repeats among the first 256^N seals. */
  lemma NonceDistinct(j: nat, k: nat, size: nat)
    requires j < k < Pow256(size)
    ensures NonceAt(j, size) != NonceAt(k, size)
  {
    NonceRepeats(j, k, size);
    ModUnique(j, Pow256(size), 0, j);
    ModUnique(k, Pow256(size), 0, k);
  }

  /** The loop of `increment`, on the array it updates in place. */
  method Increment(b: array<byte>)
    modifies b
    ensures b[..] == Incremented(old(b[..]))
  {
    var i := 0;
    while i < b.Length
      invariant 0 <= i <= b.Length
      invariant forall j :: 0 <= j < i ==> b[j] == 0 && old(b[j]) == 255
      invariant forall j :: i <= j < b.Length ==> b[j] == old(b[j])
    {
      b[i] := (b[i] as int + 1) % 256;
      if b[i] != 0 {
        IncrementedAt(old(b[..]), i);
        assert b[..] == Incremented(old(b[..]));
        return;
      }
      i := i + 1;
    }
    IncrementedAt(old(b[..]), b.Length);
    assert b[..] == Incremented(old(b[..]));
  }

  lemma {:induction false} IncrementedAt(b: Bytes, i: nat)
    requires i <= |b|
    requires forall j :: 0 <= j < i ==> b[j] == 255
    requires i < |b| ==> b[i] != 255
    ensures forall j :: 0 <= j < i ==> Incremented(b)[j] == 0
    ensures i < |b| ==> Incremented(b)[i] == b[i] + 1
    ensures forall j :: i < j < |b| ==> Incremented(b)[j] == b[j]
  {
    if i > 0 {
      IncrementedAt(b[1..], i - 1);
      assert Incremented(b) == [0] + Incremented(b[1..]);
      forall j | i < j < |b| ensures Incremented(b)[j] == b[j] {
        assert Incremented(b[1..])[j - 1] == b[1..][j - 1];
      }
    }
  }
}
