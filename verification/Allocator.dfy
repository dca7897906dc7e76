/** The power-of-two buffer allocator (buffer/allocator/allocator.go). */
module BufferAllocator {
  import opened Bytes

  function Pow2(n: nat): (p: nat)
    ensures p > 0
  {
    if n == 0 then 1 else 2 * Pow2(n - 1)
  }

  lemma {:induction false} Pow2Monotone(i: nat, j: nat)
    requires i < j
    ensures 2 * Pow2(i) <= Pow2(j)
  {
    if i < j - 1 {
      Pow2Monotone(i, j - 1);
    }
  }

  /** The position of the most significant bit. */
  function Msb(size: nat): (b: nat)
    requires size > 0
    ensures Pow2(b) <= size < Pow2(b + 1)
  {
    if size == 1 then 0 else 1 + Msb(size / 2)
  }

  lemma MsbUnique(size: nat, b: nat)
    requires Pow2(b) <= size < Pow2(b + 1)
    ensures size > 0 && Msb(size) == b
  {
    var m := Msb(size);
    if m < b {
      Pow2Monotone(m, b);
    } else if b < m {
      Pow2Monotone(b, m);
    }
  }

  const MAX_SIZE := 65536

  /** The pool that serves a request. */
  function ClassOf(size: nat): (k: nat)
    requires 0 < size <= MAX_SIZE
    ensures k < 17
    ensures size <= Pow2(k) < 2 * size
  {
    var b := Msb(size);
    Pow2Sixteen(b);
    if size == Pow2(b) then b else b + 1
  }

  lemma Pow2Sixteen(b: nat)
    ensures Pow2(16) == MAX_SIZE
    ensures b > 16 ==> Pow2(b) > MAX_SIZE
    ensures b == 16 ==> Pow2(b) == MAX_SIZE
  {
    assert Pow2(4) == 16;
    assert Pow2(8) == 256;
    assert Pow2(12) == 4096;
    assert Pow2(16) == MAX_SIZE;
    if b > 16 {
      Pow2Monotone(16, b);
    }
  }

  /** No power of two that fits the request is smaller than the one `Get` uses. */
  lemma ClassIsLeast(size: nat, j: nat)
    requires 0 < size <= MAX_SIZE
    requires size <= Pow2(j)
    ensures ClassOf(size) <= j
  {
    if j < ClassOf(size) {
      Pow2Monotone(j, ClassOf(size));
      assert false;
    }
  }

  lemma PowerIff(size: nat)
    ensures (exists k :: 0 <= k < 17 && size == Pow2(k)) <==> 0 < size <= MAX_SIZE && size == Pow2(Msb(size))
    ensures 0 < size <= MAX_SIZE ==> Msb(size) < 17
  {
    Pow2Sixteen(16);
    if size > 0 {
      Pow2Sixteen(Msb(size));
    }
    forall k | 0 <= k < 17 && size == Pow2(k)
      ensures 0 < size <= MAX_SIZE && size == Pow2(Msb(size))
    {
      MsbUnique(size, k);
      if k < 16 {
        Pow2Monotone(k, 16);
      }
    }
  }

  class Allocator {
    var pools: seq<seq<array<byte>>>
    /** The buffers `Get` has handed out and nobody has given back. */
    ghost var live: set<array<byte>>

    /** Pool k holds only buffers of capacity 2^k. */
    ghost predicate Valid()
      reads this
    {
      |pools| == 17 && forall k, i :: 0 <= k < 17 && 0 <= i < |pools[k]| ==> pools[k][i].Length == Pow2(k)
    }

    ghost function Pooled(): set<array<byte>>
      reads this
    {
      set k, i | 0 <= k < |pools| && 0 <= i < |pools[k]| :: pools[k][i]
    }

    /** No buffer is in the pools twice, and none is both pooled and live. */
    ghost predicate Exclusive()
      reads this
    {
      && (forall k, i, l, j | 0 <= k < |pools| && 0 <= i < |pools[k]| && 0 <= l < |pools| && 0 <= j < |pools[l]| ::
            pools[k][i] == pools[l][j] ==> k == l && i == j)
      && (forall k, i :: 0 <= k < |pools| && 0 <= i < |pools[k]| ==> pools[k][i] !in live)
    }

    constructor ()
      ensures Valid() && Exclusive() && live == {} && Pooled() == {}
    {
      pools := seq(17, _ => []);
      live := {};
    }

    /**
    A buffer of the least power-of-two capacity that fits, or nil for a size outside 1..65536.
    The pool may hand back any buffer it holds or a new one.
    */
    method Get(size: int) returns (buf: array?<byte>)
      requires Valid()
      modifies this
      ensures Valid()
      ensures buf == null <==> size <= 0 || size > MAX_SIZE
      ensures buf == null ==> pools == old(pools) && live == old(live)
      ensures buf != null ==> buf.Length == Pow2(ClassOf(size)) && size <= buf.Length < 2 * size
      ensures buf != null ==> live == old(live) + {buf} && (fresh(buf) || buf in old(Pooled()))
      ensures Pooled() <= old(Pooled())
      ensures old(Exclusive()) && buf != null ==> Exclusive() && buf !in old(live) && buf !in Pooled()
    {
      if size <= 0 || size > MAX_SIZE {
        return null;
      }
      var k := ClassOf(size);
      if * {
        buf := new byte[Pow2(k)];
      } else if 0 < |pools[k]| {
        var i :| 0 <= i < |pools[k]|;
        buf := pools[k][i];
        pools := pools[k := pools[k][..i] + pools[k][i + 1..]];
      } else {
        buf := new byte[Pow2(k)];
      }
      live := live + {buf};
    }

    /**
    Takes a buffer back if its capacity is a power of two up to 65536.  Ownership stays exclusive
    exactly when the buffer was not in a pool already.
    */
    method Put(buf: array<byte>) returns (ok: bool)
      requires Valid()
      modifies this
      ensures Valid()
      ensures ok <==> exists k :: 0 <= k < 17 && buf.Length == Pow2(k)
      ensures live == old(live) - {buf}
      ensures Pooled() == if ok then old(Pooled()) + {buf} else old(Pooled())
      ensures old(Exclusive()) && buf !in old(Pooled()) ==> Exclusive()
      ensures ok && buf in old(Pooled()) ==> !Exclusive()
    {
      live := live - {buf};
      PowerIff(buf.Length);
      if buf.Length == 0 || buf.Length > MAX_SIZE || buf.Length != Pow2(Msb(buf.Length)) {
        return false;
      }
      var k := Msb(buf.Length);
      ghost var was := pools;
      pools := pools[k := pools[k] + [buf]];
      assert pools[k][|was[k]|] == buf;
      assert forall l, i :: 0 <= l < 17 && 0 <= i < |was[l]| ==> pools[l][i] == was[l][i];
      return true;
    }
  }
}
