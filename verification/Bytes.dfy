/** Byte strings and the few operations on them that every wire format here shares. */
module Bytes {

  type byte = b: int | 0 <= b < 256

  type Bytes = seq<byte>

  datatype Option<+T> = None | Some(value: T)

  /** A big-endian 16-bit integer; like Go's `uint16(n)` it keeps the low 16 bits. */
  function Be16(n: nat): (r: Bytes)
    ensures |r| == 2
  {
    [(n / 256) % 256, n % 256]
  }

  function FromBe16(hi: byte, lo: byte): (n: nat)
    ensures n < 0x1_0000
  {
    256 * hi + lo
  }

  /** Reading a 16-bit field back gives the value modulo 65536. */
  lemma Be16Value(n: nat)
    ensures FromBe16(Be16(n)[0], Be16(n)[1]) == n % 0x1_0000
  {
    var q := n / 256;
    assert n == 0x1_0000 * (q / 256) + (256 * (q % 256) + n % 256);
  }

  /** Network order: the first byte is the one that counts most. */
  lemma FirstByteDecides(hi: byte, lo: byte, hi': byte, lo': byte)
    requires hi < hi'
    ensures FromBe16(hi, lo) < FromBe16(hi', lo')
  {
  }

  function Zeros(n: nat): (r: Bytes)
    ensures |r| == n && forall i :: 0 <= i < n ==> r[i] == 0
  {
    seq(n, _ => 0)
  }

  /** The bytes of a list of writes, in order. */
  function Flatten(parts: seq<Bytes>): Bytes {
    if parts == [] then [] else parts[0] + Flatten(parts[1..])
  }

  lemma {:induction false} FlattenAppend(a: seq<Bytes>, b: seq<Bytes>)
    ensures Flatten(a + b) == Flatten(a) + Flatten(b)
  {
    if a == [] {
      assert a + b == b;
    } else {
      assert (a + b)[1..] == a[1..] + b;
      FlattenAppend(a[1..], b);
    }
  }

  lemma Reassociate<T>(a: seq<T>, b: seq<T>, c: seq<T>)
    ensures (a + b) + c == a + (b + c)
  {
  }

  lemma TakeDrop(a: Bytes, b: Bytes, ab: Bytes)
    requires ab == a + b
    ensures ab[..|a|] == a && ab[|a|..] == b
  {
  }

  lemma PrefixOfPrefix(a: Bytes, b: Bytes, c: Bytes)
    requires a <= b <= c
    ensures a <= c && |a| <= |b| <= |c|
  {
  }

  lemma PrefixParts(data: Bytes, f: Bytes, rest: Bytes)
    requires data <= f + rest && |data| >= |f|
    ensures data == f + data[|f|..] && data[|f|..] <= rest
  {
  }

  /** The first bytes of a stream, or all of it. */
  function CutAt(wire: Bytes, cut: Option<nat>): (data: Bytes)
    ensures data <= wire && (cut.None? ==> data == wire)
  {
    if cut.Some? && cut.value < |wire| then wire[..cut.value] else wire
  }

  lemma FlattenSingle(a: Bytes)
    ensures Flatten([a]) == a
  {
    assert Flatten([a][1..]) == [];
  }

  lemma FlattenSnoc(a: seq<Bytes>, b: Bytes)
    ensures Flatten(a + [b]) == Flatten(a) + b
  {
    FlattenAppend(a, [b]);
    FlattenSingle(b);
  }
}
