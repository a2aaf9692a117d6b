/** Machine words, their bytes in memory, and the conversions between host and network order. */
module ByteOrder {

  type Byte = b: nat | b < 256

  type UInt16 = x: nat | x < 0x1_0000

  type UInt32 = x: nat | x < 0x1_0000_0000

  type UInt64 = x: nat | x < 0x1_0000_0000_0000_0000

  /** What the byte handling of the code depends on: the byte order of the host, and whether the
      name BIG_ENDIAN is defined when it is compiled. That name alone selects the 64-bit
      conversions, and on common C libraries it is defined on hosts of either order. */
  datatype Host = Host(bigEndian: bool, bigEndianDefined: bool)

  function Pow256(w: nat): (p: nat)
    ensures p > 0
  {
    if w == 0 then 1 else 256 * Pow256(w - 1)
  }

  lemma Widths()
    ensures Pow256(1) == 0x100 && Pow256(2) == 0x1_0000
    ensures Pow256(4) == 0x1_0000_0000 && Pow256(8) == 0x1_0000_0000_0000_0000
  {
    assert Pow256(3) == 256 * Pow256(2) && Pow256(4) == 256 * Pow256(3) && Pow256(5) == 256 * Pow256(4);
    assert Pow256(6) == 256 * Pow256(5) && Pow256(7) == 256 * Pow256(6) && Pow256(8) == 256 * Pow256(7);
  }

  // ---- Network order: the most significant byte first ----

  function ToBytes(x: nat, w: nat): (b: seq<Byte>)
    ensures |b| == w
  {
    if w == 0 then [] else ToBytes(x / 256, w - 1) + [x % 256]
  }

  function FromBytes(b: seq<Byte>): nat {
    if b == [] then 0 else 256 * FromBytes(b[..|b| - 1]) + b[|b| - 1]
  }

  lemma {:induction false} FromBytesFits(b: seq<Byte>)
    ensures FromBytes(b) < Pow256(|b|)
    decreases |b|
  {
    if b != [] {
      FromBytesFits(b[..|b| - 1]);
    }
  }

  lemma {:induction false} FromToBytes(x: nat, w: nat)
    requires x < Pow256(w)
    ensures FromBytes(ToBytes(x, w)) == x
  {
    if w > 0 {
      FromToBytes(x / 256, w - 1);
      assert ToBytes(x, w)[..w - 1] == ToBytes(x / 256, w - 1);
    }
  }

  lemma {:induction false} ToFromBytes(b: seq<Byte>)
    ensures ToBytes(FromBytes(b), |b|) == b
    decreases |b|
  {
    if b != [] {
      ToFromBytes(b[..|b| - 1]);
      assert b == b[..|b| - 1] + [b[|b| - 1]];
    }
  }

  // ---- Byte order ----

  function Reversed(s: seq<Byte>): (r: seq<Byte>)
    ensures |r| == |s|
    ensures forall i :: 0 <= i < |s| ==> r[i] == s[|s| - 1 - i]
  {
    seq(|s|, i requires 0 <= i < |s| => s[|s| - 1 - i])
  }

  lemma ReversedTwice(s: seq<Byte>)
    ensures Reversed(Reversed(s)) == s
  {
  }

  /** The word with the same w bytes in the opposite order. */
  function Swap(x: nat, w: nat): nat {
    FromBytes(Reversed(ToBytes(x, w)))
  }

  lemma SwapBytes(x: nat, w: nat)
    ensures ToBytes(Swap(x, w), w) == Reversed(ToBytes(x, w))
    ensures Swap(x, w) < Pow256(w)
  {
    ToFromBytes(Reversed(ToBytes(x, w)));
    FromBytesFits(Reversed(ToBytes(x, w)));
  }

  lemma SwapTwice(x: nat, w: nat)
    requires x < Pow256(w)
    ensures Swap(Swap(x, w), w) == x
  {
    SwapBytes(x, w);
    ReversedTwice(ToBytes(x, w));
    FromToBytes(x, w);
  }

  /** The bytes of a word in the memory of a host. */
  function Store(h: Host, x: nat, w: nat): (b: seq<Byte>)
    ensures |b| == w
  {
    if h.bigEndian then ToBytes(x, w) else Reversed(ToBytes(x, w))
  }

  function Load(h: Host, b: seq<Byte>): nat {
    FromBytes(if h.bigEndian then b else Reversed(b))
  }

  lemma LoadFits(h: Host, b: seq<Byte>)
    ensures Load(h, b) < Pow256(|b|)
  {
    FromBytesFits(b);
    FromBytesFits(Reversed(b));
  }

  // ---- Conversions between host and network order; each is its own inverse ----

  /** What the system's conversions do to a word of w bytes. */
  function HtoN(h: Host, x: nat, w: nat): nat {
    if h.bigEndian then x else Swap(x, w)
  }

  function HtoNS(h: Host, x: UInt16): (r: UInt16) {
    Widths();
    SwapBytes(x, 2);
    HtoN(h, x, 2)
  }

  function HtoNL(h: Host, x: UInt32): (r: UInt32) {
    Widths();
    SwapBytes(x, 4);
    HtoN(h, x, 4)
  }

  /** The 64-bit swap, mask and shift by mask and shift: byte i from the top moves to place i. */
  function SwapDDWord(x: UInt64): nat {
      (x / 0x100_0000_0000_0000)
    + (x / 0x1_0000_0000_0000 % 256) * 0x100
    + (x / 0x100_0000_0000 % 256) * 0x1_0000
    + (x / 0x1_0000_0000 % 256) * 0x100_0000
    + (x / 0x100_0000 % 256) * 0x1_0000_0000
    + (x / 0x1_0000 % 256) * 0x100_0000_0000
    + (x / 0x100 % 256) * 0x1_0000_0000_0000
    + (x % 256) * 0x100_0000_0000_0000
  }

  lemma SwapDDWordReverses(x: UInt64)
    ensures SwapDDWord(x) == Swap(x, 8)
  {
    BytesOf64(x);
    var b := Reversed(ToBytes(x, 8));
    FromBytesOf4([], b[0], b[1], b[2], b[3]);
    FromBytesOf4([b[0], b[1], b[2], b[3]], b[4], b[5], b[6], b[7]);
    assert [] + [b[0], b[1], b[2], b[3]] == [b[0], b[1], b[2], b[3]];
    assert b == [b[0], b[1], b[2], b[3]] + [b[4], b[5], b[6], b[7]];
  }

  /** The reversal of the eight bytes of 1 is far from 1. */
  lemma SwapOfOne()
    ensures Swap(1, 8) == 0x100_0000_0000_0000
    ensures ToBytes(1, 8) == [0, 0, 0, 0, 0, 0, 0, 1]
  {
    SwapDDWordReverses(1);
    BytesOf64(1);
  }

  // ---- Network order, byte by byte ----

  lemma BytesOf8(x: nat)
    requires x < 0x100
    ensures ToBytes(x, 1) == [x]
  {
  }

  lemma BytesOf16(x: UInt16)
    ensures ToBytes(x, 2) == [x / 0x100, x % 256]
  {
    BytesOf8(x / 256);
  }

  lemma BytesOf32(x: UInt32)
    ensures ToBytes(x, 4) == [x / 0x100_0000, x / 0x1_0000 % 256, x / 0x100 % 256, x % 256]
  {
    BytesOf16(x / 256 / 256);
    assert ToBytes(x / 256, 3) == ToBytes(x / 256 / 256, 2) + [x / 256 % 256];
    assert x / 256 / 256 == x / 0x1_0000 && x / 256 / 256 / 256 == x / 0x100_0000;
  }

  lemma BytesOf64(x: UInt64)
    ensures ToBytes(x, 8) ==
            [x / 0x100_0000_0000_0000, x / 0x1_0000_0000_0000 % 256, x / 0x100_0000_0000 % 256,
             x / 0x1_0000_0000 % 256, x / 0x100_0000 % 256, x / 0x1_0000 % 256, x / 0x100 % 256, x % 256]
  {
    var x1 := x / 256;
    var x2 := x1 / 256;
    var x3 := x2 / 256;
    var x4 := x3 / 256;
    var x5 := x4 / 256;
    var x6 := x5 / 256;
    var x7 := x6 / 256;
    assert x2 == x / 0x1_0000 && x3 == x / 0x100_0000 && x4 == x / 0x1_0000_0000;
    assert x5 == x / 0x100_0000_0000 && x6 == x / 0x1_0000_0000_0000 && x7 == x / 0x100_0000_0000_0000 < 256;
    assert ToBytes(x7, 1) == [x7];
    assert ToBytes(x6, 2) == [x7, x6 % 256];
    assert ToBytes(x5, 3) == [x7, x6 % 256, x5 % 256];
    assert ToBytes(x4, 4) == [x7, x6 % 256, x5 % 256, x4 % 256];
    assert ToBytes(x3, 5) == [x7, x6 % 256, x5 % 256, x4 % 256, x3 % 256];
    assert ToBytes(x2, 6) == [x7, x6 % 256, x5 % 256, x4 % 256, x3 % 256, x2 % 256];
    assert ToBytes(x1, 7) == [x7, x6 % 256, x5 % 256, x4 % 256, x3 % 256, x2 % 256, x1 % 256];
  }

  lemma FromBytesNext(b: seq<Byte>, x: nat)
    requires x < 256
    ensures FromBytes(b + [x]) == 256 * FromBytes(b) + x
  {
    assert (b + [x])[..|b|] == b;
  }

  lemma FromBytesOf4(p: seq<Byte>, a: nat, b: nat, c: nat, d: nat)
    requires a < 256 && b < 256 && c < 256 && d < 256
    ensures FromBytes(p + [a, b, c, d])
         == 0x1_0000_0000 * FromBytes(p) + 0x100_0000 * a + 0x1_0000 * b + 0x100 * c + d
  {
    FromBytesNext(p, a);
    FromBytesNext(p + [a], b);
    FromBytesNext(p + [a] + [b], c);
    FromBytesNext(p + [a] + [b] + [c], d);
    assert p + [a, b, c, d] == p + [a] + [b] + [c] + [d];
  }

  function HtoNLL(h: Host, x: UInt64): (r: UInt64) {
    SwapDDWordReverses(x);
    SwapBytes(x, 8);
    Widths();
    if h.bigEndianDefined then x else SwapDDWord(x)
  }

  /** Storing a converted word leaves network order in memory, on a host of either order. */
  lemma StoreConverted(h: Host, x: nat, w: nat)
    ensures Store(h, HtoN(h, x, w), w) == ToBytes(x, w)
  {
    SwapBytes(x, w);
    ReversedTwice(ToBytes(x, w));
  }

  lemma StoreByte(h: Host, x: nat)
    ensures Store(h, x, 1) == ToBytes(x, 1)
  {
    assert Reversed(ToBytes(x, 1)) == ToBytes(x, 1);
  }

  /** Loading and converting reads network order, on a host of either order. */
  lemma LoadConverted(h: Host, b: seq<Byte>)
    ensures HtoN(h, Load(h, b), |b|) == FromBytes(b)
  {
    ToFromBytes(Reversed(b));
    ReversedTwice(b);
  }

  /** Loading and converting 64 bits reads network order where the byte order of the host and the
      name that selects the conversion agree, and the opposite order elsewhere. */
  lemma LoadConverted64(h: Host, b: seq<Byte>)
    requires |b| == 8
    ensures Load(h, b) < 0x1_0000_0000_0000_0000
    ensures HtoNLL(h, Load(h, b)) == FromBytes(if h.bigEndian == h.bigEndianDefined then b else Reversed(b))
  {
    Widths();
    LoadFits(h, b);
    SwapDDWordReverses(Load(h, b));
    ToFromBytes(b);
    ToFromBytes(Reversed(b));
    ReversedTwice(b);
  }

  // ---- The order of byte strings ----

  predicate LexLess(a: seq<Byte>, b: seq<Byte>) {
    b != [] && (a == [] || a[0] < b[0] || (a[0] == b[0] && LexLess(a[1..], b[1..])))
  }

  /** Strings whose first parts are equally long compare by those, then by the rest. */
  lemma {:induction false} LexAppend(a: seq<Byte>, b: seq<Byte>, c: seq<Byte>, d: seq<Byte>)
    requires |a| == |b|
    ensures LexLess(a + c, b + d) <==> LexLess(a, b) || (a == b && LexLess(c, d))
  {
    if a == [] {
      assert a + c == c && b + d == d;
    } else {
      assert (a + c)[1..] == a[1..] + c && (b + d)[1..] == b[1..] + d;
      assert a == [a[0]] + a[1..] && b == [b[0]] + b[1..];
      LexAppend(a[1..], b[1..], c, d);
    }
  }

  /** In network order, the order of bytes is the order of numbers. */
  lemma {:induction false} BytesOrder(x: nat, y: nat, w: nat)
    requires x < Pow256(w) && y < Pow256(w)
    ensures LexLess(ToBytes(x, w), ToBytes(y, w)) <==> x < y
    ensures ToBytes(x, w) == ToBytes(y, w) <==> x == y
  {
    FromToBytes(x, w);
    FromToBytes(y, w);
    if w > 0 {
      BytesOrder(x / 256, y / 256, w - 1);
      LexAppend(ToBytes(x / 256, w - 1), ToBytes(y / 256, w - 1), [x % 256], [y % 256]);
    }
  }
}
