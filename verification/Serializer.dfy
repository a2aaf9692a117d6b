/** The put and get functions over a caller's byte buffer. A pointer into the buffer is an offset,
    and the pointer each function returns is the offset just past the bytes it handled. */
module Serializer {
  import opened ByteOrder

  /** `s` with the bytes at and after `at` replaced by `b`. */
  function Splice(s: seq<Byte>, at: nat, b: seq<Byte>): (r: seq<Byte>)
    requires at + |b| <= |s|
    ensures |r| == |s|
    ensures forall i :: 0 <= i < |s| ==> r[i] == if at <= i < at + |b| then b[i - at] else s[i]
  {
    s[..at] + b + s[at + |b|..]
  }

  method MemCpy(buf: array<Byte>, at: nat, b: seq<Byte>)
    requires at + |b| <= buf.Length
    modifies buf
    ensures buf[..] == Splice(old(buf[..]), at, b)
  {
    forall i | 0 <= i < |b| {
      buf[at + i] := b[i];
    }
  }

  method GetByte(buf: array<Byte>, at: nat) returns (v: Byte, next: nat)
    requires at + 1 <= buf.Length
    ensures v == FromBytes(buf[at..at + 1]) && next == at + 1
  {
    v := buf[at];
    next := at + 1;
    assert buf[at..at + 1] == [v];
  }

  method GetWord(h: Host, buf: array<Byte>, at: nat) returns (v: UInt16, next: nat)
    requires at + 2 <= buf.Length
    ensures v == FromBytes(buf[at..at + 2]) && next == at + 2
  {
    Widths();
    LoadFits(h, buf[at..at + 2]);
    LoadConverted(h, buf[at..at + 2]);
    var word: UInt16 := Load(h, buf[at..at + 2]);
    v := HtoNS(h, word);
    next := at + 2;
  }

  method GetDWord(h: Host, buf: array<Byte>, at: nat) returns (v: UInt32, next: nat)
    requires at + 4 <= buf.Length
    ensures v == FromBytes(buf[at..at + 4]) && next == at + 4
  {
    Widths();
    LoadFits(h, buf[at..at + 4]);
    LoadConverted(h, buf[at..at + 4]);
    var dword: UInt32 := Load(h, buf[at..at + 4]);
    v := HtoNL(h, dword);
    next := at + 4;
  }

  /** Network order is read only where the byte order of the host and the name the conversion is
      selected by agree; elsewhere the bytes are taken in the opposite order. */
  method GetDDWord(h: Host, buf: array<Byte>, at: nat) returns (v: UInt64, next: nat)
    requires at + 8 <= buf.Length
    ensures v == FromBytes(if h.bigEndian == h.bigEndianDefined then buf[at..at + 8] else Reversed(buf[at..at + 8]))
    ensures next == at + 8
  {
    LoadConverted64(h, buf[at..at + 8]);
    var ddword: UInt64 := Load(h, buf[at..at + 8]);
    v := HtoNLL(h, ddword);
    next := at + 8;
  }

  method SetByte(buf: array<Byte>, at: nat, v: Byte) returns (next: nat)
    requires at + 1 <= buf.Length
    modifies buf
    ensures buf[..] == Splice(old(buf[..]), at, ToBytes(v, 1)) && next == at + 1
  {
    buf[at] := v;
    next := at + 1;
    assert ToBytes(v, 1) == [v];
  }

  method SetWord(h: Host, buf: array<Byte>, at: nat, v: UInt16) returns (next: nat)
    requires at + 2 <= buf.Length
    modifies buf
    ensures buf[..] == Splice(old(buf[..]), at, ToBytes(v, 2)) && next == at + 2
  {
    var tmp := HtoNS(h, v);
    StoreConverted(h, v, 2);
    MemCpy(buf, at, Store(h, tmp, 2));
    next := at + 2;
  }

  method SetDWord(h: Host, buf: array<Byte>, at: nat, v: UInt32) returns (next: nat)
    requires at + 4 <= buf.Length
    modifies buf
    ensures buf[..] == Splice(old(buf[..]), at, ToBytes(v, 4)) && next == at + 4
  {
    var tmp := HtoNL(h, v);
    StoreConverted(h, v, 4);
    MemCpy(buf, at, Store(h, tmp, 4));
    next := at + 4;
  }

  /** As written: the converted word is computed and left unused, so the bytes are in host order. */
  method SetDDWord(h: Host, buf: array<Byte>, at: nat, v: UInt64) returns (next: nat)
    requires at + 8 <= buf.Length
    modifies buf
    ensures buf[..] == Splice(old(buf[..]), at, if h.bigEndian then ToBytes(v, 8) else Reversed(ToBytes(v, 8)))
    ensures next == at + 8
  {
    var tmp := HtoNLL(h, v);
    MemCpy(buf, at, Store(h, v, 8));
    next := at + 8;
  }
}
