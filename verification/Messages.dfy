/** Whole messages: fields put one after another through the returned cursor, and got back. */
module Messages {
  import opened ByteOrder
  import opened Serializer

  datatype Kind = KByte | KWord | KDWord | KDDWord

  function Width(k: Kind): nat {
    match k
    case KByte => 1
    case KWord => 2
    case KDWord => 4
    case KDDWord => 8
  }

  /** A field of a message: its kind and its value. */
  datatype Field = Field(kind: Kind, value: nat)

  predicate Fits(f: Field) { f.value < Pow256(Width(f.kind)) }

  type Message = m: seq<Field> | forall i :: 0 <= i < |m| ==> Fits(m[i]) witness []

  function Kinds(m: seq<Field>): (ks: seq<Kind>)
    ensures |ks| == |m|
  {
    if m == [] then [] else [m[0].kind] + Kinds(m[1..])
  }

  function TotalWidth(ks: seq<Kind>): nat {
    if ks == [] then 0 else Width(ks[0]) + TotalWidth(ks[1..])
  }

  /** The word a put copies: single bytes and DDWords as they are, the others converted. */
  function Copied(h: Host, f: Field): nat {
    match f.kind
    case KByte => f.value
    case KWord => HtoN(h, f.value, 2)
    case KDWord => HtoN(h, f.value, 4)
    case KDDWord => f.value
  }

  /** The bytes a put writes. */
  function Wire(h: Host, f: Field): (b: seq<Byte>)
    ensures |b| == Width(f.kind)
  {
    Store(h, Copied(h, f), Width(f.kind))
  }

  /** What a get makes of the word it loads. */
  function Taken(h: Host, k: Kind, b: seq<Byte>): nat
    requires |b| == Width(k)
  {
    match k
    case KByte => FromBytes(b)
    case KWord => HtoN(h, Load(h, b), 2)
    case KDWord => HtoN(h, Load(h, b), 4)
    case KDDWord => LoadConverted64(h, b); HtoNLL(h, Load(h, b))
  }

  function Read(h: Host, k: Kind, b: seq<Byte>): Field
    requires |b| == Width(k)
  {
    Field(k, Taken(h, k, b))
  }

  /** All but a DDWord go out in network order. */
  lemma NarrowWire(h: Host, f: Field)
    requires !f.kind.KDDWord?
    ensures Wire(h, f) == ToBytes(f.value, Width(f.kind))
  {
    StoreConverted(h, f.value, Width(f.kind));
    StoreByte(h, f.value);
  }

  /** All but a DDWord are taken in network order. */
  lemma ReadBytes(h: Host, k: Kind, b: seq<Byte>)
    requires |b| == Width(k)
    ensures !k.KDDWord? || h.bigEndian == h.bigEndianDefined ==> Read(h, k, b) == Field(k, FromBytes(b))
    ensures k.KDDWord? && h.bigEndian != h.bigEndianDefined ==> Read(h, k, b) == Field(k, FromBytes(Reversed(b)))
  {
    LoadConverted(h, b);
    if k.KDDWord? {
      LoadConverted64(h, b);
    }
  }

  /** Putting a field at the cursor: the new buffer and the new cursor. */
  function Put(h: Host, s: seq<Byte>, at: nat, f: Field): (seq<Byte>, nat)
    requires at + Width(f.kind) <= |s|
  {
    (Splice(s, at, Wire(h, f)), at + Width(f.kind))
  }

  function Get(h: Host, s: seq<Byte>, at: nat, k: Kind): (Field, nat)
    requires at + Width(k) <= |s|
  {
    (Read(h, k, s[at..at + Width(k)]), at + Width(k))
  }

  function PutAll(h: Host, s: seq<Byte>, at: nat, m: seq<Field>): (r: (seq<Byte>, nat))
    requires at + TotalWidth(Kinds(m)) <= |s|
    ensures |r.0| == |s|
    decreases |m|
  {
    if m == [] then (s, at)
    else
      assert Kinds(m)[1..] == Kinds(m[1..]);
      var (s', at') := Put(h, s, at, m[0]);
      PutAll(h, s', at', m[1..])
  }

  function GetAll(h: Host, s: seq<Byte>, at: nat, ks: seq<Kind>): (seq<Field>, nat)
    requires at + TotalWidth(ks) <= |s|
    decreases |ks|
  {
    if ks == [] then ([], at)
    else
      var (f, at') := Get(h, s, at, ks[0]);
      var (m, end) := GetAll(h, s, at', ks[1..]);
      ([f] + m, end)
  }

  // ---- The puts and gets of the code are these ----

  /** One put of the code, chosen by the kind of the field. */
  method PutField(h: Host, buf: array<Byte>, at: nat, f: Field) returns (next: nat)
    requires Fits(f) && at + Width(f.kind) <= buf.Length
    modifies buf
    ensures (buf[..], next) == Put(h, old(buf[..]), at, f)
  {
    Widths();
    if !f.kind.KDDWord? {
      NarrowWire(h, f);
    }
    match f.kind
    case KByte => next := SetByte(buf, at, f.value);
    case KWord => next := SetWord(h, buf, at, f.value);
    case KDWord => next := SetDWord(h, buf, at, f.value);
    case KDDWord => next := SetDDWord(h, buf, at, f.value);
  }

  /** One get of the code, chosen by the kind of the field. */
  method GetField(h: Host, buf: array<Byte>, at: nat, k: Kind) returns (f: Field, next: nat)
    requires at + Width(k) <= buf.Length
    ensures (f, next) == Get(h, buf[..], at, k)
  {
    assert buf[..][at..at + Width(k)] == buf[at..at + Width(k)];
    ReadBytes(h, k, buf[at..at + Width(k)]);
    var v;
    match k {
      case KByte => v, next := GetByte(buf, at);
      case KWord => v, next := GetWord(h, buf, at);
      case KDWord => v, next := GetDWord(h, buf, at);
      case KDDWord => v, next := GetDDWord(h, buf, at);
    }
    f := Field(k, v);
  }

  /** A chain of puts, each at the cursor the last one returned. */
  method PutMessage(h: Host, buf: array<Byte>, at: nat, m: Message) returns (next: nat)
    requires at + TotalWidth(Kinds(m)) <= buf.Length
    modifies buf
    ensures (buf[..], next) == PutAll(h, old(buf[..]), at, m)
    decreases |m|
  {
    if m == [] {
      return at;
    }
    TotalWidthNext(m);
    next := PutField(h, buf, at, m[0]);
    next := PutMessage(h, buf, next, m[1..]);
  }

  /** The matching chain of gets. */
  method GetMessage(h: Host, buf: array<Byte>, at: nat, ks: seq<Kind>) returns (m: seq<Field>, next: nat)
    requires at + TotalWidth(ks) <= buf.Length
    ensures (m, next) == GetAll(h, buf[..], at, ks)
    decreases |ks|
  {
    if ks == [] {
      return [], at;
    }
    var first;
    first, next := GetField(h, buf, at, ks[0]);
    m, next := GetMessage(h, buf, next, ks[1..]);
    m := [first] + m;
  }

  // ---- Round trips ----

  /** What arrives when host w puts a field and host r gets it. */
  function Received(w: Host, r: Host, f: Field): Field {
    Read(r, f.kind, Wire(w, f))
  }

  function ReceivedAll(w: Host, r: Host, m: seq<Field>): (rm: seq<Field>)
    ensures |rm| == |m|
  {
    if m == [] then [] else [Received(w, r, m[0])] + ReceivedAll(w, r, m[1..])
  }

  /** Byte, Word and DWord fields arrive unchanged between any two hosts. */
  lemma NarrowArrives(w: Host, r: Host, f: Field)
    requires Fits(f) && !f.kind.KDDWord?
    ensures Received(w, r, f) == f
  {
    NarrowWire(w, f);
    ReadBytes(r, f.kind, Wire(w, f));
    FromToBytes(f.value, Width(f.kind));
  }

  /** A DDWord field arrives with its bytes reversed when an odd number of these hold: the hosts
      differ in byte order, and the reader's conversion swaps. Otherwise it arrives unchanged. */
  lemma DDWordArrives(w: Host, r: Host, f: Field)
    requires Fits(f) && f.kind.KDDWord?
    ensures Received(w, r, f).value
         == if (w.bigEndian != r.bigEndian) == !r.bigEndianDefined then f.value else Swap(f.value, 8)
    ensures Received(w, r, f) == f
       <==> (w.bigEndian != r.bigEndian) == !r.bigEndianDefined || f.value == Swap(f.value, 8)
  {
    ReadBytes(r, f.kind, Wire(w, f));
    FromToBytes(f.value, 8);
    ReversedTwice(ToBytes(f.value, 8));
  }

  /** On one host a put and a get of a DDWord are the identity exactly when the 64-bit conversion
      is, or the value is its own reversal; two round trips always restore the value. */
  lemma DDWordRoundTrip(h: Host, f: Field)
    requires Fits(f) && f.kind.KDDWord?
    ensures Received(h, h, f) == f <==> h.bigEndianDefined || f.value == Swap(f.value, 8)
    ensures h.bigEndianDefined == h.bigEndian ==> (Received(h, h, f) == f <==> h.bigEndian || f.value == Swap(f.value, 8))
    ensures Received(h, h, Received(h, h, f)) == f
  {
    DDWordArrives(h, h, f);
    SwapBytes(f.value, 8);
    DDWordArrives(h, h, Received(h, h, f));
    SwapTwice(f.value, 8);
  }

  lemma WireAllCons(h: Host, f: Field, m: seq<Field>)
    ensures WireAll(h, [f] + m) == Wire(h, f) + WireAll(h, m)
    ensures TotalWidth(Kinds([f] + m)) == Width(f.kind) + TotalWidth(Kinds(m))
  {
    assert ([f] + m)[1..] == m;
    TotalWidthNext([f] + m);
  }

  lemma {:induction false} WireAllAppend(h: Host, m: seq<Field>, n: seq<Field>)
    ensures WireAll(h, m + n) == WireAll(h, m) + WireAll(h, n)
    decreases |m|
  {
    if m == [] {
      assert m + n == n;
    } else {
      assert m + n == [m[0]] + (m[1..] + n);
      WireAllCons(h, m[0], m[1..] + n);
      WireAllAppend(h, m[1..], n);
    }
  }

  /** The bytes of each field stand after those of the fields before it, at the sum of their widths. */
  lemma FieldStands(h: Host, m: seq<Field>, i: nat)
    requires i < |m|
    ensures |WireAll(h, m[..i])| == TotalWidth(Kinds(m[..i])) && |Wire(h, m[i])| == Width(m[i].kind)
    ensures WireAll(h, m) == WireAll(h, m[..i]) + (Wire(h, m[i]) + WireAll(h, m[i + 1..]))
  {
    WireWidth(h, m[..i]);
    assert m == m[..i] + ([m[i]] + m[i + 1..]);
    WireAllAppend(h, m[..i], [m[i]] + m[i + 1..]);
    WireAllCons(h, m[i], m[i + 1..]);
  }

  lemma WireOfFour(h: Host, a: Field, b: Field, c: Field, d: Field)
    ensures WireAll(h, [a, b, c, d]) == Wire(h, a) + (Wire(h, b) + (Wire(h, c) + Wire(h, d)))
    ensures TotalWidth(Kinds([a, b, c, d])) == Width(a.kind) + Width(b.kind) + Width(c.kind) + Width(d.kind)
  {
    WireAllCons(h, a, [b, c, d]);
    WireAllCons(h, b, [c, d]);
    WireAllCons(h, c, [d]);
    WireAllCons(h, d, []);
    assert [a] + [b, c, d] == [a, b, c, d] && [b] + [c, d] == [b, c, d] && [c] + [d] == [c, d] && [d] + [] == [d];
  }

  lemma WireByByte(h: Host, a: Byte, b: UInt16, c: UInt32, d: UInt64)
    ensures Wire(h, Field(KByte, a)) == [a]
    ensures Wire(h, Field(KWord, b)) == [b / 0x100, b % 256]
    ensures Wire(h, Field(KDWord, c)) == [c / 0x100_0000, c / 0x1_0000 % 256, c / 0x100 % 256, c % 256]
    ensures Wire(h, Field(KDDWord, d)) == if h.bigEndian then ToBytes(d, 8) else Reversed(ToBytes(d, 8))
  {
    NarrowWire(h, Field(KByte, a));
    NarrowWire(h, Field(KWord, b));
    NarrowWire(h, Field(KDWord, c));
    BytesOf8(a);
    BytesOf16(b);
    BytesOf32(c);
  }

  /** The layout of a message of one field of each kind, byte by byte. */
  lemma Layout(h: Host, a: Byte, b: UInt16, c: UInt32, d: UInt64)
    ensures var m := [Field(KByte, a), Field(KWord, b), Field(KDWord, c), Field(KDDWord, d)];
            var last := [d / 0x100_0000_0000_0000, d / 0x1_0000_0000_0000 % 256, d / 0x100_0000_0000 % 256,
                         d / 0x1_0000_0000 % 256, d / 0x100_0000 % 256, d / 0x1_0000 % 256, d / 0x100 % 256, d % 256];
            && TotalWidth(Kinds(m)) == 15
            && WireAll(h, m) == [a] + ([b / 0x100, b % 256]
                                + ([c / 0x100_0000, c / 0x1_0000 % 256, c / 0x100 % 256, c % 256]
                                + if h.bigEndian then last else Reversed(last)))
  {
    WireOfFour(h, Field(KByte, a), Field(KWord, b), Field(KDWord, c), Field(KDDWord, d));
    WireByByte(h, a, b, c, d);
    BytesOf64(d);
  }

  /** An instance, the value 1 on a little-endian host. With BIG_ENDIAN defined it comes back, but
      was not in network order on the wire; without, it comes back as another value. */
  lemma OneGoesWrong()
    ensures var f, g := Field(KDDWord, 1), Field(KDDWord, 0x100_0000_0000_0000);
            var defined, undefined := Host(false, true), Host(false, false);
            && Wire(defined, f) == [1, 0, 0, 0, 0, 0, 0, 0] != ToBytes(1, 8)
            && Received(defined, defined, f) == f
            && Received(undefined, undefined, f) == g != f
  {
    SwapOfOne();
    Widths();
    DDWordArrives(Host(false, true), Host(false, true), Field(KDDWord, 1));
    DDWordArrives(Host(false, false), Host(false, false), Field(KDDWord, 1));
    assert ToBytes(1, 8)[0] == 0;
  }

  function WireAll(h: Host, m: seq<Field>): seq<Byte> {
    if m == [] then [] else Wire(h, m[0]) + WireAll(h, m[1..])
  }

  lemma SpliceTwice(s: seq<Byte>, at: nat, a: seq<Byte>, b: seq<Byte>)
    requires at + |a| + |b| <= |s|
    ensures Splice(Splice(s, at, a), at + |a|, b) == Splice(s, at, a + b)
  {
  }

  /** The bytes b stand in s at offset `at`. */
  predicate Stands(s: seq<Byte>, at: nat, b: seq<Byte>) {
    at + |b| <= |s| && forall i :: 0 <= i < |b| ==> s[at + i] == b[i]
  }

  lemma StandsInParts(s: seq<Byte>, at: nat, a: seq<Byte>, b: seq<Byte>)
    requires Stands(s, at, a + b)
    ensures Stands(s, at, a) && Stands(s, at + |a|, b)
  {
    assert forall i :: 0 <= i < |a| ==> a[i] == (a + b)[i];
    assert forall i :: 0 <= i < |b| ==> b[i] == (a + b)[|a| + i];
  }

  lemma {:induction false} WireWidth(h: Host, m: seq<Field>)
    ensures |WireAll(h, m)| == TotalWidth(Kinds(m))
  {
    if m != [] {
      assert Kinds(m)[1..] == Kinds(m[1..]);
      WireWidth(h, m[1..]);
    }
  }

  /** A chain of puts writes the bytes of the fields, one after another, and nothing else. */
  lemma {:induction false} PutAllWrites(h: Host, s: seq<Byte>, at: nat, m: seq<Field>)
    requires at + TotalWidth(Kinds(m)) <= |s|
    ensures |WireAll(h, m)| == TotalWidth(Kinds(m))
    ensures PutAll(h, s, at, m).0 == Splice(s, at, WireAll(h, m))
    ensures PutAll(h, s, at, m).1 == at + TotalWidth(Kinds(m))
    decreases |m|
  {
    WireWidth(h, m);
    if m != [] {
      assert Kinds(m)[1..] == Kinds(m[1..]);
      var (s1, at1) := Put(h, s, at, m[0]);
      PutAllWrites(h, s1, at1, m[1..]);
      SpliceTwice(s, at, Wire(h, m[0]), WireAll(h, m[1..]));
    }
  }

  lemma TotalWidthNext(m: seq<Field>)
    requires m != []
    ensures TotalWidth(Kinds(m)) == Width(m[0].kind) + TotalWidth(Kinds(m[1..]))
  {
    assert Kinds(m)[1..] == Kinds(m[1..]);
  }

  lemma StandsNext(w: Host, s: seq<Byte>, at: nat, m: seq<Field>)
    requires m != [] && Stands(s, at, WireAll(w, m))
    ensures Stands(s, at, Wire(w, m[0])) && Stands(s, at + Width(m[0].kind), WireAll(w, m[1..]))
  {
    assert WireAll(w, m) == Wire(w, m[0]) + WireAll(w, m[1..]);
    StandsInParts(s, at, Wire(w, m[0]), WireAll(w, m[1..]));
  }

  lemma GetNext(w: Host, r: Host, s: seq<Byte>, at: nat, m: seq<Field>)
    requires m != [] && at + TotalWidth(Kinds(m)) <= |s| && Stands(s, at, Wire(w, m[0]))
    ensures TotalWidth(Kinds(m)) == Width(m[0].kind) + TotalWidth(Kinds(m[1..]))
    ensures var rest := GetAll(r, s, at + Width(m[0].kind), Kinds(m[1..]));
            GetAll(r, s, at, Kinds(m)).0 == [Received(w, r, m[0])] + rest.0 && GetAll(r, s, at, Kinds(m)).1 == rest.1
  {
    assert Kinds(m)[1..] == Kinds(m[1..]);
    assert s[at..at + Width(m[0].kind)] == Wire(w, m[0]);
  }

  /** Gets chained over those bytes yield the fields, as received. */
  lemma {:induction false} GetAllReads(w: Host, r: Host, s: seq<Byte>, at: nat, m: seq<Field>)
    requires at + TotalWidth(Kinds(m)) <= |s| && Stands(s, at, WireAll(w, m))
    ensures GetAll(r, s, at, Kinds(m)).0 == ReceivedAll(w, r, m)
    ensures GetAll(r, s, at, Kinds(m)).1 == at + TotalWidth(Kinds(m))
    decreases |m|
  {
    if m != [] {
      TotalWidthNext(m);
      StandsNext(w, s, at, m);
      GetAllReads(w, r, s, at + Width(m[0].kind), m[1..]);
      GetNext(w, r, s, at, m);
    }
  }

  lemma PutAllStands(w: Host, s: seq<Byte>, at: nat, m: seq<Field>)
    requires at + TotalWidth(Kinds(m)) <= |s|
    ensures Stands(PutAll(w, s, at, m).0, at, WireAll(w, m))
    ensures PutAll(w, s, at, m).1 == at + TotalWidth(Kinds(m))
    ensures forall i :: 0 <= i < |s| && !(at <= i < at + TotalWidth(Kinds(m))) ==> PutAll(w, s, at, m).0[i] == s[i]
  {
    PutAllWrites(w, s, at, m);
  }

  /** Any message put through chained calls and got back through the matching ones arrives field
      by field, whatever the hosts. Both cursors end past the last field, and no byte outside that
      range is touched. */
  lemma MessageRoundTrip(w: Host, r: Host, s: seq<Byte>, at: nat, m: seq<Field>)
    requires at + TotalWidth(Kinds(m)) <= |s|
    ensures GetAll(r, PutAll(w, s, at, m).0, at, Kinds(m)).0 == ReceivedAll(w, r, m)
    ensures GetAll(r, PutAll(w, s, at, m).0, at, Kinds(m)).1 == PutAll(w, s, at, m).1 == at + TotalWidth(Kinds(m))
    ensures forall i :: 0 <= i < |s| && !(at <= i < at + TotalWidth(Kinds(m))) ==> PutAll(w, s, at, m).0[i] == s[i]
  {
    PutAllStands(w, s, at, m);
    GetAllReads(w, r, PutAll(w, s, at, m).0, at, m);
  }

  /** The check a pair of hosts can make for a field beforehand. */
  predicate Arrives(w: Host, r: Host, f: Field) {
    !f.kind.KDDWord? || (w.bigEndian != r.bigEndian) == !r.bigEndianDefined || f.value == Swap(f.value, 8)
  }

  lemma FieldArrivesIff(w: Host, r: Host, f: Field)
    requires Fits(f)
    ensures Received(w, r, f) == f <==> Arrives(w, r, f)
  {
    if f.kind.KDDWord? {
      DDWordArrives(w, r, f);
    } else {
      NarrowArrives(w, r, f);
    }
  }

  lemma {:induction false} ReceivedAt(w: Host, r: Host, m: seq<Field>, i: nat)
    requires i < |m|
    ensures ReceivedAll(w, r, m)[i] == Received(w, r, m[i])
    decreases i
  {
    if i > 0 {
      ReceivedAt(w, r, m[1..], i - 1);
    }
  }

  /** A message is read back unchanged exactly when each of its fields is. */
  lemma MessageArrivesIff(w: Host, r: Host, m: Message)
    ensures ReceivedAll(w, r, m) == m <==> forall i :: 0 <= i < |m| ==> Arrives(w, r, m[i])
  {
    forall i | 0 <= i < |m|
      ensures ReceivedAll(w, r, m)[i] == m[i] <==> Arrives(w, r, m[i])
    {
      ReceivedAt(w, r, m, i);
      FieldArrivesIff(w, r, m[i]);
    }
  }

  predicate IsNarrow(m: seq<Field>) {
    forall i :: 0 <= i < |m| ==> !m[i].kind.KDDWord?
  }

  /** So a message without DDWord fields is read back unchanged, between any two hosts. */
  lemma NarrowMessageRoundTrip(w: Host, r: Host, s: seq<Byte>, at: nat, m: Message)
    requires at + TotalWidth(Kinds(m)) <= |s| && IsNarrow(m)
    ensures GetAll(r, PutAll(w, s, at, m).0, at, Kinds(m)).0 == m
    ensures GetAll(r, PutAll(w, s, at, m).0, at, Kinds(m)).1 == at + TotalWidth(Kinds(m))
  {
    MessageRoundTrip(w, r, s, at, m);
    MessageArrivesIff(w, r, m);
  }

  /** Which puts leave network order: all but those of a DDWord that is not its own reversal, on a
      little-endian host. */
  lemma WireIsNetworkOrder(h: Host, f: Field)
    requires Fits(f)
    ensures Wire(h, f) == ToBytes(f.value, Width(f.kind))
       <==> !f.kind.KDDWord? || h.bigEndian || f.value == Swap(f.value, 8)
  {
    if f.kind.KDDWord? {
      SwapBytes(f.value, 8);
      FromToBytes(f.value, 8);
    } else {
      NarrowWire(h, f);
    }
  }

  /** Hosts of either order put the same bytes for a message without DDWord fields. */
  lemma {:induction false} WireIsHostIndependent(h: Host, g: Host, m: seq<Field>)
    requires IsNarrow(m)
    ensures WireAll(h, m) == WireAll(g, m)
  {
    if m != [] {
      NarrowWire(h, m[0]);
      NarrowWire(g, m[0]);
      WireIsHostIndependent(h, g, m[1..]);
    }
  }

  /** The order of messages of one shape: by the first field that differs. */
  predicate MessageLess(m: seq<Field>, n: seq<Field>)
    requires |m| == |n|
  {
    m != [] && (m[0].value < n[0].value || (m[0] == n[0] && MessageLess(m[1..], n[1..])))
  }

  lemma SameParts(a: seq<Byte>, b: seq<Byte>, c: seq<Byte>, d: seq<Byte>)
    requires |a| == |b|
    ensures a + c == b + d <==> a == b && c == d
  {
    if a + c == b + d {
      assert a == (a + c)[..|a|] && c == (a + c)[|a|..];
      assert b == (b + d)[..|b|] && d == (b + d)[|b|..];
    }
  }

  lemma FieldOrder(h: Host, f: Field, g: Field)
    requires Fits(f) && Fits(g) && f.kind == g.kind && !f.kind.KDDWord?
    ensures LexLess(Wire(h, f), Wire(h, g)) <==> f.value < g.value
    ensures Wire(h, f) == Wire(h, g) <==> f == g
  {
    NarrowWire(h, f);
    NarrowWire(h, g);
    BytesOrder(f.value, g.value, Width(f.kind));
  }

  lemma SameKindsNext(m: seq<Field>, n: seq<Field>)
    requires Kinds(m) == Kinds(n) && m != []
    ensures n != [] && m[0].kind == n[0].kind && Kinds(m[1..]) == Kinds(n[1..])
  {
    assert Kinds(m)[0] == m[0].kind && Kinds(n)[0] == n[0].kind;
    assert Kinds(m)[1..] == Kinds(m[1..]) && Kinds(n)[1..] == Kinds(n[1..]);
  }

  /** Messages of one shape are told apart by their bytes. */
  lemma {:induction false} WireInjective(h: Host, m: Message, n: Message)
    requires Kinds(m) == Kinds(n) && IsNarrow(m)
    ensures WireAll(h, m) == WireAll(h, n) <==> m == n
    decreases |m|
  {
    if m != [] {
      SameKindsNext(m, n);
      WireInjective(h, m[1..], n[1..]);
      FieldOrder(h, m[0], n[0]);
      SameParts(Wire(h, m[0]), Wire(h, n[0]), WireAll(h, m[1..]), WireAll(h, n[1..]));
      assert m == [m[0]] + m[1..] && n == [n[0]] + n[1..];
    }
  }

  /** Comparing encoded messages of one shape byte by byte is comparing them field by field. */
  lemma {:induction false} WireOrder(h: Host, m: Message, n: Message)
    requires Kinds(m) == Kinds(n) && IsNarrow(m)
    ensures LexLess(WireAll(h, m), WireAll(h, n)) <==> MessageLess(m, n)
    decreases |m|
  {
    if m != [] {
      SameKindsNext(m, n);
      WireOrder(h, m[1..], n[1..]);
      FieldOrder(h, m[0], n[0]);
      LexAppend(Wire(h, m[0]), Wire(h, n[0]), WireAll(h, m[1..]), WireAll(h, n[1..]));
    }
  }
}
