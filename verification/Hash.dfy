/** The key hash of the dictionary: a one-at-a-time mixing round per character
    and a finaliser, all on 32-bit words that wrap around. */
module KeyHash {
  import opened CStrings

  /** Whether the compiler's plain `char` is signed. It is left open, so every
      result below holds for both kinds of compiler. */
  const CHAR_IS_SIGNED: bool

  /** The cast of a `char` to `unsigned`: sign-extended when `char` is signed. */
  function Widen(c: CByte): bv32 {
    if CHAR_IS_SIGNED && c >= 0x80 then 0xFFFF_FF00 | (c as bv32) else c as bv32
  }

  // The steps of the hash. Each turns out to be one-to-one on 32-bit words, hence onto.

  function AddShl3(x: bv32): bv32 { x + (x << 3) }

  function AddShl10(x: bv32): bv32 { x + (x << 10) }

  function AddShl15(x: bv32): bv32 { x + (x << 15) }

  function XorShr6(x: bv32): bv32 { x ^ (x >> 6) }

  function XorShr11(x: bv32): bv32 { x ^ (x >> 11) }

  /** One turn of the mixing loop. */
  function Round(h: bv32, c: CByte): bv32 {
    XorShr6(AddShl10(h + Widen(c)))
  }

  function Finalise(h: bv32): bv32 {
    AddShl15(XorShr11(AddShl3(h)))
  }

  /** The running hash after the characters of `s`. */
  function Mix(s: CString): bv32 {
    if s == [] then 0 else Round(Mix(s[..|s| - 1]), s[|s| - 1])
  }

  function Hash(key: CString): bv32 {
    Finalise(Mix(key))
  }

  // Each assignment of the code, read as the step it performs.

  lemma IsAddShl3(x: bv32, y: bv32)
    requires y == x + (x << 3)
    ensures y == AddShl3(x)
  {
  }

  lemma IsAddShl10(x: bv32, y: bv32)
    requires y == x + (x << 10)
    ensures y == AddShl10(x)
  {
  }

  lemma IsAddShl15(x: bv32, y: bv32)
    requires y == x + (x << 15)
    ensures y == AddShl15(x)
  {
  }

  lemma IsXorShr6(x: bv32, y: bv32)
    requires y == x ^ (x >> 6)
    ensures y == XorShr6(x)
  {
  }

  lemma IsXorShr11(x: bv32, y: bv32)
    requires y == x ^ (x >> 11)
    ensures y == XorShr11(x)
  {
  }

  lemma IsRound(h: bv32, c: CByte, a: bv32, b: bv32, r: bv32)
    requires a == h + Widen(c) && b == AddShl10(a) && r == XorShr6(b)
    ensures r == Round(h, c)
  {
  }

  lemma IsFinalise(h: bv32, a: bv32, b: bv32, r: bv32)
    requires a == AddShl3(h) && b == XorShr11(a) && r == AddShl15(b)
    ensures r == Finalise(h)
  {
  }

  lemma RoundInSteps(h: bv32, c: CByte, a: bv32, b: bv32, r: bv32)
    requires a == h + Widen(c) && b == a + (a << 10) && r == b ^ (b >> 6)
    ensures r == Round(h, c)
  {
    IsAddShl10(a, b);
    IsXorShr6(b, r);
    IsRound(h, c, a, b, r);
  }

  lemma FinaliseInSteps(h: bv32, a: bv32, b: bv32, r: bv32)
    requires a == h + (h << 3) && b == a ^ (a >> 11) && r == b + (b << 15)
    ensures r == Finalise(h)
  {
    IsAddShl3(h, a);
    IsXorShr11(a, b);
    IsAddShl15(b, r);
    IsFinalise(h, a, b, r);
  }

  lemma MixNext(s: CString, i: nat)
    requires i < |s|
    ensures Mix(s[..i + 1]) == Round(Mix(s[..i]), s[i])
  {
    assert s[..i + 1][..i] == s[..i];
  }

  /** One turn of the loop takes the hash of i characters to that of i + 1. */
  lemma MixInSteps(s: CString, i: nat, h: bv32, a: bv32, b: bv32, r: bv32)
    requires i < |s| && h == Mix(s[..i])
    requires a == h + Widen(s[i]) && b == a + (a << 10) && r == b ^ (b >> 6)
    ensures r == Mix(s[..i + 1])
  {
    RoundInSteps(h, s[i], a, b, r);
    MixNext(s, i);
  }

  method ComputeHash(key: CString) returns (hash: bv32)
    ensures hash == Hash(key)
  {
    hash := 0;
    for i := 0 to |key|
      invariant hash == Mix(key[..i])
    {
      ghost var h := hash;
      hash := hash + Widen(key[i]);
      ghost var a := hash;
      hash := hash + (hash << 10);
      ghost var b := hash;
      hash := hash ^ (hash >> 6);
      MixInSteps(key, i, h, a, b, hash);
    }
    assert key[..|key|] == key;
    ghost var h := hash;
    hash := hash + (hash << 3);
    ghost var a := hash;
    hash := hash ^ (hash >> 11);
    ghost var b := hash;
    hash := hash + (hash << 15);
    FinaliseInSteps(h, a, b, hash);
  }

  /** The character widened, by value. */
  lemma WidenByValue(c: CByte)
    ensures Widen(c) == if c < 0x80 || !CHAR_IS_SIGNED then c as bv32 else (c as bv32) + 0xFFFF_FF00
  {
  }

  lemma RoundByValue(h: bv32, c: CByte, w: bv32, a: bv32, b: bv32, r: bv32)
    requires w == if c < 0x80 || !CHAR_IS_SIGNED then c as bv32 else (c as bv32) + 0xFFFF_FF00
    requires a == h + w && b == a + (a << 10) && r == b ^ (b >> 6)
    ensures r == Round(h, c)
  {
    WidenByValue(c);
    RoundInSteps(h, c, a, b, r);
  }

  // The same for one turn out of many, an assignment at a time.

  lemma WidenedAt(key: CString, w: seq<bv32>, i: nat)
    requires i < |key| == |w|
    requires forall i :: 0 <= i < |key| ==>
               w[i] == if key[i] < 0x80 || !CHAR_IS_SIGNED then key[i] as bv32 else (key[i] as bv32) + 0xFFFF_FF00
    ensures w[i] == Widen(key[i])
  {
    WidenByValue(key[i]);
  }

  lemma ShiftedAt(a: seq<bv32>, b: seq<bv32>, i: nat)
    requires i < |a| == |b|
    requires forall i :: 0 <= i < |a| ==> b[i] == a[i] + (a[i] << 10)
    ensures b[i] == AddShl10(a[i])
  {
  }

  lemma XoredAt(b: seq<bv32>, h: seq<bv32>, i: nat)
    requires i < |b| == |h| - 1
    requires forall i :: 0 <= i < |b| ==> h[i + 1] == b[i] ^ (b[i] >> 6)
    ensures h[i + 1] == XorShr6(b[i])
  {
  }

  lemma SummedAt(h: seq<bv32>, w: seq<bv32>, a: seq<bv32>, i: nat)
    requires i < |w| == |a| == |h| - 1
    requires forall i :: 0 <= i < |w| ==> a[i] == h[i] + w[i]
    ensures a[i] == h[i] + w[i]
  {
  }

  lemma IsRoundOf(h: bv32, c: CByte, w: bv32, a: bv32, b: bv32, r: bv32)
    requires w == Widen(c) && a == h + w && b == AddShl10(a) && r == XorShr6(b)
    ensures r == Round(h, c)
  {
    IsRound(h, c, a, b, r);
  }

  lemma {:induction false} StatesMix(key: CString, h: seq<bv32>)
    requires |h| == |key| + 1 && h[0] == 0
    requires forall i :: 0 <= i < |key| ==> h[i + 1] == Round(h[i], key[i])
    ensures h[|key|] == Mix(key)
    decreases |key|
  {
    if key != [] {
      StatesMix(key[..|key| - 1], h[..|key|]);
    }
  }

  /** Any states that start at zero and go from one to the next by the three assignments of the
      loop end, after the three closing assignments, in the hash of the key. `w` are the characters
      widened, `a` and `b` what the first two assignments of each turn leave. */
  lemma HashIsTheAssignments(key: CString, w: seq<bv32>, h: seq<bv32>, a: seq<bv32>, b: seq<bv32>, x: bv32, y: bv32, r: bv32)
    requires |h| == |key| + 1 && |w| == |a| == |b| == |key| && h[0] == 0
    requires forall i :: 0 <= i < |key| ==>
               w[i] == if key[i] < 0x80 || !CHAR_IS_SIGNED then key[i] as bv32 else (key[i] as bv32) + 0xFFFF_FF00
    requires forall i :: 0 <= i < |key| ==> a[i] == h[i] + w[i]
    requires forall i :: 0 <= i < |key| ==> b[i] == a[i] + (a[i] << 10)
    requires forall i :: 0 <= i < |key| ==> h[i + 1] == b[i] ^ (b[i] >> 6)
    requires x == h[|key|] + (h[|key|] << 3) && y == x ^ (x >> 11) && r == y + (y << 15)
    ensures Hash(key) == r
  {
    forall i | 0 <= i < |key|
      ensures h[i + 1] == Round(h[i], key[i])
    {
      WidenedAt(key, w, i);
      SummedAt(h, w, a, i);
      ShiftedAt(a, b, i);
      XoredAt(b, h, i);
      IsRoundOf(h[i], key[i], w[i], a[i], b[i], h[i + 1]);
    }
    StatesMix(key, h);
    FinaliseInSteps(h[|key|], x, y, r);
  }

  // x + (x << k) is undone from the low bits up: each lemma pushes the agreement of
  // x and y (the low 32 - j bits, written as x << j == y << j) k bits further.

  lemma AddShl10Low10(x: bv32, y: bv32)
    requires AddShl10(x) == AddShl10(y)
    ensures x << 22 == y << 22
  {
  }

  lemma AddShl10Low20(x: bv32, y: bv32)
    requires AddShl10(x) == AddShl10(y) && x << 22 == y << 22
    ensures x << 12 == y << 12
  {
  }

  lemma AddShl10Low30(x: bv32, y: bv32)
    requires AddShl10(x) == AddShl10(y) && x << 12 == y << 12
    ensures x << 2 == y << 2
  {
  }

  lemma AddShl10Top(x: bv32, y: bv32)
    requires AddShl10(x) == AddShl10(y) && x << 2 == y << 2
    ensures x == y
  {
  }

  lemma AddShl10Injective(x: bv32, y: bv32)
    ensures AddShl10(x) == AddShl10(y) <==> x == y
  {
    if AddShl10(x) == AddShl10(y) {
      AddShl10Low10(x, y);
      AddShl10Low20(x, y);
      AddShl10Low30(x, y);
      AddShl10Top(x, y);
    }
  }

  lemma AddShl15Low15(x: bv32, y: bv32)
    requires AddShl15(x) == AddShl15(y)
    ensures x << 17 == y << 17
  {
  }

  lemma AddShl15Low30(x: bv32, y: bv32)
    requires AddShl15(x) == AddShl15(y) && x << 17 == y << 17
    ensures x << 2 == y << 2
  {
  }

  lemma AddShl15Top(x: bv32, y: bv32)
    requires AddShl15(x) == AddShl15(y) && x << 2 == y << 2
    ensures x == y
  {
  }

  lemma AddShl15Injective(x: bv32, y: bv32)
    ensures AddShl15(x) == AddShl15(y) <==> x == y
  {
    if AddShl15(x) == AddShl15(y) {
      AddShl15Low15(x, y);
      AddShl15Low30(x, y);
      AddShl15Top(x, y);
    }
  }

  lemma AddShl3Injective(x: bv32, y: bv32)
    ensures AddShl3(x) == AddShl3(y) <==> x == y
  {
  }

  /** A right xor-shift is undone by xoring in every repeated shift. */
  function UnXorShr6(y: bv32): bv32 { y ^ (y >> 6) ^ (y >> 12) ^ (y >> 18) ^ (y >> 24) ^ (y >> 30) }

  function UnXorShr11(y: bv32): bv32 { y ^ (y >> 11) ^ (y >> 22) }

  lemma XorShr6Undone(x: bv32)
    ensures UnXorShr6(XorShr6(x)) == x
  {
    assert UnXorShr6(x ^ (x >> 6)) == x;
  }

  lemma XorShr11Undone(x: bv32)
    ensures UnXorShr11(XorShr11(x)) == x
  {
    assert UnXorShr11(x ^ (x >> 11)) == x;
  }

  lemma SumInjective(x: bv32, y: bv32, w: bv32)
    requires x + w == y + w
    ensures x == y
  {
  }

  lemma WidenInjective(a: CByte, b: CByte)
    requires Widen(a) == Widen(b)
    ensures a == b
  {
  }

  lemma RoundUndone(g: bv32, a: CByte, h: bv32, b: CByte)
    requires Round(g, a) == Round(h, b)
    ensures g + Widen(a) == h + Widen(b)
  {
    var x, y := g + Widen(a), h + Widen(b);
    XorShr6Undone(AddShl10(x));
    XorShr6Undone(AddShl10(y));
    AddShl10Injective(x, y);
  }

  /** For a fixed character, a round is one-to-one in the state it starts from. */
  lemma RoundKeepsStatesApart(g: bv32, h: bv32, c: CByte)
    ensures Round(g, c) == Round(h, c) <==> g == h
  {
    if Round(g, c) == Round(h, c) {
      RoundUndone(g, c, h, c);
      SumInjective(g, h, Widen(c));
    }
  }

  /** From a fixed state, a round is one-to-one in the character. */
  lemma RoundTellsCharactersApart(h: bv32, a: CByte, b: CByte)
    ensures Round(h, a) == Round(h, b) <==> a == b
  {
    if Round(h, a) == Round(h, b) {
      RoundUndone(h, a, h, b);
      SumInjective(Widen(a), Widen(b), h);
      WidenInjective(a, b);
    }
  }

  /** The finaliser is one-to-one on 32-bit words, so it neither merges nor splits states. */
  lemma FinaliseInjective(g: bv32, h: bv32)
    ensures Finalise(g) == Finalise(h) <==> g == h
  {
    AddShl15Injective(XorShr11(AddShl3(g)), XorShr11(AddShl3(h)));
    XorShr11Undone(AddShl3(g));
    XorShr11Undone(AddShl3(h));
    AddShl3Injective(g, h);
  }

  lemma {:induction false} MixSuffix(u: CString, v: CString, s: CString)
    ensures Mix(u + s) == Mix(v + s) <==> Mix(u) == Mix(v)
    decreases |s|
  {
    if s == [] {
      assert u + s == u && v + s == v;
    } else {
      var init, c := s[..|s| - 1], s[|s| - 1];
      assert (u + s)[..|u + s| - 1] == u + init && (v + s)[..|v + s| - 1] == v + init;
      MixSuffix(u, v, init);
      RoundKeepsStatesApart(Mix(u + init), Mix(v + init), c);
    }
  }

  /** Appending a common suffix neither creates nor removes a collision. */
  lemma SuffixKeepsCollisions(u: CString, v: CString, s: CString)
    ensures Hash(u + s) == Hash(v + s) <==> Hash(u) == Hash(v)
  {
    MixSuffix(u, v, s);
    FinaliseInjective(Mix(u + s), Mix(v + s));
    FinaliseInjective(Mix(u), Mix(v));
  }

  /** Keys of one length that differ in exactly one character never collide. */
  lemma OneCharacterApart(a: CString, b: CString, i: nat)
    requires |a| == |b| && i < |a| && a[i] != b[i]
    requires forall j :: 0 <= j < |a| && j != i ==> a[j] == b[j]
    ensures Hash(a) != Hash(b)
  {
    var u, v, s := a[..i + 1], b[..i + 1], a[i + 1..];
    assert a == u + s && b == v + s;
    assert u[..i] == v[..i];
    RoundTellsCharactersApart(Mix(u[..i]), a[i], b[i]);
    MixSuffix(u, v, s);
    FinaliseInjective(Mix(a), Mix(b));
  }

  /** Exactly which keys hash to zero: the empty one, and those whose last character cancels
      the state before it. They matter because a clear zeroes every cached hash. */
  lemma ZeroHash(key: CString)
    ensures Hash(key) == 0 <==> key == [] || Mix(key[..|key| - 1]) + Widen(key[|key| - 1]) == 0
  {
    assert Finalise(0) == 0;
    FinaliseInjective(Mix(key), 0);
    if key != [] {
      var h := Mix(key[..|key| - 1]) + Widen(key[|key| - 1]);
      XorShr6Undone(AddShl10(h));
      XorShr6Undone(AddShl10(0));
      AddShl10Injective(h, 0);
      assert XorShr6(AddShl10(0)) == 0;
    }
  }

  // ---- Values ----

  lemma HashOfOne(c: CByte, w: bv32, a: bv32, b: bv32, h: bv32, x: bv32, y: bv32, r: bv32)
    requires w == if c < 0x80 || !CHAR_IS_SIGNED then c as bv32 else (c as bv32) + 0xFFFF_FF00
    requires a == 0 + w && b == a + (a << 10) && h == b ^ (b >> 6)
    requires x == h + (h << 3) && y == x ^ (x >> 11) && r == y + (y << 15)
    ensures Hash([c]) == r
  {
    RoundByValue(0, c, w, a, b, h);
    MixNext([c], 0);
    FinaliseInSteps(h, x, y, r);
  }

  /** The hashes of "", "a", "aqaa" and of a character above 0x7F, which the signedness decides. */
  lemma HashVectors()
    ensures Hash([]) == 0
    ensures Hash([0x61]) == 0xCA2E9442
    ensures Hash([0x61, 0x71, 0x61, 0x61]) == 0x18BED31F
    ensures Hash([0xE9]) == if CHAR_IS_SIGNED then 0x409848FF else 0x7D4B7A55
  {
    assert Finalise(0) == 0;
    HashOfOne(0x61, 0x61, 0x61, 0x18461, 0x18270, 0xD95F0, 0xD9442, 0xCA2E9442);
    MixAqaa();
    FinaliseInSteps(0x7E204D41, 0x6F22B749, 0x6F2F531F, 0x18BED31F);
    if CHAR_IS_SIGNED {
      HashOfOne(0xE9, 0xFFFF_FFE9, 0xFFFF_FFE9, 0xFFFF_A3E9, 0xFC005D66, 0xDC034896, 0xDC18C8FF, 0x409848FF);
    } else {
      HashOfOne(0xE9, 0xE9, 0xE9, 0x3A4E9, 0x3AA7A, 0x20FE4A, 0x20FA55, 0x7D4B7A55);
    }
  }

  // ---- Collisions do exist ----

  const AQAA: CString := [0x61, 0x71, 0x61, 0x61]

  const ELUE: CString := [0x65, 0x6C, 0x75, 0x65]

  const OXTESWW: CString := [0x6F, 0x78, 0x74, 0x65, 0x73, 0x77, 0x77]

  lemma MixAqaa()
    ensures Mix(AQAA) == 0x7E204D41
  {
    var k := AQAA;
    MixNext(k, 0);
    assert Mix(k[..1]) == 0x00018270;
    MixNext(k, 1);
    assert Mix(k[..2]) == 0x061532FA;
    MixNext(k, 2);
    assert Mix(k[..3]) == 0x5B891526;
    MixNext(k, 3);
    assert Mix(k[..4]) == 0x7E204D41;
    assert k[..4] == k;
  }

  lemma MixElue()
    ensures Mix(ELUE) == 0x7E204D41
  {
    var k := ELUE;
    MixNext(k, 0);
    assert Mix(k[..1]) == 0x00019234;
    MixNext(k, 1);
    assert Mix(k[..2]) == 0x065522EA;
    MixNext(k, 2);
    assert Mix(k[..3]) == 0x5B891522;
    MixNext(k, 3);
    assert Mix(k[..4]) == 0x7E204D41;
    assert k[..4] == k;
  }

  lemma MixOxtesww()
    ensures Mix(OXTESWW) == 0x00000000
  {
    var k := OXTESWW;
    MixNext(k, 0);
    assert Mix(k[..1]) == 0x0001BA9E;
    MixNext(k, 1);
    assert Mix(k[..2]) == 0x06F5AB5A;
    MixNext(k, 2);
    assert Mix(k[..3]) == 0xDED27041;
    MixNext(k, 3);
    assert Mix(k[..4]) == 0x28375C84;
    MixNext(k, 4);
    assert Mix(k[..5]) == 0x05BD9414;
    MixNext(k, 5);
    assert Mix(k[..6]) == 0xFFFFFF89;
    MixNext(k, 6);
    assert Mix(k[..7]) == 0x00000000;
    assert k[..7] == k;
  }

  /** The hash alone does not tell keys apart, so the searches have to compare strings as well:
      "aqaa" and "elue" collide, and so do they with any one suffix after both. */
  lemma HashesCollide(s: CString)
    ensures AQAA + s != ELUE + s && Hash(AQAA + s) == Hash(ELUE + s)
  {
    MixAqaa();
    MixElue();
    assert (AQAA + s)[0] != (ELUE + s)[0];
    SuffixKeepsCollisions(AQAA, ELUE, s);
  }

  /** A key with characters can hash to zero too: "oxtesww" does. */
  lemma NonEmptyZeroHash()
    ensures OXTESWW != [] && Hash(OXTESWW) == 0
  {
    MixOxtesww();
    assert Finalise(0) == 0;
  }
}
