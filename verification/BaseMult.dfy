/** Multiples of the base point from a table, with a constant-time choice of entries. */
module BaseMult {
  import opened Words
  import opened Bytes
  import opened Fp
  import opened AbelianGroup
  import opened Edwards
  import opened Coordinates
  import opened Points
  import opened Digits
  import opened ScalarMult
  import Modm64
  import Recode
  import Field64
  import FieldCodec
  import PointCodec

  // ----- the table -----

  /** The field element in 32 bytes of a packed entry. */
  ghost function Packed(e: seq<u8>, i: nat): F
    requires i + 32 <= |e|
  {
    PointCodec.YOf(e[i..i + 32])
  }

  /** 96 bytes holding y - x, y + x and k * xy, where k is 2 in row 0 and 2d elsewhere. */
  ghost predicate Entry(e: seq<u8>, p: Point, k: F) {
    |e| == 96 && OnCurve(p)
    && Packed(e, 0) == Sub(p.y, p.x) && Packed(e, 32) == Add(p.y, p.x) && Packed(e, 64) == Mul(k, XY(p))
  }

  ghost function RowFactor(pos: nat): F {
    if pos == 0 then 2 else D2
  }

  /** Row pos holds the first eight multiples of [16^(2 pos)]b. */
  ghost predicate BaseTable(table: seq<seq<u8>>, b: Point) {
    |table| == 256
    && forall pos, i {:trigger Row(pos, i)} :: 0 <= pos < 32 && 0 <= i < 8 ==>
      Entry(table[Row(pos, i)], Multiple(CURVE, (i + 1) * Power(16, 2 * pos), b), RowFactor(pos))
  }

  function Row(pos: int, i: int): int {
    pos * 8 + i
  }

  // ----- the choice -----

  /** ((b ^ c) - 1) >> 31 on 32-bit words. */
  function WindowEqual(b: u32, c: u32): nat {
    (Xor(b, c, 32) - 1) % 0x1_0000_0000 / 0x8000_0000
  }

  lemma WindowEqualIsEquality(b: u32, c: u32)
    requires b < 0x8000_0000 && c < 0x8000_0000
    ensures WindowEqual(b, c) == if b == c then 1 else 0
  {
    hide Xor, Pow2;
    PowersOfTwo();
    XorZero(b, c, 32);
    XorSmall(b, c, 31);
  }

  lemma PowersOfTwo()
    ensures Pow2(31) == 0x8000_0000 && Pow2(32) == 0x1_0000_0000 && Pow2(8) == 0x100
  {
    assert Pow2(15) == 0x8000 && Pow2(16) == 0x10000;
    Pow2Add(15, 16);
    Pow2Add(16, 16);
  }

  /** Words without a top bit have an exclusive or without one. */
  lemma {:induction false} XorSmall(b: nat, c: nat, n: nat)
    requires b < Pow2(n) && c < Pow2(n)
    ensures Xor(b, c, n + 1) == Xor(b, c, n) < Pow2(n)
  {
    if n > 0 {
      XorSmall(b / 2, c / 2, n - 1);
    }
  }

  /** |b| as (b + mask) ^ mask for the 32-bit mask of the sign. */
  function Magnitude(b: i8): u32 {
    var sign := SignBit(b);
    var mask := 0xffff_ffff - ((sign as int) - 1) % 0x1_0000_0000;
    assert Pow2(32) == 0x1_0000_0000 by { PowersOfTwo(); }
    XorZero((b + mask) % 0x1_0000_0000, mask, 32);
    Xor((b + mask) % 0x1_0000_0000, mask, 32)
  }

  lemma MagnitudeIsAbs(b: i8)
    ensures Magnitude(b) == if b < 0 then -(b as int) else b
  {
    hide Xor, Pow2;
    SignMask(b);
    if b < 0 {
      NegativeUnderMask(b);
    } else {
      Unmasked(b);
    }
  }

  lemma NegativeUnderMask(b: i8)
    requires b < 0
    ensures Xor((b + 0xffff_ffff) % 0x1_0000_0000, 0xffff_ffff, 32) == -(b as int)
  {
    hide Xor, Pow2;
    PowersOfTwo();
    assert (b + 0xffff_ffff) % 0x1_0000_0000 == b + 0xffff_ffff;
    Masks(b + 0xffff_ffff, 32);
  }

  lemma Unmasked(b: i8)
    requires b >= 0
    ensures Xor(b % 0x1_0000_0000, 0, 32) == b
  {
    hide Xor, Pow2;
    PowersOfTwo();
    assert b % 0x1_0000_0000 == b;
    Masks(b, 32);
  }

  lemma SignMask(b: i8)
    ensures 0xffff_ffff - ((SignBit(b) as int) - 1) % 0x1_0000_0000 == if b < 0 then 0xffff_ffff else 0
  {
  }

  /** out = flag ? input : out, by masks, byte by byte. */
  method MoveConditional(out: seq<u8>, input: seq<u8>, flag: nat) returns (r: seq<u8>)
    requires |out| == |input| == 96 && flag <= 1
    ensures r == if flag == 1 then input else out
  {
    var nb: nat := (flag - 1) % 256;
    var b: nat := 255 - nb;
    r := out;
    for i := 0 to 96
      invariant |r| == 96
      invariant forall k :: 0 <= k < 96 ==> r[k] == if k < i && flag == 1 then input[k] else out[k]
    {
      BlendByte(out[i], input[i], flag);
      r := r[i := Or(And(out[i], nb, 8), And(input[i], b, 8), 8)];
    }
  }

  lemma BlendByte(x: u8, y: u8, flag: nat)
    requires flag <= 1
    ensures var nb: nat := (flag - 1) % 256;
      Or(And(x, nb, 8), And(y, 255 - nb, 8), 8) == if flag == 1 then y else x
  {
    hide And, Or;
    ByteMasks(x);
    ByteMasks(y);
    if flag == 1 {
      assert (flag - 1) % 256 == 0;
    } else {
      assert (flag - 1) % 256 == 255;
    }
  }

  lemma ByteMasks(x: u8)
    ensures And(x, 255, 8) == x && And(x, 0, 8) == 0 && Or(x, 0, 8) == x && Or(0, x, 8) == x
  {
    hide And, Or, Xor, Pow2;
    PowersOfTwo();
    Masks(x, 8);
  }

  /** The packed neutral element: ones for y - x and y + x, zero for the product. */
  function PackedNeutral(): seq<u8> {
    seq(96, i => if i == 0 || i == 32 then 1 else 0)
  }

  lemma NeutralEntry(k: F)
    ensures Entry(PackedNeutral(), NEUTRAL, k)
  {
    hide OnCurve, Mul, PointCodec.YOf;
    PlusNeutral(NEUTRAL);
    var e := PackedNeutral();
    PaddedByte(e[0..32], 1);
    PaddedByte(e[32..64], 1);
    PaddedByte(e[64..96], 0);
    ZeroProduct(1);
    ZeroProduct(k);
    assert Sub(1, 0) == 1 && Add(1, 0) == 1;
  }

  /** A byte and 31 zeros encode the byte. */
  lemma PaddedByte(s: seq<u8>, b: u8)
    requires |s| == 32 && s[0] == b && forall k :: 1 <= k < 32 ==> s[k] == 0
    ensures PointCodec.YOf(s) == b
  {
    assert s == [b] + seq(31, _ => 0);
    LeValueZeros([b], 31);
    PointCodec.OneByte(b);
  }

  /** A chosen entry: the niels coordinates of q with factor k in place of 2d. */
  ghost predicate Chosen(t: Niels, q: Point, k: F) {
    TightNiels(t) && OnCurve(q)
    && Field64.Elem(t.ysubx) == Sub(q.y, q.x) && Field64.Elem(t.xaddy) == Add(q.y, q.x)
      && Field64.Elem(t.t2d) == Mul(k, XY(q))
  }

  /** The entry for a magnitude, by eight masked moves. */
  method ChooseEntry(table: seq<seq<u8>>, pos: nat, u: u32, ghost b: Point) returns (packed: seq<u8>)
    requires CurveFacts() && OnCurve(b) && BaseTable(table, b) && pos < 32 && u <= 8
    ensures Entry(packed, Multiple(CURVE, u * Power(16, 2 * pos), b), RowFactor(pos))
  {
    hide CurveFacts, OnCurve, Entry, Power, CURVE, Multiple, WindowEqual, RowFactor;
    packed := PackedNeutral();
    NeutralMultiple(b);
    NeutralEntry(RowFactor(pos));
    ghost var first := packed;
    for i := 0 to 8
      invariant |packed| == 96
      invariant packed == if 1 <= u <= i then table[Row(pos, u - 1)] else first
    {
      assert |table[Row(pos, i)]|
        == 96 by { EntryLength(table[Row(pos, i)], Multiple(CURVE, (i + 1) * Power(16, 2 * pos), b), RowFactor(pos)); }
      WindowEqualIsEquality(u, i + 1);
      packed := MoveConditional(packed, table[pos * 8 + i], WindowEqual(u, i + 1));
    }
    if u == 0 {
      assert u * Power(16, 2 * pos) == 0;
    } else {
      assert Entry(table[Row(pos, u - 1)], Multiple(CURVE, (u - 1 + 1) * Power(16, 2 * pos), b), RowFactor(pos));
    }
  }

  lemma EntryLength(e: seq<u8>, p: Point, k: F)
    ensures Entry(e, p, k) ==> |e| == 96
  {
  }

  lemma NeutralMultiple(b: Point)
    requires CurveFacts() && OnCurve(b)
    ensures Multiple(CURVE, 0, b) == NEUTRAL
  {
    hide CurveFacts, Abelian;
    CurveIsAbelian();
    SmallMultiples(CURVE, b);
  }

  /** The table entry for a signed digit: the entry of its magnitude, negated if the digit is. */
  method ChooseNiels(table: seq<seq<u8>>, pos: nat, d: i8, ghost b: Point) returns (t: Niels)
    requires CurveFacts() && OnCurve(b) && BaseTable(table, b) && pos < 32 && -8 <= d <= 8
    ensures TightNiels(t) && Chosen(t, Multiple(CURVE, d * Power(16, 2 * pos), b), RowFactor(pos))
  {
    hide CurveFacts, OnCurve, Power, CURVE, Multiple, RowFactor, BaseTable, Sub, Add, Mul, Neg, Field64.Elem, Magnitude,
      PointCodec.YOf;
    MagnitudeIsAbs(d);
    var u := Magnitude(d);
    var packed := ChooseEntry(table, pos, u, b);
    ghost var q := Multiple(CURVE, u * Power(16, 2 * pos), b);
    var ysubx := FieldCodec.Expand(packed[0..32]);
    var xaddy := FieldCodec.Expand(packed[32..64]);
    var t2d := FieldCodec.Expand(packed[64..96]);
    PointCodec.ExpandedElem(ysubx, packed[0..32]);
    PointCodec.ExpandedElem(xaddy, packed[32..64]);
    PointCodec.ExpandedElem(t2d, packed[64..96]);
    var sign := SignBit(d);
    ysubx, xaddy := SwapConditional(ysubx, xaddy, sign);
    var neg := Field64.Neg(t2d);
    t2d, neg := SwapConditional(t2d, neg, sign);
    t := Niels(ysubx, xaddy, t2d);
    SignedEntry(q, RowFactor(pos));
    PowerPositive(16, 2 * pos);
    SignedMagnitude(d, Power(16, 2 * pos), b);
  }

  /** Exchanges two elements when the flag is set, by masks. */
  method SwapConditional(a: Field64.Fe, b: Field64.Fe, iswap: u8) returns (x: Field64.Fe, y: Field64.Fe)
    requires iswap <= 1
    ensures (x, y) == if iswap == 1 then (b, a) else (a, b)
  {
    var swap := Sub64(0, iswap);
    var a0, b0 := SwapWord(a.l0, b.l0, swap);
    var a1, b1 := SwapWord(a.l1, b.l1, swap);
    var a2, b2 := SwapWord(a.l2, b.l2, swap);
    var a3, b3 := SwapWord(a.l3, b.l3, swap);
    var a4, b4 := SwapWord(a.l4, b.l4, swap);
    x, y := Field64.Fe(a0, a1, a2, a3, a4), Field64.Fe(b0, b1, b2, b3, b4);
  }

  /** Exchanges two words under a mask of all ones: both take the bits in which they differ. */
  method SwapWord(a: u64, b: u64, swap: u64) returns (x: u64, y: u64)
    requires swap == 0 || swap == 0xffff_ffff_ffff_ffff
    ensures (x, y) == if swap == 0 then (a, b) else (b, a)
  {
    hide And, Xor, Pow2;
    Pow2Of64();
    XorZero(a, b, 64);
    Masks(Xor(a, b, 64), 64);
    Masks(a, 64);
    Masks(b, 64);
    XorTwice(a, b, 64);
    var d := And(Xor(a, b, 64), swap, 64);
    x := Xor(a, d, 64);
    y := Xor(b, d, 64);
  }

  lemma Pow2Of64()
    ensures Pow2(64) == 0x1_0000_0000_0000_0000
  {
    hide Pow2;
    PowersOfTwo();
    Pow2Add(32, 32);
  }

  lemma {:induction false} XorTwice(a: nat, b: nat, n: nat)
    requires a < Pow2(n) && b < Pow2(n)
    ensures Xor(a, Xor(a, b, n), n) == b && Xor(b, Xor(a, b, n), n) == a
  {
    if n > 0 {
      XorTwice(a / 2, b / 2, n - 1);
      XorTwiceStep(a, b, n - 1);
    }
  }

  lemma XorTwiceStep(a: nat, b: nat, n: nat)
    requires Xor(a / 2, Xor(a / 2, b / 2, n), n) == b / 2 && Xor(b / 2, Xor(a / 2, b / 2, n), n) == a / 2
    ensures Xor(a, Xor(a, b, n + 1), n + 1) == b && Xor(b, Xor(a, b, n + 1), n + 1) == a
  {
    hide Xor;
    var c := Xor(a, b, n + 1);
    XorFront(a, b, n);
    XorFront(a, c, n);
    XorFront(b, c, n);
    BitTwice(a % 2, b % 2, Xor(a / 2, b / 2, n));
  }

  lemma BitTwice(x: nat, y: nat, d: nat)
    requires x < 2 && y < 2
    ensures var c := (x + y) % 2 + 2 * d; c / 2 == d && (x + c % 2) % 2 == y && (y + c % 2) % 2 == x
  {
  }

  lemma SignedEntry(q: Point, k: F)
    requires OnCurve(q)
    ensures OnCurve(Minus(q))
    ensures Sub(Minus(q).y, Minus(q).x) == Add(q.y, q.x) && Add(Minus(q).y, Minus(q).x) == Sub(q.y, q.x)
    ensures Mul(k, XY(Minus(q))) == Neg(Mul(k, XY(q)))
  {
    MinusOnCurve(q);
    AddNeg(q.y, q.x);
    NegLeft(q.x, q.y);
    MulCommutes(k, Neg(XY(q)));
    NegLeft(XY(q), k);
    MulCommutes(k, XY(q));
  }

  lemma SignedMagnitude(d: i8, w: int, b: Point)
    requires w > 0
    ensures var u: int := if d < 0 then -(d as int) else d;
      Multiple(CURVE, d * w, b) == if d < 0 then Minus(Multiple(CURVE, u * w, b)) else Multiple(CURVE, u * w, b)
  {
    hide Multiple, Minus, CURVE;
    if d < 0 {
      MulMono(1, -(d as int), w);
      NegativeProduct(d, w);
      NegativeMultiple(-(d as int) * w, b);
    }
  }

  lemma NegativeProduct(d: int, w: int)
    ensures d * w == -(-d * w)
  {
  }

  lemma NegativeMultiple(n: int, b: Point)
    requires n > 0
    ensures Multiple(CURVE, -n, b) == Minus(Multiple(CURVE, n, b))
  {
    hide Times, Minus, Plus, OnCurve;
  }

  // ----- the comb -----

  /** r = r + t for a chosen entry with factor 2d. */
  method AddChosen(r: Ge, t: Niels, ghost a: Point, ghost q: Point)
    requires CurveFacts() && Full(r, a) && Chosen(t, q, D2)
    modifies r
    ensures Full(r, Plus(a, q))
  {
    ChosenIsCached(t, q);
    AddCachedFor(Coord(r), CachedOfNiels(t), a, q);
    ToFullFor(AddCached(Coord(r), CachedOfNiels(t)), Plus(a, q));
    PlusOnCurve(a, q);
    hide AddCached, ToFull, For, CachedFor, CachedOfNiels, CompletedFor, Coord, Plus, OnCurve, Mul, Sub, Add,
      Field64.Elem;
    NielsAdd2(r, t);
  }

  lemma ChosenIsCached(t: Niels, q: Point)
    requires Chosen(t, q, D2)
    ensures CachedFor(CachedOfNiels(t), q)
  {
    hide Sub, Add, Mul, Field64.Elem, OnCurve;
    MulOne(Sub(q.y, q.x));
    MulOne(Add(q.y, q.x));
    MulOne(Mul(D2, XY(q)));
  }

  /** The first odd digit: X = 2x, Y = 2y, Z = 2, T = 2xy straight from a row 0 entry. */
  method StartWith(r: Ge, t: Niels, ghost q: Point)
    requires CurveFacts() && Chosen(t, q, 2)
    modifies r
    ensures Full(r, q)
  {
    hide Sub, Add, Mul, Field64.Elem, OnCurve;
    SmallElem(2);
    TwiceFromSums(q);
    MulCommutes(2, XY(q));
    r.x := Field64.SubReduce(t.xaddy, t.ysubx);
    r.y := Field64.AddReduce(t.xaddy, t.ysubx);
    r.z := Small(2);
    r.t := t.t2d;
  }

  lemma TwiceFromSums(q: Point)
    ensures Sub(Add(q.y, q.x), Sub(q.y, q.x)) == Mul(q.x, 2)
    ensures Add(Add(q.y, q.x), Sub(q.y, q.x)) == Mul(q.y, 2)
  {
    hide Residue, Mul;
    var x: int, y: int := q.x, q.y;
    MulIsProduct(q.x, 2);
    MulIsProduct(q.y, 2);
    ResidueSub(y + x, y - x);
    ResidueAdd(y + x, y - x);
    assert (y + x) - (y - x) == x * 2 && (y + x) + (y - x) == y * 2;
  }

  /** r = 16 r by three partial doublings and a full one. */
  method TimesSixteen(r: Ge, ghost a: Point)
    requires CurveFacts() && Full(r, a)
    modifies r
    ensures Full(r, Times(CURVE, 16, a))
  {
    hide CurveFacts, Full, Partial, Pending, Plus, OnCurve, Times, CURVE;
    FullIsPartial(r, a);
    ghost var a2 := Plus(a, a);
    ghost var a4 := Plus(a2, a2);
    ghost var a8 := Plus(a4, a4);
    DoubleInPart(r, r, a);
    DoubleInPart(r, r, a2);
    DoubleInPart(r, r, a4);
    DoubleFull(r, r, a8);
    Sixteen(a);
  }

  lemma Sixteen(a: Point)
    requires CurveFacts() && OnCurve(a)
    ensures var a2 := Plus(a, a); var a4 := Plus(a2, a2); var a8 := Plus(a4, a4); Plus(a8, a8) == Times(CURVE, 16, a)
  {
    hide CurveFacts, Plus, OnCurve, CURVE, Times;
    CurveIsAbelian();
    CurveOps(a, a);
    SmallMultiples(CURVE, a);
    assert Times(CURVE, 1, a) == a by { TimesOne(a); }
    TimesAdd(CURVE, 1, 1, a);
    CurveOps(Times(CURVE, 2, a), Times(CURVE, 2, a));
    TimesAdd(CURVE, 2, 2, a);
    CurveOps(Times(CURVE, 4, a), Times(CURVE, 4, a));
    TimesAdd(CURVE, 4, 4, a);
    CurveOps(Times(CURVE, 8, a), Times(CURVE, 8, a));
    TimesAdd(CURVE, 8, 8, a);
  }

  lemma TimesOne(a: Point)
    requires CurveFacts() && OnCurve(a)
    ensures Times(CURVE, 1, a) == a
  {
    hide CurveFacts, Plus, OnCurve;
    CurveIsAbelian();
    SmallMultiples(CURVE, a);
  }

  /** The value of the digits at even (parity 0) or odd (parity 1) positions below 2k, as if the parity were 0. */
  function HalfSum(b: seq<int>, parity: nat, k: nat): int
    requires parity <= 1 && 2 * k <= |b|
  {
    if k == 0 then 0 else HalfSum(b, parity, k - 1) + b[2 * (k - 1) + parity] * Power(16, 2 * (k - 1))
  }

  lemma {:induction false} HalvesMakeWhole(b: seq<int>, k: nat)
    requires 2 * k <= |b|
    ensures Eval(b[..2 * k], 16) == HalfSum(b, 0, k) + 16 * HalfSum(b, 1, k)
  {
    if k > 0 {
      hide Eval, Power;
      HalvesMakeWhole(b, k - 1);
      var lo, x, y := b[..2 * (k - 1)], b[2 * k - 2], b[2 * k - 1];
      assert b[..2 * k] == lo + [x] + [y];
      TwoMore(lo, x, y);
    } else {
      assert b[..0] == [];
    }
  }

  lemma TwoMore(lo: seq<int>, x: int, y: int)
    ensures Eval(lo + [x] + [y], 16) == Eval(lo, 16) + x * Power(16, |lo|) + 16 * (y * Power(16, |lo|))
  {
    hide Eval, Power;
    EvalAppend(lo, x, 16);
    EvalAppend(lo + [x], y, 16);
    PowerStep(|lo|);
    SixteenOut(Power(16, |lo|), y);
    Swapped(x, Power(16, |lo|));
  }

  lemma Swapped(x: int, w: int)
    ensures w * x == x * w
  {
  }

  lemma PowerStep(n: nat)
    ensures Power(16, n + 1) == 16 * Power(16, n)
  {
  }

  lemma SixteenOut(w: int, y: int)
    ensures (16 * w) * y == 16 * (y * w)
  {
  }

  /** Multiples of b on the curve add up. */
  lemma MultipleSum(m: int, n: int, b: Point)
    requires CurveFacts() && OnCurve(b)
    ensures Plus(Multiple(CURVE, m, b), Multiple(CURVE, n, b)) == Multiple(CURVE, m + n, b)
    ensures Times(CURVE, 16, Multiple(CURVE, m, b)) == Multiple(CURVE, 16 * m, b)
  {
    hide CurveFacts, Plus, OnCurve, CURVE, Times, Multiple;
    CurveIsAbelian();
    CurveOps(b, b);
    CurveOps(Multiple(CURVE, m, b), Multiple(CURVE, n, b));
    MultipleAdd(CURVE, m, n, b);
    TimesMultiple(CURVE, 16, m, b);
  }

  /** Adds the entries of the digits at positions 2 from + parity, 2 from + 2 + parity, ... 62 + parity. */
  method AddDigits(r: Ge, table: seq<seq<u8>>, digits: seq<i8>, parity: nat, ghost b: Point, ghost start: int)
    requires CurveFacts() && OnCurve(b) && BaseTable(table, b) && parity <= 1
    requires |digits| == 64 && forall k :: 0 <= k < 64 ==> -8 <= digits[k] <= 8
    requires Full(r, Multiple(CURVE, start + HalfSum(digits, parity, 1), b))
    modifies r
    ensures Full(r, Multiple(CURVE, start + HalfSum(digits, parity, 32), b))
  {
    hide CurveFacts, Full, OnCurve, Plus, Multiple, CURVE, BaseTable, Chosen, Power, HalfSum;
    var i := 2 + parity;
    while i < 64
      invariant 2 + parity <= i <= 64 + parity && i % 2 == parity
      invariant Full(r, Multiple(CURVE, start + HalfSum(digits, parity, i / 2), b))
    {
      var t := ChooseNiels(table, i / 2, digits[i], b);
      RowFactorAbove(i / 2);
      ghost var m, n := start + HalfSum(digits, parity, i / 2), digits[i] * Power(16, 2 * (i / 2));
      AddChosen(r, t, Multiple(CURVE, m, b), Multiple(CURVE, n, b));
      MultipleSum(m, n, b);
      HalfSumStep(digits, parity, i / 2);
      i := i + 2;
    }
  }

  lemma RowFactorAbove(pos: nat)
    ensures pos > 0 ==> RowFactor(pos) == D2
    ensures RowFactor(0) == 2
  {
  }

  lemma HalfSumStep(digits: seq<int>, parity: nat, k: nat)
    requires parity <= 1 && 2 * k + parity < |digits| && |digits| % 2 == 0
    ensures 2 * (k + 1) <= |digits|
    ensures HalfSum(digits, parity, k + 1) == HalfSum(digits, parity, k) + digits[2 * k + parity] * Power(16, 2 * k)
  {
  }

  lemma HalfSumFirst(digits: seq<int>, parity: nat)
    requires parity <= 1 && |digits| >= 2
    ensures HalfSum(digits, parity, 1) == digits[parity] && HalfSum(digits, parity, 0) == 0
    ensures digits[parity] * Power(16, 0) == digits[parity]
  {
  }

  /** r = [s]b for a scalar below 2^255: odd digits, four doublings, even digits. */
  method ScalarMultBase(r: Ge, table: seq<seq<u8>>, s: Modm64.Limbs, ghost b: Point)
    requires CurveFacts() && OnCurve(b) && BaseTable(table, b)
    requires Modm64.Below256(s)
    requires Modm64.Value(s) < 0x8000000000000000000000000000000000000000000000000000000000000000
    modifies r
    ensures Full(r, Multiple(CURVE, Modm64.Value(s), b))
  {
    hide CurveFacts, Full, OnCurve, Plus, Multiple, CURVE, BaseTable, Chosen, Power, HalfSum, Modm64.Value,
      Modm64.Below256, Eval, Times;
    var digits := new i8[64];
    Recode.Window4(digits, s);
    var d := digits[..];
    ghost var odd, even := HalfSum(d, 1, 32), HalfSum(d, 0, 32);
    HalvesMakeWhole(d, 32);
    assert d[..64] == d;
    HalfSumFirst(d, 0);
    HalfSumFirst(d, 1);
    RowFactorAbove(0);
    // odd digits
    var t := ChooseNiels(table, 0, d[1], b);
    StartWith(r, t, Multiple(CURVE, d[1], b));
    AddDigits(r, table, d, 1, b, 0);
    TimesSixteen(r, Multiple(CURVE, odd, b));
    MultipleSum(odd, 0, b);
    // even digits
    t := ChooseNiels(table, 0, d[0], b);
    t := WithFactor(t, Multiple(CURVE, d[0], b));
    AddChosen(r, t, Multiple(CURVE, 16 * odd, b), Multiple(CURVE, d[0], b));
    MultipleSum(16 * odd, d[0], b);
    AddDigits(r, table, d, 0, b, 16 * odd);
  }

  /** Row 0 stores 2xy; the later additions want 2dxy. */
  method WithFactor(t: Niels, ghost q: Point) returns (u: Niels)
    requires TightNiels(t)
    ensures Chosen(t, q, 2) ==> Chosen(u, q, D2)
  {
    PointCodec.FieldConstants();
    FactorD(q);
    hide Sub, Add, Mul, Field64.Elem, OnCurve;
    var t2d := Field64.Mul(t.t2d, PointCodec.ECD);
    u := t.(t2d := t2d);
  }

  lemma FactorD(q: Point)
    ensures Mul(Mul(2, XY(q)), D) == Mul(D2, XY(q))
  {
    hide Mul;
    TwoD();
    Coordinates.Double(D);
    MulAssociates(2, XY(q), D);
    MulCommutes(XY(q), D);
    MulAssociates(2, D, XY(q));
  }
}
