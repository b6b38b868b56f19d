/** Points of the curve in limbs: the group operations of the implementation, each
    shown to compute its formula on field elements and to keep its limb bounds. */
module Points {
  import opened Words
  import opened Field64
  import Fp
  import Edwards
  import opened Coordinates

  /** Extended coordinates, updated in place. */
  class Ge {
    var x: Fe
    var y: Fe
    var z: Fe
    var t: Fe

    /** The neutral element (0 : 1 : 1 : 0). */
    constructor ()
      ensures x == Small(0) && y == Small(1) && z == Small(1) && t == Small(0)
    {
      x, y, z, t := Small(0), Small(1), Small(1), Small(0);
    }

    function Limbs(): GeLimbs
      reads this
    {
      GeLimbs(x, y, z, t)
    }

    method Load(v: GeLimbs)
      modifies this
      ensures Limbs() == v
    {
      x, y, z, t := v.x, v.y, v.z, v.t;
    }
  }

  /** The same coordinates as an element of an array of points. */
  datatype GeLimbs = GeLimbs(x: Fe, y: Fe, z: Fe, t: Fe)

  /** A constant below 2^51. */
  function Small(n: u64): Fe {
    Fe(n, 0, 0, 0, 0)
  }

  lemma SmallElem(n: u64)
    requires n < 0x8000000000000
    ensures Tight(Small(n)) && Elem(Small(n)) == n
  {
    assert Value(Small(n)) == n;
  }

  /** A completed point (ge25519_p1p1) and the two cached forms, which live on the stack or in tables. */
  datatype P1P1 = P1P1(x: Fe, y: Fe, z: Fe, t: Fe)
  datatype Niels = Niels(ysubx: Fe, xaddy: Fe, t2d: Fe)
  datatype PNiels = PNiels(ysubx: Fe, xaddy: Fe, z: Fe, t2d: Fe)

  ghost function Coord(g: Ge): Ext
    reads g
  {
    Ext(Elem(g.x), Elem(g.y), Elem(g.z), Elem(g.t))
  }

  ghost function CompletedOf(c: P1P1): Completed {
    Completed(Elem(c.x), Elem(c.y), Elem(c.z), Elem(c.t))
  }

  ghost function CachedOf(c: PNiels): Cached {
    Cached(Elem(c.ysubx), Elem(c.xaddy), Elem(c.z), Elem(c.t2d))
  }

  /** A niels entry is a cached point with Z = 1. */
  ghost function CachedOfNiels(c: Niels): Cached {
    Cached(Elem(c.ysubx), Elem(c.xaddy), 1, Elem(c.t2d))
  }

  predicate TightXYZ(g: Ge)
    reads g
  {
    Tight(g.x) && Tight(g.y) && Tight(g.z)
  }

  predicate TightGe(g: Ge)
    reads g
  {
    TightXYZ(g) && Tight(g.t)
  }

  predicate LooseP1P1(c: P1P1) {
    Loose(c.x) && Loose(c.y) && Loose(c.z) && Loose(c.t)
  }

  predicate LoosePNiels(c: PNiels) {
    Loose(c.ysubx) && Loose(c.xaddy) && Tight(c.z) && Tight(c.t2d)
  }

  predicate TightNiels(c: Niels) {
    Tight(c.ysubx) && Tight(c.xaddy) && Tight(c.t2d)
  }

  const EC2D: Fe := Fe(0x00069b9426b2f159, 0x00035050762add7a, 0x0003cf44c0038052, 0x0006738cc7407977,
    0x0002406d9dc56dff)

  lemma Ec2dValue()
    ensures Tight(EC2D) && Elem(EC2D) == D2
  {
  }

  method P1P1ToPartial(r: Ge, p: P1P1)
    requires LooseP1P1(p)
    modifies r`x, r`y, r`z
    ensures TightXYZ(r)
    ensures Coord(r) == ToFull(CompletedOf(p)).(t := Elem(r.t))
  {
    hide Fp.Mul, Fp.Residue, Elem;
    r.x := Mul(p.x, p.t);
    r.y := Mul(p.y, p.z);
    r.z := Mul(p.z, p.t);
  }

  method P1P1ToFull(r: Ge, p: P1P1)
    requires LooseP1P1(p)
    modifies r
    ensures TightGe(r) && Coord(r) == ToFull(CompletedOf(p))
  {
    hide Fp.Mul, Fp.Residue, Elem;
    r.x := Mul(p.x, p.t);
    r.y := Mul(p.y, p.z);
    r.z := Mul(p.z, p.t);
    r.t := Mul(p.x, p.y);
  }

  method FullToPNiels(r: Ge) returns (p: PNiels)
    requires TightGe(r)
    ensures LoosePNiels(p) && CachedOf(p) == ToCached(Coord(r))
  {
    Ec2dValue();
    hide Fp.Mul, Fp.Add, Fp.Sub, Fp.Residue, Elem;
    var ysubx := Sub(r.y, r.x);
    var xaddy := Add(r.y, r.x);
    var t2d := Mul(r.t, EC2D);
    p := PNiels(ysubx, xaddy, r.z, t2d);
  }

  method AddP1P1(p: Ge, q: Ge) returns (r: P1P1)
    requires TightGe(p) && TightGe(q)
    ensures LooseP1P1(r) && CompletedOf(r) == AddExt(Coord(p), Coord(q))
  {
    Ec2dValue();
    hide Fp.Mul, Fp.Add, Fp.Sub, Fp.Residue, Elem;
    var a := Sub(p.y, p.x);
    var b := Add(p.y, p.x);
    var t := Sub(q.y, q.x);
    var u := Add(q.y, q.x);
    a := Mul(a, t);
    b := Mul(b, u);
    var c := Mul(p.t, q.t);
    c := Mul(c, EC2D);
    var d := Mul(p.z, q.z);
    d := Add(d, d);
    var rx := Sub(b, a);
    var ry := Add(b, a);
    var rz := AddAfterBasic(d, c);
    var rt := SubAfterBasic(d, c);
    r := P1P1(rx, ry, rz, rt);
  }

  method DoubleP1P1(p: Ge) returns (r: P1P1)
    requires TightXYZ(p)
    ensures LooseP1P1(r) && CompletedOf(r) == DoubleExt(Coord(p))
  {
    hide Fp.Mul, Fp.Add, Fp.Sub, Fp.Residue, Elem;
    var a := Square(p.x);
    var b := Square(p.y);
    var c := Square(p.z);
    c := AddReduce(c, c);
    var x := Add(p.x, p.y);
    x := Square(x);
    var y := Add(b, a);
    var z := Sub(b, a);
    x := SubAfterBasic(x, y);
    var t := SubAfterBasic(c, z);
    r := P1P1(x, y, z, t);
  }

  /** Adds (signbit 0) or subtracts (signbit 1) a niels entry. */
  method NielsAdd2P1P1(p: Ge, q: Niels, signbit: u8) returns (r: P1P1)
    requires TightGe(p) && TightNiels(q) && signbit <= 1
    ensures LooseP1P1(r)
    ensures CompletedOf(r) == if signbit
      == 0 then AddCached(Coord(p), CachedOfNiels(q)) else SubCached(Coord(p), CachedOfNiels(q))
  {
    Fp.MulOne(Elem(p.z));
    hide Fp.Mul, Fp.Add, Fp.Sub, Fp.Residue, Elem;
    var qb := [q.ysubx, q.xaddy];
    var a := Sub(p.y, p.x);
    var b := Add(p.y, p.x);
    a := Mul(a, qb[signbit]);
    var x := Mul(b, qb[1 - signbit]);
    var y := Add(x, a);
    x := Sub(x, a);
    var c := Mul(p.t, q.t2d);
    var t := AddReduce(p.z, p.z);
    var z := t;
    var up := Add(t, c);
    var down := Sub(t, c);
    r := if signbit == 0 then P1P1(x, y, up, down) else P1P1(x, y, down, up);
  }

  /** Adds or subtracts a point in projective niels form. */
  method PNielsAddP1P1(p: Ge, q: PNiels, signbit: u8) returns (r: P1P1)
    requires TightGe(p) && LoosePNiels(q) && signbit <= 1
    ensures LooseP1P1(r)
    ensures CompletedOf(r) == if signbit
      == 0 then AddCached(Coord(p), CachedOf(q)) else SubCached(Coord(p), CachedOf(q))
  {
    hide Fp.Mul, Fp.Add, Fp.Sub, Fp.Residue, Elem;
    var qb := [q.ysubx, q.xaddy];
    var a := Sub(p.y, p.x);
    var b := Add(p.y, p.x);
    a := Mul(a, qb[signbit]);
    var x := Mul(b, qb[1 - signbit]);
    var y := Add(x, a);
    x := Sub(x, a);
    var c := Mul(p.t, q.t2d);
    var t := Mul(p.z, q.z);
    t := AddReduce(t, t);
    var up := Add(t, c);
    var down := Sub(t, c);
    r := if signbit == 0 then P1P1(x, y, up, down) else P1P1(x, y, down, up);
  }

  method DoublePartial(r: Ge, p: Ge)
    requires TightXYZ(p)
    modifies r`x, r`y, r`z
    ensures TightXYZ(r)
    ensures Coord(r) == old(ToFull(DoubleExt(Coord(p))).(t := Elem(r.t)))
  {
    hide Elem, DoubleExt, ToFull;
    var t := DoubleP1P1(p);
    P1P1ToPartial(r, t);
  }

  /** r = 2p; r may be p. */
  method Double(r: Ge, p: Ge)
    requires TightXYZ(p)
    modifies r
    ensures TightGe(r)
    ensures Coord(r) == old(ToFull(DoubleExt(Coord(p))))
  {
    hide Elem, DoubleExt, ToFull;
    var t := DoubleP1P1(p);
    P1P1ToFull(r, t);
  }

  /** r = p + q; r may be either operand. */
  method AddPoints(r: Ge, p: Ge, q: Ge)
    requires TightGe(p) && TightGe(q)
    modifies r
    ensures TightGe(r)
    ensures Coord(r) == old(ToFull(AddExt(Coord(p), Coord(q))))
  {
    hide Elem, AddExt, ToFull;
    var t := AddP1P1(p, q);
    P1P1ToFull(r, t);
  }

  /** r = r + q for a niels entry, with the completed point kept in local variables. */
  method NielsAdd2(r: Ge, q: Niels)
    requires TightGe(r) && TightNiels(q)
    modifies r
    ensures TightGe(r)
    ensures Coord(r) == old(ToFull(AddCached(Coord(r), CachedOfNiels(q))))
  {
    hide Fp.Mul, Fp.Add, Fp.Sub, Fp.Residue, Elem;
    Fp.MulOne(Elem(r.z));
    ghost var e := Coord(r);
    var a := Sub(r.y, r.x);
    var b := Add(r.y, r.x);
    a := Mul(a, q.ysubx);
    var ee := Mul(b, q.xaddy);
    var h := Add(ee, a);
    ee := Sub(ee, a);
    var c := Mul(r.t, q.t2d);
    var f := Add(r.z, r.z);
    var g := AddAfterBasic(f, c);
    f := SubAfterBasic(f, c);
    assert Completed(Elem(ee), Elem(h), Elem(g), Elem(f)) == AddCached(e, CachedOfNiels(q));
    r.x := Mul(ee, f);
    r.y := Mul(h, g);
    r.z := Mul(g, f);
    r.t := Mul(ee, h);
  }

  /** The sum of a point and a cached point, in cached form. */
  method PNielsAdd(p: Ge, q: PNiels) returns (r: PNiels)
    requires TightGe(p) && LoosePNiels(q)
    ensures LoosePNiels(r)
    ensures CachedOf(r) == ToCached(ToFull(AddCached(Coord(p), CachedOf(q))))
  {
    Ec2dValue();
    hide Fp.Mul, Fp.Add, Fp.Sub, Fp.Residue, Elem;
    var a := Sub(p.y, p.x);
    var b := Add(p.y, p.x);
    a := Mul(a, q.ysubx);
    var x := Mul(b, q.xaddy);
    var y := Add(x, a);
    x := Sub(x, a);
    var c := Mul(p.t, q.t2d);
    var t := Mul(p.z, q.z);
    t := Add(t, t);
    var z := AddAfterBasic(t, c);
    t := SubAfterBasic(t, c);
    assert Completed(Elem(x), Elem(y), Elem(z), Elem(t)) == AddCached(Coord(p), CachedOf(q));
    var xaddy := Mul(x, t);
    var ysubx := Mul(y, z);
    var rz := Mul(z, t);
    var t2d := Mul(x, y);
    y := ysubx;
    ghost var full := Ext(Elem(xaddy), Elem(y), Elem(rz), Elem(t2d));
    ysubx := Sub(ysubx, xaddy);
    ghost var rx := Elem(xaddy);
    xaddy := Add(xaddy, y);
    t2d := Mul(t2d, EC2D);
    r := PNiels(ysubx, xaddy, rz, t2d);
    assert Fp.Add(rx, Elem(y)) == Fp.Add(Elem(y), rx) by { Edwards.AddCommutes(rx, Elem(y)); }
    assert full == ToFull(AddCached(Coord(p), CachedOf(q)));
  }
}
