/** The group operations in ten limbs: every chain of additions and subtractions hands the
    multiplier factors it can take, and computes the same formula as in five limbs. */
module Points32 {
  import opened Words
  import opened Field32
  import Fp
  import Edwards
  import opened Coordinates

  /** Extended coordinates, updated in place. */
  class Ge {
    var x: Fe32
    var y: Fe32
    var z: Fe32
    var t: Fe32

    /** The neutral element (0 : 1 : 1 : 0). */
    constructor ()
      ensures x == Small(0) && y == Small(1) && z == Small(1) && t == Small(0)
    {
      x, y, z, t := Small(0), Small(1), Small(1), Small(0);
    }
  }

  /** A constant below 2^26. */
  function Small(n: u32): Fe32 {
    Fe32(n, 0, 0, 0, 0, 0, 0, 0, 0, 0)
  }

  /** A completed point (ge25519_p1p1) and the two cached forms, which live on the stack or in tables. */
  datatype P1P1 = P1P1(x: Fe32, y: Fe32, z: Fe32, t: Fe32)
  datatype Niels = Niels(ysubx: Fe32, xaddy: Fe32, t2d: Fe32)
  datatype PNiels = PNiels(ysubx: Fe32, xaddy: Fe32, z: Fe32, t2d: Fe32)

  ghost function Coord(g: Ge): Ext
    reads g
  {
    Ext(Elem(g.x), Elem(g.y), Elem(g.z), Elem(g.t))
  }

  ghost function CompletedOf(c: P1P1): Completed {
    Completed(Elem(c.x), Elem(c.y), Elem(c.z), Elem(c.t))
  }

  ghost function CachedOf(c: PNiels): Cached {
    Cached(Elem(c.ysubx), Elem(c.xaddy), Elem(c.z), Elem(c.t2d))
  }

  /** A niels entry is a cached point with Z = 1. */
  ghost function CachedOfNiels(c: Niels): Cached {
    Cached(Elem(c.ysubx), Elem(c.xaddy), 1, Elem(c.t2d))
  }

  predicate TightXYZ(g: Ge)
    reads g
  {
    Tight(g.x) && Tight(g.y) && Tight(g.z)
  }

  predicate TightGe(g: Ge)
    reads g
  {
    TightXYZ(g) && Tight(g.t)
  }

  predicate BasicP1P1(c: P1P1) {
    Basic(c.x) && Basic(c.y) && Basic(c.z) && Basic(c.t)
  }

  predicate BasicPNiels(c: PNiels) {
    Basic(c.ysubx) && Basic(c.xaddy) && Tight(c.z) && Tight(c.t2d)
  }

  predicate TightNiels(c: Niels) {
    Tight(c.ysubx) && Tight(c.xaddy) && Tight(c.t2d)
  }

  const EC2D: Fe32 := Fe32(0x02b2f159, 0x01a6e509, 0x022add7a, 0x00d4141d, 0x00038052,
                           0x00f3d130, 0x03407977, 0x019ce331, 0x01c56dff, 0x00901b67)

  lemma Ec2dValue()
    ensures Tight(EC2D) && Elem(EC2D) == D2
  {
    Weights(EC2D.Digits());
    Fp.ResidueOfSmall(D2);
    hide Weigh;
  }

  method P1P1ToPartial(r: Ge, p: P1P1)
    requires BasicP1P1(p)
    modifies r`x, r`y, r`z
    ensures TightXYZ(r)
    ensures Coord(r) == ToFull(CompletedOf(p)).(t := Elem(r.t))
  {
    hide Fp.Mul, Fp.Residue, Elem;
    r.x := Mul(p.x, p.t);
    r.y := Mul(p.y, p.z);
    r.z := Mul(p.z, p.t);
  }

  method P1P1ToFull(r: Ge, p: P1P1)
    requires BasicP1P1(p)
    modifies r
    ensures TightGe(r) && Coord(r) == ToFull(CompletedOf(p))
  {
    hide Fp.Mul, Fp.Residue, Elem;
    r.x := Mul(p.x, p.t);
    r.y := Mul(p.y, p.z);
    r.z := Mul(p.z, p.t);
    r.t := Mul(p.x, p.y);
  }

  method FullToPNiels(r: Ge) returns (p: PNiels)
    requires TightGe(r)
    ensures BasicPNiels(p) && CachedOf(p) == ToCached(Coord(r))
  {
    Ec2dValue();
    hide Fp.Mul, Fp.Add, Fp.Sub, Fp.Residue, Elem;
    var ysubx := Sub(r.y, r.x);
    var xaddy := Add(r.y, r.x);
    var t2d := Mul(r.t, EC2D);
    p := PNiels(ysubx, xaddy, r.z, t2d);
  }

  method AddP1P1(p: Ge, q: Ge) returns (r: P1P1)
    requires TightGe(p) && TightGe(q)
    ensures BasicP1P1(r) && CompletedOf(r) == AddExt(Coord(p), Coord(q))
  {
    Ec2dValue();
    hide Fp.Mul, Fp.Add, Fp.Sub, Fp.Residue, Elem;
    var a := Sub(p.y, p.x);
    var b := Add(p.y, p.x);
    var t := Sub(q.y, q.x);
    var u := Add(q.y, q.x);
    a := Mul(a, t);
    b := Mul(b, u);
    var c := Mul(p.t, q.t);
    c := Mul(c, EC2D);
    var d := Mul(p.z, q.z);
    d := Add(d, d);
    var rx := Sub(b, a);
    var ry := Add(b, a);
    var rz := AddAfterBasic(d, c);
    var rt := SubAfterBasic(d, c);
    r := P1P1(rx, ry, rz, rt);
  }

  method DoubleP1P1(p: Ge) returns (r: P1P1)
    requires TightXYZ(p)
    ensures BasicP1P1(r) && CompletedOf(r) == DoubleExt(Coord(p))
  {
    hide Fp.Mul, Fp.Add, Fp.Sub, Fp.Residue, Elem;
    var a := Square(p.x);
    var b := Square(p.y);
    var c := Square(p.z);
    c := AddReduce(c, c);
    var x := Add(p.x, p.y);
    x := Square(x);
    var y := Add(b, a);
    var z := Sub(b, a);
    x := SubAfterBasic(x, y);
    var t := SubAfterBasic(c, z);
    r := P1P1(x, y, z, t);
  }

  /** Adds (signbit 0) or subtracts (signbit 1) a niels entry. */
  method NielsAdd2P1P1(p: Ge, q: Niels, signbit: u8) returns (r: P1P1)
    requires TightGe(p) && TightNiels(q) && signbit <= 1
    ensures BasicP1P1(r)
    ensures CompletedOf(r) == if signbit
      == 0 then AddCached(Coord(p), CachedOfNiels(q)) else SubCached(Coord(p), CachedOfNiels(q))
  {
    Fp.MulOne(Elem(p.z));
    hide Fp.Mul, Fp.Add, Fp.Sub, Fp.Residue, Elem;
    var qb := [q.ysubx, q.xaddy];
    var a := Sub(p.y, p.x);
    var b := Add(p.y, p.x);
    a := Mul(a, qb[signbit]);
    var x := Mul(b, qb[1 - signbit]);
    var y := Add(x, a);
    x := Sub(x, a);
    var c := Mul(p.t, q.t2d);
    var t := AddReduce(p.z, p.z);
    var z := t;
    var up := Add(t, c);
    var down := Sub(t, c);
    r := if signbit == 0 then P1P1(x, y, up, down) else P1P1(x, y, down, up);
  }

  /** Adds or subtracts a point in projective niels form. */
  method PNielsAddP1P1(p: Ge, q: PNiels, signbit: u8) returns (r: P1P1)
    requires TightGe(p) && BasicPNiels(q) && signbit <= 1
    ensures BasicP1P1(r)
    ensures CompletedOf(r) == if signbit
      == 0 then AddCached(Coord(p), CachedOf(q)) else SubCached(Coord(p), CachedOf(q))
  {
    hide Fp.Mul, Fp.Add, Fp.Sub, Fp.Residue, Elem;
    var qb := [q.ysubx, q.xaddy];
    var a := Sub(p.y, p.x);
    var b := Add(p.y, p.x);
    a := Mul(a, qb[signbit]);
    var x := Mul(b, qb[1 - signbit]);
    var y := Add(x, a);
    x := Sub(x, a);
    var c := Mul(p.t, q.t2d);
    var t := Mul(p.z, q.z);
    t := AddReduce(t, t);
    var up := Add(t, c);
    var down := Sub(t, c);
    r := if signbit == 0 then P1P1(x, y, up, down) else P1P1(x, y, down, up);
  }

  /** r = r + q for a niels entry, with the completed point kept in local variables. */
  method NielsAdd2(r: Ge, q: Niels)
    requires TightGe(r) && TightNiels(q)
    modifies r
    ensures TightGe(r)
    ensures Coord(r) == old(ToFull(AddCached(Coord(r), CachedOfNiels(q))))
  {
    hide Fp.Mul, Fp.Add, Fp.Sub, Fp.Residue, Elem;
    Fp.MulOne(Elem(r.z));
    ghost var e := Coord(r);
    var a := Sub(r.y, r.x);
    var b := Add(r.y, r.x);
    a := Mul(a, q.ysubx);
    var ee := Mul(b, q.xaddy);
    var h := Add(ee, a);
    ee := Sub(ee, a);
    var c := Mul(r.t, q.t2d);
    var f := Add(r.z, r.z);
    var g := AddAfterBasic(f, c);
    f := SubAfterBasic(f, c);
    assert Completed(Elem(ee), Elem(h), Elem(g), Elem(f)) == AddCached(e, CachedOfNiels(q));
    r.x := Mul(ee, f);
    r.y := Mul(h, g);
    r.z := Mul(g, f);
    r.t := Mul(ee, h);
  }

  /** The sum of a point and a cached point, in cached form. */
  method PNielsAdd(p: Ge, q: PNiels) returns (r: PNiels)
    requires TightGe(p) && BasicPNiels(q)
    ensures BasicPNiels(r)
    ensures CachedOf(r) == ToCached(ToFull(AddCached(Coord(p), CachedOf(q))))
  {
    Ec2dValue();
    hide Fp.Mul, Fp.Add, Fp.Sub, Fp.Residue, Elem;
    var a := Sub(p.y, p.x);
    var b := Add(p.y, p.x);
    a := Mul(a, q.ysubx);
    var x := Mul(b, q.xaddy);
    var y := Add(x, a);
    x := Sub(x, a);
    var c := Mul(p.t, q.t2d);
    var t := Mul(p.z, q.z);
    t := Add(t, t);
    var z := AddAfterBasic(t, c);
    t := SubAfterBasic(t, c);
    assert Completed(Elem(x), Elem(y), Elem(z), Elem(t)) == AddCached(Coord(p), CachedOf(q));
    var xaddy := Mul(x, t);
    var ysubx := Mul(y, z);
    var rz := Mul(z, t);
    var t2d := Mul(x, y);
    y := ysubx;
    ghost var full := Ext(Elem(xaddy), Elem(y), Elem(rz), Elem(t2d));
    ysubx := Sub(ysubx, xaddy);
    ghost var rx := Elem(xaddy);
    xaddy := Add(xaddy, y);
    t2d := Mul(t2d, EC2D);
    r := PNiels(ysubx, xaddy, rz, t2d);
    assert Fp.Add(rx, Elem(y)) == Fp.Add(Elem(y), rx) by { Edwards.AddCommutes(rx, Elem(y)); }
    assert full == ToFull(AddCached(Coord(p), CachedOf(q)));
  }
}
