/** Lagrange interpolation at zero, as the reconstruction loops compute it. */
module Lagrange {
  import opened Gf256
  import opened Polynomials

  // ---- finite sums ----

  function Sum(xs: seq<Byte>, f: Byte -> Byte): Byte {
    if xs == [] then 0 else Add(Sum(xs[..|xs| - 1], f), f(xs[|xs| - 1]))
  }

  lemma {:induction false} SumEqual(xs: seq<Byte>, f: Byte -> Byte, g: Byte -> Byte)
    requires forall i :: 0 <= i < |xs| ==> f(xs[i]) == g(xs[i])
    ensures Sum(xs, f) == Sum(xs, g)
    decreases |xs|
  {
    hide Add;
    if xs != [] { SumEqual(xs[..|xs| - 1], f, g); }
  }

  lemma {:induction false} SumCons(b: Byte, xs: seq<Byte>, f: Byte -> Byte)
    ensures Sum([b] + xs, f) == Add(f(b), Sum(xs, f))
    decreases |xs|
  {
    hide Add;
    if xs == [] {
      assert ([b] + xs)[..0] == [];
      AddZero(f(b));
    } else {
      var front := xs[..|xs| - 1];
      assert ([b] + xs)[..|xs|] == [b] + front;
      SumCons(b, front, f);
      AddAssoc(f(b), Sum(front, f), f(xs[|xs| - 1]));
    }
  }

  lemma {:induction false} SumScale(xs: seq<Byte>, k: Byte, f: Byte -> Byte)
    ensures Sum(xs, v => Mul(k, f(v))) == Mul(k, Sum(xs, f))
    decreases |xs|
  {
    hide Add, Mul;
    if xs == [] {
      MulZeroOne(k);
    } else {
      SumScale(xs[..|xs| - 1], k, f);
      MulAddRight(k, Sum(xs[..|xs| - 1], f), f(xs[|xs| - 1]));
    }
  }

  lemma {:induction false} SumPlus(xs: seq<Byte>, f: Byte -> Byte, g: Byte -> Byte)
    ensures Sum(xs, v => Add(f(v), g(v))) == Add(Sum(xs, f), Sum(xs, g))
    decreases |xs|
  {
    hide Add;
    if xs == [] {
      AddZero(0);
    } else {
      var (front, last) := (xs[..|xs| - 1], xs[|xs| - 1]);
      SumPlus(front, f, g);
      AddExchange(Sum(front, f), Sum(front, g), f(last), g(last));
    }
  }

  // ---- the basis at zero ----

  /** One factor of L_v(0): x * (x - v)^-1, skipped at x == v. */
  function Factor(x: Byte, v: Byte): Byte {
    if x == v then 1 else Mul(x, Inv(Add(x, v)))
  }

  function Basis(xs: seq<Byte>, v: Byte): Byte {
    if xs == [] then 1 else Mul(Basis(xs[..|xs| - 1], v), Factor(xs[|xs| - 1], v))
  }

  lemma {:induction false} BasisCons(b: Byte, xs: seq<Byte>, v: Byte)
    ensures Basis([b] + xs, v) == Mul(Basis(xs, v), Factor(b, v))
    decreases |xs|
  {
    hide Mul, Factor;
    if xs == [] {
      assert ([b] + xs)[..0] == [];
    } else {
      var (front, f, g) := (xs[..|xs| - 1], Factor(xs[|xs| - 1], v), Factor(b, v));
      assert ([b] + xs)[..|xs|] == [b] + front;
      BasisCons(b, front, v);
      MulAssoc(Basis(front, v), g, f); MulAssoc(Basis(front, v), f, g); MulComm(f, g);
    }
  }

  predicate Inserted(xs: seq<Byte>, zs: seq<Byte>, a: Byte) {
    xs == zs + [a] || xs == [a] + zs
  }

  lemma BasisInserted(xs: seq<Byte>, zs: seq<Byte>, a: Byte, v: Byte)
    requires Inserted(xs, zs, a)
    ensures Basis(xs, v) == Mul(Basis(zs, v), Factor(a, v))
  {
    hide Mul, Factor;
    if xs == zs + [a] {
      assert xs[..|xs| - 1] == zs;
    } else {
      BasisCons(a, zs, v);
    }
  }

  lemma InsertedDiffers(xs: seq<Byte>, zs: seq<Byte>, a: Byte, i: nat)
    requires Inserted(xs, zs, a) && Distinct(xs) && i < |zs|
    ensures zs[i] != a
  {
    if xs == zs + [a] {
      assert xs[i] == zs[i] && xs[|zs|] == a;
    } else {
      assert xs[i + 1] == zs[i] && xs[0] == a;
    }
  }

  lemma SumInserted(xs: seq<Byte>, zs: seq<Byte>, a: Byte, f: Byte -> Byte)
    requires Inserted(xs, zs, a)
    ensures Sum(xs, f) == Add(Sum(zs, f), f(a))
  {
    hide Add;
    if xs == zs + [a] {
      assert xs[..|xs| - 1] == zs;
    } else {
      SumCons(a, zs, f);
      AddComm(f(a), Sum(zs, f));
    }
  }

  /** The Lagrange combination at zero of the values of `c` on `xs`. */
  function AtZero(xs: seq<Byte>, c: Poly): Byte {
    Sum(xs, v => Mul(Eval(c, v), Basis(xs, v)))
  }

  /** A factor (v + a) in the values cancels the point `a` out of the combination. */
  lemma Removed(xs: seq<Byte>, zs: seq<Byte>, a: Byte, q: Poly)
    requires Inserted(xs, zs, a) && Distinct(xs)
    ensures Sum(xs, v => Mul(Mul(Add(v, a), Eval(q, v)), Basis(xs, v))) == Mul(a, AtZero(zs, q))
  {
    hide Add, Mul, Basis;
    var f := v => Mul(Mul(Add(v, a), Eval(q, v)), Basis(xs, v));
    var g := v => Mul(Eval(q, v), Basis(zs, v));
    var h := v => Mul(a, g(v));
    SumInserted(xs, zs, a, f);
    assert f(a) == 0 by {
      AddZero(a); ZeroOneMul(Eval(q, a)); ZeroOneMul(Basis(xs, a));
    }
    AddZero(Sum(zs, f));
    forall i | 0 <= i < |zs| ensures f(zs[i]) == h(zs[i]) {
      var v := zs[i];
      InsertedDiffers(xs, zs, a, i);
      BasisInserted(xs, zs, a, v);
      CancelPoint(v, a, Eval(q, v), Basis(zs, v));
    }
    SumEqual(zs, f, h);
    SumScale(zs, a, g);
  }

  lemma CancelPoint(v: Byte, a: Byte, e: Byte, b: Byte)
    requires v != a
    ensures Mul(Mul(Add(v, a), e), Mul(b, Factor(a, v))) == Mul(a, Mul(e, b))
  {
    hide Add, Mul, Inv;
    var (d, i) := (Add(a, v), Inv(Add(a, v)));
    AddComm(v, a); AddNonZero(a, v); InvMul(d);
    // (d*e) * (b*(a*i))  ==  (e*b) * (d*(a*i))  ==  (e*b) * a
    MulComm(d, e); MulAssoc(e, d, Mul(b, Mul(a, i)));
    MulAssoc(d, b, Mul(a, i)); MulComm(d, b); MulAssoc(b, d, Mul(a, i));
    MulAssoc(e, b, Mul(d, Mul(a, i)));
    MulComm(a, i); MulAssoc(d, i, a); ZeroOneMul(a);
    MulComm(a, Mul(e, b));
  }

  /** The basis sums to one. */
  lemma {:induction false} Unity(xs: seq<Byte>)
    requires xs != [] && Distinct(xs)
    ensures AtZero(xs, [1]) == 1
    decreases |xs|
  {
    hide Add, Mul, Basis;
    var f := v => Mul(Eval([1], v), Basis(xs, v));
    if |xs| == 1 {
      var v := xs[0];
      EvalOne(v);
      assert Sum(xs[..0], f) == 0;
      BasisInserted(xs, [], v, v);
      assert Basis([], v) == 1 by { BasisEmpty(v); }
      ZeroOneMul(1); AddZero(1);
    } else {
      var (a, b) := (xs[|xs| - 1], xs[0]);
      var (ya, yb) := (xs[..|xs| - 1], xs[1..]);
      assert xs == ya + [a] && xs == [b] + yb;
      Unity(ya); Unity(yb);
      Removed(xs, ya, a, [1]); Removed(xs, yb, b, [1]);
      var fa := v => Mul(Mul(Add(v, a), Eval([1], v)), Basis(xs, v));
      var fb := v => Mul(Mul(Add(v, b), Eval([1], v)), Basis(xs, v));
      SumPlus(xs, fa, fb);
      var s := v => Add(fa(v), fb(v));
      var t := v => Mul(Add(a, b), f(v));
      forall i | 0 <= i < |xs| ensures s(xs[i]) == t(xs[i]) {
        Difference(xs[i], a, b, Eval([1], xs[i]), Basis(xs, xs[i]));
      }
      SumEqual(xs, s, t);
      SumScale(xs, Add(a, b), f);
      MulZeroOne(a); MulZeroOne(b); MulZeroOne(Add(a, b));
      AddNonZero(a, b);
      Cancel(Add(a, b), Sum(xs, f), 1);
    }
  }

  lemma BasisEmpty(v: Byte)
    ensures Basis([], v) == 1
  {}

  lemma EvalOne(v: Byte)
    ensures Eval([1], v) == 1
  {
    hide Add, Mul;
    MulZeroOne(v); AddZero(1);
    assert Eval([1][1..], v) == 0;
  }

  lemma Difference(v: Byte, a: Byte, b: Byte, e: Byte, w: Byte)
    ensures Add(Mul(Mul(Add(v, a), e), w), Mul(Mul(Add(v, b), e), w)) == Mul(Add(a, b), Mul(e, w))
  {
    hide Add, Mul;
    MulAssoc(Add(v, a), e, w); MulAssoc(Add(v, b), e, w);
    MulAddLeft(Add(v, a), Add(v, b), Mul(e, w));
    AddComm(v, a); AddAssoc(a, v, Add(v, b)); AddCancel(v, b);
  }

  /** Interpolation at zero: the combination of a polynomial's values is its constant term. */
  lemma {:induction false} AtZeroIsConstant(xs: seq<Byte>, c: Poly)
    requires xs != [] && Distinct(xs) && |c| <= |xs|
    ensures AtZero(xs, c) == Eval(c, 0)
    decreases |xs|
  {
    hide Add, Mul, Basis;
    var (a, zs) := (xs[|xs| - 1], xs[..|xs| - 1]);
    var (p, q) := (Eval(c, a), Quotient(c, a));
    assert xs == zs + [a];
    var f := v => Mul(Eval(c, v), Basis(xs, v));
    var u := v => Mul(Eval([1], v), Basis(xs, v));
    var g := v => Mul(p, u(v));
    var h := v => Mul(Mul(Add(v, a), Eval(q, v)), Basis(xs, v));
    var s := v => Add(g(v), h(v));
    forall i | 0 <= i < |xs| ensures f(xs[i]) == s(xs[i]) {
      var v := xs[i];
      Divide(c, a, v); EvalOne(v); ZeroOneMul(Basis(xs, v));
      MulAddLeft(p, Mul(Add(v, a), Eval(q, v)), Basis(xs, v));
    }
    SumEqual(xs, f, s);
    SumPlus(xs, g, h);
    SumScale(xs, p, u);
    Unity(xs); MulZeroOne(p);
    Removed(xs, zs, a, q);
    Divide(c, a, 0); AddZero(a);
    if zs != [] {
      AtZeroIsConstant(zs, q);
    } else {
      assert q == [];
    }
  }
}
