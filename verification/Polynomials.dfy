/** Polynomials over GF(2^8), as coefficient sequences with the constant term first. */
module Polynomials {
  import opened Gf256

  type Poly = seq<Byte>

  /** Horner evaluation. */
  function Eval(c: Poly, x: Byte): Byte {
    if c == [] then 0 else Add(c[0], Mul(x, Eval(c[1..], x)))
  }

  predicate Distinct(xs: seq<Byte>) {
    forall i, j :: 0 <= i < j < |xs| ==> xs[i] != xs[j]
  }

  predicate AllZero(c: Poly) {
    forall i :: 0 <= i < |c| ==> c[i] == 0
  }

  // ---- consequences of the field laws ----

  lemma Cancel(k: Byte, a: Byte, b: Byte)
    requires k != 0 && Mul(k, a) == Mul(k, b)
    ensures a == b
  {
    hide Mul, Inv;
    InvMul(k);
    MulComm(k, Inv(k));
    MulAssoc(Inv(k), k, a); MulAssoc(Inv(k), k, b);
    ZeroOneMul(a); ZeroOneMul(b);
  }

  lemma AddNonZero(a: Byte, b: Byte)
    requires a != b
    ensures Add(a, b) != 0
  {
    hide Add;
    AddCancel(a, b);
  }

  // ---- division by X + a ----

  function Quotient(c: Poly, a: Byte): (q: Poly)
    ensures |q| == if |c| == 0 then 0 else |c| - 1
  {
    if |c| <= 1 then [] else [Eval(c[1..], a)] + Quotient(c[1..], a)
  }

  /** The factor theorem: P(x) == P(a) + (x + a) * Q(x). */
  lemma {:induction false} Divide(c: Poly, a: Byte, x: Byte)
    ensures Eval(c, x) == Add(Eval(c, a), Mul(Add(x, a), Eval(Quotient(c, a), x)))
    decreases |c|
  {
    hide Add, Mul;
    var q := Quotient(c, a);
    if |c| <= 1 {
      MulZeroOne(x); MulZeroOne(a); MulZeroOne(Add(x, a));
      if |c| == 1 {
        assert Eval(c[1..], x) == 0;
        assert Eval(c[1..], a) == 0;
        AddZero(c[0]);
      } else {
        AddZero(0);
      }
    } else {
      var (r, s, u) := (Eval(c[1..], a), Eval(Quotient(c[1..], a), x), Add(x, a));
      Divide(c[1..], a, x);
      assert q[0] == r && q[1..] == Quotient(c[1..], a);
      // x * (r + u*s)  ==  a*r + u * (r + x*s)
      MulAddRight(x, r, Mul(u, s));
      MulAddRight(u, r, Mul(x, s));
      MulAssoc(x, u, s); MulAssoc(u, x, s); MulComm(x, u);
      MulAddLeft(x, a, r);
      AddComm(Mul(x, r), Mul(a, r));
      AddAssoc(Mul(a, r), Mul(x, r), Mul(u, Mul(x, s)));
      AddAssoc(Mul(a, r), Add(Mul(a, r), Mul(x, r)), Mul(u, Mul(x, s)));
      AddCancel(Mul(a, r), Mul(x, r));
      AddAssoc(c[0], Mul(a, r), Mul(u, Eval(q, x)));
    }
  }

  lemma {:induction false} QuotientZero(c: Poly, a: Byte)
    requires AllZero(Quotient(c, a))
    ensures |c| > 0 ==> AllZero(c[1..])
    decreases |c|
  {
    hide Add, Mul;
    if |c| > 1 {
      var q := Quotient(c, a);
      assert q[1..] == Quotient(c[1..], a);
      QuotientZero(c[1..], a);
      EvalZero(c[1..][1..], a);
      MulZeroOne(a); AddZero(c[1]);
      assert q[0] == c[1];
    }
  }

  lemma {:induction false} EvalZero(c: Poly, x: Byte)
    requires AllZero(c)
    ensures Eval(c, x) == 0
    decreases |c|
  {
    hide Add, Mul;
    if |c| > 0 {
      EvalZero(c[1..], x);
      MulZeroOne(x); AddZero(0);
    }
  }

  /** A polynomial of degree below the number of its distinct roots is zero. */
  lemma {:induction false} RootBound(c: Poly, xs: seq<Byte>)
    requires Distinct(xs) && |c| <= |xs|
    requires forall i :: 0 <= i < |xs| ==> Eval(c, xs[i]) == 0
    ensures AllZero(c)
    decreases |c|
  {
    hide Add, Mul;
    if |c| > 0 {
      var a := xs[0];
      var q := Quotient(c, a);
      forall i | 0 <= i < |xs[1..]| ensures Eval(q, xs[1..][i]) == 0 {
        var x := xs[i + 1];
        Divide(c, a, x);
        AddNonZero(x, a);
        AddZero(Mul(Add(x, a), Eval(q, x)));
        MulZeroOne(Add(x, a));
        Cancel(Add(x, a), Eval(q, x), 0);
      }
      RootBound(q, xs[1..]);
      QuotientZero(c, a);
      EvalZero(c[1..], a);
      MulZeroOne(a); AddZero(c[0]);
    }
  }

  function Plus(c: Poly, d: Poly): (r: Poly)
    requires |c| == |d|
    ensures |r| == |c|
  {
    seq(|c|, i requires 0 <= i < |c| => Add(c[i], d[i]))
  }

  lemma {:induction false} EvalPlus(c: Poly, d: Poly, x: Byte)
    requires |c| == |d|
    ensures Eval(Plus(c, d), x) == Add(Eval(c, x), Eval(d, x))
    decreases |c|
  {
    hide Add, Mul;
    if |c| == 0 {
      AddZero(0);
    } else {
      assert Plus(c, d)[1..] == Plus(c[1..], d[1..]);
      EvalPlus(c[1..], d[1..], x);
      MulAddRight(x, Eval(c[1..], x), Eval(d[1..], x));
      AddExchange(c[0], d[0], Mul(x, Eval(c[1..], x)), Mul(x, Eval(d[1..], x)));
    }
  }

  /** Uniqueness of interpolation. */
  lemma SameValues(c: Poly, d: Poly, xs: seq<Byte>)
    requires |c| == |d| <= |xs| && Distinct(xs)
    requires forall i :: 0 <= i < |xs| ==> Eval(c, xs[i]) == Eval(d, xs[i])
    ensures c == d
  {
    hide Add, Mul;
    forall i | 0 <= i < |xs| ensures Eval(Plus(c, d), xs[i]) == 0 {
      EvalPlus(c, d, xs[i]);
      AddZero(Eval(c, xs[i]));
    }
    RootBound(Plus(c, d), xs);
    forall i | 0 <= i < |c| ensures c[i] == d[i] {
      assert Plus(c, d)[i] == 0;
      AddCancel(c[i], d[i]);
    }
  }

  // ---- existence of interpolation ----

  /** The coefficients of y + (X + a) * Q. */
  function TimesLinear(q: Poly, a: Byte, y: Byte): (r: Poly)
    ensures |r| == |q| + 1
  {
    if q == [] then [y] else [Add(y, Mul(a, q[0]))] + TimesLinear(q[1..], a, q[0])
  }

  lemma {:induction false} EvalTimesLinear(q: Poly, a: Byte, y: Byte, x: Byte)
    ensures Eval(TimesLinear(q, a, y), x) == Add(y, Mul(Add(x, a), Eval(q, x)))
    decreases |q|
  {
    hide Add, Mul;
    var r := TimesLinear(q, a, y);
    if q == [] {
      assert Eval(r[1..], x) == 0;
      MulZeroOne(x); MulZeroOne(Add(x, a));
    } else {
      assert r[1..] == TimesLinear(q[1..], a, q[0]);
      EvalTimesLinear(q[1..], a, q[0], x);
      var (h, s, u) := (q[0], Eval(q[1..], x), Add(x, a));
      // (y + a*h) + x*(h + u*s)  ==  y + u*(h + x*s)
      MulAddRight(x, h, Mul(u, s)); MulAddRight(u, h, Mul(x, s));
      MulAssoc(x, u, s); MulAssoc(u, x, s); MulComm(x, u);
      MulAddLeft(x, a, h); AddComm(Mul(x, h), Mul(a, h));
      AddAssoc(Mul(a, h), Mul(x, h), Mul(u, Mul(x, s)));
      AddAssoc(y, Mul(a, h), Add(Mul(x, h), Mul(u, Mul(x, s))));
    }
  }

  /** The polynomial with |xs| coefficients through the points (xs[i], ys[i]), one point at a time. */
  function Interpolate(xs: seq<Byte>, ys: seq<Byte>): (c: Poly)
    requires |xs| == |ys|
    ensures |c| == |xs|
    decreases |xs|
  {
    if xs == [] then []
    else
      var rest := seq(|xs| - 1, i requires 0 <= i < |xs| - 1 =>
        Mul(Inv(Add(xs[i + 1], xs[0])), Add(ys[i + 1], ys[0])));
      TimesLinear(Interpolate(xs[1..], rest), xs[0], ys[0])
  }

  /** Existence of interpolation. */
  lemma {:induction false} InterpolateMeets(xs: seq<Byte>, ys: seq<Byte>, k: nat)
    requires |xs| == |ys| && Distinct(xs) && k < |xs|
    ensures Eval(Interpolate(xs, ys), xs[k]) == ys[k]
    decreases |xs|
  {
    hide Add, Mul, Inv;
    var rest := seq(|xs| - 1, i requires 0 <= i < |xs| - 1 =>
      Mul(Inv(Add(xs[i + 1], xs[0])), Add(ys[i + 1], ys[0])));
    var q := Interpolate(xs[1..], rest);
    var (a, x) := (xs[0], xs[k]);
    assert Interpolate(xs, ys) == TimesLinear(q, a, ys[0]);
    EvalTimesLinear(q, a, ys[0], x);
    if k == 0 {
      AddZero(x); ZeroOneMul(Eval(q, x)); AddZero(ys[0]);
    } else {
      InterpolateMeets(xs[1..], rest, k - 1);
      var (d, w) := (Add(x, a), Add(ys[k], ys[0]));
      assert Eval(q, x) == Mul(Inv(d), w);
      AddNonZero(x, a);
      InvMul(d); MulAssoc(d, Inv(d), w); ZeroOneMul(w);
      AddComm(ys[k], ys[0]); AddCancel(ys[0], ys[k]);
    }
  }
}
