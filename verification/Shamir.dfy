/** Byte-wise Shamir sharing over GF(2^8): the dealer's split and the Lagrange reconstruction. */
module Shamir {
  import opened Outcomes
  import opened Gf256
  import opened Polynomials
  import opened Lagrange

  /** A share: its evaluation point and one byte per secret byte. */
  datatype Share = Share(x: int, y: seq<Byte>)

  datatype Error =
    | InverseOfZero
    | BadThreshold
    | BadShareCount
    | WrongPointCount
    | DuplicatePoints
    | PointOutOfRange
    | BadCoefficientLength
    | NoShares
    | UnequalLengths
    | ShareOutOfRange

  // ---- the field loops ----

  method GMul(a0: Byte, b0: Byte) returns (p: Byte)
    ensures p == Mul(a0, b0)
  {
    hide Add, Xtime, Odd, Half;
    var a, b, i := a0, b0, 0;
    p := 0;
    AddZero(Rounds(a, b, 8));
    while i < 8
      invariant 0 <= i <= 8
      invariant Add(p, Rounds(a, b, 8 - i)) == Mul(a0, b0)
    {
      AddAssoc(p, a, Rounds(Xtime(a), Half(b), 7 - i));
      if Odd(b) {
        p := Add(p, a);
      }
      a := Xtime(a);
      b := Half(b);
      i := i + 1;
    }
    AddZero(p);
  }

  method GPow(a: Byte, e: nat) returns (result: Byte)
    ensures result == Pow(a, e)
  {
    hide Mul;
    var base, ee := a, e;
    result := 1;
    ZeroOneMul(Pow(a, e));
    while ee > 0
      invariant Mul(result, Pow(base, ee)) == Pow(a, e)
    {
      PowSquare(base, ee / 2);
      MulAssoc(result, base, Pow(base, ee - 1));
      assert ee % 2 == 1 ==> Pow(base, ee) == Mul(base, Pow(base, ee - 1));
      if ee % 2 == 1 {
        result := GMul(result, base);
      }
      base := GMul(base, base);
      ee := ee / 2;
    }
    MulZeroOne(result);
  }

  method GInv(a: Byte) returns (r: Result<Byte, Error>)
    ensures a == 0 ==> r == Err(InverseOfZero)
    ensures a != 0 ==> r.Ok? && r.value == Inv(a) && Mul(a, r.value) == 1
  {
    hide Mul;
    if a == 0 {
      return Err(InverseOfZero);
    }
    var result: Byte, base, e := 1, a, 254;
    ZeroOneMul(Pow(a, 254));
    while e > 0
      invariant e >= 0
      invariant Mul(result, Pow(base, e)) == Pow(a, 254)
    {
      PowSquare(base, e / 2);
      MulAssoc(result, base, Pow(base, e - 1));
      assert e % 2 == 1 ==> Pow(base, e) == Mul(base, Pow(base, e - 1));
      if e % 2 == 1 {
        result := GMul(result, base);
      }
      base := GMul(base, base);
      e := e / 2;
    }
    MulZeroOne(result);
    InvMul(a);
    r := Ok(result);
  }

  // ---- the split ----

  predicate NoDuplicates(xs: seq<int>) {
    forall i, j :: 0 <= i < j < |xs| ==> xs[i] != xs[j]
  }

  predicate InRange(xs: seq<int>) {
    forall i :: 0 <= i < |xs| ==> 1 <= xs[i] <= 255
  }

  function Points(xs: seq<int>): (bs: seq<Byte>)
    requires InRange(xs)
    ensures |bs| == |xs|
  {
    seq(|xs|, i requires 0 <= i < |xs| => ByteOf(xs[i]))
  }

  lemma PointsDistinct(xs: seq<int>)
    requires InRange(xs) && NoDuplicates(xs)
    ensures Distinct(Points(xs)) && 0 !in Points(xs)
  {
    forall i | 0 <= i < |xs| ensures Points(xs)[i] as int == xs[i] {}
    forall i, j | 0 <= i < j < |xs| ensures Points(xs)[i] != Points(xs)[j] {
      assert Points(xs)[i] as int != Points(xs)[j] as int;
    }
    assert 0 as Byte as int == 0;
  }

  /** A JavaScript `new Set(xs).size` equals the length exactly when nothing repeats. */
  lemma {:induction false} SetSize(xs: seq<int>)
    ensures |set x | x in xs| <= |xs|
    ensures |set x | x in xs| == |xs| <==> NoDuplicates(xs)
  {
    var all := set x | x in xs;
    if xs == [] {
      assert all == {};
    } else {
      var (front, last) := (xs[..|xs| - 1], xs[|xs| - 1]);
      var rest := set x | x in front;
      SetSize(front);
      assert xs == front + [last];
      assert all == rest + {last};
      if last in front {
        assert all == rest;
      }
    }
  }

  function DefaultPoints(n: int): (xs: seq<int>)
    requires n >= 0
    ensures |xs| == n && NoDuplicates(xs) && (n <= 255 ==> InRange(xs))
  {
    seq(n, i requires 0 <= i < n => i + 1)
  }

  /** The coefficients of secret byte `j`: the byte itself, then one byte of every coefficient vector. */
  function Column(secret: seq<Byte>, coeffs: seq<seq<Byte>>, j: nat): (c: Poly)
    requires j < |secret|
    requires AllOfLength(coeffs, |secret|)
    ensures |c| == |coeffs| + 1 && Eval(c, 0) == secret[j]
  {
    var c := [secret[j]] + seq(|coeffs|, d requires 0 <= d < |coeffs| => coeffs[d][j]);
    ConstantTerm(c);
    c
  }

  lemma ConstantTerm(c: Poly)
    requires c != []
    ensures Eval(c, 0) == c[0]
  {
    hide Add, Mul;
    ZeroOneMul(Eval(c[1..], 0)); AddZero(c[0]);
  }

  /** `s` is the share at point `x` of the dealing (secret, coeffs). */
  ghost predicate IsShare(s: Share, secret: seq<Byte>, coeffs: seq<seq<Byte>>, x: int)
    requires AllOfLength(coeffs, |secret|)
  {
    && s.x == x && 1 <= x <= 255
    && |s.y| == |secret|
    && forall j :: 0 <= j < |secret| ==> s.y[j] == Eval(Column(secret, coeffs, j), ByteOf(x))
  }

  predicate AllOfLength(vs: seq<seq<Byte>>, len: nat) {
    forall d :: 0 <= d < |vs| ==> |vs[d]| == len
  }

  predicate SuppliedFit(len: nat, t: int, supplied: seq<seq<Byte>>) {
    forall d :: 0 <= d < t - 1 && d < |supplied| ==> |supplied[d]| == len
  }

  /** The evaluation points: the caller's, or 1..n. */
  function PointsOf(n: int, xs: Option<seq<int>>): seq<int>
    requires n >= 0
  {
    if xs.Some? then xs.value else DefaultPoints(n)
  }

  /** The first check of the split that fails, in the order they are made. */
  function SplitError(len: nat, t: int, n: int, xs: Option<seq<int>>, supplied: seq<seq<Byte>>): Option<Error> {
    if t < 1 || t > n then Some(BadThreshold)
    else if n < 1 || n > 255 then Some(BadShareCount)
    else
      var points := PointsOf(n, xs);
      if |points| != n then Some(WrongPointCount)
      else if !NoDuplicates(points) then Some(DuplicatePoints)
      else if !InRange(points) then Some(PointOutOfRange)
      else if !SuppliedFit(len, t, supplied) then Some(BadCoefficientLength)
      else None
  }

  /** `shares` are the shares of (secret, coeffs) at the points `xs`, one each, in order. */
  ghost predicate IsDealing(shares: seq<Share>, secret: seq<Byte>, coeffs: seq<seq<Byte>>, xs: seq<int>) {
    && AllOfLength(coeffs, |secret|)
    && |shares| == |xs|
    && NoDuplicates(xs)
    && forall i :: 0 <= i < |xs| ==> IsShare(shares[i], secret, coeffs, xs[i])
  }

  /** The coefficient vectors used: the supplied ones first, random draws for the rest. */
  function Chosen(t: int, supplied: seq<seq<Byte>>, draws: seq<seq<Byte>>): (c: seq<seq<Byte>>)
    requires t >= 1 && |draws| >= t - 1
    ensures |c| == t - 1
  {
    seq(t - 1, d requires 0 <= d < t - 1 => if d < |supplied| then supplied[d] else draws[d])
  }

  /** The split accepts exactly these inputs. */
  lemma SplitAccepts(len: nat, t: int, n: int, xs: Option<seq<int>>, supplied: seq<seq<Byte>>)
    ensures SplitError(len, t, n, xs, supplied).None? <==>
              && 1 <= t <= n <= 255
              && (xs.Some? ==>
                    && |xs.value| == n && (forall i :: 0 <= i < n ==> 1 <= xs.value[i] <= 255)
                    && forall i, j :: 0 <= i < j < n ==> xs.value[i] != xs.value[j])
              && forall d :: 0 <= d < t - 1 && d < |supplied| ==> |supplied[d]| == len
  {}

  /** The shares of (secret, coeffs) at the points `xs`. */
  ghost function Dealing(secret: seq<Byte>, coeffs: seq<seq<Byte>>, xs: seq<int>): (shares: seq<Share>)
    requires AllOfLength(coeffs, |secret|) && InRange(xs)
    ensures |shares| == |xs|
  {
    seq(|xs|, i requires 0 <= i < |xs| =>
      Share(xs[i], seq(|secret|, j requires 0 <= j < |secret| => Eval(Column(secret, coeffs, j), ByteOf(xs[i])))))
  }

  lemma DealingIsDealing(secret: seq<Byte>, coeffs: seq<seq<Byte>>, xs: seq<int>, shares: seq<Share>)
    requires AllOfLength(coeffs, |secret|) && InRange(xs) && NoDuplicates(xs) && |shares| == |xs|
    ensures IsDealing(shares, secret, coeffs, xs) <==> shares == Dealing(secret, coeffs, xs)
  {
    hide Eval, ByteOf, Column;
    if IsDealing(shares, secret, coeffs, xs) {
      forall i | 0 <= i < |xs| ensures shares[i] == Dealing(secret, coeffs, xs)[i] {
        assert IsShare(shares[i], secret, coeffs, xs[i]);
      }
    }
  }

  /** What the split returns, the random draws included. */
  ghost function SplitResult(secret: seq<Byte>, t: int, n: int, xs: Option<seq<int>>, supplied: seq<seq<Byte>>,
                             draws: seq<seq<Byte>>): Result<seq<Share>, Error>
    requires |draws| >= 254 && AllOfLength(draws, |secret|)
  {
    var e := SplitError(|secret|, t, n, xs, supplied);
    if e.Some? then Err(e.value) else Ok(Dealing(secret, Chosen(t, supplied, draws), PointsOf(n, xs)))
  }

  lemma SplitIsDealing(secret: seq<Byte>, t: int, n: int, xs: Option<seq<int>>, supplied: seq<seq<Byte>>,
                       draws: seq<seq<Byte>>)
    requires |draws| >= 254 && AllOfLength(draws, |secret|)
    requires SplitError(|secret|, t, n, xs, supplied).None?
    ensures SplitResult(secret, t, n, xs, supplied, draws).Ok?
    ensures IsDealing(SplitResult(secret, t, n, xs, supplied, draws).value, secret, Chosen(t, supplied, draws),
                      PointsOf(n, xs))
  {
    hide Eval, ByteOf, Column, IsDealing;
    var points := PointsOf(n, xs);
    DealingIsDealing(secret, Chosen(t, supplied, draws), points, Dealing(secret, Chosen(t, supplied, draws), points));
  }

  /** Byte j of share i is the value, at the share's point, of the polynomial whose coefficients are the secret byte and
      byte j of the supplied vectors and then of the draws. */
  lemma SplitBytes(secret: seq<Byte>, t: int, n: int, xs: Option<seq<int>>, supplied: seq<seq<Byte>>,
                   draws: seq<seq<Byte>>, i: nat, j: nat)
    requires |draws| >= 254 && AllOfLength(draws, |secret|)
    requires SplitError(|secret|, t, n, xs, supplied).None? && i < n && j < |secret|
    ensures
      var shares := SplitResult(secret, t, n, xs, supplied, draws).value;
      var x := if xs.Some? then xs.value[i] else i + 1;
      var later := seq(t - 1, d requires 0 <= d < t - 1 => if d < |supplied| then supplied[d][j] else draws[d][j]);
      && |shares| == n && shares[i].x == x && |shares[i].y| == |secret|
      && shares[i].y[j] == Eval([secret[j]] + later, ByteOf(x))
  {
    hide Eval, ByteOf;
    var coeffs := Chosen(t, supplied, draws);
    var later := seq(t - 1, d requires 0 <= d < t - 1 => if d < |supplied| then supplied[d][j] else draws[d][j]);
    assert Column(secret, coeffs, j) == [secret[j]] + later;
  }

  /** The code's own evaluation: the sum of c[d] * x^d over d < n. */
  function PowerSum(c: Poly, x: Byte, n: nat): Byte
    requires n <= |c|
  {
    if n == 0 then 0
    else if n == 1 then c[0]
    else Add(PowerSum(c, x, n - 1), Mul(c[n - 1], Pow(x, n - 1)))
  }

  lemma {:induction false} EvalAppend(c: Poly, k: Byte, x: Byte)
    ensures Eval(c + [k], x) == Add(Eval(c, x), Mul(k, Pow(x, |c|)))
    decreases |c|
  {
    hide Add, Mul;
    if c == [] {
      assert ([k])[1..] == [];
      MulZeroOne(x); MulZeroOne(k); AddZero(k);
    } else {
      assert (c + [k])[1..] == c[1..] + [k];
      EvalAppend(c[1..], k, x);
      var (e, p) := (Eval(c[1..], x), Pow(x, |c| - 1));
      MulAddRight(x, e, Mul(k, p));
      MulAssoc(x, k, p); MulComm(x, k); MulAssoc(k, x, p);
      AddAssoc(c[0], Mul(x, e), Mul(k, Mul(x, p)));
    }
  }

  lemma {:induction false} PowerSumIsEval(c: Poly, x: Byte, n: nat)
    requires n <= |c|
    ensures PowerSum(c, x, n) == Eval(c[..n], x)
  {
    hide Add, Mul;
    if n > 0 {
      assert c[..n] == c[..n - 1] + [c[n - 1]];
      EvalAppend(c[..n - 1], c[n - 1], x);
      if n == 1 {
        MulZeroOne(c[0]); AddZero(c[0]);
        assert Pow(x, 0) == 1 && Eval(c[..0], x) == 0;
      } else {
        PowerSumIsEval(c, x, n - 1);
      }
    }
  }

  /** shamirSplit. `draws` are the random vectors the dealer falls back to. */
  method ShamirSplit(secret: seq<Byte>, t: int, n: int, xs: Option<seq<int>>,
                     supplied: seq<seq<Byte>>, draws: seq<seq<Byte>>)
    returns (r: Result<seq<Share>, Error>)
    requires |draws| >= 254 && AllOfLength(draws, |secret|)
    ensures r == SplitResult(secret, t, n, xs, supplied, draws)
  {
    hide Add, Mul, Pow, Eval, ByteOf, IsShare, Column;
    if t < 1 || t > n {
      return Err(BadThreshold);
    }
    if n < 1 || n > 255 {
      return Err(BadShareCount);
    }
    var len := |secret|;
    var points := PointsOf(n, xs);
    if |points| != n {
      return Err(WrongPointCount);
    }
    SetSize(points);
    if |set x | x in points| != n {
      return Err(DuplicatePoints);
    }
    var inRange := AllInRange(points);
    if !inRange {
      return Err(PointOutOfRange);
    }
    var picked := PickCoefficients(len, t, supplied, draws);
    if picked.Err? {
      return Err(picked.error);
    }
    var coeffs := picked.value;
    var shares: seq<Share> := [];
    for i := 0 to n
      invariant |shares| == i
      invariant forall k :: 0 <= k < i ==> IsShare(shares[k], secret, coeffs, points[k])
    {
      var y := ShareBytes(secret, coeffs, points[i]);
      shares := shares + [Share(points[i], y)];
    }
    DealingIsDealing(secret, coeffs, points, shares);
    r := Ok(shares);
  }

  method AllInRange(points: seq<int>) returns (ok: bool)
    ensures ok == InRange(points)
  {
    for i := 0 to |points|
      invariant forall k :: 0 <= k < i ==> 1 <= points[k] <= 255
    {
      if points[i] < 1 || points[i] > 255 {
        return false;
      }
    }
    return true;
  }

  /** The dealer's coefficient loop: a supplied vector of the wrong length is an error. */
  method PickCoefficients(len: nat, t: int, supplied: seq<seq<Byte>>, draws: seq<seq<Byte>>)
    returns (r: Result<seq<seq<Byte>>, Error>)
    requires t >= 1 && |draws| >= t - 1 && AllOfLength(draws, len)
    ensures r.Ok? ==> |r.value| == t - 1 && AllOfLength(r.value, len)
    ensures r.Ok? ==>
              forall d :: 0 <= d < t - 1 ==> r.value[d] == if d < |supplied| then supplied[d] else draws[d]
    ensures r == if SuppliedFit(len, t, supplied) then Ok(Chosen(t, supplied, draws)) else Err(BadCoefficientLength)
  {
    var coeffs: seq<seq<Byte>> := [];
    for d := 1 to t
      invariant coeffs == Chosen(t, supplied, draws)[..d - 1]
      invariant AllOfLength(coeffs, len)
      invariant forall k :: 0 <= k < d - 1 && k < |supplied| ==> |supplied[k]| == len
    {
      var c := if d - 1 < |supplied| then supplied[d - 1] else draws[d - 1];
      if |c| != len {
        return Err(BadCoefficientLength);
      }
      coeffs := coeffs + [c];
    }
    assert Chosen(t, supplied, draws)[..t - 1] == Chosen(t, supplied, draws);
    r := Ok(coeffs);
  }

  /** The middle loop of the split: the bytes of the share at point `x`. */
  method ShareBytes(secret: seq<Byte>, coeffs: seq<seq<Byte>>, x: int) returns (bytes: seq<Byte>)
    requires 1 <= x <= 255
    requires AllOfLength(coeffs, |secret|)
    ensures IsShare(Share(x, bytes), secret, coeffs, x)
  {
    hide Add, Mul, Pow, Eval, ByteOf, Column;
    var y := new Byte[|secret|];
    for j := 0 to |secret|
      invariant forall k :: 0 <= k < j ==> y[k] == Eval(Column(secret, coeffs, k), ByteOf(x))
    {
      var acc := ShareByte(secret, coeffs, ByteOf(x), j);
      y[j] := acc;
    }
    bytes := y[..];
  }

  /** The innermost loop: one byte, by its sum of powers. */
  method ShareByte(secret: seq<Byte>, coeffs: seq<seq<Byte>>, x: Byte, j: nat) returns (acc: Byte)
    requires j < |secret|
    requires AllOfLength(coeffs, |secret|)
    ensures acc == Eval(Column(secret, coeffs, j), x)
  {
    hide Add, Mul, Pow, Eval;
    ghost var c := Column(secret, coeffs, j);
    acc := secret[j];
    for d := 1 to |coeffs| + 1
      invariant acc == PowerSum(c, x, d)
    {
      var p := GPow(x, d);
      var q := GMul(coeffs[d - 1][j], p);
      acc := Add(acc, q);
    }
    PowerSumIsEval(c, x, |c|);
    assert c[..|c|] == c;
  }

  // ---- the reconstruction ----

  function Xs(shares: seq<Share>): (xs: seq<int>)
    ensures |xs| == |shares|
  {
    seq(|shares|, i requires 0 <= i < |shares| => shares[i].x)
  }

  /** The per-share checks, in order: equal lengths, then the range of the point. */
  function ShareError(shares: seq<Share>, len: nat): Option<Error> {
    if shares == [] then None
    else if |shares[0].y| != len then Some(UnequalLengths)
    else if shares[0].x < 1 || shares[0].x > 255 then Some(ShareOutOfRange)
    else ShareError(shares[1..], len)
  }

  function ReconstructError(shares: seq<Share>): Option<Error> {
    if shares == [] then Some(NoShares)
    else if ShareError(shares, |shares[0].y|).Some? then ShareError(shares, |shares[0].y|)
    else if !NoDuplicates(Xs(shares)) then Some(DuplicatePoints)
    else None
  }

  /** At least one share, all of one length, at distinct points of 1..255. */
  predicate WellFormed(shares: seq<Share>) {
    && shares != []
    && (forall i :: 0 <= i < |shares| ==> |shares[i].y| == |shares[0].y|)
    && InRange(Xs(shares))
    && NoDuplicates(Xs(shares))
  }

  lemma {:induction false} ShareErrorNone(shares: seq<Share>, len: nat)
    ensures ShareError(shares, len).None? <==>
              forall i :: 0 <= i < |shares| ==> |shares[i].y| == len && 1 <= shares[i].x <= 255
    decreases |shares|
  {
    if shares != [] {
      ShareErrorNone(shares[1..], len);
      assert shares == [shares[0]] + shares[1..];
    }
  }

  /** Share `i` is the first one that is too long, too short or out of range. */
  predicate FirstBadShare(shares: seq<Share>, len: nat, i: nat) {
    && i < |shares| && !(|shares[i].y| == len && 1 <= shares[i].x <= 255)
    && forall k :: 0 <= k < i ==> |shares[k].y| == len && 1 <= shares[k].x <= 255
  }

  lemma {:induction false} ShareErrorMeans(shares: seq<Share>, len: nat, i: nat)
    requires FirstBadShare(shares, len, i)
    ensures ShareError(shares, len) == Some(if |shares[i].y| != len then UnequalLengths else ShareOutOfRange)
    decreases |shares|
  {
    if i > 0 {
      assert forall k :: 0 <= k < i - 1 ==> shares[1..][k] == shares[k + 1];
      ShareErrorMeans(shares[1..], len, i - 1);
    }
  }

  /** The error of a refused list: of the first bad share, its length before its point; else the repeated point. */
  lemma ReconstructErrorMeans(shares: seq<Share>)
    ensures shares == [] ==> ReconstructError(shares) == Some(NoShares)
    ensures forall i: nat :: shares != [] && FirstBadShare(shares, |shares[0].y|, i) ==>
              ReconstructError(shares)
              == Some(if |shares[i].y| != |shares[0].y| then UnequalLengths else ShareOutOfRange)
    ensures shares != [] && (forall i: nat :: !FirstBadShare(shares, |shares[0].y|, i)) && !NoDuplicates(Xs(shares)) ==>
              ReconstructError(shares) == Some(DuplicatePoints)
  {
    if shares != [] {
      var len := |shares[0].y|;
      forall i: nat | FirstBadShare(shares, len, i)
        ensures ShareError(shares, len) == Some(if |shares[i].y| != len then UnequalLengths else ShareOutOfRange)
      {
        ShareErrorMeans(shares, len, i);
      }
      if forall i: nat :: !FirstBadShare(shares, len, i) {
        NoneBad(shares, len, |shares|);
        ShareErrorNone(shares, len);
      }
    }
  }

  lemma {:induction false} NoneBad(shares: seq<Share>, len: nat, n: nat)
    requires n <= |shares| && forall i: nat :: !FirstBadShare(shares, len, i)
    ensures forall k :: 0 <= k < n ==> |shares[k].y| == len && 1 <= shares[k].x <= 255
  {
    if n > 0 {
      NoneBad(shares, len, n - 1);
      assert !FirstBadShare(shares, len, n - 1);
    }
  }

  /** The reconstruction accepts exactly the well-formed share lists. */
  lemma ReconstructErrorNone(shares: seq<Share>)
    ensures ReconstructError(shares).None? <==> WellFormed(shares)
  {
    if shares != [] {
      ShareErrorNone(shares, |shares[0].y|);
      if WellFormed(shares) {
        forall i | 0 <= i < |shares| ensures 1 <= shares[i].x <= 255 { assert Xs(shares)[i] == shares[i].x; }
      }
    }
  }

  function Values(shares: seq<Share>, j: nat): (ys: seq<Byte>)
    requires forall i :: 0 <= i < |shares| ==> j < |shares[i].y|
    ensures |ys| == |shares|
  {
    seq(|shares|, i requires 0 <= i < |shares| => shares[i].y[j])
  }

  /** The polynomial of least length through byte `j` of the shares. */
  function Through(shares: seq<Share>, j: nat): Poly
    requires WellFormed(shares) && j < |shares[0].y|
  {
    Interpolate(Points(Xs(shares)), Values(shares, j))
  }

  /** What the shares determine: byte by byte, their interpolating polynomial at zero. */
  function Recovered(shares: seq<Share>): (k: seq<Byte>)
    requires WellFormed(shares)
    ensures |k| == |shares[0].y|
  {
    seq(|shares[0].y|, j requires 0 <= j < |shares[0].y| => Eval(Through(shares, j), 0))
  }

  /** shamirReconstruct. */
  method ShamirReconstruct(shares: seq<Share>) returns (r: Result<seq<Byte>, Error>)
    ensures WellFormed(shares) ==> r == Ok(Recovered(shares))
    ensures !WellFormed(shares) ==> ReconstructError(shares).Some? && r == Err(ReconstructError(shares).value)
  {
    ReconstructErrorNone(shares);
    if |shares| == 0 {
      return Err(NoShares);
    }
    var len := |shares[0].y|;
    for i := 0 to |shares|
      invariant ShareError(shares, len) == ShareError(shares[i..], len)
    {
      if |shares[i].y| != len {
        return Err(UnequalLengths);
      }
      if shares[i].x < 1 || shares[i].x > 255 {
        return Err(ShareOutOfRange);
      }
      assert shares[i..][1..] == shares[i + 1..];
    }
    SetSize(Xs(shares));
    if |set x | x in Xs(shares)| != |shares| {
      return Err(DuplicatePoints);
    }
    var out := ReconstructBytes(shares);
    r := Ok(out);
  }

  method ReconstructBytes(shares: seq<Share>) returns (bytes: seq<Byte>)
    requires WellFormed(shares)
    ensures bytes == Recovered(shares)
  {
    hide Add, Mul, Eval, Through;
    var out := new Byte[|shares[0].y|];
    for j := 0 to out.Length
      invariant forall i :: 0 <= i < j ==> out[i] == Eval(Through(shares, i), 0)
    {
      var b := ReconstructByte(shares, j);
      out[j] := b;
    }
    bytes := out[..];
  }

  method ReconstructByte(shares: seq<Share>, j: nat) returns (secretByte: Byte)
    requires WellFormed(shares) && j < |shares[0].y|
    ensures secretByte == Eval(Through(shares, j), 0)
  {
    hide Add, Mul, Eval, Basis, Interpolate, Points, ByteOf;
    ghost var (xs, ys, c) := (Points(Xs(shares)), Values(shares, j), Through(shares, j));
    ghost var f := v => Mul(Eval(c, v), Basis(xs, v));
    PointsDistinct(Xs(shares));
    secretByte := 0;
    for k := 0 to |shares|
      invariant secretByte == Sum(xs[..k], f)
    {
      var lk := BasisAtZero(shares, k);
      InterpolateMeets(xs, ys, k);
      var term := GMul(shares[k].y[j], lk);
      assert xs[..k + 1][..k] == xs[..k];
      secretByte := Add(secretByte, term);
    }
    assert xs[..|xs|] == xs;
    AtZeroIsConstant(xs, c);
  }

  /** The product loop: L_k(0) over the points of the shares. */
  method BasisAtZero(shares: seq<Share>, k: nat) returns (lk: Byte)
    requires WellFormed(shares) && k < |shares|
    ensures lk == Basis(Points(Xs(shares)), Points(Xs(shares))[k])
  {
    hide Add, Mul, Inv, ByteOf;
    ghost var xs := Points(Xs(shares));
    PointsDistinct(Xs(shares));
    lk := 1;
    for m := 0 to |shares|
      invariant lk == Basis(xs[..m], xs[k])
    {
      assert xs[..m + 1][..m] == xs[..m];
      if m == k {
        MulZeroOne(lk);
        continue;
      }
      var num := ByteOf(Xs(shares)[m]);
      var den := Add(num, ByteOf(Xs(shares)[k]));
      AddNonZero(xs[m], xs[k]);
      var inv := GInv(den);
      var f := GMul(num, inv.value);
      lk := GMul(lk, f);
    }
    assert xs[..|xs|] == xs;
  }
}
