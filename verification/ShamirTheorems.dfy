/** What the split and the reconstruction promise together: any t shares give the secret, t - 1 give nothing. */
module ShamirTheorems {
  import opened Outcomes
  import opened Gf256
  import opened Polynomials
  import opened Lagrange
  import opened Shamir

  // ---- any t shares recover the secret ----

  /** Every share comes from the dealing (secret, coeffs). */
  ghost predicate FromDealing(shares: seq<Share>, secret: seq<Byte>, coeffs: seq<seq<Byte>>) {
    && AllOfLength(coeffs, |secret|)
    && forall i :: 0 <= i < |shares| ==> IsShare(shares[i], secret, coeffs, shares[i].x)
  }

  /** t-of-n recovery, for every secret length, threshold, coefficients and points. */
  lemma ThresholdRecovers(shares: seq<Share>, secret: seq<Byte>, coeffs: seq<seq<Byte>>)
    requires FromDealing(shares, secret, coeffs)
    requires |shares| >= |coeffs| + 1 && NoDuplicates(Xs(shares))
    ensures WellFormed(shares) && Recovered(shares) == secret
  {
    hide Add, Mul, Eval, ByteOf, Interpolate;
    assert InRange(Xs(shares));
    var xs := Points(Xs(shares));
    PointsDistinct(Xs(shares));
    forall j | 0 <= j < |secret| ensures Recovered(shares)[j] == secret[j] {
      var (c, d) := (Through(shares, j), Column(secret, coeffs, j));
      var f := v => Mul(Eval(c, v), Basis(xs, v));
      var g := v => Mul(Eval(d, v), Basis(xs, v));
      forall i | 0 <= i < |xs| ensures f(xs[i]) == g(xs[i]) {
        InterpolateMeets(xs, Values(shares, j), i);
      }
      SumEqual(xs, f, g);
      AtZeroIsConstant(xs, c);
      AtZeroIsConstant(xs, d);
    }
  }

  predicate Picks(picks: seq<nat>, n: nat) {
    && (forall i :: 0 <= i < |picks| ==> picks[i] < n)
    && forall i, j :: 0 <= i < j < |picks| ==> picks[i] != picks[j]
  }

  function Pick(shares: seq<Share>, picks: seq<nat>): (s: seq<Share>)
    requires Picks(picks, |shares|)
    ensures |s| == |picks|
  {
    seq(|picks|, i requires 0 <= i < |picks| => shares[picks[i]])
  }

  lemma PickedRecovers(shares: seq<Share>, picks: seq<nat>, secret: seq<Byte>, coeffs: seq<seq<Byte>>, xs: seq<int>)
    requires IsDealing(shares, secret, coeffs, xs)
    requires Picks(picks, |shares|) && |picks| >= |coeffs| + 1
    ensures WellFormed(Pick(shares, picks)) && Recovered(Pick(shares, picks)) == secret
  {
    var s := Pick(shares, picks);
    forall i | 0 <= i < |s| ensures IsShare(s[i], secret, coeffs, s[i].x) && s[i].x == xs[picks[i]] {
      assert IsShare(shares[picks[i]], secret, coeffs, xs[picks[i]]);
    }
    forall i, j | 0 <= i < j < |s| ensures Xs(s)[i] != Xs(s)[j] {
      assert picks[i] != picks[j];
    }
    ThresholdRecovers(s, secret, coeffs);
  }

  /** The dealer's and the recipient's code end to end: split, keep any t or more shares, reconstruct. */
  method SplitThenReconstruct(secret: seq<Byte>, t: int, n: int, xs: Option<seq<int>>,
                              supplied: seq<seq<Byte>>, draws: seq<seq<Byte>>, picks: seq<nat>)
    returns (r: Result<seq<Byte>, Error>)
    requires |draws| >= 254 && AllOfLength(draws, |secret|)
    requires SplitError(|secret|, t, n, xs, supplied).None?
    requires Picks(picks, n) && |picks| >= t
    ensures r == Ok(secret)
  {
    var dealt := ShamirSplit(secret, t, n, xs, supplied, draws);
    var shares := dealt.value;
    SplitIsDealing(secret, t, n, xs, supplied, draws);
    PickedRecovers(shares, picks, secret, Chosen(t, supplied, draws), PointsOf(n, xs));
    r := ShamirReconstruct(Pick(shares, picks));
  }

  // ---- t - 1 shares fit every secret equally ----

  /** `coeffs` is a way the dealer could have dealt exactly these shares for this secret. */
  ghost predicate Explains(coeffs: seq<seq<Byte>>, secret: seq<Byte>, shares: seq<Share>) {
    |coeffs| == |shares| && FromDealing(shares, secret, coeffs)
  }

  /** The points with zero put first: the secret is the value there. */
  function WithZero(shares: seq<Share>): seq<Byte>
    requires InRange(Xs(shares))
  {
    [0] + Points(Xs(shares))
  }

  lemma WithZeroDistinct(shares: seq<Share>)
    requires InRange(Xs(shares)) && NoDuplicates(Xs(shares))
    ensures Distinct(WithZero(shares))
  {
    PointsDistinct(Xs(shares));
    var bs := Points(Xs(shares));
    forall i, j | 0 <= i < j < |WithZero(shares)| ensures WithZero(shares)[i] != WithZero(shares)[j] {
      if i == 0 { assert bs[j - 1] in bs; }
    }
  }

  /** Byte `j` of the one polynomial that meets the secret at zero and the shares at their points. */
  function Fitted(shares: seq<Share>, secret: seq<Byte>, j: nat): (c: Poly)
    requires InRange(Xs(shares)) && j < |secret|
    requires forall i :: 0 <= i < |shares| ==> |shares[i].y| == |secret|
    ensures |c| == |shares| + 1
  {
    Interpolate(WithZero(shares), [secret[j]] + Values(shares, j))
  }

  function FittedCoefficients(shares: seq<Share>, secret: seq<Byte>): (coeffs: seq<seq<Byte>>)
    requires InRange(Xs(shares))
    requires forall i :: 0 <= i < |shares| ==> |shares[i].y| == |secret|
    ensures |coeffs| == |shares| && AllOfLength(coeffs, |secret|)
  {
    seq(|shares|, d requires 0 <= d < |shares| =>
      seq(|secret|, j requires 0 <= j < |secret| => Fitted(shares, secret, j)[d + 1]))
  }

  lemma FittedColumn(shares: seq<Share>, secret: seq<Byte>, j: nat)
    requires WellFormed(shares) && |shares[0].y| == |secret| && j < |secret|
    ensures Column(secret, FittedCoefficients(shares, secret), j) == Fitted(shares, secret, j)
  {
    hide Eval, Interpolate, ByteOf;
    var c := Fitted(shares, secret, j);
    WithZeroDistinct(shares);
    InterpolateMeets(WithZero(shares), [secret[j]] + Values(shares, j), 0);
    ConstantTerm(c);
    var d := Column(secret, FittedCoefficients(shares, secret), j);
    forall i | 0 <= i < |c| ensures d[i] == c[i] {
      if i > 0 { assert FittedCoefficients(shares, secret)[i - 1][j] == c[i]; }
    }
  }

  /** Any values at t - 1 points are the shares of any secret, for some coefficients. */
  lemma EverySecretFits(shares: seq<Share>, secret: seq<Byte>)
    requires WellFormed(shares) && |shares[0].y| == |secret|
    ensures Explains(FittedCoefficients(shares, secret), secret, shares)
  {
    hide Eval, Interpolate, ByteOf;
    var coeffs := FittedCoefficients(shares, secret);
    WithZeroDistinct(shares);
    forall i | 0 <= i < |shares| ensures IsShare(shares[i], secret, coeffs, shares[i].x) {
      assert Xs(shares)[i] == shares[i].x;
      forall j | 0 <= j < |secret|
        ensures shares[i].y[j] == Eval(Column(secret, coeffs, j), ByteOf(shares[i].x))
      {
        FittedColumn(shares, secret, j);
        InterpolateMeets(WithZero(shares), [secret[j]] + Values(shares, j), i + 1);
      }
    }
  }

  /** ... and for one choice of coefficients only. */
  lemma FitIsUnique(shares: seq<Share>, secret: seq<Byte>, coeffs: seq<seq<Byte>>)
    requires WellFormed(shares) && |shares[0].y| == |secret|
    requires Explains(coeffs, secret, shares)
    ensures coeffs == FittedCoefficients(shares, secret)
  {
    hide Eval, Interpolate, ByteOf;
    var fitted := FittedCoefficients(shares, secret);
    WithZeroDistinct(shares);
    EverySecretFits(shares, secret);
    forall d, j | 0 <= d < |shares| && 0 <= j < |secret| ensures coeffs[d][j] == fitted[d][j] {
      var (a, b) := (Column(secret, coeffs, j), Column(secret, fitted, j));
      forall i | 0 <= i < |shares| + 1 ensures Eval(a, WithZero(shares)[i]) == Eval(b, WithZero(shares)[i]) {
        if i > 0 {
          assert IsShare(shares[i - 1], secret, coeffs, shares[i - 1].x);
          assert IsShare(shares[i - 1], secret, fitted, shares[i - 1].x);
          assert WithZero(shares)[i] == ByteOf(shares[i - 1].x);
        }
      }
      SameValues(a, b, WithZero(shares));
      assert a[d + 1] == coeffs[d][j] && b[d + 1] == fitted[d][j];
    }
    forall d | 0 <= d < |shares| ensures coeffs[d] == fitted[d] {}
  }

  /** Perfect secrecy by counting: t - 1 shares have exactly one explanation for every candidate secret. */
  lemma PerfectSecrecy(shares: seq<Share>)
    requires WellFormed(shares)
    ensures forall secret: seq<Byte> | |secret| == |shares[0].y| ::
              && Explains(FittedCoefficients(shares, secret), secret, shares)
              && forall coeffs :: Explains(coeffs, secret, shares) ==> coeffs == FittedCoefficients(shares, secret)
  {
    forall secret: seq<Byte> | |secret| == |shares[0].y|
      ensures Explains(FittedCoefficients(shares, secret), secret, shares)
      ensures forall coeffs :: Explains(coeffs, secret, shares) ==> coeffs == FittedCoefficients(shares, secret)
    {
      EverySecretFits(shares, secret);
      forall coeffs | Explains(coeffs, secret, shares) ensures coeffs == FittedCoefficients(shares, secret) {
        FitIsUnique(shares, secret, coeffs);
      }
    }
  }

  // ---- the split's own draws ----

  /** The shares at the picked points, with given bytes. */
  function Seen(points: seq<int>, picks: seq<nat>, values: seq<seq<Byte>>): (shares: seq<Share>)
    requires Picks(picks, |points|) && |values| == |picks|
    ensures |shares| == |picks|
  {
    seq(|picks|, i requires 0 <= i < |picks| => Share(points[picks[i]], values[i]))
  }

  lemma SeenWellFormed(points: seq<int>, picks: seq<nat>, values: seq<seq<Byte>>, len: nat)
    requires Picks(picks, |points|) && |values| == |picks| > 0 && AllOfLength(values, len)
    requires InRange(points) && NoDuplicates(points)
    ensures WellFormed(Seen(points, picks, values)) && |Seen(points, picks, values)[0].y| == len
  {
    var s := Seen(points, picks, values);
    forall i, j | 0 <= i < j < |s| ensures Xs(s)[i] != Xs(s)[j] {
      assert picks[i] != picks[j];
      assert picks[i] < picks[j] || picks[j] < picks[i];
    }
  }

  /** The dealing shows these values at the picked points exactly when its coefficients explain them. */
  lemma ShowsExactlyWhen(secret: seq<Byte>, coeffs: seq<seq<Byte>>, points: seq<int>, picks: seq<nat>,
                         values: seq<seq<Byte>>)
    requires AllOfLength(coeffs, |secret|) && InRange(points) && AllOfLength(values, |secret|)
    requires Picks(picks, |points|) && |coeffs| == |picks| == |values|
    ensures (forall i :: 0 <= i < |picks| ==> Dealing(secret, coeffs, points)[picks[i]].y == values[i])
            <==> Explains(coeffs, secret, Seen(points, picks, values))
  {
    hide Eval, ByteOf, Column;
    var (seen, dealt) := (Seen(points, picks, values), Dealing(secret, coeffs, points));
    forall i | 0 <= i < |picks|
      ensures dealt[picks[i]].y == values[i] <==> IsShare(seen[i], secret, coeffs, seen[i].x)
    {}
  }

  /** Secrecy of the split itself, over its random draws: with nothing supplied, whatever the secret and whatever bytes
      are seen at t - 1 of its points, exactly one choice of the first t - 1 draws makes it deal those bytes. */
  lemma SplitSecrecy(secret: seq<Byte>, t: int, n: int, xs: Option<seq<int>>, picks: seq<nat>, values: seq<seq<Byte>>)
    returns (first: seq<seq<Byte>>)
    requires SplitError(|secret|, t, n, xs, []).None?
    requires Picks(picks, n) && |picks| == |values| == t - 1 && AllOfLength(values, |secret|)
    ensures |first| == t - 1 && AllOfLength(first, |secret|)
    ensures forall draws: seq<seq<Byte>> | |draws| >= 254 && AllOfLength(draws, |secret|) ::
              && SplitResult(secret, t, n, xs, [], draws).Ok?
              && |SplitResult(secret, t, n, xs, [], draws).value| == n
              && ((forall i :: 0 <= i < t - 1 ==>
                     SplitResult(secret, t, n, xs, [], draws).value[picks[i]].y == values[i])
                  <==> draws[..t - 1] == first)
  {
    hide Eval, ByteOf, Interpolate, Explains, Dealing, WellFormed;
    var points := PointsOf(n, xs);
    var seen := Seen(points, picks, values);
    first := [];
    if t > 1 {
      SeenWellFormed(points, picks, values, |secret|);
      first := FittedFor(seen, secret);
    }
    forall draws: seq<seq<Byte>> | |draws| >= 254 && AllOfLength(draws, |secret|)
      ensures SplitResult(secret, t, n, xs, [], draws) == Ok(Dealing(secret, draws[..t - 1], points))
      ensures (forall i :: 0 <= i < t - 1 ==> Dealing(secret, draws[..t - 1], points)[picks[i]].y == values[i])
              <==> draws[..t - 1] == first
    {
      assert Chosen(t, [], draws) == draws[..t - 1];
      ShowsExactlyWhen(secret, draws[..t - 1], points, picks, values);
      if t > 1 && Explains(draws[..t - 1], secret, seen) {
        FitIsUnique(seen, secret, draws[..t - 1]);
      }
    }
  }

  lemma FittedFor(seen: seq<Share>, secret: seq<Byte>) returns (coeffs: seq<seq<Byte>>)
    requires WellFormed(seen) && |seen[0].y| == |secret|
    ensures |coeffs| == |seen| && AllOfLength(coeffs, |secret|)
    ensures InRange(Xs(seen)) && (forall i :: 0 <= i < |seen| ==> |seen[i].y| == |secret|)
    ensures coeffs == FittedCoefficients(seen, secret) && Explains(coeffs, secret, seen)
  {
    hide Interpolate, Explains;
    coeffs := FittedCoefficients(seen, secret);
    EverySecretFits(seen, secret);
  }

  // ---- two shares of a dealing with any threshold ----

  /** Byte `j` of the coefficient vectors: the dealing's polynomial is the secret byte plus x times this one. */
  function Slope(coeffs: seq<seq<Byte>>, j: nat): (c: Poly)
    requires forall d :: 0 <= d < |coeffs| ==> j < |coeffs[d]|
    ensures |c| == |coeffs|
  {
    seq(|coeffs|, d requires 0 <= d < |coeffs| => coeffs[d][j])
  }

  lemma ColumnSlope(secret: seq<Byte>, coeffs: seq<seq<Byte>>, j: nat, x: Byte)
    requires j < |secret| && AllOfLength(coeffs, |secret|)
    ensures Eval(Column(secret, coeffs, j), x) == Add(secret[j], Mul(x, Eval(Slope(coeffs, j), x)))
  {
    hide Add, Mul;
    assert Column(secret, coeffs, j)[1..] == Slope(coeffs, j);
  }

  lemma EvalLine(l: Poly, x: Byte)
    requires |l| == 2
    ensures Eval(l, x) == Add(l[0], Mul(x, l[1]))
  {
    hide Add, Mul;
    assert l[1..] == [l[1]] && [l[1]][1..] == [];
    assert Eval([], x) == 0 && Eval([l[1]], x) == Add(l[1], Mul(x, 0));
    MulZeroOne(x); AddZero(l[1]);
  }

  lemma SameSlope(k: Byte, x: Byte, m: Byte, n: Byte)
    requires x != 0 && Add(k, Mul(x, m)) == Add(k, Mul(x, n))
    ensures m == n
  {
    hide Add, Mul;
    AddCancel(k, Mul(x, m)); AddCancel(k, Mul(x, n));
    Cancel(x, m, n);
  }

  /** A line through (x, k + x*m) and (y, k + y*n) passes through k at zero exactly when m equals n. */
  lemma LineMeets(l: Poly, k: Byte, x: Byte, m: Byte, y: Byte, n: Byte)
    requires |l| == 2 && x != y && x != 0 && y != 0
    requires Eval(l, x) == Add(k, Mul(x, m)) && Eval(l, y) == Add(k, Mul(y, n))
    ensures Eval(l, 0) == k <==> m == n
  {
    hide Add, Mul, Eval;
    ConstantTerm(l);
    EvalLine(l, x); EvalLine(l, y);
    if l[0] == k {
      SameSlope(k, x, l[1], m); SameSlope(k, y, l[1], n);
    }
    if m == n {
      EvalLine([k, m], x); EvalLine([k, m], y);
      SameValues(l, [k, m], [x, y]);
    }
  }

  /** The dealing's slopes at the points of two shares agree in every byte. */
  ghost predicate SlopesAgree(coeffs: seq<seq<Byte>>, len: nat, x: int, y: int)
    requires AllOfLength(coeffs, len) && 1 <= x <= 255 && 1 <= y <= 255
  {
    forall j :: 0 <= j < len ==> Eval(Slope(coeffs, j), ByteOf(x)) == Eval(Slope(coeffs, j), ByteOf(y))
  }

  /** Whatever the threshold, two shares give the secret exactly when the slopes at their points agree. */
  lemma PairMeetsExactlyWhen(p: seq<Share>, secret: seq<Byte>, coeffs: seq<seq<Byte>>)
    requires |p| == 2 && p[0].x != p[1].x && FromDealing(p, secret, coeffs)
    ensures WellFormed(p)
    ensures Recovered(p) == secret <==> SlopesAgree(coeffs, |secret|, p[0].x, p[1].x)
  {
    hide Add, Mul, Eval, ByteOf, Interpolate;
    assert Xs(p)[0] == p[0].x && Xs(p)[1] == p[1].x;
    var xs := Points(Xs(p));
    PointsDistinct(Xs(p));
    assert xs[0] in xs && xs[1] in xs;
    forall j | 0 <= j < |secret|
      ensures Recovered(p)[j] == secret[j] <==> Eval(Slope(coeffs, j), xs[0]) == Eval(Slope(coeffs, j), xs[1])
    {
      InterpolateMeets(xs, Values(p, j), 0);
      InterpolateMeets(xs, Values(p, j), 1);
      ColumnSlope(secret, coeffs, j, xs[0]);
      ColumnSlope(secret, coeffs, j, xs[1]);
      LineMeets(Through(p, j), secret[j], xs[0], Eval(Slope(coeffs, j), xs[0]), xs[1], Eval(Slope(coeffs, j), xs[1]));
    }
    assert Recovered(p) == secret <==> forall j :: 0 <= j < |secret| ==> Recovered(p)[j] == secret[j];
  }

  predicate Zero(v: seq<Byte>) {
    forall j :: 0 <= j < |v| ==> v[j] == 0
  }

  lemma EqualSlopes(k: Byte, m: Byte, x: Byte, y: Byte)
    requires x != y
    ensures Add(k, Mul(x, m)) == Add(k, Mul(y, m)) <==> m == 0
  {
    hide Add, Mul;
    AddCancel(k, Mul(x, m)); AddCancel(k, Mul(y, m));
    MulZeroOne(x); MulZeroOne(y);
    if Mul(x, m) == Mul(y, m) {
      MulAddLeft(x, y, m); AddZero(Mul(x, m));
      AddNonZero(x, y); MulZeroOne(Add(x, y));
      Cancel(Add(x, y), m, 0);
    }
  }

  /** With threshold 3, two shares give the secret only if the dealer's quadratic vector is zero throughout. */
  lemma ThreeNeedsThree(coeffs: seq<seq<Byte>>, len: nat, x: int, y: int)
    requires |coeffs| == 2 && AllOfLength(coeffs, len) && 1 <= x <= 255 && 1 <= y <= 255 && x != y
    ensures SlopesAgree(coeffs, len, x, y) <==> Zero(coeffs[1])
  {
    hide Add, Mul, Eval, ByteOf;
    assert ByteOf(x) as int == x && ByteOf(y) as int == y;
    forall j | 0 <= j < len
      ensures Eval(Slope(coeffs, j), ByteOf(x)) == Eval(Slope(coeffs, j), ByteOf(y)) <==> coeffs[1][j] == 0
    {
      EvalLine(Slope(coeffs, j), ByteOf(x)); EvalLine(Slope(coeffs, j), ByteOf(y));
      EqualSlopes(coeffs[0][j], coeffs[1][j], ByteOf(x), ByteOf(y));
    }
  }
}
