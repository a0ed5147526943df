/** The Fisher-Yates shuffle of the batching queue and of batch enrolment, with its random choices as input. */
module Shuffle {

  /** `js[i]` is the random draw for position i: any earlier position or i itself. */
  predicate Choices(js: seq<nat>) {
    forall i :: 0 <= i < |js| ==> js[i] <= i
  }

  function Swap<T>(s: seq<T>, i: nat, j: nat): (r: seq<T>)
    requires i < |s| && j < |s|
    ensures |r| == |s|
  {
    s[i := s[j]][j := s[i]]
  }

  /** What the loop makes of a list: the last place takes its drawn element, then the rest is shuffled. */
  function Shuffled<T>(s: seq<T>, js: seq<nat>): (r: seq<T>)
    requires |js| == |s| && Choices(js)
    ensures |r| == |s|
    decreases |s|
  {
    if |s| <= 1 then s
    else
      var n := |s| - 1;
      var t := Swap(s, n, js[n]);
      Shuffled(t[..n], js[..n]) + [t[n]]
  }

  /** The list with positions above i finished: what the loop still has to do to `c`. */
  ghost function Remaining<T>(c: seq<T>, js: seq<nat>, i: nat): seq<T>
    requires |js| == |c| && Choices(js) && i < |c|
  {
    Shuffled(c[..i + 1], js[..i + 1]) + c[i + 1..]
  }

  lemma LoopStep<T>(c: seq<T>, js: seq<nat>, i: nat)
    requires |js| == |c| && Choices(js) && 0 < i < |c|
    ensures Remaining(Swap(c, i, js[i]), js, i - 1) == Remaining(c, js, i)
  {
    var (s, d) := (c[..i + 1], Swap(c, i, js[i]));
    var t := Swap(s, i, js[i]);
    assert t == d[..i + 1] && t[..i] == d[..i] && js[..i + 1][..i] == js[..i];
    assert d[i..] == [t[i]] + c[i + 1..];
    assert Shuffled(s, js[..i + 1]) == Shuffled(t[..i], js[..i]) + [t[i]];
  }

  /** Nothing is finished before the loop; only position 0, which stays put, is left after it. */
  lemma LoopEnds<T>(c: seq<T>, js: seq<nat>)
    requires |js| == |c| > 0 && Choices(js)
    ensures Remaining(c, js, |c| - 1) == Shuffled(c, js) && Remaining(c, js, 0) == c
  {
    assert c[..|c|] == c && js[..|c|] == js && c[|c|..] == [];
    assert c[..1] + c[1..] == c;
  }

  /** fisherYates, in place. */
  method FisherYates<T>(a: array<T>, js: seq<nat>)
    requires |js| == a.Length && Choices(js)
    modifies a
    ensures a[..] == Shuffled(old(a[..]), js)
  {
    if a.Length == 0 {
      return;
    }
    hide Shuffled, Remaining;
    var i := a.Length - 1;
    LoopEnds(a[..], js);
    while i > 0
      invariant 0 <= i < a.Length
      invariant Remaining(a[..], js, i) == Shuffled(old(a[..]), js)
    {
      var j := js[i];
      LoopStep(a[..], js, i);
      ghost var c := a[..];
      a[i], a[j] := a[j], a[i];
      assert a[..] == Swap(c, i, j);
      i := i - 1;
    }
    LoopEnds(a[..], js);
  }

  lemma SwapPermutes<T>(s: seq<T>, i: nat, j: nat)
    requires i < |s| && j < |s|
    ensures multiset(Swap(s, i, j)) == multiset(s)
  {}

  /** The outcome is a rearrangement of the input. */
  lemma {:induction false} ShuffledPermutes<T>(s: seq<T>, js: seq<nat>)
    requires |js| == |s| && Choices(js)
    ensures multiset(Shuffled(s, js)) == multiset(s)
    decreases |s|
  {
    if |s| > 1 {
      var n := |s| - 1;
      var t := Swap(s, n, js[n]);
      SwapPermutes(s, n, js[n]);
      ShuffledPermutes(t[..n], js[..n]);
      assert t == t[..n] + [t[n]];
    }
  }

  predicate Distinct<T(==)>(s: seq<T>) {
    forall i, j :: 0 <= i < j < |s| ==> s[i] != s[j]
  }

  lemma SwapDistinct<T>(s: seq<T>, i: nat, j: nat)
    requires i < |s| && j < |s| && Distinct(s)
    ensures Distinct(Swap(s, i, j))
  {}

  /** Different draws give different orders. */
  lemma {:induction false} ShuffledInjective<T>(s: seq<T>, js: seq<nat>, ks: seq<nat>)
    requires Distinct(s) && |js| == |ks| == |s| && Choices(js) && Choices(ks)
    requires Shuffled(s, js) == Shuffled(s, ks)
    ensures js == ks
    decreases |s|
  {
    if |s| > 1 {
      var n := |s| - 1;
      var (t, u) := (Swap(s, n, js[n]), Swap(s, n, ks[n]));
      assert Shuffled(s, js)[n] == t[n] == s[js[n]];
      assert Shuffled(s, ks)[n] == u[n] == s[ks[n]];
      assert js[n] == ks[n];
      assert Shuffled(t[..n], js[..n]) == Shuffled(s, js)[..n];
      assert Shuffled(t[..n], ks[..n]) == Shuffled(s, ks)[..n];
      SwapDistinct(s, n, js[n]);
      ShuffledInjective(t[..n], js[..n], ks[..n]);
      assert js == js[..n] + [js[n]] && ks == ks[..n] + [ks[n]];
    }
  }

  lemma DropLast<T>(s: seq<T>, p: seq<T>, n: nat)
    requires |s| == |p| == n + 1 && s[n] == p[n] && multiset(s) == multiset(p)
    ensures multiset(s[..n]) == multiset(p[..n])
  {
    assert s == s[..n] + [s[n]] && p == p[..n] + [p[n]];
    assert multiset(s[..n]) == multiset(s) - multiset{s[n]};
    assert multiset(p[..n]) == multiset(p) - multiset{p[n]};
  }

  /** Every order comes from some draws. */
  lemma {:induction false} ShuffledSurjective<T>(s: seq<T>, p: seq<T>) returns (js: seq<nat>)
    requires multiset(p) == multiset(s)
    ensures |js| == |s| && Choices(js) && Shuffled(s, js) == p
    decreases |s|
  {
    SameLength(s, p);
    if |s| <= 1 {
      js := seq(|s|, _ => 0);
      if |s| == 1 { Singleton(s, p); }
    } else {
      var n := |s| - 1;
      var j := Position(s, p, n);
      var t := Swap(s, n, j);
      SwapPermutes(s, n, j);
      DropLast(t, p, n);
      var rest := ShuffledSurjective(t[..n], p[..n]);
      ExtendDraws(s, p, n, j, rest);
      js := rest + [j];
    }
  }

  lemma ShuffledUnfold<T>(s: seq<T>, js: seq<nat>, n: nat)
    requires |js| == |s| == n + 1 && n > 0 && Choices(js)
    ensures Shuffled(s, js) == Shuffled(Swap(s, n, js[n])[..n], js[..n]) + [s[js[n]]]
  {
    assert Swap(s, n, js[n])[n] == s[js[n]];
  }

  lemma ExtendDraws<T>(s: seq<T>, p: seq<T>, n: nat, j: nat, rest: seq<nat>)
    requires |s| == |p| == n + 1 && n > 0 && j <= n && s[j] == p[n]
    requires |rest| == n && Choices(rest) && Shuffled(Swap(s, n, j)[..n], rest) == p[..n]
    ensures Choices(rest + [j]) && Shuffled(s, rest + [j]) == p
  {
    hide Shuffled, Swap;
    var js := rest + [j];
    assert js[..n] == rest && js[n] == j;
    ShuffledUnfold(s, js, n);
    assert p == p[..n] + [p[n]];
  }

  lemma Singleton<T>(s: seq<T>, p: seq<T>)
    requires |s| == |p| == 1 && multiset(p) == multiset(s)
    ensures s == p
  {
    assert s[0] in multiset(p);
  }

  lemma Position<T>(s: seq<T>, p: seq<T>, n: nat) returns (j: nat)
    requires n < |p| && |s| == |p| && multiset(p) == multiset(s)
    ensures j < |s| && s[j] == p[n]
  {
    assert p[n] in multiset(s);
    j :| j < |s| && s[j] == p[n];
  }

  lemma SameLength<T>(s: seq<T>, p: seq<T>)
    requires multiset(p) == multiset(s)
    ensures |p| == |s|
  {
    assert |multiset(p)| == |p| && |multiset(s)| == |s|;
  }

  predicate Rearranges<T(==)>(p: seq<T>, s: seq<T>) {
    multiset(p) == multiset(s)
  }

  /** `js` is the one list of draws that turns s into p. */
  ghost predicate OnlyDraws<T(!new)>(s: seq<T>, p: seq<T>, js: seq<nat>) {
    && |js| == |s| && Choices(js) && Shuffled(s, js) == p
    && forall ks :: |ks| == |s| && Choices(ks) && Shuffled(s, ks) == p ==> ks == js
  }

  /** Every order of distinct elements comes from exactly one list of draws: uniform draws give a uniform order. */
  lemma ShuffleIsBijection<T(!new)>(s: seq<T>, p: seq<T>)
    requires Distinct(s) && Rearranges(p, s)
    ensures exists js :: OnlyDraws(s, p, js)
  {
    hide Shuffled;
    var js := ShuffledSurjective(s, p);
    forall ks | |ks| == |s| && Choices(ks) && Shuffled(s, ks) == p ensures ks == js {
      ShuffledInjective(s, ks, js);
    }
    assert OnlyDraws(s, p, js);
  }

  lemma {:induction false} DistinctCounts<T(!new)>(s: seq<T>)
    ensures Distinct(s) <==> forall x :: multiset(s)[x] <= 1
    decreases |s|
  {
    if s != [] {
      var (front, last) := (s[..|s| - 1], s[|s| - 1]);
      DistinctCounts(front);
      assert s == front + [last];
      assert multiset(s) == multiset(front) + multiset{last};
      if Distinct(s) {
        assert last !in front;
        assert last !in multiset(front);
      }
      if forall x :: multiset(s)[x] <= 1 {
        assert forall x :: multiset(front)[x] <= multiset(s)[x];
        assert multiset(s)[last] <= 1;
        assert last !in multiset(front);
      }
    }
  }

  /** Rearranging keeps the elements, and keeps them distinct. */
  lemma RearrangedDistinct<T(!new)>(p: seq<T>, s: seq<T>)
    requires Rearranges(p, s) && Distinct(s)
    ensures Distinct(p) && forall t :: t in p <==> t in s
  {
    DistinctCounts(s);
    DistinctCounts(p);
    forall t ensures t in p <==> t in s {
      assert t in p <==> t in multiset(p);
      assert t in s <==> t in multiset(s);
    }
  }
}
