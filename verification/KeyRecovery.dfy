/** Commitment-gated recovery of the document key by trying pairs of opened shares. */
module KeyRecovery {
  import opened Outcomes
  import opened Shamir
  import opened ShamirTheorems
  import opened ShareSealing

  datatype RecoveryError =
    | TooFewShares
    | BadCommitmentLength
    | PairRejected(cause: Shamir.Error)
    | NoPairMatches

  datatype Recovery = Recovery(k: Bytes, first: int, second: int)

  function PairOf(shares: seq<Share>, i: nat, j: nat): (p: seq<Share>)
    requires i < |shares| && j < |shares|
    ensures |p| == 2
  {
    [shares[i], shares[j]]
  }

  /** The pair reconstructs a key with the committed digest. */
  predicate Matches(c: Crypto, shares: seq<Share>, commitment: Bytes, i: nat, j: nat)
    requires i < |shares| && j < |shares|
  {
    var p := PairOf(shares, i, j);
    WellFormed(p) && c.sha256(Recovered(p)) == commitment
  }

  /** The nested loops from pair (i, j) on, in lexicographic order; a malformed pair throws. */
  function PairSearch(c: Crypto, shares: seq<Share>, commitment: Bytes, i: nat, j: nat): Result<Recovery, RecoveryError>
    decreases |shares| - i, |shares| - j
  {
    if i >= |shares| then Err(NoPairMatches)
    else if j >= |shares| then PairSearch(c, shares, commitment, i + 1, i + 2)
    else
      var p := PairOf(shares, i, j);
      if !WellFormed(p) then
        Err(PairRejected(if ReconstructError(p).Some? then ReconstructError(p).value else NoShares))
      else if c.sha256(Recovered(p)) == commitment then
        Ok(Recovery(Recovered(p), shares[i].x, shares[j].x))
      else PairSearch(c, shares, commitment, i, j + 1)
  }

  function SearchAll(c: Crypto, shares: seq<Share>, commitment: Bytes): Result<Recovery, RecoveryError> {
    if |shares| < 2 then Err(TooFewShares)
    else if |commitment| != 32 then Err(BadCommitmentLength)
    else PairSearch(c, shares, commitment, 0, 1)
  }

  /** The backend's reconstructWithCommitment. */
  method ReconstructWithCommitment(c: Crypto, shares: seq<Share>,
                                   commitment: Bytes) returns (r: Result<Recovery, RecoveryError>)
    requires Lawful(c)
    ensures r == SearchAll(c, shares, commitment)
  {
    hide WellFormed, Recovered, ReconstructError, Lawful;
    if |shares| < 2 {
      return Err(TooFewShares);
    }
    if |commitment| != 32 {
      return Err(BadCommitmentLength);
    }
    var i := 0;
    while i < |shares|
      invariant 0 <= i <= |shares|
      invariant PairSearch(c, shares, commitment, i, i + 1) == SearchAll(c, shares, commitment)
    {
      var j := i + 1;
      while j < |shares|
        invariant i + 1 <= j <= |shares|
        invariant PairSearch(c, shares, commitment, i, j) == SearchAll(c, shares, commitment)
      {
        var k := ShamirReconstruct(PairOf(shares, i, j));
        if k.Err? {
          return Err(PairRejected(k.error));
        }
        var matched := TagsMatch(c.sha256(k.value), commitment);
        if matched {
          return Ok(Recovery(k.value, shares[i].x, shares[j].x));
        }
        j := j + 1;
      }
      i := i + 1;
    }
    r := Err(NoPairMatches);
  }

  /** The shares the SDK keeps: the faithful ones, in order. */
  function Usable(openings: seq<OpenedShare>): seq<Share> {
    if openings == [] then []
    else if openings[0].faithful then [Share(openings[0].keyperIndex, openings[0].shareY)] + Usable(openings[1..])
    else Usable(openings[1..])
  }

  /** The SDK's reconstructWithCommitment: the same search over the faithful shares. */
  method SdkReconstructWithCommitment(c: Crypto, openings: seq<OpenedShare>,
                                      commitment: Bytes) returns (r: Result<Recovery, RecoveryError>)
    requires Lawful(c)
    ensures r == SearchAll(c, Usable(openings), commitment)
  {
    var usable := KeepFaithful(openings);
    r := ReconstructWithCommitment(c, usable, commitment);
  }

  method KeepFaithful(openings: seq<OpenedShare>) returns (usable: seq<Share>)
    ensures usable == Usable(openings)
  {
    usable := [];
    for i := 0 to |openings|
      invariant usable + Usable(openings[i..]) == Usable(openings)
    {
      var o := openings[i];
      assert openings[i..][0] == o && openings[i..][1..] == openings[i + 1..];
      if o.faithful {
        assert usable + Usable(openings[i..])
            == (usable + [Share(o.keyperIndex, o.shareY)]) + Usable(openings[i + 1..]);
        usable := usable + [Share(o.keyperIndex, o.shareY)];
      }
    }
  }

  // ---- what the search finds ----

  /** Lexicographic order of pairs. */
  predicate Before(i: nat, j: nat, i': nat, j': nat) {
    i < i' || (i == i' && j < j')
  }

  /** (a, b) matches, and every pair tried before it is well-formed. */
  predicate Reached(c: Crypto, shares: seq<Share>, commitment: Bytes, i: nat, j: nat, a: nat, b: nat)
    requires a < b < |shares|
  {
    && Matches(c, shares, commitment, a, b)
    && forall p, q :: 0 <= p < q < |shares| && !Before(p, q, i, j) && Before(p, q, a, b)
        ==> WellFormed(PairOf(shares, p, q))
  }

  lemma {:induction false} SearchSound(c: Crypto, shares: seq<Share>, commitment: Bytes, i: nat,
                                       j: nat) returns (a: nat, b: nat)
    requires i < j && PairSearch(c, shares, commitment, i, j).Ok?
    ensures a < b < |shares| && !Before(a, b, i, j) && Reached(c, shares, commitment, i, j, a, b)
    ensures PairSearch(c, shares, commitment, i, j)
            == Ok(Recovery(Recovered(PairOf(shares, a, b)), shares[a].x, shares[b].x))
    decreases |shares| - i, |shares| - j
  {
    hide WellFormed, Recovered, ReconstructError;
    if j >= |shares| {
      a, b := SearchSound(c, shares, commitment, i + 1, i + 2);
    } else if Matches(c, shares, commitment, i, j) {
      a, b := i, j;
    } else {
      a, b := SearchSound(c, shares, commitment, i, j + 1);
    }
  }

  lemma {:induction false} SearchComplete(c: Crypto, shares: seq<Share>, commitment: Bytes, i: nat, j: nat,
                                          a: nat, b: nat)
    requires i < j && a < b < |shares| && !Before(a, b, i, j) && Reached(c, shares, commitment, i, j, a, b)
    ensures PairSearch(c, shares, commitment, i, j).Ok?
    decreases |shares| - i, |shares| - j
  {
    hide WellFormed, Recovered, ReconstructError;
    if j >= |shares| {
      SearchComplete(c, shares, commitment, i + 1, i + 2, a, b);
    } else if !Matches(c, shares, commitment, i, j) {
      assert WellFormed(PairOf(shares, i, j)) by {
        assert Before(i, j, a, b);
      }
      SearchComplete(c, shares, commitment, i, j + 1, a, b);
    }
  }

  /** Exactly when recovery succeeds: some pair matches and no pair tried before it is malformed. */
  lemma RecoversExactlyWhen(c: Crypto, shares: seq<Share>, commitment: Bytes)
    ensures SearchAll(c, shares, commitment).Ok? <==>
              |commitment| == 32 && exists a, b :: 0 <= a < b < |shares| && Reached(c, shares, commitment, 0, 1, a, b)
  {
    if SearchAll(c, shares, commitment).Ok? {
      var a, b := SearchSound(c, shares, commitment, 0, 1);
    }
    if |commitment| == 32 && exists a, b :: 0 <= a < b < |shares| && Reached(c, shares, commitment, 0, 1, a, b) {
      var a, b :| 0 <= a < b < |shares| && Reached(c, shares, commitment, 0, 1, a, b);
      SearchComplete(c, shares, commitment, 0, 1, a, b);
    }
  }

  /** A key that comes out always hashes to the commitment, whatever went in. */
  lemma RecoveredKeyMatches(c: Crypto, shares: seq<Share>, commitment: Bytes)
    requires SearchAll(c, shares, commitment).Ok?
    ensures c.sha256(SearchAll(c, shares, commitment).value.k) == commitment
  {
    var a, b := SearchSound(c, shares, commitment, 0, 1);
  }

  /** Two shares at one point, met first, stop the search even when an honest pair follows. */
  lemma DuplicateStopsSearch(c: Crypto, shares: seq<Share>, commitment: Bytes)
    requires |shares| >= 2 && shares[0].x == shares[1].x
    ensures SearchAll(c, shares, commitment).Err?
  {
    var p := PairOf(shares, 0, 1);
    assert Xs(p)[0] == Xs(p)[1];
  }

  // ---- robustness ----

  /** No two 32-byte keys share a digest. */
  ghost predicate CollisionFree(c: Crypto) {
    forall a, b {:trigger c.sha256(a), c.sha256(b)} ::
      |a| == 32 && |b| == 32 && c.sha256(a) == c.sha256(b) ==> a == b
  }

  /** 32-byte shares at distinct points of 1..255. */
  predicate Usual(shares: seq<Share>) {
    && (forall i :: 0 <= i < |shares| ==> |shares[i].y| == 32)
    && InRange(Xs(shares)) && NoDuplicates(Xs(shares))
  }

  lemma UsualPair(shares: seq<Share>, i: nat, j: nat)
    requires Usual(shares) && i < j < |shares|
    ensures WellFormed(PairOf(shares, i, j)) && |Recovered(PairOf(shares, i, j))| == 32
  {
    var p := PairOf(shares, i, j);
    assert Xs(p)[0] == Xs(shares)[i] && Xs(p)[1] == Xs(shares)[j];
  }

  /** For shares at distinct points, recovery succeeds exactly when some pair matches. */
  lemma UsualRecoversWhen(c: Crypto, shares: seq<Share>, commitment: Bytes)
    requires Usual(shares) && |commitment| == 32
    ensures SearchAll(c, shares, commitment).Ok? <==>
              exists a, b :: 0 <= a < b < |shares| && Matches(c, shares, commitment, a, b)
  {
    hide WellFormed, Recovered, ReconstructError;
    RecoversExactlyWhen(c, shares, commitment);
    forall p, q | 0 <= p < q < |shares| ensures WellFormed(PairOf(shares, p, q)) {
      UsualPair(shares, p, q);
    }
    if exists a, b :: 0 <= a < b < |shares| && Matches(c, shares, commitment, a, b) {
      var a, b :| 0 <= a < b < |shares| && Matches(c, shares, commitment, a, b);
      assert Reached(c, shares, commitment, 0, 1, a, b);
    }
  }

  /** Whatever the other shares are, no key but the committed one comes out. */
  lemma OnlyTheCommittedKey(c: Crypto, shares: seq<Share>, key: Bytes)
    requires CollisionFree(c) && |key| == 32 && Usual(shares)
    requires SearchAll(c, shares, c.sha256(key)).Ok?
    ensures SearchAll(c, shares, c.sha256(key)).value.k == key
  {
    hide WellFormed, Recovered, ReconstructError;
    var a, b := SearchSound(c, shares, c.sha256(key), 0, 1);
    UsualPair(shares, a, b);
  }

  /** Two honest shares of a 2-of-n split are enough, whatever the other shares are. */
  lemma RobustRecovery(c: Crypto, shares: seq<Share>, key: Bytes, coeffs: seq<Bytes>, a: nat, b: nat)
    requires Lawful(c) && CollisionFree(c) && Usual(shares)
    requires |key| == 32 && |coeffs| == 1 && AllOfLength(coeffs, 32)
    requires a < b < |shares|
    requires IsShare(shares[a], key, coeffs, shares[a].x) && IsShare(shares[b], key, coeffs, shares[b].x)
    ensures SearchAll(c, shares, c.sha256(key)).Ok? && SearchAll(c, shares, c.sha256(key)).value.k == key
  {
    hide WellFormed, Recovered, ReconstructError, IsShare;
    var p := PairOf(shares, a, b);
    assert Xs(p)[0] == Xs(shares)[a] && Xs(p)[1] == Xs(shares)[b];
    ThresholdRecovers(p, key, coeffs);
    assert Matches(c, shares, c.sha256(key), a, b);
    UsualRecoversWhen(c, shares, c.sha256(key));
    OnlyTheCommittedKey(c, shares, key);
  }

  // ---- the SDK's openings ----

  /** The usable shares are the faithful openings, in order. */
  lemma {:induction false} UsableMeans(openings: seq<OpenedShare>, before: seq<OpenedShare>, s: Share)
    ensures s in Usable(openings) <==>
              exists o :: o in openings && o.faithful && s == Share(o.keyperIndex, o.shareY)
    ensures Usable(before + openings) == Usable(before) + Usable(openings)
    decreases |openings| + |before|
  {
    if before != [] {
      assert (before + openings)[0] == before[0] && (before + openings)[1..] == before[1..] + openings;
      UsableMeans(openings, before[1..], s);
    } else {
      assert before + openings == openings;
      if openings != [] {
        UsableMeans(openings[1..], [], s);
        assert openings == [openings[0]] + openings[1..];
      }
    }
  }

  /** Whatever unfaithful openings come along, with any index or bytes, the committed key comes out of two honest
      ones. */
  lemma FaithfulPairRecovers(c: Crypto, openings: seq<OpenedShare>, key: Bytes, coeffs: seq<Bytes>, a: nat, b: nat)
    requires Lawful(c) && CollisionFree(c)
    requires |key| == 32 && |coeffs| == 1 && AllOfLength(coeffs, 32)
    requires forall i :: 0 <= i < |openings| && openings[i].faithful ==>
               |openings[i].shareY| == 32 && 1 <= openings[i].keyperIndex <= 255
    requires forall i, j :: 0 <= i < j < |openings| && openings[i].faithful && openings[j].faithful ==>
               openings[i].keyperIndex != openings[j].keyperIndex
    requires a < b < |openings| && openings[a].faithful && openings[b].faithful
    requires IsShare(Share(openings[a].keyperIndex, openings[a].shareY), key, coeffs, openings[a].keyperIndex)
    requires IsShare(Share(openings[b].keyperIndex, openings[b].shareY), key, coeffs, openings[b].keyperIndex)
    ensures SearchAll(c, Usable(openings), c.sha256(key)).Ok?
    ensures SearchAll(c, Usable(openings), c.sha256(key)).value.k == key
  {
    hide SearchAll, IsShare, Lawful, CollisionFree;
    var shares := Usable(openings);
    UsableUsual(openings);
    var (first, second) := (openings[..b], openings[b..]);
    assert openings == first + second && second == [openings[b]] + second[1..];
    UsableMeans(second, first, Share(openings[a].keyperIndex, openings[a].shareY));
    UsableMeans(first, [], Share(openings[a].keyperIndex, openings[a].shareY));
    assert openings[a] == first[a] && first[a] in first;
    var i :| 0 <= i < |Usable(first)| && Usable(first)[i] == Share(openings[a].keyperIndex, openings[a].shareY);
    var j := |Usable(first)|;
    assert shares[j] == Share(openings[b].keyperIndex, openings[b].shareY);
    RobustRecovery(c, shares, key, coeffs, i, j);
  }

  lemma {:induction false} UsableUsual(openings: seq<OpenedShare>)
    requires forall i :: 0 <= i < |openings| && openings[i].faithful ==>
               |openings[i].shareY| == 32 && 1 <= openings[i].keyperIndex <= 255
    requires forall i, j :: 0 <= i < j < |openings| && openings[i].faithful && openings[j].faithful ==>
               openings[i].keyperIndex != openings[j].keyperIndex
    ensures Usual(Usable(openings))
    decreases |openings|
  {
    if openings != [] {
      var rest := openings[1..];
      UsableUsual(rest);
      if openings[0].faithful {
        var (s, shares) := (Share(openings[0].keyperIndex, openings[0].shareY), Usable(rest));
        forall k | 0 <= k < |shares| ensures shares[k].x != s.x {
          UsableMeans(rest, [], shares[k]);
          var o :| o in rest && o.faithful && shares[k] == Share(o.keyperIndex, o.shareY);
          var i :| 0 <= i < |rest| && rest[i] == o;
          assert openings[i + 1] == o;
        }
        assert Xs([s] + shares) == [s.x] + Xs(shares);
      }
    }
  }

  // ---- thresholds above two ----

  lemma DealtPair(c: Crypto, shares: seq<Share>, key: Bytes, coeffs: seq<Bytes>, a: nat, b: nat)
    requires CollisionFree(c) && Usual(shares) && |key| == 32 && FromDealing(shares, key, coeffs)
    requires a < b < |shares|
    ensures 1 <= shares[a].x <= 255 && 1 <= shares[b].x <= 255
    ensures Matches(c, shares, c.sha256(key), a, b) <==> SlopesAgree(coeffs, 32, shares[a].x, shares[b].x)
  {
    hide WellFormed, Recovered, IsShare, SlopesAgree;
    var p := PairOf(shares, a, b);
    assert Xs(shares)[a] == shares[a].x && Xs(shares)[b] == shares[b].x;
    UsualPair(shares, a, b);
    PairMeetsExactlyWhen(p, key, coeffs);
  }

  /** The committee threshold is a setting, the pair search is not: on shares of a dealing with any threshold it
      succeeds exactly when the slopes at some two points agree. */
  lemma AnyThresholdRecoversWhen(c: Crypto, shares: seq<Share>, key: Bytes, coeffs: seq<Bytes>)
    requires Lawful(c) && CollisionFree(c) && Usual(shares) && |key| == 32 && FromDealing(shares, key, coeffs)
    ensures forall i :: 0 <= i < |shares| ==> 1 <= shares[i].x <= 255
    ensures SearchAll(c, shares, c.sha256(key)).Ok? <==>
              exists a, b :: 0 <= a < b < |shares| && SlopesAgree(coeffs, 32, shares[a].x, shares[b].x)
  {
    hide SearchAll, Matches, IsShare, SlopesAgree;
    forall i | 0 <= i < |shares| ensures 1 <= shares[i].x <= 255 { assert Xs(shares)[i] == shares[i].x; }
    UsualRecoversWhen(c, shares, c.sha256(key));
    forall a, b | 0 <= a < b < |shares|
      ensures Matches(c, shares, c.sha256(key), a, b) <==> SlopesAgree(coeffs, 32, shares[a].x, shares[b].x)
    {
      DealtPair(c, shares, key, coeffs, a, b);
    }
  }

  /** At threshold 3 it fails on every set of shares, all n included, unless the quadratic vector is zero throughout. */
  lemma ThresholdThreeRecoversWhen(c: Crypto, shares: seq<Share>, key: Bytes, coeffs: seq<Bytes>)
    requires Lawful(c) && CollisionFree(c) && Usual(shares) && |key| == 32 && FromDealing(shares, key, coeffs)
    requires |coeffs| == 2 && |shares| >= 2
    ensures SearchAll(c, shares, c.sha256(key)).Ok? <==> Zero(coeffs[1])
  {
    hide SearchAll, IsShare, SlopesAgree;
    AnyThresholdRecoversWhen(c, shares, key, coeffs);
    forall a, b | 0 <= a < b < |shares|
      ensures SlopesAgree(coeffs, 32, shares[a].x, shares[b].x) <==> Zero(coeffs[1])
    {
      assert Xs(shares)[a] != Xs(shares)[b];
      ThreeNeedsThree(coeffs, 32, shares[a].x, shares[b].x);
    }
    assert SlopesAgree(coeffs, 32, shares[0].x, shares[1].x) <==> Zero(coeffs[1]);
  }
}
