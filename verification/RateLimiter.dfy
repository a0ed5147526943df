/** The per-IP sliding-window limiter of the HTTP handlers, and the reference limiter that forgets nothing. */
module RateLimiter {

  type Ip = nat

  /** One call to the limiter. */
  datatype Call = Call(ip: Ip, at: int)

  /** A Map in insertion order: every tracked IP once, with its recorded times. */
  datatype Track = Track(ip: Ip, times: seq<int>)

  type Hits = seq<Track>

  datatype Config = Config(windowMs: int, max: nat, maxIps: nat)

  predicate UniqueIps(h: Hits) {
    forall i, j :: 0 <= i < j < |h| ==> h[i].ip != h[j].ip
  }

  function Lookup(h: Hits, ip: Ip): seq<int> {
    if h == [] then [] else if h[0].ip == ip then h[0].times else Lookup(h[1..], ip)
  }

  predicate Tracked(h: Hits, ip: Ip) {
    exists i :: 0 <= i < |h| && h[i].ip == ip
  }

  /** `ts.filter((t) => now - t < window)`. */
  function Live(c: Config, ts: seq<int>, now: int): seq<int> {
    if ts == [] then []
    else Live(c, ts[..|ts| - 1], now) + (if now - ts[|ts| - 1] < c.windowMs then [ts[|ts| - 1]] else [])
  }

  /** `set`: in place for a known key, at the end for a new one. */
  function Put(h: Hits, ip: Ip, times: seq<int>): Hits {
    if h == [] then [Track(ip, times)]
    else if h[0].ip == ip then [Track(ip, times)] + h[1..]
    else [h[0]] + Put(h[1..], ip, times)
  }

  /** The sweep: expired entries go, the others keep only their live times. */
  function Swept(c: Config, h: Hits, now: int): Hits {
    if h == [] then []
    else
      var live := Live(c, h[0].times, now);
      (if live == [] then [] else [Track(h[0].ip, live)]) + Swept(c, h[1..], now)
  }

  /** Over the cap: sweep, and if still over, evict the oldest-inserted entries. */
  function Pruned(c: Config, h: Hits, now: int): Hits {
    if |h| <= c.maxIps then h
    else
      var s := Swept(c, h, now);
      if |s| <= c.maxIps then s else s[|s| - c.maxIps..]
  }

  /** The IPs a call's prune evicts although they had live hits. */
  function Evicted(c: Config, h: Hits, now: int): set<Ip> {
    if |h| <= c.maxIps then {}
    else
      var s := Swept(c, h, now);
      if |s| <= c.maxIps then {} else set i | 0 <= i < |s| - c.maxIps :: s[i].ip
  }

  function After(c: Config, h: Hits, call: Call): Hits {
    var p := Pruned(c, h, call.at);
    Put(p, call.ip, Live(c, Lookup(p, call.ip), call.at) + [call.at])
  }

  predicate Limited(c: Config, h: Hits, call: Call) {
    |Live(c, Lookup(Pruned(c, h, call.at), call.ip), call.at)| + 1 > c.max
  }

  class Limiter {
    const c: Config
    var hits: Hits

    constructor (c: Config)
      ensures this.c == c && hits == []
    {
      this.c := c;
      this.hits := [];
    }

    /** enrollRateLimited and its copies: record the hit, report whether the IP is now over the limit. */
    method RateLimited(ip: Ip, now: int) returns (over: bool)
      modifies this
      ensures hits == After(c, old(hits), Call(ip, now))
      ensures over == Limited(c, old(hits), Call(ip, now))
    {
      hide Live, Lookup, Put, Swept;
      if |hits| > c.maxIps {
        Sweep(now);
        if |hits| > c.maxIps {
          Evict(|hits| - c.maxIps);
        }
      }
      var live := KeepLive(Lookup(hits, ip), now);
      live := live + [now];
      hits := Put(hits, ip, live);
      over := |live| > c.max;
    }

    method KeepLive(ts: seq<int>, now: int) returns (live: seq<int>)
      ensures live == Live(c, ts, now)
    {
      live := [];
      for i := 0 to |ts|
        invariant live == Live(c, ts[..i], now)
      {
        assert ts[..i + 1][..i] == ts[..i];
        if now - ts[i] < c.windowMs {
          live := live + [ts[i]];
        }
      }
      assert ts[..|ts|] == ts;
    }

    method Sweep(now: int)
      modifies this
      ensures hits == Swept(c, old(hits), now)
    {
      hide Live;
      var swept: Hits := [];
      for i := 0 to |hits|
        invariant hits == old(hits)
        invariant swept + Swept(c, hits[i..], now) == Swept(c, hits, now)
      {
        assert hits[i..][1..] == hits[i + 1..];
        var live := KeepLive(hits[i].times, now);
        if live != [] {
          assert swept + Swept(c, hits[i..], now) == (swept + [Track(hits[i].ip, live)]) + Swept(c, hits[i + 1..], now);
          swept := swept + [Track(hits[i].ip, live)];
        }
      }
      assert hits[|hits|..] == [];
      hits := swept;
    }

    /** `if (toEvict-- <= 0) break`: exactly the first `toEvict` keys in insertion order. */
    method Evict(count: nat)
      requires count <= |hits|
      modifies this
      ensures hits == old(hits)[count..]
    {
      var toEvict := count;
      while toEvict > 0
        invariant 0 <= toEvict <= count && hits == old(hits)[count - toEvict..]
      {
        hits := hits[1..];
        toEvict := toEvict - 1;
      }
    }
  }

  // ---- the reference: a limiter that remembers every call ----

  /** The times of all calls of `ip` still inside the window at `now`. */
  function InWindow(c: Config, log: seq<Call>, ip: Ip, now: int): seq<int> {
    if log == [] then []
    else
      var last := log[|log| - 1];
      InWindow(c, log[..|log| - 1], ip, now) + (if last.ip == ip && now - last.at < c.windowMs then [last.at] else [])
  }

  predicate ReferenceLimited(c: Config, log: seq<Call>, call: Call) {
    |InWindow(c, log, call.ip, call.at)| + 1 > c.max
  }

  /** The reference refuses exactly when, of this address, at least `max` earlier calls lie in the window. */
  lemma ReferenceCounts(c: Config, log: seq<Call>, call: Call)
    ensures ReferenceLimited(c, log, call) <==>
              |set i | 0 <= i < |log| && log[i].ip == call.ip && call.at - log[i].at < c.windowMs| >= c.max
  {
    WindowCount(c, log, call.ip, call.at);
  }

  lemma {:induction false} WindowCount(c: Config, log: seq<Call>, ip: Ip, now: int)
    ensures |InWindow(c, log, ip, now)| == |set i | 0 <= i < |log| && log[i].ip == ip && now - log[i].at < c.windowMs|
    decreases |log|
  {
    var inside := set i | 0 <= i < |log| && log[i].ip == ip && now - log[i].at < c.windowMs;
    if log == [] {
      assert inside == {};
    } else {
      var (n, front) := (|log| - 1, log[..|log| - 1]);
      WindowCount(c, front, ip, now);
      var before := set i | 0 <= i < |front| && front[i].ip == ip && now - front[i].at < c.windowMs;
      if log[n].ip == ip && now - log[n].at < c.windowMs {
        assert inside == before + {n} && n !in before;
      } else {
        assert inside == before;
      }
    }
  }

  // ---- lists ----

  lemma LiveAppend(c: Config, ts: seq<int>, t: int, now: int)
    ensures Live(c, ts + [t], now) == Live(c, ts, now) + (if now - t < c.windowMs then [t] else [])
  {
    assert (ts + [t])[..|ts|] == ts;
  }

  lemma {:induction false} LiveLater(c: Config, ts: seq<int>, now: int, later: int)
    requires now <= later
    ensures Live(c, Live(c, ts, now), later) == Live(c, ts, later)
    decreases |ts|
  {
    if ts != [] {
      var (front, t) := (ts[..|ts| - 1], ts[|ts| - 1]);
      LiveLater(c, front, now, later);
      assert ts == front + [t];
      LiveAppend(c, front, t, now);
      LiveAppend(c, front, t, later);
      LiveAppend(c, Live(c, front, now), t, later);
      hide Live;
      assert Live(c, front, now) + [] == Live(c, front, now);
      assert Live(c, front, later) + [] == Live(c, front, later);
    }
  }

  lemma {:induction false} PutMeans(h: Hits, ip: Ip, times: seq<int>, q: Ip)
    ensures Lookup(Put(h, ip, times), q) == if q == ip then times else Lookup(h, q)
    ensures |h| <= |Put(h, ip, times)| <= |h| + 1
    ensures Tracked(Put(h, ip, times), q) <==> q == ip || Tracked(h, q)
    decreases |h|
  {
    var p := Put(h, ip, times);
    if h == [] {
      assert p[0].ip == ip;
    } else if h[0].ip == ip {
      assert p[1..] == h[1..] && p[0].ip == ip;
      if Tracked(h, q) && q != ip { var i :| 0 <= i < |h| && h[i].ip == q; assert p[i].ip == q; }
      if Tracked(p, q) && q != ip { var i :| 0 <= i < |p| && p[i].ip == q; assert h[i].ip == q; }
    } else {
      PutMeans(h[1..], ip, times, q);
      assert p[1..] == Put(h[1..], ip, times);
      TrackedCons(h, q);
      TrackedCons(p, q);
    }
  }

  lemma TrackedCons(h: Hits, q: Ip)
    requires h != []
    ensures Tracked(h, q) <==> h[0].ip == q || Tracked(h[1..], q)
  {
    if Tracked(h[1..], q) {
      var i :| 0 <= i < |h[1..]| && h[1..][i].ip == q;
      assert h[i + 1].ip == q;
    }
    if Tracked(h, q) {
      var i :| 0 <= i < |h| && h[i].ip == q;
      if i > 0 { assert h[1..][i - 1].ip == q; }
    }
  }

  lemma {:induction false} UniqueAfterPut(h: Hits, ip: Ip, times: seq<int>)
    requires UniqueIps(h)
    ensures UniqueIps(Put(h, ip, times))
    decreases |h|
  {
    if h != [] && h[0].ip != ip {
      UniqueAfterPut(h[1..], ip, times);
      var rest := Put(h[1..], ip, times);
      forall j | 0 <= j < |rest| ensures rest[j].ip != h[0].ip {
        PutMeans(h[1..], ip, times, rest[j].ip);
        assert Tracked(rest, rest[j].ip);
      }
    }
  }

  lemma {:induction false} LookupUntracked(h: Hits, ip: Ip)
    requires !Tracked(h, ip)
    ensures Lookup(h, ip) == []
    decreases |h|
  {
    if h != [] {
      TrackedCons(h, ip);
      LookupUntracked(h[1..], ip);
    }
  }

  /** Sweeping loses nothing that can still count. */
  lemma {:induction false} SweptMeans(c: Config, h: Hits, now: int, ip: Ip)
    requires UniqueIps(h)
    ensures Lookup(Swept(c, h, now), ip) == Live(c, Lookup(h, ip), now)
    ensures UniqueIps(Swept(c, h, now))
    ensures Tracked(Swept(c, h, now), ip) ==> Tracked(h, ip)
    decreases |h|
  {
    if h != [] {
      SweptMeans(c, h[1..], now, ip);
      TrackedCons(h, ip);
      var (live, rest) := (Live(c, h[0].times, now), Swept(c, h[1..], now));
      var s := Swept(c, h, now);
      forall j | 0 <= j < |rest| ensures rest[j].ip != h[0].ip {
        SweptMeans(c, h[1..], now, rest[j].ip);
        assert Tracked(rest, rest[j].ip);
      }
      if live == [] {
        assert s == rest;
        if h[0].ip == ip {
          assert !Tracked(rest, ip);
          LookupUntracked(rest, ip);
        }
      } else {
        assert s[1..] == rest && s[0] == Track(h[0].ip, live);
        TrackedCons(s, ip);
      }
    }
  }

  lemma {:induction false} LookupSuffix(h: Hits, k: nat, ip: Ip)
    requires k <= |h| && UniqueIps(h) && forall i :: 0 <= i < k ==> h[i].ip != ip
    ensures Lookup(h[k..], ip) == Lookup(h, ip)
    decreases k
  {
    if k > 0 {
      assert h[1..][k - 1..] == h[k..];
      LookupSuffix(h[1..], k - 1, ip);
    } else {
      assert h[0..] == h;
    }
  }

  // ---- one call ----

  /** The pruned map and the full log agree on `ip`, now and at every later time. */
  ghost predicate Agree(c: Config, h: Hits, log: seq<Call>, ip: Ip, now: int) {
    forall t :: t >= now ==> Live(c, Lookup(h, ip), t) == InWindow(c, log, ip, t)
  }

  lemma PrunedMeans(c: Config, h: Hits, now: int, ip: Ip, t: int)
    requires UniqueIps(h) && ip !in Evicted(c, h, now) && t >= now
    ensures Live(c, Lookup(Pruned(c, h, now), ip), t) == Live(c, Lookup(h, ip), t)
  {
    hide Live, Swept, Lookup;
    if |h| > c.maxIps {
      var s := Swept(c, h, now);
      SweptMeans(c, h, now, ip);
      LiveLater(c, Lookup(h, ip), now, t);
      if |s| > c.maxIps {
        var k := |s| - c.maxIps;
        forall i | 0 <= i < k ensures s[i].ip != ip {
          assert s[i].ip in Evicted(c, h, now);
        }
        LookupSuffix(s, k, ip);
      }
    }
  }

  lemma {:induction false} LookupTracked(h: Hits, i: nat)
    requires UniqueIps(h) && i < |h|
    ensures Lookup(h, h[i].ip) == h[i].times
    decreases |h|
  {
    if i > 0 {
      LookupTracked(h[1..], i - 1);
    }
  }

  lemma {:induction false} SweptLive(c: Config, h: Hits, now: int, i: nat)
    requires i < |Swept(c, h, now)|
    ensures Swept(c, h, now)[i].times != []
    decreases |h|
  {
    var here := if Live(c, h[0].times, now) == [] then 0 else 1;
    if i >= here {
      SweptLive(c, h[1..], now, i - here);
    }
  }

  /** Evicted for capacity means: calls of the address still count, and the prune forgets it all the same. */
  lemma EvictedExactlyWhen(c: Config, h: Hits, now: int, ip: Ip)
    requires UniqueIps(h)
    ensures ip in Evicted(c, h, now) <==> Live(c, Lookup(h, ip), now) != [] && !Tracked(Pruned(c, h, now), ip)
  {
    hide Live, Swept, Lookup;
    if |h| <= c.maxIps {
      if !Tracked(h, ip) {
        LookupUntracked(h, ip);
        assert Live(c, [], now) == [] by { NothingLive(c, now); }
      }
    } else {
      var (s, p) := (Swept(c, h, now), Pruned(c, h, now));
      SweptMeans(c, h, now, ip);
      var k := if |s| <= c.maxIps then 0 else |s| - c.maxIps;
      assert p == s[k..];
      if Tracked(s, ip) {
        var i :| 0 <= i < |s| && s[i].ip == ip;
        LookupTracked(s, i);
        SweptLive(c, h, now, i);
        assert i >= k ==> p[i - k].ip == ip;
      } else {
        LookupUntracked(s, ip);
        assert forall i :: 0 <= i < |p| ==> p[i] == s[i + k];
      }
    }
  }

  lemma NothingLive(c: Config, now: int)
    ensures Live(c, [], now) == []
  {}

  /** Nobody is evicted while no more than MAX_IPS addresses have calls that still count. */
  lemma NobodyEvicted(c: Config, h: Hits, now: int, ips: set<Ip>)
    requires UniqueIps(h) && |ips| <= c.maxIps
    requires forall ip :: Live(c, Lookup(h, ip), now) != [] ==> ip in ips
    ensures Evicted(c, h, now) == {}
  {
    hide Live, Lookup;
    var s := Swept(c, h, now);
    SweptMeans(c, h, now, 0);
    forall i | 0 <= i < |s| ensures s[i].ip in ips {
      SweptMeans(c, h, now, s[i].ip);
      LookupTracked(s, i);
      SweptLive(c, h, now, i);
    }
    FewEnough(s, ips);
  }

  lemma {:induction false} FewEnough(h: Hits, ips: set<Ip>)
    requires UniqueIps(h) && forall i :: 0 <= i < |h| ==> h[i].ip in ips
    ensures |h| <= |ips|
    decreases |h|
  {
    if h != [] {
      FewEnough(h[1..], ips - {h[0].ip});
    }
  }

  function Ips(h: Hits): (ips: seq<Ip>)
    ensures |ips| == |h|
  {
    seq(|h|, i requires 0 <= i < |h| => h[i].ip)
  }

  lemma IpsCons(t: Track, h: Hits)
    ensures Ips([t] + h) == [t.ip] + Ips(h)
  {}

  /** A known address keeps its place in insertion order, a new one goes last. */
  lemma {:induction false} PutOrder(h: Hits, ip: Ip, times: seq<int>)
    ensures Ips(Put(h, ip, times)) == if Tracked(h, ip) then Ips(h) else Ips(h) + [ip]
    decreases |h|
  {
    var p := Put(h, ip, times);
    if h == [] {
      assert !Tracked(h, ip);
    } else {
      TrackedCons(h, ip);
      assert p == (if h[0].ip == ip then [Track(ip, times)] + h[1..] else [h[0]] + Put(h[1..], ip, times));
      if h[0].ip != ip {
        PutOrder(h[1..], ip, times);
        IpsCons(h[0], h[1..]);
        IpsCons(h[0], Put(h[1..], ip, times));
        assert [h[0]] + h[1..] == h;
      }
    }
  }

  /** Sweeping keeps the insertion order. */
  lemma {:induction false} SweptOrder(c: Config, h: Hits, now: int, a: nat, b: nat) returns (i: nat, j: nat)
    requires a <= b < |Swept(c, h, now)|
    ensures i <= j < |h| && (a < b ==> i < j)
    ensures h[i].ip == Swept(c, h, now)[a].ip && h[j].ip == Swept(c, h, now)[b].ip
    decreases |h|
  {
    hide Live;
    var here := if Live(c, h[0].times, now) == [] then 0 else 1;
    if b < here {
      i, j := 0, 0;
    } else if a < here {
      i, j := SweptOrder(c, h[1..], now, b - here, b - here);
      i, j := 0, j + 1;
    } else {
      i, j := SweptOrder(c, h[1..], now, a - here, b - here);
      i, j := i + 1, j + 1;
    }
  }

  /** The oldest go first: whoever is evicted was inserted before everybody who stays. */
  lemma EvictsOldest(c: Config, h: Hits, now: int, i: nat, j: nat)
    requires UniqueIps(h) && i < |h| && j < |h| && |h| > c.maxIps
    requires h[i].ip in Evicted(c, h, now) && Tracked(Pruned(c, h, now), h[j].ip)
    ensures i < j
  {
    hide Swept;
    var (s, p) := (Swept(c, h, now), Pruned(c, h, now));
    var a :| 0 <= a < |s| - c.maxIps && s[a].ip == h[i].ip;
    var b :| 0 <= b < |p| && p[b].ip == h[j].ip;
    var x, y := SweptOrder(c, h, now, a, b + |s| - c.maxIps);
  }

  lemma PrunedShape(c: Config, h: Hits, now: int)
    requires UniqueIps(h)
    ensures UniqueIps(Pruned(c, h, now)) && |Pruned(c, h, now)| <= c.maxIps
  {
    SweptMeans(c, h, now, 0);
  }

  /** One call: the decision is the reference's, the map stays bounded, and agreement survives. */
  lemma CallAgrees(c: Config, h: Hits, log: seq<Call>, call: Call, ip: Ip)
    requires UniqueIps(h) && Agree(c, h, log, ip, call.at) && ip !in Evicted(c, h, call.at)
    ensures Agree(c, After(c, h, call), log + [call], ip, call.at)
    ensures call.ip == ip ==> (Limited(c, h, call) <==> ReferenceLimited(c, log, call))
  {
    var p := Pruned(c, h, call.at);
    var times := Live(c, Lookup(p, call.ip), call.at) + [call.at];
    PutMeans(p, call.ip, times, ip);
    PrunedMeans(c, h, call.at, ip, call.at);
    forall t | t >= call.at ensures Live(c, Lookup(After(c, h, call), ip), t) == InWindow(c, log + [call], ip, t) {
      PrunedMeans(c, h, call.at, ip, t);
      assert (log + [call])[..|log|] == log;
      if call.ip == ip {
        LiveAppend(c, Live(c, Lookup(p, ip), call.at), call.at, t);
        LiveLater(c, Lookup(p, ip), call.at, t);
      }
    }
  }

  lemma CallShape(c: Config, h: Hits, call: Call)
    requires UniqueIps(h)
    ensures UniqueIps(After(c, h, call)) && |After(c, h, call)| <= c.maxIps + 1
  {
    var p := Pruned(c, h, call.at);
    PrunedShape(c, h, call.at);
    UniqueAfterPut(p, call.ip, Live(c, Lookup(p, call.ip), call.at) + [call.at]);
    PutMeans(p, call.ip, Live(c, Lookup(p, call.ip), call.at) + [call.at], 0);
  }

  // ---- whole runs ----

  /** The map after a run of calls. */
  function HitsAfter(c: Config, calls: seq<Call>): Hits {
    if calls == [] then [] else After(c, HitsAfter(c, calls[..|calls| - 1]), calls[|calls| - 1])
  }

  /** Time does not go back. */
  predicate Ordered(calls: seq<Call>) {
    |calls| > 1 ==> calls[|calls| - 2].at <= calls[|calls| - 1].at && Ordered(calls[..|calls| - 1])
  }

  /** No prune during the run evicts `ip` for capacity. */
  ghost predicate NeverEvicted(c: Config, calls: seq<Call>, ip: Ip) {
    calls == [] ||
    var (before, call) := (calls[..|calls| - 1], calls[|calls| - 1]);
    NeverEvicted(c, before, ip) && ip !in Evicted(c, HitsAfter(c, before), call.at)
  }

  /** The map never tracks more than MAX_IPS + 1 addresses. */
  lemma {:induction false} MapBounded(c: Config, calls: seq<Call>)
    ensures UniqueIps(HitsAfter(c, calls)) && |HitsAfter(c, calls)| <= c.maxIps + 1
    decreases |calls|
  {
    if calls != [] {
      var before := calls[..|calls| - 1];
      MapBounded(c, before);
      CallShape(c, HitsAfter(c, before), calls[|calls| - 1]);
    }
  }

  lemma NeverEvictedUnfold(c: Config, before: seq<Call>, call: Call, ip: Ip)
    requires NeverEvicted(c, before + [call], ip) && Ordered(before + [call])
    ensures NeverEvicted(c, before, ip) && ip !in Evicted(c, HitsAfter(c, before), call.at)
    ensures Ordered(before) && (before != [] ==> before[|before| - 1].at <= call.at)
    ensures HitsAfter(c, before + [call]) == After(c, HitsAfter(c, before), call)
  {
    assert (before + [call])[..|before|] == before;
  }

  lemma {:induction false} RunAgrees(c: Config, calls: seq<Call>, ip: Ip, now: int)
    requires Ordered(calls) && NeverEvicted(c, calls, ip)
    requires calls != [] ==> now >= calls[|calls| - 1].at
    ensures Agree(c, HitsAfter(c, calls), calls, ip, now)
    decreases |calls|
  {
    if calls == [] {
      EmptyAgrees(c, ip, now);
    } else {
      hide Agree, After, Evicted, HitsAfter, NeverEvicted, Ordered, UniqueIps;
      var (before, call) := (calls[..|calls| - 1], calls[|calls| - 1]);
      assert calls == before + [call];
      NeverEvictedUnfold(c, before, call, ip);
      RunAgrees(c, before, ip, call.at);
      MapBounded(c, before);
      StepAgrees(c, HitsAfter(c, before), before, call, ip, now);
    }
  }

  lemma EmptyAgrees(c: Config, ip: Ip, now: int)
    ensures Agree(c, [], [], ip, now)
  {}

  lemma StepAgrees(c: Config, h: Hits, log: seq<Call>, call: Call, ip: Ip, now: int)
    requires UniqueIps(h) && Agree(c, h, log, ip, call.at) && ip !in Evicted(c, h, call.at) && now >= call.at
    ensures Agree(c, After(c, h, call), log + [call], ip, now)
  {
    hide After, Evicted;
    CallAgrees(c, h, log, call, ip);
  }

  /** Refinement: with time not going back, a call of an address never evicted for capacity is decided exactly as by
      the limiter that remembers every call. */
  lemma DecidesLikeReference(c: Config, calls: seq<Call>, call: Call)
    requires Ordered(calls) && (calls != [] ==> call.at >= calls[|calls| - 1].at)
    requires NeverEvicted(c, calls, call.ip) && call.ip !in Evicted(c, HitsAfter(c, calls), call.at)
    ensures Limited(c, HitsAfter(c, calls), call) <==> ReferenceLimited(c, calls, call)
  {
    hide Agree, After, Evicted, Limited, ReferenceLimited;
    RunAgrees(c, calls, call.ip, call.at);
    MapBounded(c, calls);
    CallAgrees(c, HitsAfter(c, calls), calls, call, call.ip);
  }

  /** How many calls of `ip` the run accepted at times in [from, from + window). */
  function Accepted(c: Config, calls: seq<Call>, ip: Ip, from: int): nat {
    if calls == [] then 0
    else
      var (before, call) := (calls[..|calls| - 1], calls[|calls| - 1]);
      Accepted(c, before, ip, from)
      + if call.ip == ip && !Limited(c, HitsAfter(c, before), call) && from <= call.at < from + c.windowMs then 1 else 0
  }

  lemma {:induction false} AcceptedAreInWindow(c: Config, calls: seq<Call>, ip: Ip, from: int, now: int)
    requires now < from + c.windowMs
    ensures Accepted(c, calls, ip, from) <= |InWindow(c, calls, ip, now)|
    decreases |calls|
  {
    hide Limited, HitsAfter;
    if calls != [] {
      AcceptedAreInWindow(c, calls[..|calls| - 1], ip, from, now);
    }
  }

  /** No window of the configured length ever holds more than MAX accepted calls of such an address. */
  lemma {:induction false} WindowNeverExceedsMax(c: Config, calls: seq<Call>, ip: Ip, from: int)
    requires Ordered(calls) && NeverEvicted(c, calls, ip)
    ensures Accepted(c, calls, ip, from) <= c.max
    decreases |calls|
  {
    hide Live, InWindow, Lookup, HitsAfter, Evicted, Limited;
    if calls != [] {
      var (before, call) := (calls[..|calls| - 1], calls[|calls| - 1]);
      WindowNeverExceedsMax(c, before, ip, from);
      if call.ip == ip && !Limited(c, HitsAfter(c, before), call) && from <= call.at < from + c.windowMs {
        DecidesLikeReference(c, before, call);
        AcceptedAreInWindow(c, before, ip, from, call.at);
      }
    }
  }
}
