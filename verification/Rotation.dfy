/** The round-robin index over many picks: fairness, and what retries are sure to reach. */
module Rotation {
  import opened EndpointStrings
  import opened Policies
  import opened Slices
  import opened Balancing

  // ----- The index on its own

  function NextIndex(index: nat, n: nat): (r: nat)
    requires index < n
    ensures r < n
  {
    (index + 1) % n
  }

  /** The index after `k` picks. */
  function IndexAfter(index: nat, n: nat, k: nat): (r: nat)
    requires index < n
    ensures r < n
  {
    if k == 0 then index else NextIndex(IndexAfter(index, n, k - 1), n)
  }

  /** How many of the first `k` picks take position `j`. */
  ghost function Hits(index: nat, n: nat, k: nat, j: nat): (h: nat)
    requires index < n
  {
    if k == 0 then 0 else Hits(index, n, k - 1, j) + if IndexAfter(index, n, k - 1) == j then 1 else 0
  }

  /** How far position `j` lies ahead of the index. */
  function Ahead(index: nat, n: nat, j: nat): (d: nat)
    requires index < n && j < n
    ensures d < n
  {
    if index <= j then j - index else j - index + n
  }

  lemma NextIsWrap(index: nat, n: nat)
    requires index < n
    ensures NextIndex(index, n) == if index + 1 == n then 0 else index + 1
  {
  }

  /** The full laps that `k` picks make over `n` positions, and the picks beyond them. */
  function Laps(k: nat, n: nat): (q: nat)
    requires n > 0
  {
    k / n
  }

  function Beyond(k: nat, n: nat): (r: nat)
    requires n > 0
    ensures r < n
  {
    k % n
  }

  lemma LapsAre(k: nat, n: nat, q: nat, r: nat)
    requires n > 0 && r < n && k == q * n + r
    ensures Laps(k, n) == q && Beyond(k, n) == r
  {
    var d := k / n - q;
    assert k == (k / n) * n + k % n;
    assert d * n == r - k % n;
    assert d >= 1 ==> d * n >= n;
    assert d <= -1 ==> d * n <= -1 * n;
  }

  /** One more pick: the lap count and the remainder move on together. */
  lemma NextLap(k: nat, n: nat)
    requires n > 0
    ensures Laps(0, n) == 0 && Beyond(0, n) == 0
    ensures Laps(k + 1, n) == Laps(k, n) + if Beyond(k, n) + 1 == n then 1 else 0
    ensures Beyond(k + 1, n) == if Beyond(k, n) + 1 == n then 0 else Beyond(k, n) + 1
  {
    var q, r := Laps(k, n), Beyond(k, n);
    assert k == q * n + r;
    LapsAre(0, n, 0, 0);
    if r + 1 == n {
      assert k + 1 == (q + 1) * n + 0;
      LapsAre(k + 1, n, q + 1, 0);
    } else {
      LapsAre(k + 1, n, q, r + 1);
    }
  }

  lemma {:induction false} IndexAfterLaps(index: nat, n: nat, k: nat)
    requires index < n
    ensures var i := index + Beyond(k, n); IndexAfter(index, n, k) == if i < n then i else i - n
  {
    hide Beyond;
    hide NextIndex;
    NextLap(if k > 0 then k - 1 else 0, n);
    if k > 0 {
      IndexAfterLaps(index, n, k - 1);
      NextIsWrap(IndexAfter(index, n, k - 1), n);
    }
  }

  /** Fairness: after any number of picks every position has been taken once per full lap, and once
      more if it lies within the part of the last lap that has been run through. */
  lemma {:induction false} Fairness(index: nat, n: nat, k: nat, j: nat)
    requires index < n && j < n
    ensures Hits(index, n, k, j) == Laps(k, n) + if Ahead(index, n, j) < Beyond(k, n) then 1 else 0
  {
    hide Laps;
    hide Beyond;
    hide IndexAfter;
    NextLap(if k > 0 then k - 1 else 0, n);
    if k > 0 {
      Fairness(index, n, k - 1, j);
      IndexAfterLaps(index, n, k - 1);
    }
  }

  /** Any `n` consecutive picks take every position exactly once. */
  lemma EveryPositionOncePerLap(index: nat, n: nat, j: nat)
    requires index < n && j < n
    ensures Hits(index, n, n, j) == 1
  {
    LapsAre(n, n, 1, 0);
    Fairness(index, n, n, j);
  }

  // ----- Picks of the balancer

  /** Picks come from the index: no policy picks, and affinity is off. */
  ghost predicate ByIndex(v: Port) {
    && v.state.Some? && v.state.value.endpoints != [] && IndexOk(v.state.value)
    && (v.policy.None? || v.policy.value.RoundRobin?)
    && (v.state.value.affinityType == "" || v.state.value.affinityType == "None")
  }

  /** The event leaves the endpoints of the port in place, affinity off and no policy that picks. It may
      come from another port or service, resend the endpoints in another order, clean up, pick, or
      change rules and services in ways that do not matter here. */
  ghost predicate KeepsRotating(p: PortName, endpoints: seq<string>, ev: Event) {
    match ev
    case EndpointsAdd(svc, lists, _) => !(svc == p.svc && p.port in lists)
    case EndpointsUpdate(svc, oldLists, lists, _) =>
      svc == p.svc ==> if p.port in lists then multiset(lists[p.port]) == multiset(endpoints) else p.port !in oldLists
    case EndpointsDelete(svc, lists) => !(svc == p.svc && p.port in lists)
    case RuleAdd(svc, name, _) => svc == p.svc ==> name != RANDOM && name != CONSISTENT_HASH
    case RuleUpdate(svc, name, _) => svc == p.svc ==> name != RANDOM && name != CONSISTENT_HASH
    case NewService(q, affinityType, _) => q == p ==> affinityType == "" || affinityType == "None"
    case DeleteService(q) => q != p
    case _ => true
  }

  predicate PicksAt(p: PortName, ev: Event) {
    ev.Pick? && ev.port == p
  }

  lemma StepRotates(p: PortName, v: Port, ev: Event, now: nat, locate: Locator)
    requires ByIndex(v) && WellShuffled(ev) && KeepsRotating(p, v.state.value.endpoints, ev)
    ensures var s := v.state.value; var r := PortStep(p, v, ev, now, locate);
            && ByIndex(r) && r.state.value.endpoints == s.endpoints
            && r.state.value.index == (if PicksAt(p, ev) then NextIndex(s.index, |s.endpoints|) else s.index)
            && (PicksAt(p, ev) ==> PickResultOf(v, ev.client, ev.reset, ev.rnd, now, locate) == Chosen(s.endpoints[s.index]))
  {
    hide Expired;
  }

  /** The results are the endpoints in rotation. */
  ghost predicate InRotation(endpoints: seq<string>, index: nat, rs: seq<PickResult>)
    requires index < |endpoints|
  {
    forall i :: 0 <= i < |rs| ==> rs[i] == Chosen(endpoints[IndexAfter(index, |endpoints|, i)])
  }

  lemma IndexAfterNone(index: nat, n: nat)
    requires index < n
    ensures IndexAfter(index, n, 0) == index
  {
  }

  lemma RotationGoesOn(endpoints: seq<string>, index: nat, rs: seq<PickResult>)
    requires index < |endpoints| && InRotation(endpoints, NextIndex(index, |endpoints|), rs)
    ensures InRotation(endpoints, index, [Chosen(endpoints[index])] + rs)
    ensures IndexAfter(index, |endpoints|, |rs| + 1) == IndexAfter(NextIndex(index, |endpoints|), |endpoints|, |rs|)
  {
    hide NextIndex;
    hide IndexAfter;
    var n, all := |endpoints|, [Chosen(endpoints[index])] + rs;
    IndexAfterNone(index, n);
    IndexAfterShift(index, n, |rs|);
    forall i | 0 <= i < |all|
      ensures all[i] == Chosen(endpoints[IndexAfter(index, n, i)])
    {
      if i > 0 {
        IndexAfterShift(index, n, i - 1);
        assert all[i] == rs[i - 1];
      }
    }
  }

  /** The picks of whichever clients take the endpoints in rotation, across all that happens in between. */
  lemma {:induction false} PicksRotate(p: PortName, v: Port, run: seq<Timed>, locate: Locator)
    requires ByIndex(v) && Shuffled(run) && forall t <- run :: KeepsRotating(p, v.state.value.endpoints, t.event)
    ensures var s := v.state.value; var rs, r := Results(p, v, run, locate), After(p, v, run, locate);
            && InRotation(s.endpoints, s.index, rs)
            && r.state.Some? && r.state.value.endpoints == s.endpoints
            && r.state.value.index == IndexAfter(s.index, |s.endpoints|, |rs|)
    decreases |run|
  {
    if run != [] {
      var s, ev, rs := v.state.value, run[0].event, Results(p, v, run, locate);
      StepRotates(p, v, ev, run[0].time, locate);
      var v' := PortStep(p, v, ev, run[0].time, locate);
      hide PortStep;
      hide KeepsRotating;
      hide PickResultOf;
      hide NextIndex;
      hide InRotation;
      hide IndexAfter;
      PicksRotate(p, v', run[1..], locate);
      var more := Results(p, v', run[1..], locate);
      if PicksAt(p, ev) {
        RotationGoesOn(s.endpoints, s.index, more);
        assert rs == [Chosen(s.endpoints[s.index])] + more;
      } else {
        assert rs == more;
      }
    }
  }

  /** How many of the first `k` picks take a position below `m` that holds the endpoint `e`. */
  ghost function HitsOf(endpoints: seq<string>, e: string, index: nat, k: nat, m: nat): (h: nat)
    requires index < |endpoints| && m <= |endpoints|
  {
    if m == 0 then 0
    else HitsOf(endpoints, e, index, k, m - 1) + if endpoints[m - 1] == e then Hits(index, |endpoints|, k, m - 1) else 0
  }

  lemma {:induction false} HitsOfNext(endpoints: seq<string>, e: string, index: nat, k: nat, m: nat)
    requires index < |endpoints| && m <= |endpoints|
    ensures var j := IndexAfter(index, |endpoints|, k);
            HitsOf(endpoints, e, index, k + 1, m) == HitsOf(endpoints, e, index, k, m) + if j < m && endpoints[j] == e then 1 else 0
    decreases m
  {
    hide IndexAfter;
    if m > 0 {
      HitsOfNext(endpoints, e, index, k, m - 1);
    }
  }

  lemma {:induction false} NoHitsYet(endpoints: seq<string>, e: string, index: nat, m: nat)
    requires index < |endpoints| && m <= |endpoints|
    ensures HitsOf(endpoints, e, index, 0, m) == 0
  {
    if m > 0 {
      NoHitsYet(endpoints, e, index, m - 1);
    }
  }

  lemma {:induction false} CountRotation(endpoints: seq<string>, e: string, index: nat, rs: seq<PickResult>, k: nat)
    requires index < |endpoints| && k <= |rs| && InRotation(endpoints, index, rs)
    ensures multiset(rs[..k])[Chosen(e)] == HitsOf(endpoints, e, index, k, |endpoints|)
    decreases k
  {
    hide IndexAfter;
    if k == 0 {
      NoHitsYet(endpoints, e, index, |endpoints|);
    } else {
      CountRotation(endpoints, e, index, rs, k - 1);
      HitsOfNext(endpoints, e, index, k - 1, |endpoints|);
      assert rs[..k] == rs[..k - 1] + [rs[k - 1]];
    }
  }

  /** Fairness of picks: an endpoint is picked as often as the rotation comes to a position that holds it,
      which `Fairness` counts position by position. */
  lemma PicksAreCounted(p: PortName, v: Port, run: seq<Timed>, e: string, locate: Locator)
    requires ByIndex(v) && Shuffled(run) && forall t <- run :: KeepsRotating(p, v.state.value.endpoints, t.event)
    ensures var s := v.state.value; var rs := Results(p, v, run, locate);
            multiset(rs)[Chosen(e)] == HitsOf(s.endpoints, e, s.index, |rs|, |s.endpoints|)
  {
    PicksRotate(p, v, run, locate);
    var s, rs := v.state.value, Results(p, v, run, locate);
    hide Results;
    hide After;
    hide KeepsRotating;
    CountRotation(s.endpoints, e, s.index, rs, |rs|);
    assert rs[..|rs|] == rs;
  }

  lemma {:induction false} HitsOfDistinct(endpoints: seq<string>, j: nat, index: nat, k: nat, m: nat)
    requires index < |endpoints| && m <= |endpoints| && j < |endpoints| && NoDuplicates(endpoints)
    ensures HitsOf(endpoints, endpoints[j], index, k, m) == if j < m then Hits(index, |endpoints|, k, j) else 0
    decreases m
  {
    hide Hits;
    if m > 0 {
      HitsOfDistinct(endpoints, j, index, k, m - 1);
    }
  }

  /** With distinct endpoints no endpoint is ever picked more than once more often than another: each gets
      one pick per full lap, and one more if it lies within the part of the last lap run through. */
  lemma PicksAreFair(p: PortName, v: Port, run: seq<Timed>, j: nat, locate: Locator)
    requires ByIndex(v) && Shuffled(run) && forall t <- run :: KeepsRotating(p, v.state.value.endpoints, t.event)
    requires NoDuplicates(v.state.value.endpoints) && j < |v.state.value.endpoints|
    ensures var s := v.state.value; var n, k := |s.endpoints|, |Results(p, v, run, locate)|;
            multiset(Results(p, v, run, locate))[Chosen(s.endpoints[j])] ==
              Laps(k, n) + if Ahead(s.index, n, j) < Beyond(k, n) then 1 else 0
  {
    var s, rs := v.state.value, Results(p, v, run, locate);
    PicksAreCounted(p, v, run, s.endpoints[j], locate);
    hide Results;
    hide KeepsRotating;
    hide HitsOf;
    hide Laps;
    hide Beyond;
    HitsOfDistinct(s.endpoints, j, s.index, |rs|, |s.endpoints|);
    Fairness(s.index, |s.endpoints|, |rs|, j);
  }

  lemma {:induction false} IndexAfterShift(index: nat, n: nat, k: nat)
    requires index < n
    ensures IndexAfter(index, n, k + 1) == IndexAfter(NextIndex(index, n), n, k)
  {
    if k > 0 {
      IndexAfterShift(index, n, k - 1);
    }
  }

  // ----- TryConnectEndpoints

  /** The attempts that EndpointDialTimeouts allows. */
  const DIAL_ATTEMPTS := 4

  /** What an attempt meets: a connection, a refusal, a connection over which the HTTP request read
      from the client cannot be written on, or a dial that fails for want of file descriptors. */
  datatype Dial = Reached | Refused | WriteFailed | NoDescriptors

  datatype Connection =
    | Connected(endpoint: string)
    | Broken(endpoint: string)        // the request could not be written on: an error
    | Panicked                        // out of file descriptors
    | NoEndpoint(why: PickResult)
    | Exhausted

  /** What dialling meets: what attempt `i` makes of an endpoint, when it is made, and the random
      number drawn for it. */
  datatype World = World(dial: (nat, string) -> Dial, time: nat -> nat, rnd: nat -> nat)

  /** What an attempt that is not refused ends in. */
  function Ended(d: Dial, endpoint: string): (c: Connection)
    requires d != Refused
  {
    match d
    case Reached => Connected(endpoint)
    case WriteFailed => Broken(endpoint)
    case NoDescriptors => Panicked
  }

  /** Attempts `i` to `attempts - 1`; all but the first ask for another endpoint. */
  function Connect(v: Port, client: Client, w: World, i: nat, attempts: nat, locate: Locator): (r: (Connection, Port))
    requires v.state.Some? ==> IndexOk(v.state.value)
    decreases attempts - i
  {
    if i >= attempts then (Exhausted, v)
    else
      var picked := PickResultOf(v, client, i > 0, w.rnd(i), w.time(i), locate);
      var v' := PickState(v, client, i > 0, w.rnd(i), w.time(i), locate);
      if !picked.Chosen? then (NoEndpoint(picked), v')
      else if w.dial(i, picked.endpoint) != Refused then (Ended(w.dial(i, picked.endpoint), picked.endpoint), v')
      else Connect(v', client, w, i + 1, attempts, locate)
  }

  /** Picks come from the client's record or the index: there is an endpoint, no policy picks, and
      records name endpoints. */
  ghost predicate ByRecordOrIndex(v: Port, client: Client) {
    && v.state.Some? && v.state.value.endpoints != [] && IndexOk(v.state.value)
    && (v.policy.None? || v.policy.value.RoundRobin? || IsSessionAffinity(v.state.value.affinityType))
    && (IsSessionAffinity(v.state.value.affinityType) ==> client.ip.Some?)
    && (forall ip <- v.state.value.affinityMap :: v.state.value.affinityMap[ip].endpoint in v.state.value.endpoints)
  }

  /** The client's record, if affinity is on, names this endpoint of the port. */
  ghost predicate Recorded(v: Port, client: Client, endpoint: string) {
    && v.state.Some? && endpoint in v.state.value.endpoints
    && (IsSessionAffinity(v.state.value.affinityType) ==>
          client.ip.Some? && client.ip.value in v.state.value.affinityMap
          && v.state.value.affinityMap[client.ip.value].endpoint == endpoint)
  }

  /** One pick that asks for another endpoint takes the position the index points to. */
  lemma ResetPick(v: Port, client: Client, rnd: nat, now: nat, locate: Locator)
    requires ByRecordOrIndex(v, client)
    ensures var s := v.state.value; var r := PickState(v, client, true, rnd, now, locate);
            && PickResultOf(v, client, true, rnd, now, locate) == Chosen(s.endpoints[s.index])
            && ByRecordOrIndex(r, client) && r.state.value.endpoints == s.endpoints
            && r.state.value.index == NextIndex(s.index, |s.endpoints|)
            && Recorded(r, client, s.endpoints[s.index])
  {
  }

  /** The client has a record that wins on the first attempt. */
  predicate BoundNow(v: Port, client: Client, now: nat) {
    v.state.Some? && IsSessionAffinity(v.state.value.affinityType) && client.ip.Some?
    && Bound(v.state.value, client.ip.value, now)
  }

  lemma BoundPick(v: Port, client: Client, rnd: nat, now: nat, locate: Locator)
    requires ByRecordOrIndex(v, client) && BoundNow(v, client, now)
    ensures var s := v.state.value; var r := PickState(v, client, false, rnd, now, locate);
            var e := s.affinityMap[client.ip.value].endpoint;
            && PickResultOf(v, client, false, rnd, now, locate) == Chosen(e)
            && ByRecordOrIndex(r, client) && r.state.value.endpoints == s.endpoints && r.state.value.index == s.index
            && Recorded(r, client, e)
  {
  }

  lemma UnboundPick(v: Port, client: Client, rnd: nat, now: nat, locate: Locator)
    requires ByRecordOrIndex(v, client) && !BoundNow(v, client, now)
    ensures PickResultOf(v, client, false, rnd, now, locate) == PickResultOf(v, client, true, rnd, now, locate)
    ensures PickState(v, client, false, rnd, now, locate) == PickState(v, client, true, rnd, now, locate)
  {
  }

  // ----- The trace of the attempts

  /** What `attempts` attempts dial: the endpoint of the record first if it wins, and otherwise one
      position of the rotation after the other. */
  ghost function Trace(v: Port, client: Client, now: nat, attempts: nat): (es: seq<string>)
    requires ByRecordOrIndex(v, client)
    ensures |es| == attempts
  {
    var s, bound := v.state.value, BoundNow(v, client, now);
    seq(attempts, i requires 0 <= i < attempts =>
      if bound && i == 0 then s.affinityMap[client.ip.value].endpoint
      else s.endpoints[IndexAfter(s.index, |s.endpoints|, if bound then i - 1 else i)])
  }

  /** `c` is what the first attempt from `i` on that is not refused ends in, given what the attempts
      dial; it is `Exhausted` if all are refused. */
  ghost predicate EndsAtFirst(w: World, es: seq<string>, i: nat, c: Connection)
    requires i <= |es|
    decreases |es| - i
  {
    if i == |es| then c == Exhausted
    else if w.dial(i, es[i]) != Refused then c == Ended(w.dial(i, es[i]), es[i])
    else EndsAtFirst(w, es, i + 1, c)
  }

  /** Attempts that all ask for another endpoint dial the positions of the rotation in turn. */
  lemma {:induction false} LaterAttempts(v: Port, client: Client, w: World, i: nat, es: seq<string>, locate: Locator)
    requires ByRecordOrIndex(v, client) && 0 < i <= |es|
    requires forall k :: i <= k < |es| ==>
               es[k] == v.state.value.endpoints[IndexAfter(v.state.value.index, |v.state.value.endpoints|, k - i)]
    ensures var r := Connect(v, client, w, i, |es|, locate);
            EndsAtFirst(w, es, i, r.0) && (r.0.Connected? ==> Recorded(r.1, client, r.0.endpoint))
    decreases |es| - i
  {
    if i < |es| {
      var s := v.state.value;
      var n := |s.endpoints|;
      var v' := PickState(v, client, true, w.rnd(i), w.time(i), locate);
      ResetPick(v, client, w.rnd(i), w.time(i), locate);
      hide PickState;
      hide PickResultOf;
      hide Recorded;
      forall k | i + 1 <= k < |es|
        ensures es[k] == s.endpoints[IndexAfter(NextIndex(s.index, n), n, k - (i + 1))]
      {
        IndexAfterShift(s.index, n, k - (i + 1));
      }
      hide IndexAfter;
      LaterAttempts(v', client, w, i + 1, es, locate);
    }
  }

  /** The attempts dial exactly the trace, whatever each dial meets, and connecting ends as the first
      attempt does that is not refused. A client that gets connected is recorded with its endpoint. */
  lemma ConnectFollowsTrace(v: Port, client: Client, w: World, attempts: nat, locate: Locator)
    requires ByRecordOrIndex(v, client)
    ensures var r := Connect(v, client, w, 0, attempts, locate);
            && EndsAtFirst(w, Trace(v, client, w.time(0), attempts), 0, r.0)
            && (r.0.Connected? ==> Recorded(r.1, client, r.0.endpoint))
  {
    if attempts > 0 {
      var s, es := v.state.value, Trace(v, client, w.time(0), attempts);
      var n := |s.endpoints|;
      var v' := PickState(v, client, false, w.rnd(0), w.time(0), locate);
      if BoundNow(v, client, w.time(0)) {
        BoundPick(v, client, w.rnd(0), w.time(0), locate);
        assert es[0] == s.affinityMap[client.ip.value].endpoint;
      } else {
        assert es[0] == s.endpoints[IndexAfter(s.index, n, 0)] == s.endpoints[s.index];
        UnboundPick(v, client, w.rnd(0), w.time(0), locate);
        ResetPick(v, client, w.rnd(0), w.time(0), locate);
        forall k | 1 <= k < attempts
          ensures es[k] == s.endpoints[IndexAfter(NextIndex(s.index, n), n, k - 1)]
        {
          IndexAfterShift(s.index, n, k - 1);
        }
      }
      hide PickState;
      hide PickResultOf;
      hide Recorded;
      LaterAttempts(v', client, w, 1, es, locate);
    }
  }

  /** Attempt `k` is the first from `i` on that is not refused. */
  ghost predicate IsFirst(w: World, es: seq<string>, i: nat, k: nat) {
    i <= k < |es| && w.dial(k, es[k]) != Refused && forall j :: i <= j < k ==> w.dial(j, es[j]) == Refused
  }

  lemma {:induction false} EndsAtIt(w: World, es: seq<string>, i: nat, k: nat, c: Connection)
    requires i <= |es| && EndsAtFirst(w, es, i, c) && IsFirst(w, es, i, k)
    ensures c == Ended(w.dial(k, es[k]), es[k])
    decreases |es| - i
  {
    if i < k {
      EndsAtIt(w, es, i + 1, k, c);
    }
  }

  lemma {:induction false} ExhaustedMeansNone(w: World, es: seq<string>, i: nat, c: Connection)
    requires i <= |es| && EndsAtFirst(w, es, i, c)
    ensures c == Exhausted <==> forall k :: i <= k < |es| ==> w.dial(k, es[k]) == Refused
    decreases |es| - i
  {
    if i < |es| && w.dial(i, es[i]) == Refused {
      ExhaustedMeansNone(w, es, i + 1, c);
    }
  }

  /** TryConnectEndpoints in full: it ends as the least attempt does whose dial is not refused, and is
      exhausted exactly if every attempt of the trace is refused. */
  lemma ConnectEndsAtLeast(v: Port, client: Client, w: World, attempts: nat, locate: Locator)
    requires ByRecordOrIndex(v, client)
    ensures var c, es := Connect(v, client, w, 0, attempts, locate).0, Trace(v, client, w.time(0), attempts);
            && (c == Exhausted <==> forall k :: 0 <= k < attempts ==> w.dial(k, es[k]) == Refused)
            && (forall k: nat :: IsFirst(w, es, 0, k) ==>
                  c == match w.dial(k, es[k])
                       case Reached => Connected(es[k])
                       case WriteFailed => Broken(es[k])
                       case NoDescriptors => Panicked
                       case Refused => Exhausted)
  {
    ConnectFollowsTrace(v, client, w, attempts, locate);
    hide Connect;
    hide Trace;
    hide EndsAtFirst;
    var c, es := Connect(v, client, w, 0, attempts, locate).0, Trace(v, client, w.time(0), attempts);
    ExhaustedMeansNone(w, es, 0, c);
    forall k: nat | IsFirst(w, es, 0, k)
      ensures c == Ended(w.dial(k, es[k]), es[k])
    {
      EndsAtIt(w, es, 0, k, c);
    }
  }

  /** Without an entry, without endpoints, or without a host part where affinity needs one, connecting
      fails at once and changes nothing. */
  lemma ConnectWithoutEndpoint(v: Port, client: Client, w: World, attempts: nat, locate: Locator)
    requires Ready(v) && attempts > 0
    ensures v.state == None ==> Connect(v, client, w, 0, attempts, locate) == (NoEndpoint(MissingServiceEntry), v)
    ensures v.state.Some? && v.state.value.endpoints == [] ==>
              Connect(v, client, w, 0, attempts, locate) == (NoEndpoint(MissingEndpoints), v)
    ensures v.state.Some? && v.state.value.endpoints != [] && v.state.value.affinityType == "ClientIP" && client.ip == None ==>
              Connect(v, client, w, 0, attempts, locate) == (NoEndpoint(MalformedSource), v)
  {
    hide PolicyPick;
  }

  // ----- What the attempts reach

  /** Position `j` comes up once the rotation has advanced as far as it lies ahead. */
  lemma ReachedWhenAhead(index: nat, n: nat, j: nat)
    requires index < n && j < n
    ensures IndexAfter(index, n, Ahead(index, n, j)) == j
  {
    IndexAfterLaps(index, n, Ahead(index, n, j));
    LapsAre(Ahead(index, n, j), n, 0, Ahead(index, n, j));
  }

  /** A position comes up no earlier than after the advances it lies ahead by. */
  lemma AheadIsLeast(index: nat, n: nat, k: nat)
    requires index < n
    ensures Ahead(index, n, IndexAfter(index, n, k)) <= k
  {
    IndexAfterLaps(index, n, k);
    BeyondIsLess(k, n);
    hide Beyond;
    hide IndexAfter;
  }

  lemma {:induction false} BeyondIsLess(k: nat, n: nat)
    requires n > 0
    ensures Beyond(k, n) <= k
  {
    NextLap(if k > 0 then k - 1 else 0, n);
    hide Beyond;
    if k > 0 {
      BeyondIsLess(k - 1, n);
    }
  }

  /** Each endpoint is either up or down, for all attempts. */
  ghost predicate Steady(w: World, up: set<string>) {
    forall k, e :: w.dial(k, e) == if e in up then Reached else Refused
  }

  /** An endpoint that is up comes up in the trace: it is the one of the winning record, or one that is
      no further ahead of the index than the attempts that go by the index -- all of them, or all but the
      first if that one goes by the record. */
  ghost predicate WithinReach(v: Port, client: Client, now: nat, attempts: nat, up: set<string>)
    requires ByRecordOrIndex(v, client)
  {
    var s, bound := v.state.value, BoundNow(v, client, now);
    || (bound && s.affinityMap[client.ip.value].endpoint in up)
    || exists j :: 0 <= j < |s.endpoints| && s.endpoints[j] in up
                   && Ahead(s.index, |s.endpoints|, j) < (if bound then attempts - 1 else attempts)
  }

  lemma TraceReaches(v: Port, client: Client, now: nat, attempts: nat, up: set<string>)
    requires ByRecordOrIndex(v, client) && attempts > 0 && WithinReach(v, client, now, attempts, up)
    ensures exists k :: 0 <= k < attempts && Trace(v, client, now, attempts)[k] in up
  {
    var s, bound, es := v.state.value, BoundNow(v, client, now), Trace(v, client, now, attempts);
    var n, lag := |s.endpoints|, if bound then 1 else 0;
    if bound && s.affinityMap[client.ip.value].endpoint in up {
      assert es[0] in up;
    } else {
      var j :| 0 <= j < n && s.endpoints[j] in up && Ahead(s.index, n, j) < attempts - lag;
      ReachedWhenAhead(s.index, n, j);
      assert es[Ahead(s.index, n, j) + lag] == s.endpoints[j];
    }
  }

  lemma TraceStaysWithin(v: Port, client: Client, now: nat, attempts: nat, up: set<string>, k: nat)
    requires ByRecordOrIndex(v, client) && k < attempts && Trace(v, client, now, attempts)[k] in up
    ensures WithinReach(v, client, now, attempts, up)
  {
    var s, bound := v.state.value, BoundNow(v, client, now);
    if !(bound && k == 0) {
      var i := if bound then k - 1 else k;
      AheadIsLeast(s.index, |s.endpoints|, i);
      assert s.endpoints[IndexAfter(s.index, |s.endpoints|, i)] in up;
    }
  }

  /** Exactly what the attempts reach, with any set of endpoints up: connecting succeeds if and only if
      one of them is within reach, and it then ends at one that is up. */
  lemma ConnectsExactlyWhen(v: Port, client: Client, w: World, attempts: nat, up: set<string>, locate: Locator)
    requires ByRecordOrIndex(v, client) && attempts > 0 && Steady(w, up)
    ensures var c := Connect(v, client, w, 0, attempts, locate).0;
            && (c.Connected? <==> WithinReach(v, client, w.time(0), attempts, up))
            && (if c.Connected? then c.endpoint in up else c == Exhausted)
  {
    var c, es := Connect(v, client, w, 0, attempts, locate).0, Trace(v, client, w.time(0), attempts);
    ConnectFollowsTrace(v, client, w, attempts, locate);
    hide Connect;
    hide Trace;
    hide WithinReach;
    hide EndsAtFirst;
    SteadyEnd(w, up, es, 0, c);
    if WithinReach(v, client, w.time(0), attempts, up) {
      TraceReaches(v, client, w.time(0), attempts, up);
    }
    if c.Connected? {
      var k :| 0 <= k < attempts && es[k] in up;
      TraceStaysWithin(v, client, w.time(0), attempts, up, k);
    }
  }

  /** With steady dials an attempt succeeds exactly if the trace meets an endpoint that is up. */
  lemma {:induction false} SteadyEnd(w: World, up: set<string>, es: seq<string>, i: nat, c: Connection)
    requires Steady(w, up) && i <= |es| && EndsAtFirst(w, es, i, c)
    ensures c.Connected? <==> exists k :: i <= k < |es| && es[k] in up
    ensures if c.Connected? then c.endpoint in up else c == Exhausted
    decreases |es| - i
  {
    if i < |es| {
      assert w.dial(i, es[i]) == if es[i] in up then Reached else Refused;
      if es[i] !in up {
        SteadyEnd(w, up, es, i + 1, c);
      }
    }
  }

  /** Retry coverage: if some endpoint is up throughout, and there are fewer endpoints than attempts --
      or as many, for a client without a valid record -- then a dial succeeds, and with affinity on
      the client's record names the endpoint dialled. */
  lemma RetriesCoverEndpoints(v: Port, client: Client, w: World, attempts: nat, up: set<string>, j: nat, locate: Locator)
    requires ByRecordOrIndex(v, client) && Steady(w, up)
    requires j < |v.state.value.endpoints| && v.state.value.endpoints[j] in up
    requires |v.state.value.endpoints| < attempts
             || (|v.state.value.endpoints| == attempts && !BoundNow(v, client, w.time(0)))
    ensures var r := Connect(v, client, w, 0, attempts, locate);
            r.0.Connected? && r.0.endpoint in up && Recorded(r.1, client, r.0.endpoint)
  {
    ConnectsExactlyWhen(v, client, w, attempts, up, locate);
    ConnectFollowsTrace(v, client, w, attempts, locate);
    hide Connect;
    hide Steady;
    hide BoundNow;
    assert Ahead(v.state.value.index, |v.state.value.endpoints|, j) < |v.state.value.endpoints|;
  }

  /** A listed endpoint is up, and there are at most three of them -- or four, for a client without a
      valid record. */
  ghost predicate Coverable(v: Port, client: Client, now: nat, up: set<string>) {
    && ByRecordOrIndex(v, client) && (exists e <- v.state.value.endpoints :: e in up)
    && (|v.state.value.endpoints| <= 3 || (|v.state.value.endpoints| == 4 && !BoundNow(v, client, now)))
  }

  /** The four attempts that the dial timeouts allow are enough for three endpoints, and for four if no
      record takes the first attempt. */
  lemma FourAttemptsCover(v: Port, client: Client, w: World, up: set<string>, locate: Locator)
    requires Steady(w, up) && Coverable(v, client, w.time(0), up)
    ensures var r := Connect(v, client, w, 0, DIAL_ATTEMPTS, locate);
            r.0.Connected? && r.0.endpoint in up && Recorded(r.1, client, r.0.endpoint)
  {
    hide Connect;
    hide Steady;
    hide BoundNow;
    var e :| e in v.state.value.endpoints && e in up;
    var j :| 0 <= j < |v.state.value.endpoints| && v.state.value.endpoints[j] == e;
    RetriesCoverEndpoints(v, client, w, DIAL_ATTEMPTS, up, j, locate);
  }

  /** A fifth endpoint is out of reach: all four attempts are refused although the fifth is up. */
  lemma FifthEndpointIsMissed(w: World, locate: Locator)
    requires Steady(w, {"e"})
    ensures var v := Port(Some(BalancerState(["a", "b", "c", "d", "e"], 0, "None", map[], 10800)), None);
            var client := Client("1.2.3.4:9", Some("1.2.3.4"), None);
            && ByRecordOrIndex(v, client)
            && Connect(v, client, w, 0, DIAL_ATTEMPTS, locate).0 == Exhausted
  {
    var s := BalancerState(["a", "b", "c", "d", "e"], 0, "None", map[], 10800);
    var v, client := Port(Some(s), None), Client("1.2.3.4:9", Some("1.2.3.4"), None);
    ConnectsExactlyWhen(v, client, w, DIAL_ATTEMPTS, {"e"}, locate);
    hide Connect;
    forall j | 0 <= j < 5 && s.endpoints[j] in {"e"}
      ensures Ahead(0, 5, j) == 4
    {
      assert j == 4;
    }
  }

  /** The bound is sharp: with as many endpoints as attempts, a client that is bound to the first of
      them never gets to the last, because its first attempt goes by its record. */
  lemma BoundClientCanMissAnEndpoint(w: World, locate: Locator)
    requires Steady(w, {"d"}) && w.time(0) == 0
    ensures var record := AffinityRecord("1.2.3.4", "a", 0);
            var v := Port(Some(BalancerState(["a", "b", "c", "d"], 0, AFFINITY_CLIENT_IP, map["1.2.3.4" := record], 10)), None);
            var client := Client("1.2.3.4:9", Some("1.2.3.4"), None);
            && ByRecordOrIndex(v, client) && BoundNow(v, client, 0)
            && Connect(v, client, w, 0, DIAL_ATTEMPTS, locate).0 == Exhausted
  {
    var record := AffinityRecord("1.2.3.4", "a", 0);
    var s := BalancerState(["a", "b", "c", "d"], 0, AFFINITY_CLIENT_IP, map["1.2.3.4" := record], 10);
    var v, client := Port(Some(s), None), Client("1.2.3.4:9", Some("1.2.3.4"), None);
    assert AFFINITY_CLIENT_IP[0] == 'C';
    ConnectsExactlyWhen(v, client, w, DIAL_ATTEMPTS, {"d"}, locate);
    hide Connect;
    forall j | 0 <= j < 4 && s.endpoints[j] in {"d"}
      ensures Ahead(0, 4, j) == 3
    {
      assert j == 3;
    }
  }
}
