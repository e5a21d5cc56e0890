/** Session affinity over whole runs: cleaning up stale sessions cannot be noticed, and a bound
    client stays with its endpoint. */
module Affinity {
  import opened EndpointStrings
  import opened Policies
  import opened Balancing

  // ----- Cleanup is invisible

  /** All records were last used in the past. */
  ghost predicate PastRecords(v: Port, now: nat) {
    v.state.Some? ==> forall ip <- v.state.value.affinityMap :: v.state.value.affinityMap[ip].lastUsed <= now
  }

  /** The same records still count in both maps, and they are equal. */
  ghost predicate SameBound(s: BalancerState, t: BalancerState, now: nat) {
    forall ip :: (Bound(s, ip, now) <==> Bound(t, ip, now)) &&
                 (Bound(s, ip, now) ==> s.affinityMap[ip] == t.affinityMap[ip])
  }

  /** Two port states that differ in nothing but expired records. */
  ghost predicate Alike(v: Port, w: Port, now: nat) {
    && v.policy == w.policy
    && PastRecords(v, now) && PastRecords(w, now)
    && (v.state.Some? <==> w.state.Some?)
    && (v.state.Some? ==>
          var s, t := v.state.value, w.state.value;
          && s.(affinityMap := map[]) == t.(affinityMap := map[])
          && SameBound(s, t, now))
  }

  /** An expired record stays expired. */
  lemma ExpiryIsFinal(r: AffinityRecord, ttl: int, now: nat, later: nat)
    requires r.lastUsed <= now <= later && Expired(r, ttl, now)
    ensures Expired(r, ttl, later)
  {
  }

  lemma AlikeLater(v: Port, w: Port, now: nat, later: nat)
    requires Alike(v, w, now) && now <= later
    ensures Alike(v, w, later)
  {
  }

  /** A cleanup keeps exactly the records that a pick would still go by, so that a port stays alike to any
      it was alike to before. */
  lemma CleanupStep(p: PortName, v: Port, w: Port, q: PortName, now: nat, locate: Locator)
    requires Ready(v) && Alike(v, w, now)
    ensures Alike(PortStep(p, v, Cleanup(q), now, locate), w, now)
    ensures var r := PortStep(p, v, Cleanup(q), now, locate);
            p == q && v.state.Some? ==>
              r.state.Some? && forall ip :: ip in r.state.value.affinityMap <==> Bound(v.state.value, ip, now)
  {
  }

  lemma PickResultAlike(v: Port, w: Port, client: Client, reset: bool, rnd: nat, now: nat, locate: Locator)
    requires Ready(v) && Ready(w) && Alike(v, w, now)
    ensures PickResultOf(v, client, reset, rnd, now, locate) == PickResultOf(w, client, reset, rnd, now, locate)
  {
  }

  lemma PickAlike(v: Port, w: Port, client: Client, reset: bool, rnd: nat, now: nat, locate: Locator)
    requires Ready(v) && Ready(w) && Alike(v, w, now)
    ensures Alike(PickState(v, client, reset, rnd, now, locate), PickState(w, client, reset, rnd, now, locate), now)
  {
    hide Expired;
    hide PolicyPick;
    hide IsSessionAffinity;
    if v.state.Some? && client.ip.Some? {
      var s, t := v.state.value, w.state.value;
      var v', w' := PickState(v, client, reset, rnd, now, locate), PickState(w, client, reset, rnd, now, locate);
      assert Bound(s, client.ip.value, now) <==> Bound(t, client.ip.value, now);
      forall ip
        ensures (Bound(v'.state.value, ip, now) <==> Bound(w'.state.value, ip, now)) &&
                (Bound(v'.state.value, ip, now) ==> v'.state.value.affinityMap[ip] == w'.state.value.affinityMap[ip])
      {
        assert Bound(s, ip, now) <==> Bound(t, ip, now);
      }
    }
  }

  lemma RemoveStaleAlike(s: BalancerState, t: BalancerState, list: seq<string>, now: nat)
    requires s.(affinityMap := map[]) == t.(affinityMap := map[]) && SameBound(s, t, now)
    ensures SameBound(RemoveStale(s, list), RemoveStale(t, list), now)
  {
  }

  lemma SetEndpointsAlike(v: Port, w: Port, list: seq<string>, shuffled: seq<string>, now: nat)
    requires Alike(v, w, now)
    ensures Alike(SetEndpoints(v, list, shuffled), SetEndpoints(w, list, shuffled), now)
  {
  }

  lemma EndpointsAlike(p: PortName, v: Port, w: Port, ev: Event, now: nat, locate: Locator)
    requires Ready(v) && Ready(w) && Alike(v, w, now) && WellShuffled(ev)
    requires ev.EndpointsAdd? || ev.EndpointsUpdate? || ev.EndpointsDelete?
    ensures Alike(PortStep(p, v, ev, now, locate), PortStep(p, w, ev, now, locate), now)
  {
    hide SetEndpoints;
    hide Expired;
    hide SyncPolicy;
    if !ev.EndpointsDelete? && p.svc == ev.svc && p.port in ev.lists {
      var list, shuffled := ev.lists[p.port], ev.shuffled[p.port];
      if ev.EndpointsAdd? {
        SetEndpointsAlike(v, w, list, shuffled, now);
      } else if !Rearranged(v, list) {
        if v.state.Some? {
          var s, t := v.state.value, w.state.value;
          RemoveStaleAlike(s, t, list, now);
          SetEndpointsAlike(v.(state := Some(RemoveStale(s, list))), w.(state := Some(RemoveStale(t, list))), list, shuffled, now);
        } else {
          SetEndpointsAlike(v, w, list, shuffled, now);
        }
      }
    }
  }

  lemma StepAlike(p: PortName, v: Port, w: Port, ev: Event, now: nat, locate: Locator)
    requires Ready(v) && Ready(w) && Alike(v, w, now) && WellShuffled(ev) && !ev.Cleanup?
    ensures Alike(PortStep(p, v, ev, now, locate), PortStep(p, w, ev, now, locate), now)
  {
    if ev.EndpointsAdd? || ev.EndpointsUpdate? || ev.EndpointsDelete? {
      EndpointsAlike(p, v, w, ev, now, locate);
    } else if ev.Pick? {
      PickAlike(v, w, ev.client, ev.reset, ev.rnd, now, locate);
    } else {
      hide Expired;
      hide MakePolicy;
      if v.state.Some? && ev.NewService? {
        var s, t := v.state.value, w.state.value;
        var s', t' := Ensure(v.state, ev.affinityType, ev.ttlSeconds), Ensure(w.state, ev.affinityType, ev.ttlSeconds);
        assert forall ip :: Bound(s', ip, now) == Bound(s, ip, now) && Bound(t', ip, now) == Bound(t, ip, now);
      }
    }
  }

  ghost function NoCleanups(run: seq<Timed>): (r: seq<Timed>)
    ensures forall t <- r :: t in run
  {
    if run == [] then []
    else if run[0].event.Cleanup? then NoCleanups(run[1..])
    else [run[0]] + NoCleanups(run[1..])
  }

  /** Stale-session cleanup is invisible: under a monotone clock, leaving all cleanups out of any run
      changes the result of no pick. */
  lemma {:induction false} CleanupIsInvisible(p: PortName, v: Port, w: Port, run: seq<Timed>, now: nat, locate: Locator)
    requires Ready(v) && Ready(w) && Shuffled(run) && Monotone(run, now) && Alike(v, w, now)
    ensures Shuffled(NoCleanups(run))
    ensures Results(p, v, run, locate) == Results(p, w, NoCleanups(run), locate)
    decreases |run|
  {
    hide PortStep;
    hide Alike;
    hide PickResultOf;
    hide WellShuffled;
    if run != [] {
      var ev, time := run[0].event, run[0].time;
      AlikeLater(v, w, now, time);
      var v' := PortStep(p, v, ev, time, locate);
      if ev.Cleanup? {
        CleanupStep(p, v, w, ev.port, time, locate);
        CleanupIsInvisible(p, v', w, run[1..], time, locate);
      } else {
        StepAlike(p, v, w, ev, time, locate);
        var w' := PortStep(p, w, ev, time, locate);
        CleanupIsInvisible(p, v', w', run[1..], time, locate);
        var rest := NoCleanups(run);
        assert rest[0] == run[0] && rest[1..] == NoCleanups(run[1..]);
        if ev.Pick? && ev.port == p {
          PickResultAlike(v, w, ev.client, ev.reset, ev.rnd, time, locate);
        }
      }
    }
  }

  lemma AlikeItself(v: Port, now: nat)
    requires PastRecords(v, now)
    ensures Alike(v, v, now)
  {
  }

  /** Two runs that differ only in where cleanups happen pick the same endpoints. */
  lemma CleanupsDoNotMatter(p: PortName, v: Port, run: seq<Timed>, other: seq<Timed>, now: nat, locate: Locator)
    requires Ready(v) && PastRecords(v, now)
    requires Shuffled(run) && Monotone(run, now) && Shuffled(other) && Monotone(other, now)
    requires NoCleanups(run) == NoCleanups(other)
    ensures Results(p, v, run, locate) == Results(p, v, other, locate)
  {
    hide Alike;
    hide Results;
    AlikeItself(v, now);
    CleanupIsInvisible(p, v, v, run, now, locate);
    CleanupIsInvisible(p, v, v, other, now, locate);
  }

  // ----- Stickiness

  /** The client `ip` is bound to `e` since `last`. */
  ghost predicate BoundTo(v: Port, ip: string, e: string, last: nat, ttl: int) {
    && v.state.Some?
    && var s := v.state.value;
    && IndexOk(s) && s.affinityType != "" && s.affinityType != "None" && s.ttlSeconds == ttl
    && e in s.endpoints
    && ip in s.affinityMap && s.affinityMap[ip].endpoint == e && s.affinityMap[ip].lastUsed == last
  }

  predicate OwnPick(p: PortName, ip: string, ev: Event) {
    ev.Pick? && ev.port == p && ev.client.ip == Some(ip)
  }

  /** The event neither takes `e` away from the port, nor turns affinity off, nor is a pick by which
      the client asks for another endpoint. */
  ghost predicate Keeps(p: PortName, ip: string, e: string, ev: Event) {
    match ev
    case EndpointsAdd(svc, lists, _) => svc == p.svc && p.port in lists ==> e in lists[p.port]
    case EndpointsUpdate(svc, oldLists, lists, _) =>
      svc == p.svc ==> if p.port in lists then e in lists[p.port] else p.port !in oldLists
    case EndpointsDelete(svc, lists) => !(svc == p.svc && p.port in lists)
    case NewService(q, affinityType, _) => q == p ==> affinityType != "None"
    case DeleteService(q) => q != p
    case Pick(_, _, reset, _) => OwnPick(p, ip, ev) ==> !reset
    case _ => true
  }

  /** Every pick of the client comes within the time to live since its last one. */
  ghost predicate Timely(p: PortName, ip: string, last: nat, ttl: int, run: seq<Timed>)
    decreases |run|
  {
    run == [] ||
    if OwnPick(p, ip, run[0].event)
    then last <= run[0].time && (run[0].time - last) / NANOS < ttl && Timely(p, ip, run[0].time, ttl, run[1..])
    else Timely(p, ip, last, ttl, run[1..])
  }

  /** The results of the client's own picks. */
  ghost function OwnResults(p: PortName, ip: string, v: Port, run: seq<Timed>, locate: Locator): (rs: seq<PickResult>)
    requires Shuffled(run) && Ready(v)
    decreases |run|
  {
    if run == [] then []
    else
      var ev := run[0].event;
      var more := OwnResults(p, ip, PortStep(p, v, ev, run[0].time, locate), run[1..], locate);
      if OwnPick(p, ip, ev)
      then [PickResultOf(v, ev.client, ev.reset, ev.rnd, run[0].time, locate)] + more
      else more
  }

  /** Once a record has expired, a timely run has no pick of the client left. */
  lemma {:induction false} TooLate(p: PortName, ip: string, last: nat, ttl: int, v: Port, run: seq<Timed>, now: nat, locate: Locator)
    requires Shuffled(run) && Ready(v) && Monotone(run, now) && Timely(p, ip, last, ttl, run)
    requires last <= now && (now - last) / NANOS >= ttl
    ensures OwnResults(p, ip, v, run, locate) == []
    decreases |run|
  {
    hide PortStep;
    if run != [] {
      var time := run[0].time;
      ExpiryIsFinal(AffinityRecord(ip, "", last), ttl, now, time);
      TooLate(p, ip, last, ttl, PortStep(p, v, run[0].event, time, locate), run[1..], time, locate);
    }
  }

  lemma StepKeepsBound(p: PortName, ip: string, e: string, last: nat, ttl: int, v: Port, ev: Event, now: nat, locate: Locator)
    requires BoundTo(v, ip, e, last, ttl) && WellShuffled(ev) && Keeps(p, ip, e, ev) && !OwnPick(p, ip, ev)
    requires ev.Cleanup? ==> last <= now && (now - last) / NANOS < ttl
    ensures BoundTo(PortStep(p, v, ev, now, locate), ip, e, last, ttl)
  {
    if ev.EndpointsAdd? || ev.EndpointsUpdate? {
      hide SyncPolicy;
      if p.svc == ev.svc && p.port in ev.lists {
        assert e in multiset(ev.lists[p.port]);
        assert e in multiset(ev.shuffled[p.port]);
      }
    } else if ev.Pick? {
      hide Expired;
      hide PickedByPolicy;
    } else {
      hide MakePolicy;
    }
  }

  lemma OwnPickIsBound(p: PortName, ip: string, e: string, last: nat, ttl: int, v: Port, ev: Event, now: nat, locate: Locator)
    requires BoundTo(v, ip, e, last, ttl) && OwnPick(p, ip, ev) && !ev.reset
    requires last <= now && (now - last) / NANOS < ttl
    ensures PickResultOf(v, ev.client, ev.reset, ev.rnd, now, locate) == Chosen(e)
    ensures BoundTo(PortStep(p, v, ev, now, locate), ip, e, now, ttl)
  {
  }

  /** Stickiness: while affinity stays on, a client bound to `e` gets `e` on every later pick that is
      timely and does not ask for another endpoint, across any interleaving of other clients' picks,
      cleanups, policy changes and endpoint events that keep `e`. */
  lemma {:induction false} ClientSticks(p: PortName, ip: string, e: string, last: nat, ttl: int, v: Port, run: seq<Timed>,
                                        now: nat, locate: Locator)
    requires Shuffled(run) && Monotone(run, now) && last <= now && BoundTo(v, ip, e, last, ttl)
    requires forall t <- run :: Keeps(p, ip, e, t.event)
    requires Timely(p, ip, last, ttl, run)
    ensures Ready(v)
    ensures forall r <- OwnResults(p, ip, v, run, locate) :: r == Chosen(e)
    decreases |run|
  {
    hide PortStep;
    hide BoundTo;
    hide Keeps;
    hide PickResultOf;
    hide WellShuffled;
    BoundIsReady(v, ip, e, last, ttl);
    if run != [] {
      var ev, time := run[0].event, run[0].time;
      assert Keeps(p, ip, e, ev);
      var v' := PortStep(p, v, ev, time, locate);
      if OwnPick(p, ip, ev) {
        OwnPickDoesNotReset(p, ip, e, ev);
        OwnPickIsBound(p, ip, e, last, ttl, v, ev, time, locate);
        ClientSticks(p, ip, e, time, ttl, v', run[1..], time, locate);
      } else if ev.Cleanup? && (time - last) / NANOS >= ttl {
        TooLate(p, ip, last, ttl, v', run[1..], time, locate);
      } else {
        StepKeepsBound(p, ip, e, last, ttl, v, ev, time, locate);
        ClientSticks(p, ip, e, last, ttl, v', run[1..], time, locate);
      }
    }
  }

  /** A pick binds: with affinity on, the client is bound to whatever endpoint it was given. */
  lemma PickBinds(v: Port, client: Client, reset: bool, rnd: nat, now: nat, locate: Locator)
    requires v.state.Some? && IndexOk(v.state.value) && v.state.value.affinityType != "" && v.state.value.affinityType != "None"
    requires forall ip <- v.state.value.affinityMap :: v.state.value.affinityMap[ip].endpoint in v.state.value.endpoints
    requires PickResultOf(v, client, reset, rnd, now, locate).Chosen?
    ensures client.ip.Some?
    ensures BoundTo(PickState(v, client, reset, rnd, now, locate), client.ip.value,
                    PickResultOf(v, client, reset, rnd, now, locate).endpoint, now, v.state.value.ttlSeconds)
  {
  }

  lemma BoundIsReady(v: Port, ip: string, e: string, last: nat, ttl: int)
    requires BoundTo(v, ip, e, last, ttl)
    ensures Ready(v)
  {
  }

  lemma OwnPickDoesNotReset(p: PortName, ip: string, e: string, ev: Event)
    requires OwnPick(p, ip, ev) && Keeps(p, ip, e, ev)
    ensures !ev.reset
  {
  }
}
