/** Destination rules over runs: which ports have a policy, and when deleting a rule panics
    (pkg/loadbalancer/loadbalancer.go). */
module RuleRuns {
  import opened EndpointStrings
  import opened Policies
  import opened Balancing
  import opened BalancingInvariants

  /** OnDestinationRuleDelete meets this port with a state and without a policy, which it releases all
      the same. */
  predicate RuleDeletePanics(v: Port) {
    v.state.Some? && v.policy.None?
  }

  /** The event gives a port with a balancer state a policy: a rule with a policy that is supported. */
  predicate Gives(p: PortName, ev: Event) {
    (ev.RuleAdd? || ev.RuleUpdate?) && ev.svc == p.svc && IsSupported(ev.policyName)
  }

  /** The event takes the policy of a port with a balancer state: the rule is deleted, or changed to a
      policy that is not supported, on which the code panics. */
  predicate Takes(p: PortName, ev: Event) {
    ev == RuleDelete(p.svc) || (ev.RuleUpdate? && ev.svc == p.svc && !IsSupported(ev.policyName))
  }

  /** Event `k` gives the port its policy, which it has a state for. */
  ghost predicate GivesPolicy(p: PortName, v: Port, run: seq<Timed>, k: nat, locate: Locator)
    requires Ready(v) && Shuffled(run)
  {
    k < |run| && Gives(p, run[k].event) && After(p, v, run[..k], locate).state.Some?
  }

  /** Event `k` takes the policy of the port. One that meets the port without a state does not. */
  ghost predicate TakesPolicy(p: PortName, v: Port, run: seq<Timed>, k: nat, locate: Locator)
    requires Ready(v) && Shuffled(run)
  {
    k < |run| && Takes(p, run[k].event) && After(p, v, run[..k], locate).state.Some?
  }

  /** A policy given by event `k` is not taken by a later one. */
  ghost predicate Lasting(p: PortName, v: Port, run: seq<Timed>, k: nat, locate: Locator)
    requires Ready(v) && Shuffled(run)
  {
    GivesPolicy(p, v, run, k, locate) && forall j: nat :: k < j ==> !TakesPolicy(p, v, run, j, locate)
  }

  /** A policy that was there before the run is not taken. */
  ghost predicate Kept(p: PortName, v: Port, run: seq<Timed>, locate: Locator)
    requires Ready(v) && Shuffled(run)
  {
    v.policy.Some? && forall j: nat :: !TakesPolicy(p, v, run, j, locate)
  }

  lemma StepPolicy(p: PortName, v: Port, ev: Event, now: nat, locate: Locator)
    requires Ready(v) && WellShuffled(ev)
    ensures PortStep(p, v, ev, now, locate).policy.Some? <==>
              if v.state.Some? && Gives(p, ev) then true
              else if v.state.Some? && Takes(p, ev) then false
              else v.policy.Some?
  {
    hide Synced;
    hide PickedByPolicy;
    hide Cleaned;
  }

  /** An event more: what was given and taken before it stays so, and the event itself is judged by the
      state it meets. */
  lemma OneMore(p: PortName, v: Port, run: seq<Timed>, locate: Locator)
    requires Ready(v) && Shuffled(run) && run != []
    ensures var n := |run| - 1; var so, w := run[..n], After(p, v, run[..n], locate);
            && (forall k: nat :: k < n ==> (GivesPolicy(p, v, run, k, locate) <==> GivesPolicy(p, v, so, k, locate)))
            && (forall k: nat :: k < n ==> (TakesPolicy(p, v, run, k, locate) <==> TakesPolicy(p, v, so, k, locate)))
            && (GivesPolicy(p, v, run, n, locate) <==> Gives(p, run[n].event) && w.state.Some?)
            && (TakesPolicy(p, v, run, n, locate) <==> Takes(p, run[n].event) && w.state.Some?)
  {
    hide After;
    hide Gives;
    hide Takes;
    var n := |run| - 1;
    assert forall k: nat :: k < n ==> run[..k] == run[..n][..k];
  }

  /** Which ports have a policy, over all runs: exactly those to which a supported rule came while they had
      a balancer state, or that had one from before, and from which none was taken since while they had
      a state. */
  lemma {:induction false} PolicyExactlyWhen(p: PortName, v: Port, run: seq<Timed>, locate: Locator)
    requires Ready(v) && Shuffled(run)
    ensures After(p, v, run, locate).policy.Some? <==>
              Kept(p, v, run, locate) || exists k: nat :: Lasting(p, v, run, k, locate)
    decreases |run|
  {
    if run != [] {
      hide PortStep;
      hide WellShuffled;
      var n := |run| - 1;
      var so, last := run[..n], run[n];
      PolicyExactlyWhen(p, v, so, locate);
      AfterOneMore(p, v, run, locate);
      StepPolicy(p, After(p, v, so, locate), last.event, last.time, locate);
      OneMore(p, v, run, locate);
      BeyondTheEnd(p, v, run, locate);
      BeyondTheEnd(p, v, so, locate);
      hide After;
      hide GivesPolicy;
      hide TakesPolicy;
      if GivesPolicy(p, v, run, n, locate) {
        assert Lasting(p, v, run, n, locate);
      } else {
        KeptOneMore(p, v, run, locate);
        LastingOneMore(p, v, run, locate);
      }
    }
  }

  lemma BeyondTheEnd(p: PortName, v: Port, run: seq<Timed>, locate: Locator)
    requires Ready(v) && Shuffled(run)
    ensures forall k: nat :: GivesPolicy(p, v, run, k, locate) || TakesPolicy(p, v, run, k, locate) ==> k < |run|
    ensures forall k: nat :: !(GivesPolicy(p, v, run, k, locate) && TakesPolicy(p, v, run, k, locate))
  {
    hide After;
  }

  lemma KeptOneMore(p: PortName, v: Port, run: seq<Timed>, locate: Locator)
    requires Ready(v) && Shuffled(run) && run != []
    ensures var n := |run| - 1;
            Kept(p, v, run, locate) <==> Kept(p, v, run[..n], locate) && !TakesPolicy(p, v, run, n, locate)
  {
    OneMore(p, v, run, locate);
    BeyondTheEnd(p, v, run, locate);
    BeyondTheEnd(p, v, run[..|run| - 1], locate);
    hide After;
    hide GivesPolicy;
    hide TakesPolicy;
  }

  lemma LastingOneMore(p: PortName, v: Port, run: seq<Timed>, locate: Locator)
    requires Ready(v) && Shuffled(run) && run != [] && !GivesPolicy(p, v, run, |run| - 1, locate)
    ensures var n := |run| - 1;
            (exists k: nat :: Lasting(p, v, run, k, locate)) <==>
              (exists k: nat :: Lasting(p, v, run[..n], k, locate)) && !TakesPolicy(p, v, run, n, locate)
  {
    var n := |run| - 1;
    var so := run[..n];
    OneMore(p, v, run, locate);
    BeyondTheEnd(p, v, run, locate);
    BeyondTheEnd(p, v, so, locate);
    hide After;
    hide GivesPolicy;
    hide TakesPolicy;
    if k: nat :| Lasting(p, v, run, k, locate) {
      assert Lasting(p, v, so, k, locate);
    }
    if !TakesPolicy(p, v, run, n, locate) {
      if k: nat :| Lasting(p, v, so, k, locate) {
        assert Lasting(p, v, run, k, locate);
      }
    }
  }

  /** Deleting the rule of a port panics exactly if the port has a state, and neither a policy from before
      nor any that a rule gave it has lasted. */
  lemma RuleDeletePanicsExactlyWhen(p: PortName, v: Port, run: seq<Timed>, locate: Locator)
    requires Ready(v) && Shuffled(run)
    ensures RuleDeletePanics(After(p, v, run, locate)) <==>
              && After(p, v, run, locate).state.Some?
              && !Kept(p, v, run, locate) && forall k: nat :: !Lasting(p, v, run, k, locate)
  {
    hide Lasting;
    hide Kept;
    PolicyExactlyWhen(p, v, run, locate);
  }

  /** A rule that is there before the endpoints: deleting it panics. */
  lemma RuleBeforeEndpointsPanics(p: PortName, e: string, policyName: string, key: HashKey, locate: Locator)
    ensures var lists: Lists := map[p.port := [e]];
            var run := [Timed(0, RuleAdd(p.svc, policyName, key)), Timed(0, EndpointsAdd(p.svc, lists, lists))];
            && Shuffled(run) && OrderedRun(None, p.svc, run)
            && RuleDeletePanics(After(p, Port(None, None), run, locate))
  {
    var lists: Lists := map[p.port := [e]];
    var t1, t2 := Timed(0, RuleAdd(p.svc, policyName, key)), Timed(0, EndpointsAdd(p.svc, lists, lists));
    AfterTwo(p, Port(None, None), t1, t2, locate);
    assert [t1, t2][1..] == [t2] && [t2][1..] == [];
  }

  /** A policy can outlive its rule: a service is deleted, then its rule, and the service comes back with
      the policy of the rule that is gone. */
  lemma PolicyOutlivesRule(p: PortName, affinityType: string, ttl: int, key: HashKey, locate: Locator)
    ensures var create := Timed(0, NewService(p, affinityType, ttl));
            var run := [create, Timed(0, RuleAdd(p.svc, RANDOM, key)), Timed(0, DeleteService(p))]
                       + [Timed(0, RuleDelete(p.svc)), create];
            && Shuffled(run) && OrderedRun(None, p.svc, run)
            && After(p, Port(None, None), run, locate).state.Some?
            && After(p, Port(None, None), run, locate).policy == Some(Random)
  {
    var create, add := Timed(0, NewService(p, affinityType, ttl)), Timed(0, RuleAdd(p.svc, RANDOM, key));
    var drop, remove := Timed(0, Balancing.Event.DeleteService(p)), Timed(0, RuleDelete(p.svc));
    var first, second := [create, add, drop], [remove, create];
    AfterThree(p, Port(None, None), create, add, drop, locate);
    var w := After(p, Port(None, None), first, locate);
    assert w == Port(None, Some(Random)) by {
      assert RANDOM != ROUND_ROBIN by {
        assert RANDOM[1] == 'A' && ROUND_ROBIN[1] == 'O';
      }
    }
    AfterTwo(p, w, remove, create, locate);
    AfterConcat(p, Port(None, None), first, second, locate);
    hide After;
    OtherEventsAreOrdered(None, p.svc, first + second);
  }
}
