/**
 Whole runs of status calls. Keeping the rules piles up the API's internal
 rules until the inbound ceiling locks the configuration; replacing them does
 not, and the reconcile loop converges after every such run.
 */
module StatusRuns {
  import opened Basics
  import opened GoStrings
  import opened Rules
  import opened Diff
  import opened Stripping
  import opened Reconcile
  import opened Rulesets
  import opened Expansion
  import opened StatusProtocol

  ghost predicate Run(internal: FirewallRules, cap: int, calls: seq<Call>, configs: seq<Config>, executed: seq<bool>) {
    && |configs| == |calls| + 1 && |executed| == |calls|
    && forall i | 0 <= i < |calls| :: Transition(internal, cap, calls[i], configs[i], configs[i + 1], executed[i])
  }

  ghost function Executions(executed: seq<bool>): nat {
    if executed == [] then 0
    else Executions(executed[..|executed| - 1]) + if executed[|executed| - 1] then 1 else 0
  }

  ghost function Repeated<T>(s: seq<T>, n: nat): (r: seq<T>)
    ensures |r| == n * |s|
  {
    if n == 0 then []
    else
      assert n * |s| == |s| + (n - 1) * |s|;
      s + Repeated(s, n - 1)
  }

  /** Activate or Disable, without rules. */
  ghost predicate Keeps(calls: seq<Call>) {
    forall call <- calls :: call.rules.None?
  }

  /** ActivateWithRules or DisableWithRules with the desired rules. */
  ghost predicate Replaces(calls: seq<Call>, desired: FirewallRules) {
    forall call <- calls :: call.rules == Some(desired)
  }

  ghost function Direction(rules: FirewallRules, inbound: bool): seq<FirewallRule> {
    if inbound then rules.input else rules.output
  }

  lemma ExecutionsSnoc(executed: seq<bool>, n: nat)
    requires n < |executed|
    ensures Executions(executed[..n + 1]) == Executions(executed[..n]) + if executed[n] then 1 else 0
  {
    assert executed[..n + 1][..n] == executed[..n];
  }

  // ---- What every run keeps

  /** whitelist_hos and filter_ipv6 never change, whatever calls are made. */
  lemma {:induction false} FlagsNeverChange(internal: FirewallRules, cap: int, calls: seq<Call>, configs: seq<Config>, executed: seq<bool>, n: nat)
    requires Run(internal, cap, calls, configs, executed) && n <= |calls|
    ensures configs[n].whitelistHOS == configs[0].whitelistHOS && configs[n].filterIPv6 == configs[0].filterIPv6
  {
    if n > 0 {
      FlagsNeverChange(internal, cap, calls, configs, executed, n - 1);
      assert Transition(internal, cap, calls[n - 1], configs[n - 1], configs[n], executed[n - 1]);
    }
  }

  // ---- Keeping the rules

  /** One executed call puts one more copy of the internal rules in front. */
  ghost predicate Grows(internal: seq<FirewallRule>, before: seq<FirewallRule>, after: seq<FirewallRule>) {
    && Projection(after, IPv4) == Projection(internal, IPv4) + Projection(before, IPv4)
    && Projection(after, IPv6) == Projection(internal, IPv6) + Projection(before, IPv6)
    && |internal| + |before| <= |after|
    && (Versioned(before) ==> after == internal + before)
  }

  lemma KeepGrows(internal: FirewallRules, cap: int, call: Call, before: Config, after: Config, inbound: bool)
    requires Transition(internal, cap, call, before, after, true) && call.rules.None?
    ensures Grows(Direction(internal, inbound), Direction(before.rules, inbound), Direction(after.rules, inbound))
  {
    var form :| ExpandedRules(before.rules, form) && after.rules == Prepended(internal, form);
    ExpandedFacts(Direction(before.rules, inbound), Direction(form, inbound));
    ProjectionAppend(Direction(internal, inbound), Direction(form, inbound), IPv4);
    ProjectionAppend(Direction(internal, inbound), Direction(form, inbound), IPv6);
  }

  /** The list holds n copies of the internal rules before the initial ones. */
  ghost predicate PiledUp(internal: seq<FirewallRule>, initial: seq<FirewallRule>, rules: seq<FirewallRule>, n: nat) {
    && Projection(rules, IPv4) == Repeated(Projection(internal, IPv4), n) + Projection(initial, IPv4)
    && Projection(rules, IPv6) == Repeated(Projection(internal, IPv6), n) + Projection(initial, IPv6)
    && n * |internal| + |initial| <= |rules|
    && (Versioned(internal) && Versioned(initial) ==> Versioned(rules) && rules == Repeated(internal, n) + initial)
  }

  lemma RepeatedStep<T>(s: seq<T>, t: seq<T>, n: nat)
    ensures s + (Repeated(s, n) + t) == Repeated(s, n + 1) + t
  {
    assert s + (Repeated(s, n) + t) == (s + Repeated(s, n)) + t;
  }

  lemma PilesUpOnce(internal: seq<FirewallRule>, initial: seq<FirewallRule>, before: seq<FirewallRule>, after: seq<FirewallRule>, n: nat)
    requires PiledUp(internal, initial, before, n) && Grows(internal, before, after)
    ensures PiledUp(internal, initial, after, n + 1)
  {
    RepeatedStep(Projection(internal, IPv4), Projection(initial, IPv4), n);
    RepeatedStep(Projection(internal, IPv6), Projection(initial, IPv6), n);
    assert (n + 1) * |internal| == |internal| + n * |internal|;
    if Versioned(internal) && Versioned(initial) {
      RepeatedStep(internal, initial, n);
    }
  }

  /**
   After any run of Activate and Disable the rules are the initial ones behind
   one copy of the internal rules per executed call.
   */
  lemma {:induction false} KeepingPilesUp(internal: FirewallRules, cap: int, calls: seq<Call>, configs: seq<Config>,
                                          executed: seq<bool>, n: nat, inbound: bool)
    requires Run(internal, cap, calls, configs, executed) && Keeps(calls) && n <= |calls|
    ensures PiledUp(Direction(internal, inbound), Direction(configs[0].rules, inbound),
                    Direction(configs[n].rules, inbound), Executions(executed[..n]))
  {
    if n == 0 {
      NothingPiledUp(Direction(internal, inbound), Direction(configs[0].rules, inbound));
    } else {
      var m := n - 1;
      KeepingPilesUp(internal, cap, calls, configs, executed, m, inbound);
      ExecutionsSnoc(executed, m);
      assert calls[m] in calls;
      OneCallPilesUp(internal, cap, calls[m], configs[0], configs[m], configs[n], executed[m], Executions(executed[..m]), inbound);
    }
  }

  lemma OneCallPilesUp(internal: FirewallRules, cap: int, call: Call, initial: Config, before: Config, after: Config,
                       executed: bool, n: nat, inbound: bool)
    requires Transition(internal, cap, call, before, after, executed) && call.rules.None?
    requires PiledUp(Direction(internal, inbound), Direction(initial.rules, inbound), Direction(before.rules, inbound), n)
    ensures PiledUp(Direction(internal, inbound), Direction(initial.rules, inbound), Direction(after.rules, inbound),
                    n + if executed then 1 else 0)
  {
    if executed {
      KeepGrows(internal, cap, call, before, after, inbound);
      PilesUpOnce(Direction(internal, inbound), Direction(initial.rules, inbound),
                  Direction(before.rules, inbound), Direction(after.rules, inbound), n);
    }
  }

  lemma NothingPiledUp(internal: seq<FirewallRule>, initial: seq<FirewallRule>)
    ensures PiledUp(internal, initial, initial, 0)
  {
    assert [] + initial == initial;
    assert forall v :: [] + Projection(initial, v) == Projection(initial, v);
  }

  /** A call executed at step n found no more inbound rules than the ceiling, though they had already piled up. */
  lemma ExecutedWithinCeiling(internal: FirewallRules, cap: int, calls: seq<Call>, configs: seq<Config>,
                              executed: seq<bool>, n: nat)
    requires Run(internal, cap, calls, configs, executed) && Keeps(calls) && n < |calls| && executed[n]
    ensures Executions(executed[..n]) * |internal.input| + |configs[0].rules.input| <= cap
  {
    KeepingPilesUp(internal, cap, calls, configs, executed, n, true);
    assert calls[n] in calls;
    assert Transition(internal, cap, calls[n], configs[n], configs[n + 1], executed[n]);
  }

  lemma {:induction false} LastExecuted(executed: seq<bool>, n: nat) returns (i: nat)
    requires n <= |executed| && Executions(executed[..n]) > 0
    ensures i < n && executed[i] && Executions(executed[..i]) == Executions(executed[..n]) - 1
  {
    ExecutionsSnoc(executed, n - 1);
    if executed[n - 1] {
      i := n - 1;
    } else {
      i := LastExecuted(executed, n - 1);
    }
  }

  /** With internal inbound rules, at most (cap - L) / k + 1 calls are ever executed. */
  lemma KeepingIsBounded(internal: FirewallRules, cap: int, calls: seq<Call>, configs: seq<Config>, executed: seq<bool>)
    requires Run(internal, cap, calls, configs, executed) && Keeps(calls)
    requires internal.input != []
    ensures |configs[0].rules.input| <= cap ==>
              Executions(executed) <= (cap - |configs[0].rules.input|) / |internal.input| + 1
    ensures |configs[0].rules.input| > cap ==> Executions(executed) == 0
  {
    assert executed[..|calls|] == executed;
    if Executions(executed) > 0 {
      var i := LastExecuted(executed, |calls|);
      ExecutedWithinCeiling(internal, cap, calls, configs, executed, i);
      var k, m, room := |internal.input|, Executions(executed) - 1, cap - |configs[0].rules.input|;
      assert 0 <= m * k <= room;
      DividesWithin(m, k, room);
    }
  }

  lemma DividesWithin(m: nat, k: nat, room: nat)
    requires k > 0 && m * k <= room
    ensures m <= room / k
  {
    var q := room / k;
    assert room < q * k + k == (q + 1) * k;
    if q < m {
      ProductsGrow(q + 1, m, k);
    }
  }

  /** Once the inbound rules exceed the ceiling no later call is executed and nothing changes any more. */
  lemma {:induction false} LockedOut(internal: FirewallRules, cap: int, calls: seq<Call>, configs: seq<Config>,
                                     executed: seq<bool>, m: nat, n: nat)
    requires Run(internal, cap, calls, configs, executed) && Keeps(calls) && m <= n <= |calls|
    requires |configs[m].rules.input| > cap
    ensures configs[n] == configs[m] && (n < |calls| ==> !executed[n])
  {
    if m < n {
      LockedOut(internal, cap, calls, configs, executed, m, n - 1);
      assert Transition(internal, cap, calls[n - 1], configs[n - 1], configs[n], executed[n - 1]);
    }
    if n < |calls| {
      assert calls[n] in calls;
      assert Transition(internal, cap, calls[n], configs[n], configs[n + 1], executed[n]);
    }
  }

  // ---- Replacing the rules

  /** After any executed ActivateWithRules or DisableWithRules exactly one copy of the internal rules stands before the desired ones. */
  lemma {:induction false} ReplacingDoesNotPileUp(internal: FirewallRules, cap: int, calls: seq<Call>, configs: seq<Config>,
                                                  executed: seq<bool>, desired: FirewallRules, n: nat)
    returns (form: FirewallRules)
    requires Run(internal, cap, calls, configs, executed) && Replaces(calls, desired) && n <= |calls|
    requires Executions(executed[..n]) > 0
    ensures ExpandedRules(desired, form) && configs[n].rules == Prepended(internal, form)
  {
    var m := n - 1;
    ExecutionsSnoc(executed, m);
    assert calls[m] in calls;
    assert Transition(internal, cap, calls[m], configs[m], configs[m + 1], executed[m]);
    if executed[m] {
      form :| ExpandedRules(desired, form) && configs[n].rules == Prepended(internal, form);
    } else {
      form := ReplacingDoesNotPileUp(internal, cap, calls, configs, executed, desired, m);
    }
  }

  /**
   The documented use: after a run of calls with the desired rules, the rules
   injected into one answer, stripped from any later read, leave the desired
   rules, provided they can be told from the internal ones.
   */
  lemma RunsReconcile(internal: FirewallRules, cap: int, calls: seq<Call>, configs: seq<Config>, executed: seq<bool>,
                      desired: FirewallRules, m: nat, n: nat)
    requires Run(internal, cap, calls, configs, executed) && Replaces(calls, desired)
    requires RulesetSeparable(desired, internal)
    requires m <= |calls| && n <= |calls| && Executions(executed[..m]) > 0 && Executions(executed[..n]) > 0
    ensures Equivalent(Without(configs[n].rules, InjectedRuleset(desired, configs[m].rules)), desired)
  {
    var applied := ReplacingDoesNotPileUp(internal, cap, calls, configs, executed, desired, m);
    var current := ReplacingDoesNotPileUp(internal, cap, calls, configs, executed, desired, n);
    ExpandedRulesetIsEquivalent(desired, current);
    RulesetSeparableVerdict(desired, internal, applied, current);
  }

  ghost predicate RunsAlwaysReconcile(internal: FirewallRules, cap: int, desired: FirewallRules) {
    forall calls, configs: seq<Config>, executed, m: nat, n: nat |
      && Run(internal, cap, calls, configs, executed) && Replaces(calls, desired)
      && m <= |calls| && n <= |calls| && Executions(executed[..m]) > 0 && Executions(executed[..n]) > 0 ::
      Equivalent(Without(configs[n].rules, InjectedRuleset(desired, configs[m].rules)), desired)
  }

  /** Two calls whose posts came back in any two given expansions. */
  lemma TwoCalls(internal: FirewallRules, cap: int, desired: FirewallRules, applied: FirewallRules, current: FirewallRules)
    returns (calls: seq<Call>, configs: seq<Config>, executed: seq<bool>)
    requires |desired.input| <= cap && ExpandedRules(desired, applied) && ExpandedRules(desired, current)
    ensures Run(internal, cap, calls, configs, executed) && Replaces(calls, desired) && |calls| == 2
    ensures Executions(executed[..1]) > 0 && Executions(executed[..2]) > 0
    ensures configs[1].rules == Prepended(internal, applied) && configs[2].rules == Prepended(internal, current)
  {
    var call := Call(Active, Some(desired));
    var initial := Config(Active, false, false, desired);
    var first, second := initial.(rules := Prepended(internal, applied)), initial.(rules := Prepended(internal, current));
    calls, configs, executed := [call, call], [initial, first, second], [true, true];
    assert Transition(internal, cap, call, initial, first, true);
    assert Transition(internal, cap, call, first, second, true);
    ExecutionsSnoc(executed, 0);
    ExecutionsSnoc(executed, 1);
  }

  /**
   Within the ceiling, all runs reconcile, and no version-less internal rule is
   taken for a desired one, exactly when the lists are separable.
   */
  lemma RunsAlwaysReconcileIff(internal: FirewallRules, cap: int, desired: FirewallRules)
    requires |desired.input| <= cap
    ensures RunsAlwaysReconcile(internal, cap, desired) && RulesetNoneTaken(desired, internal) <==>
            RulesetSeparable(desired, internal)
  {
    RulesetConvergesForExpansionsIff(desired, internal);
    if RulesetSeparable(desired, internal) {
      forall calls, configs: seq<Config>, executed, m: nat, n: nat |
        && Run(internal, cap, calls, configs, executed) && Replaces(calls, desired)
        && m <= |calls| && n <= |calls| && Executions(executed[..m]) > 0 && Executions(executed[..n]) > 0
        ensures Equivalent(Without(configs[n].rules, InjectedRuleset(desired, configs[m].rules)), desired)
      {
        RunsReconcile(internal, cap, calls, configs, executed, desired, m, n);
      }
    }
    if RunsAlwaysReconcile(internal, cap, desired) {
      forall applied, current | ExpandedRules(desired, applied) && ExpandedRules(desired, current)
        ensures RulesetConverges(desired, internal, applied, current)
      {
        var calls, configs, executed := TwoCalls(internal, cap, desired, applied, current);
        assert Equivalent(Without(configs[2].rules, InjectedRuleset(desired, configs[1].rules)), desired);
      }
    }
  }

  /** Whatever the configuration drifts to after a run, the check reports drift exactly when there is some. */
  ghost predicate RunVerdictsAreRight(internal: FirewallRules, cap: int, desired: FirewallRules) {
    forall calls, configs: seq<Config>, executed, m: nat, current |
      && Run(internal, cap, calls, configs, executed) && Replaces(calls, desired)
      && m <= |calls| && Executions(executed[..m]) > 0 ::
      Equivalent(Without(Prepended(internal, current), InjectedRuleset(desired, configs[m].rules)), desired) <==>
      Equivalent(current, desired)
  }

  lemma VerdictOfRun(internal: FirewallRules, cap: int, desired: FirewallRules, applied: FirewallRules, current: FirewallRules)
    requires |desired.input| <= cap && RunVerdictsAreRight(internal, cap, desired) && ExpandedRules(desired, applied)
    ensures RulesetConverges(desired, internal, applied, current) <==> Equivalent(current, desired)
  {
    var calls, configs, executed := TwoCalls(internal, cap, desired, applied, applied);
    assert Equivalent(Without(Prepended(internal, current), InjectedRuleset(desired, configs[1].rules)), desired) <==>
           Equivalent(current, desired);
  }

  /** Within the ceiling, for all internal rules: exactly when the desired rules can be told from the internal ones. */
  lemma RunVerdictsAreRightIff(internal: FirewallRules, cap: int, desired: FirewallRules)
    requires |desired.input| <= cap
    ensures RunVerdictsAreRight(internal, cap, desired) <==> RulesetSeparable(desired, internal)
  {
    if RulesetSeparable(desired, internal) {
      forall calls, configs: seq<Config>, executed, m: nat, current |
        && Run(internal, cap, calls, configs, executed) && Replaces(calls, desired)
        && m <= |calls| && Executions(executed[..m]) > 0
        ensures Equivalent(Without(Prepended(internal, current), InjectedRuleset(desired, configs[m].rules)), desired) <==>
                Equivalent(current, desired)
      {
        var applied := ReplacingDoesNotPileUp(internal, cap, calls, configs, executed, desired, m);
        RulesetSeparableVerdict(desired, internal, applied, current);
      }
    }
    if RunVerdictsAreRight(internal, cap, desired) {
      forall applied, current | ExpandedRules(desired, applied)
        ensures RulesetConverges(desired, internal, applied, current) <==> Equivalent(current, desired)
      {
        VerdictOfRun(internal, cap, desired, applied, current);
      }
      RulesetVerdictsAreRightIff(desired, internal);
    }
  }

  /**
   The same when the answer that was diffed lists only rules with a version, as
   the API has been seen to do: then the desired rules may even repeat internal
   ones.
   */
  lemma RunsReconcileExpanded(internal: FirewallRules, cap: int, calls: seq<Call>, configs: seq<Config>, executed: seq<bool>,
                              desired: FirewallRules, m: nat, n: nat)
    requires Run(internal, cap, calls, configs, executed) && Replaces(calls, desired)
    requires m <= |calls| && n <= |calls| && Executions(executed[..m]) > 0 && Executions(executed[..n]) > 0
    requires Versioned(configs[m].rules.input) && Versioned(configs[m].rules.output)
    ensures Equivalent(Without(configs[n].rules, InjectedRuleset(desired, configs[m].rules)), desired)
  {
    var applied := ReplacingDoesNotPileUp(internal, cap, calls, configs, executed, desired, m);
    var current := ReplacingDoesNotPileUp(internal, cap, calls, configs, executed, desired, n);
    ExpandedDirection(desired.input, internal.input, applied.input, current.input);
    ExpandedDirection(desired.output, internal.output, applied.output, current.output);
  }

  lemma ExpandedDirection(desired: seq<FirewallRule>, internal: seq<FirewallRule>, applied: seq<FirewallRule>, current: seq<FirewallRule>)
    requires Expanded(desired, applied) && Expanded(desired, current) && Versioned(internal + applied)
    ensures ListEquivalent(Stripped(internal + current, Injected(desired, internal + applied)), desired)
  {
    assert forall r <- internal :: r in internal + applied;
    assert forall r <- applied :: r in internal + applied;
    ExpandedFacts(desired, applied);
    ExpandedFacts(desired, current);
    ExpandedIsRecovered(desired, internal, applied, current);
  }

  /** After an executed call the status is the one it asked for, unless the change is still in process. */
  lemma StatusFollowsCall(internal: FirewallRules, cap: int, calls: seq<Call>, configs: seq<Config>, executed: seq<bool>, n: nat)
    requires Run(internal, cap, calls, configs, executed) && n < |calls|
    ensures configs[n + 1].status in {if executed[n] then calls[n].status else configs[n].status, "in process"}
  {
    assert Transition(internal, cap, calls[n], configs[n], configs[n + 1], executed[n]);
  }
}
