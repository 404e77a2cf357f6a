/**
 The reconcile loop against an API that only expands: each version-less rule
 comes back as it is or as its ipv4/ipv6 pair. The condition is then weaker than
 for all equivalent lists, and exact again.
 */
module Expansion {
  import opened Basics
  import opened Rules
  import opened Diff
  import opened Stripping
  import opened Reconcile
  import opened Convergence
  import opened Rulesets

  /** The list with some version-less rules replaced by their ipv4/ipv6 pair. */
  ghost predicate Expanded(posted: seq<FirewallRule>, form: seq<FirewallRule>) {
    if posted == [] then form == []
    else
      var before, last := posted[..|posted| - 1], posted[|posted| - 1];
      || (form != [] && form[|form| - 1] == last && Expanded(before, form[..|form| - 1]))
      || (|form| > 1 && last.ipVersion == ""
          && form[|form| - 2..] == [last.(ipVersion := IPv4), last.(ipVersion := IPv6)]
          && Expanded(before, form[..|form| - 2]))
  }

  ghost predicate ExpandedRules(posted: FirewallRules, form: FirewallRules) {
    Expanded(posted.input, form.input) && Expanded(posted.output, form.output)
  }

  lemma {:induction false} ExpandedFacts(posted: seq<FirewallRule>, form: seq<FirewallRule>)
    requires Expanded(posted, form)
    ensures ListEquivalent(form, posted) && |posted| <= |form|
    ensures Versioned(posted) ==> form == posted
    decreases |posted|
  {
    VersionsDiffer();
    if posted != [] {
      var before, last := posted[..|posted| - 1], posted[|posted| - 1];
      assert posted == before + [last];
      assert Versioned(posted) ==> Versioned(before) && Filtered(last.ipVersion);
      if form != [] && form[|form| - 1] == last && Expanded(before, form[..|form| - 1]) {
        var front := form[..|form| - 1];
        assert form == front + [last];
        ExpandedFacts(before, front);
        ProjectionSnoc(before, last, IPv4);
        ProjectionSnoc(before, last, IPv6);
        ProjectionSnoc(front, last, IPv4);
        ProjectionSnoc(front, last, IPv6);
      } else {
        var front, l4, l6 := form[..|form| - 2], last.(ipVersion := IPv4), last.(ipVersion := IPv6);
        assert form == (front + [l4]) + [l6];
        ExpandedFacts(before, front);
        ExpandedPair(before, front, last, IPv4);
        ExpandedPair(before, front, last, IPv6);
      }
    }
  }

  lemma ExpandedPair(before: seq<FirewallRule>, front: seq<FirewallRule>, r: FirewallRule, v: IPVersion)
    requires r.ipVersion == "" && Filtered(v) && Projection(before, v) == Projection(front, v)
    ensures Projection(front + [r.(ipVersion := IPv4)] + [r.(ipVersion := IPv6)], v) == Projection(before + [r], v)
  {
    VersionsDiffer();
    var r4, r6 := r.(ipVersion := IPv4), r.(ipVersion := IPv6);
    assert r4.Key() == r.Key() == r6.Key();
    ProjectionSnoc(before, r, v);
    ProjectionSnoc(front, r4, v);
    ProjectionSnoc(front + [r4], r6, v);
  }

  /** Every version-less rule as its ipv4/ipv6 pair. */
  ghost function FullyExpanded(rules: seq<FirewallRule>): seq<FirewallRule> {
    if rules == [] then
      []
    else
      var before, last := rules[..|rules| - 1], rules[|rules| - 1];
      FullyExpanded(before)
      + if last.ipVersion == "" then [last.(ipVersion := IPv4), last.(ipVersion := IPv6)] else [last]
  }

  lemma {:induction false} FullyExpandedFacts(rules: seq<FirewallRule>)
    ensures Expanded(rules, FullyExpanded(rules))
    ensures forall k: FirewallRule | k.ipVersion == "" :: k !in FullyExpanded(rules)
  {
    VersionsDiffer();
    if rules != [] {
      var before, last := rules[..|rules| - 1], rules[|rules| - 1];
      FullyExpandedFacts(before);
      var front, form := FullyExpanded(before), FullyExpanded(rules);
      if last.ipVersion == "" {
        assert form[..|form| - 2] == front;
      } else {
        assert form[..|form| - 1] == front;
      }
    }
  }

  lemma {:induction false} ExpandedSelf(rules: seq<FirewallRule>)
    ensures Expanded(rules, rules)
  {
    if rules != [] {
      ExpandedSelf(rules[..|rules| - 1]);
    }
  }

  /** A version-less rule of a form stands for one of the list, behind equivalent rules. */
  lemma {:induction false} ExpandedPosition(posted: seq<FirewallRule>, form: seq<FirewallRule>, j: nat) returns (t: nat)
    requires Expanded(posted, form) && j < |form| && form[j].ipVersion == ""
    ensures t < |posted| && posted[t] == form[j] && ListEquivalent(form[..j], posted[..t])
    decreases |posted|
  {
    VersionsDiffer();
    var n := |posted| - 1;
    var before, last := posted[..n], posted[n];
    if form[|form| - 1] == last && Expanded(before, form[..|form| - 1]) {
      var front := form[..|form| - 1];
      if j < |front| {
        t := ExpandedPosition(before, front, j);
        assert front[..j] == form[..j] && before[..t] == posted[..t];
      } else {
        t := n;
        ExpandedFacts(before, front);
      }
    } else {
      var front := form[..|form| - 2];
      assert form == front + form[|form| - 2..];
      t := ExpandedPosition(before, front, j);
      assert front[..j] == form[..j] && before[..t] == posted[..t];
    }
  }

  // ---- The condition

  ghost predicate ConvergesForEveryExpansion(desired: seq<FirewallRule>, internal: seq<FirewallRule>) {
    forall applied, current | Expanded(desired, applied) && Expanded(desired, current) ::
      Converges(desired, internal, applied, current)
  }

  /** The check reports drift exactly when there is some, whatever expansion was diffed and whatever is read later. */
  ghost predicate VerdictsAreRight(desired: seq<FirewallRule>, internal: seq<FirewallRule>) {
    forall applied, current | Expanded(desired, applied) ::
      Converges(desired, internal, applied, current) <==> ListEquivalent(current, desired)
  }

  /** No version-less internal rule is accounted for in both versions. */
  ghost predicate NoneTakenForPosted(desired: seq<FirewallRule>, internal: seq<FirewallRule>) {
    forall i | 0 <= i < |internal| && internal[i].ipVersion == "" ::
      !(Accounted(desired, internal[..i], internal[i], IPv4) && Accounted(desired, internal[..i], internal[i], IPv6))
  }

  ghost predicate VersionlessUnmatched(desired: seq<FirewallRule>, internal: seq<FirewallRule>) {
    forall i | 0 <= i < |internal| && internal[i].ipVersion == "" :: Unmatched(desired, internal[..i], internal[i])
  }

  /** Behind every version-less desired rule there are, in each version, at least as many desired copies of it as internal ones. */
  ghost predicate RoomBehind(desired: seq<FirewallRule>, internal: seq<FirewallRule>) {
    forall t, v | 0 <= t < |desired| && desired[t].ipVersion == "" && Filtered(v) ::
      Copies(internal, v, desired[t]) <= Copies(desired[t + 1..], v, desired[t])
  }

  /** What a caller can check from the desired list and the account's internal rules. */
  ghost predicate Separable(desired: seq<FirewallRule>, internal: seq<FirewallRule>) {
    VersionlessUnmatched(desired, internal) && RoomBehind(desired, internal)
  }

  /** A version-less desired rule behind the internal ones is accounted for when there is room behind it. */
  lemma AccountedWithRoom(desired: seq<FirewallRule>, internal: seq<FirewallRule>, front: seq<FirewallRule>, t: nat, v: IPVersion)
    requires t < |desired| && desired[t].ipVersion == "" && Filtered(v)
    requires ListEquivalent(front, desired[..t])
    ensures Accounted(desired, internal + front, desired[t], v) <==>
            Copies(internal, v, desired[t]) <= Copies(desired[t + 1..], v, desired[t])
  {
    var k := desired[t];
    assert k.Key() == k;
    assert desired == (desired[..t] + [k]) + desired[t + 1..];
    ProjectionSnoc(desired[..t], k, v);
    ProjectionAppend(desired[..t] + [k], desired[t + 1..], v);
    ProjectionAppend(internal, front, v);
  }

  // ---- Sufficiency

  lemma SeparableAccounted(desired: seq<FirewallRule>, internal: seq<FirewallRule>, applied: seq<FirewallRule>, j: nat)
    requires Separable(desired, internal) && Expanded(desired, applied)
    requires j < |applied| && applied[j].ipVersion == ""
    ensures forall v | Filtered(v) :: Accounted(desired, internal + applied[..j], applied[j], v)
  {
    var t := ExpandedPosition(desired, applied, j);
    forall v | Filtered(v)
      ensures Accounted(desired, internal + applied[..j], applied[j], v)
    {
      AccountedWithRoom(desired, internal, applied[..j], t, v);
      assert Copies(internal, v, desired[t]) <= Copies(desired[t + 1..], v, desired[t]);
    }
  }

  lemma SeparableNoneHalf(desired: seq<FirewallRule>, internal: seq<FirewallRule>, applied: seq<FirewallRule>)
    requires Separable(desired, internal) && Expanded(desired, applied)
    ensures NoneHalfAccounted(desired, internal + applied)
  {
    var returned := internal + applied;
    assert Filtered(IPv4) && Filtered(IPv6);
    forall i | 0 <= i < |returned|
      ensures !HalfAccounted(desired, returned[..i], returned[i])
    {
      if i < |internal| {
        assert returned[..i] == internal[..i] && returned[i] == internal[i];
      } else if returned[i].ipVersion == "" {
        var j := i - |internal|;
        assert returned[..i] == internal + applied[..j] && returned[i] == applied[j];
        SeparableAccounted(desired, internal, applied, j);
      }
    }
  }

  /** Separable internal rules are reported exactly, whatever expansion was diffed. */
  lemma SeparableIsRecognised(desired: seq<FirewallRule>, internal: seq<FirewallRule>, applied: seq<FirewallRule>)
    requires Separable(desired, internal) && Expanded(desired, applied)
    ensures Recognised(internal, Injected(desired, internal + applied))
  {
    SeparableNoneHalf(desired, internal, applied);
    ExpandedFacts(desired, applied);
    assert Filtered(IPv4);
    forall k: FirewallRule | k.ipVersion == ""
      ensures multiset(Injected(desired, internal + applied))[k] == multiset(internal)[k]
    {
      InjectedAll(desired, internal, k);
      forall j | 0 <= j < |applied| && applied[j] == k
        ensures !Unmatched(desired, internal + applied[..j], applied[j])
      {
        SeparableAccounted(desired, internal, applied, j);
      }
      InjectedNone(desired, internal, applied, k);
    }
    RecognisedByVersionless(desired, internal, applied);
  }

  lemma SeparableVerdict(desired: seq<FirewallRule>, internal: seq<FirewallRule>, applied: seq<FirewallRule>, current: seq<FirewallRule>)
    requires Separable(desired, internal) && Expanded(desired, applied)
    ensures Converges(desired, internal, applied, current) <==> ListEquivalent(current, desired)
  {
    SeparableIsRecognised(desired, internal, applied);
    StripsRecognisedPrefix(internal, current, Injected(desired, internal + applied), IPv4);
    StripsRecognisedPrefix(internal, current, Injected(desired, internal + applied), IPv6);
  }

  // ---- Necessity

  lemma {:induction false} InjectedGrowsWithin(posted: seq<FirewallRule>, a: seq<FirewallRule>, b: seq<FirewallRule>, r: FirewallRule)
    ensures multiset(Injected(posted, a + b))[r] <= multiset(Injected(posted, a))[r] + multiset(b)[r]
  {
    if b == [] {
      assert a + b == a;
    } else {
      var n := |b| - 1;
      assert a + b == (a + b[..n]) + [b[n]] && b == b[..n] + [b[n]];
      InjectedGrowsWithin(posted, a, b[..n], r);
      InjectedSnoc(posted, a + b[..n], b[n]);
    }
  }

  lemma UnreportedIsMissing(posted: seq<FirewallRule>, front: seq<FirewallRule>, r: FirewallRule, back: seq<FirewallRule>)
    requires !Unmatched(posted, front, r)
    ensures multiset(Injected(posted, front + [r] + back))[r] < multiset(front)[r] + 1 + multiset(back)[r]
  {
    InjectedSnoc(posted, front, r);
    InjectedIsReturned(posted, front);
    InjectedGrowsWithin(posted, front + [r], back, r);
  }

  /** Reporting all copies of a rule means that each was unmatched. */
  lemma AllReportedUnmatched(posted: seq<FirewallRule>, rules: seq<FirewallRule>, i: nat)
    requires i < |rules| && multiset(Injected(posted, rules))[rules[i]] == multiset(rules)[rules[i]]
    ensures Unmatched(posted, rules[..i], rules[i])
  {
    SplitAround(rules, i);
    assert multiset(rules) == multiset(rules[..i]) + multiset{rules[i]} + multiset(rules[i + 1..]);
    if !Unmatched(posted, rules[..i], rules[i]) {
      UnreportedIsMissing(posted, rules[..i], rules[i], rules[i + 1..]);
    }
  }

  lemma ConvergingOnDesired(desired: seq<FirewallRule>, internal: seq<FirewallRule>)
    requires Converges(desired, internal, desired, desired)
    ensures forall i | 0 <= i < |internal| :: !HalfAccounted(desired, internal[..i], internal[i])
    ensures forall t | 0 <= t < |desired| :: !HalfAccounted(desired, internal + desired[..t], desired[t])
  {
    ConvergingNoneHalf(desired, internal, desired);
    var returned := internal + desired;
    forall i | 0 <= i < |internal|
      ensures !HalfAccounted(desired, internal[..i], internal[i])
    {
      assert returned[..i] == internal[..i] && returned[i] == internal[i];
    }
    forall t | 0 <= t < |desired|
      ensures !HalfAccounted(desired, internal + desired[..t], desired[t])
    {
      var i := |internal| + t;
      assert returned[..i] == internal + desired[..t] && returned[i] == desired[t];
    }
  }

  lemma ReportedBehind(posted: seq<FirewallRule>, before: seq<FirewallRule>, k: FirewallRule, back: seq<FirewallRule>)
    requires Unmatched(posted, before, k)
    ensures multiset(Injected(posted, before + [k] + back))[k] > multiset(Injected(posted, before))[k]
  {
    InjectedSnoc(posted, before, k);
    InjectedGrows(posted, before + [k], back, k);
  }

  lemma VersionlessReported(desired: seq<FirewallRule>, internal: seq<FirewallRule>, k: FirewallRule)
    requires VersionlessUnmatched(desired, internal) && k.ipVersion == ""
    ensures multiset(Injected(desired, internal))[k] == multiset(internal)[k]
  {
    InjectedAll(desired, internal, k);
  }

  lemma Regrouped(internal: seq<FirewallRule>, desired: seq<FirewallRule>, t: nat)
    requires t < |desired|
    ensures internal + desired == internal + desired[..t] + [desired[t]] + desired[t + 1..]
  {
    SplitAround(desired, t);
  }

  lemma ReportedDesired(desired: seq<FirewallRule>, internal: seq<FirewallRule>, t: nat)
    requires VersionlessUnmatched(desired, internal)
    requires t < |desired| && desired[t].ipVersion == "" && Unmatched(desired, internal + desired[..t], desired[t])
    ensures multiset(Injected(desired, internal + desired))[desired[t]] > multiset(internal)[desired[t]]
  {
    VersionlessReported(desired, internal, desired[t]);
    InjectedGrows(desired, internal, desired[..t], desired[t]);
    ReportedBehind(desired, internal + desired[..t], desired[t], desired[t + 1..]);
    Regrouped(internal, desired, t);
  }

  /** What is reported of a version-less rule beyond the internal copies is missing from a form without it. */
  lemma NotReportedBeyond(desired: seq<FirewallRule>, internal: seq<FirewallRule>, current: seq<FirewallRule>, k: FirewallRule)
    requires Converges(desired, internal, desired, desired) && Converges(desired, internal, desired, current)
    requires ListEquivalent(current, desired) && k.ipVersion == "" && k !in current
    ensures multiset(Injected(desired, internal + desired))[k] <= multiset(internal)[k]
  {
    ReportedTotal(desired, internal, desired, IPv4, k);
    LeftTotal(desired, internal, desired, current, IPv4, k);
    assert multiset(current)[k] == 0;
  }

  lemma AccountedInBoth(desired: seq<FirewallRule>, internal: seq<FirewallRule>, t: nat)
    requires VersionlessUnmatched(desired, internal)
    requires Converges(desired, internal, desired, desired) && Converges(desired, internal, desired, FullyExpanded(desired))
    requires t < |desired| && desired[t].ipVersion == ""
    ensures Accounted(desired, internal + desired[..t], desired[t], IPv4)
    ensures Accounted(desired, internal + desired[..t], desired[t], IPv6)
  {
    ConvergingOnDesired(desired, internal);
    assert !HalfAccounted(desired, internal + desired[..t], desired[t]);
    FullyExpandedFacts(desired);
    ExpandedFacts(desired, FullyExpanded(desired));
    NotReportedBeyond(desired, internal, FullyExpanded(desired), desired[t]);
    if Unmatched(desired, internal + desired[..t], desired[t]) {
      ReportedDesired(desired, internal, t);
    }
  }

  lemma ConvergingHasRoom(desired: seq<FirewallRule>, internal: seq<FirewallRule>)
    requires VersionlessUnmatched(desired, internal)
    requires Converges(desired, internal, desired, desired) && Converges(desired, internal, desired, FullyExpanded(desired))
    ensures RoomBehind(desired, internal)
  {
    forall t, v | 0 <= t < |desired| && desired[t].ipVersion == "" && Filtered(v)
      ensures Copies(internal, v, desired[t]) <= Copies(desired[t + 1..], v, desired[t])
    {
      AccountedInBoth(desired, internal, t);
      AccountedWithRoom(desired, internal, desired[..t], t, v);
    }
  }

  /**
   The loop converges for every expansion, and takes no version-less internal
   rule for a desired one, exactly when the lists are separable.
   */
  lemma ConvergesForExpansionsIff(desired: seq<FirewallRule>, internal: seq<FirewallRule>)
    ensures ConvergesForEveryExpansion(desired, internal) && NoneTakenForPosted(desired, internal) <==>
            Separable(desired, internal)
  {
    ExpandedSelf(desired);
    FullyExpandedFacts(desired);
    if Separable(desired, internal) {
      forall applied, current | Expanded(desired, applied) && Expanded(desired, current)
        ensures Converges(desired, internal, applied, current)
      {
        ExpandedFacts(desired, current);
        SeparableVerdict(desired, internal, applied, current);
      }
    }
    if ConvergesForEveryExpansion(desired, internal) && NoneTakenForPosted(desired, internal) {
      assert Converges(desired, internal, desired, desired);
      ConvergingOnDesired(desired, internal);
      assert VersionlessUnmatched(desired, internal) by {
        forall i | 0 <= i < |internal| && internal[i].ipVersion == ""
          ensures Unmatched(desired, internal[..i], internal[i])
        {
          assert !HalfAccounted(desired, internal[..i], internal[i]);
        }
      }
      ConvergingHasRoom(desired, internal);
    }
  }

  /** With versioned internal rules: exactly when there is room behind every version-less desired rule. */
  lemma VersionedExpansionsIff(desired: seq<FirewallRule>, internal: seq<FirewallRule>)
    requires Versioned(internal)
    ensures ConvergesForEveryExpansion(desired, internal) <==> RoomBehind(desired, internal)
  {
    VersionsDiffer();
    assert forall i | 0 <= i < |internal| :: internal[i] in internal;
    ConvergesForExpansionsIff(desired, internal);
  }

  /** The verdict is right for every expansion and every later list exactly when the lists are separable, for all internal rules. */
  lemma VerdictsAreRightIff(desired: seq<FirewallRule>, internal: seq<FirewallRule>)
    ensures VerdictsAreRight(desired, internal) <==> Separable(desired, internal)
  {
    if Separable(desired, internal) {
      forall applied, current | Expanded(desired, applied)
        ensures Converges(desired, internal, applied, current) <==> ListEquivalent(current, desired)
      {
        SeparableVerdict(desired, internal, applied, current);
      }
    }
    if VerdictsAreRight(desired, internal) {
      var full := FullyExpanded(desired);
      ExpandedSelf(desired);
      FullyExpandedFacts(desired);
      ExpandedFacts(desired, full);
      assert Converges(desired, internal, desired, desired) && Converges(desired, internal, desired, full);
      forall i | 0 <= i < |internal| && internal[i].ipVersion == ""
        ensures Unmatched(desired, internal[..i], internal[i])
      {
        RightVerdictReportsAll(desired, internal, internal[i]);
        AllReportedUnmatched(desired, internal, i);
      }
      ConvergingHasRoom(desired, internal);
    }
  }

  /** Reading back a merged list later shows that every version-less internal rule was reported. */
  lemma RightVerdictReportsAll(desired: seq<FirewallRule>, internal: seq<FirewallRule>, k: FirewallRule)
    requires VerdictsAreRight(desired, internal) && k.ipVersion == ""
    ensures multiset(Injected(desired, internal))[k] == multiset(internal)[k]
  {
    var full := FullyExpanded(desired);
    FullyExpandedFacts(desired);
    ExpandedFacts(desired, full);
    var four, six := FormsOf(desired, k);
    var merged := Merged(four, six, k);
    assert Converges(desired, internal, full, full) && Converges(desired, internal, full, merged);
    var v := MergedLeavesNone(four, six, k);
    AllOfPrefixReported(desired, internal, full, merged, v, k);
  }

  lemma AllOfPrefixReported(desired: seq<FirewallRule>, internal: seq<FirewallRule>, full: seq<FirewallRule>,
                            merged: seq<FirewallRule>, v: IPVersion, k: FirewallRule)
    requires Converges(desired, internal, full, full) && Converges(desired, internal, full, merged)
    requires ListEquivalent(full, desired) && ListEquivalent(merged, desired)
    requires k.ipVersion == "" && k !in full && Filtered(v) && multiset(merged)[k.(ipVersion := v)] == 0
    ensures multiset(Injected(desired, internal))[k] == multiset(internal)[k]
  {
    ReportedTotal(desired, internal, full, v, k);
    LeftTotal(desired, internal, full, merged, v, k);
    InjectedNone(desired, internal, full, k);
    InjectedIsReturned(desired, internal);
  }

  // ---- Whole rulesets

  ghost predicate RulesetSeparable(desired: FirewallRules, internal: FirewallRules) {
    Separable(desired.input, internal.input) && Separable(desired.output, internal.output)
  }

  ghost predicate RulesetNoneTaken(desired: FirewallRules, internal: FirewallRules) {
    NoneTakenForPosted(desired.input, internal.input) && NoneTakenForPosted(desired.output, internal.output)
  }

  ghost predicate RulesetConvergesForEveryExpansion(desired: FirewallRules, internal: FirewallRules) {
    forall applied, current | ExpandedRules(desired, applied) && ExpandedRules(desired, current) ::
      RulesetConverges(desired, internal, applied, current)
  }

  ghost predicate RulesetVerdictsAreRight(desired: FirewallRules, internal: FirewallRules) {
    forall applied, current | ExpandedRules(desired, applied) ::
      RulesetConverges(desired, internal, applied, current) <==> Equivalent(current, desired)
  }

  lemma RulesetSeparableVerdict(desired: FirewallRules, internal: FirewallRules, applied: FirewallRules, current: FirewallRules)
    requires RulesetSeparable(desired, internal) && ExpandedRules(desired, applied)
    ensures RulesetConverges(desired, internal, applied, current) <==> Equivalent(current, desired)
  {
    SeparableVerdict(desired.input, internal.input, applied.input, current.input);
    SeparableVerdict(desired.output, internal.output, applied.output, current.output);
  }

  lemma ExpandedRulesetIsEquivalent(posted: FirewallRules, form: FirewallRules)
    requires ExpandedRules(posted, form)
    ensures Equivalent(form, posted)
  {
    ExpandedFacts(posted.input, form.input);
    ExpandedFacts(posted.output, form.output);
  }

  lemma RulesetConvergesForExpansionsIff(desired: FirewallRules, internal: FirewallRules)
    ensures RulesetConvergesForEveryExpansion(desired, internal) && RulesetNoneTaken(desired, internal) <==>
            RulesetSeparable(desired, internal)
  {
    ExpandedSelf(desired.input);
    ExpandedSelf(desired.output);
    if RulesetSeparable(desired, internal) {
      forall applied, current | ExpandedRules(desired, applied) && ExpandedRules(desired, current)
        ensures RulesetConverges(desired, internal, applied, current)
      {
        ExpandedRulesetIsEquivalent(desired, current);
        RulesetSeparableVerdict(desired, internal, applied, current);
      }
      ConvergesForExpansionsIff(desired.input, internal.input);
      ConvergesForExpansionsIff(desired.output, internal.output);
    }
    if RulesetConvergesForEveryExpansion(desired, internal) && RulesetNoneTaken(desired, internal) {
      forall applied, current | Expanded(desired.input, applied) && Expanded(desired.input, current)
        ensures Converges(desired.input, internal.input, applied, current)
      {
        assert RulesetConverges(desired, internal, desired.(input := applied), desired.(input := current));
      }
      forall applied, current | Expanded(desired.output, applied) && Expanded(desired.output, current)
        ensures Converges(desired.output, internal.output, applied, current)
      {
        assert RulesetConverges(desired, internal, desired.(output := applied), desired.(output := current));
      }
      ConvergesForExpansionsIff(desired.input, internal.input);
      ConvergesForExpansionsIff(desired.output, internal.output);
    }
  }

  lemma DirectionVerdicts(desired: FirewallRules, internal: FirewallRules)
    requires RulesetVerdictsAreRight(desired, internal)
    ensures VerdictsAreRight(desired.input, internal.input)
    ensures VerdictsAreRight(desired.output, internal.output)
  {
    ExpandedSelf(desired.input);
    ExpandedSelf(desired.output);
    assert RulesetConverges(desired, internal, desired, desired);
    forall applied, current | Expanded(desired.input, applied)
      ensures Converges(desired.input, internal.input, applied, current) <==> ListEquivalent(current, desired.input)
    {
      var a, c := desired.(input := applied), desired.(input := current);
      assert ExpandedRules(desired, a);
      assert RulesetConverges(desired, internal, a, c) <==> Equivalent(c, desired);
    }
    forall applied, current | Expanded(desired.output, applied)
      ensures Converges(desired.output, internal.output, applied, current) <==> ListEquivalent(current, desired.output)
    {
      var a, c := desired.(output := applied), desired.(output := current);
      assert ExpandedRules(desired, a);
      assert RulesetConverges(desired, internal, a, c) <==> Equivalent(c, desired);
    }
  }

  lemma RulesetVerdictsAreRightIff(desired: FirewallRules, internal: FirewallRules)
    ensures RulesetVerdictsAreRight(desired, internal) <==> RulesetSeparable(desired, internal)
  {
    if RulesetSeparable(desired, internal) {
      forall applied, current | ExpandedRules(desired, applied)
        ensures RulesetConverges(desired, internal, applied, current) <==> Equivalent(current, desired)
      {
        RulesetSeparableVerdict(desired, internal, applied, current);
      }
    }
    if RulesetVerdictsAreRight(desired, internal) {
      DirectionVerdicts(desired, internal);
      VerdictsAreRightIff(desired.input, internal.input);
      VerdictsAreRightIff(desired.output, internal.output);
    }
  }

  // ---- Convergence by accident

  ghost function Pair(k: FirewallRule): seq<FirewallRule> {
    [k.(ipVersion := IPv4), k.(ipVersion := IPv6)]
  }

  lemma PairProjected(k: FirewallRule, v: IPVersion)
    requires k.ipVersion == "" && Filtered(v)
    ensures Projection([k], v) == [k] && Projection(Pair(k), v) == [k]
    ensures Projection([k, Pair(k)[0]], v) == if v == IPv4 then [k, k] else [k]
  {
    VersionsDiffer();
    var k4, k6 := Pair(k)[0], Pair(k)[1];
    assert k.Key() == k4.Key() == k6.Key() == k;
    ProjectionOfOne(k, v);
    ProjectionOfOne(k4, v);
    ProjectionOfOne(k6, v);
    assert [k4] + [k6] == Pair(k) && [k] + [k4] == [k, k4];
    ProjectionAppend([k4], [k6], v);
    ProjectionAppend([k], [k4], v);
  }

  lemma PairMatching(k: FirewallRule)
    requires k.ipVersion == ""
    ensures !Unmatched(Pair(k), [], k)
    ensures Unmatched(Pair(k), [k], Pair(k)[0])
    ensures Unmatched(Pair(k), [k, Pair(k)[0]], Pair(k)[1])
  {
    VersionsDiffer();
    PairProjected(k, IPv4);
    PairProjected(k, IPv6);
    assert multiset([k])[k] == 1 && multiset([k, k])[k] == 2;
    assert k.Key() == Pair(k)[0].Key() == Pair(k)[1].Key() == k;
  }

  lemma TakenForPair(k: FirewallRule)
    requires k.ipVersion == ""
    ensures Injected(Pair(k), [k] + Pair(k)) == Pair(k)
  {
    PairMatching(k);
    InjectedOfThree(Pair(k), k, Pair(k)[0], Pair(k)[1]);
    assert [k] + Pair(k) == [k, Pair(k)[0], Pair(k)[1]];
  }

  lemma StripsPair(k: FirewallRule)
    requires k.ipVersion == ""
    ensures Stripped([k], Pair(k)) == [k] && Stripped([k] + Pair(k), Pair(k)) == [k]
  {
    VersionsDiffer();
    var k4, k6 := Pair(k)[0], Pair(k)[1];
    assert [] + [k] == [k];
    StrippedSnoc([], k, Pair(k));
    assert [k] + [k4] == [k, k4];
    StrippedSnoc([k], k4, Pair(k));
    assert [k, k4] + [k6] == [k] + Pair(k);
    StrippedSnoc([k, k4], k6, Pair(k));
  }

  lemma PairConverges(k: FirewallRule)
    requires k.ipVersion == ""
    ensures Converges(Pair(k), [k], Pair(k), Pair(k)) && Converges(Pair(k), [k], Pair(k), [])
    ensures !ListEquivalent([], Pair(k))
  {
    TakenForPair(k);
    StripsPair(k);
    PairProjected(k, IPv4);
    PairProjected(k, IPv6);
    assert [k] + [] == [k];
  }

  /**
   A version-less internal rule taken for a desired pair: the loop converges for
   every expansion, yet it still reports no drift when the pair is gone.
   */
  lemma ConvergesByAccident(k: FirewallRule)
    requires k.ipVersion == ""
    ensures ConvergesForEveryExpansion(Pair(k), [k])
    ensures Converges(Pair(k), [k], Pair(k), []) && !ListEquivalent([], Pair(k))
  {
    PairConverges(k);
    assert Versioned(Pair(k));
    forall applied, current | Expanded(Pair(k), applied) && Expanded(Pair(k), current)
      ensures Converges(Pair(k), [k], applied, current)
    {
      ExpandedFacts(Pair(k), applied);
      ExpandedFacts(Pair(k), current);
    }
  }
}
