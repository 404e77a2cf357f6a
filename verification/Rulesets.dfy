/**
 Convergence of whole rulesets, exact recovery of what was posted when the API
 returns expanded rules, and the inputs on which the loop fails.
 */
module Rulesets {
  import opened Rules
  import opened Diff
  import opened Stripping
  import opened Reconcile
  import opened Convergence

  /** What the API stores: its internal rules, then some form of the posted ones. */
  ghost function Prepended(internal: FirewallRules, form: FirewallRules): FirewallRules {
    FirewallRules(internal.input + form.input, internal.output + form.output)
  }

  ghost predicate RulesetConverges(desired: FirewallRules, internal: FirewallRules,
                                   applied: FirewallRules, current: FirewallRules) {
    Equivalent(Without(Prepended(internal, current), InjectedRuleset(desired, Prepended(internal, applied))), desired)
  }

  ghost predicate RulesetConvergesForEveryForm(desired: FirewallRules, internal: FirewallRules) {
    forall applied, current | Equivalent(applied, desired) && Equivalent(current, desired) ::
      RulesetConverges(desired, internal, applied, current)
  }

  ghost predicate RulesetRecognisable(desired: FirewallRules, internal: FirewallRules) {
    Recognisable(desired.input, internal.input) && Recognisable(desired.output, internal.output)
  }

  lemma DirectionsConverge(desired: FirewallRules, internal: FirewallRules)
    requires RulesetConvergesForEveryForm(desired, internal)
    ensures ConvergesForEveryForm(desired.input, internal.input)
    ensures ConvergesForEveryForm(desired.output, internal.output)
  {
    forall applied, current | ListEquivalent(applied, desired.input) && ListEquivalent(current, desired.input)
      ensures Converges(desired.input, internal.input, applied, current)
    {
      assert RulesetConverges(desired, internal, desired.(input := applied), desired.(input := current));
    }
    forall applied, current | ListEquivalent(applied, desired.output) && ListEquivalent(current, desired.output)
      ensures Converges(desired.output, internal.output, applied, current)
    {
      assert RulesetConverges(desired, internal, desired.(output := applied), desired.(output := current));
    }
  }

  /** The documented loop converges for a ruleset exactly when both directions are recognisable. */
  lemma RulesetConvergesIff(desired: FirewallRules, internal: FirewallRules)
    ensures RulesetConvergesForEveryForm(desired, internal) <==> RulesetRecognisable(desired, internal)
  {
    if RulesetRecognisable(desired, internal) {
      forall applied, current | Equivalent(applied, desired) && Equivalent(current, desired)
        ensures RulesetConverges(desired, internal, applied, current)
      {
        RulesetVerdictIsRight(desired, internal, applied, current);
      }
    }
    if RulesetConvergesForEveryForm(desired, internal) {
      DirectionsConverge(desired, internal);
      ConvergesIff(desired.input, internal.input);
      ConvergesIff(desired.output, internal.output);
    }
  }

  /** Under that condition the loop reports drift exactly when there is some. */
  lemma RulesetVerdictIsRight(desired: FirewallRules, internal: FirewallRules, applied: FirewallRules, current: FirewallRules)
    requires RulesetRecognisable(desired, internal) && Equivalent(applied, desired)
    ensures RulesetConverges(desired, internal, applied, current) <==> Equivalent(current, desired)
  {
    VerdictIsRight(desired.input, internal.input, applied.input, current.input);
    VerdictIsRight(desired.output, internal.output, applied.output, current.output);
  }

  /** The documented reconcile check. */
  method Drifted(desired: FirewallRules, injected: FirewallRules, current: FirewallRules) returns (drift: bool)
    ensures drift <==> !Equivalent(Without(current, injected), desired)
  {
    var ours := RulesWithout(current, injected);
    var same := RulesetsEquivalent(ours, desired);
    drift := !same;
  }

  // ---- Expanded rules: what was posted is recovered rule by rule

  lemma StripsWholePrefix(internal: seq<FirewallRule>, rest: seq<FirewallRule>, remove: seq<FirewallRule>)
    requires multiset(remove) == multiset(internal)
    ensures Stripped(internal + rest, remove) == rest
  {
    StripsOnlyPrefix(internal, rest, remove);
    StrippedMultiset(internal, remove);
    assert |multiset(Stripped(internal, remove))| == |Stripped(internal, remove)|;
    assert [] + rest == rest;
  }

  lemma VersionedHasNoVersionless(rules: seq<FirewallRule>, k: FirewallRule)
    requires Versioned(rules) && k.ipVersion == ""
    ensures multiset(rules)[k] == 0
  {
    VersionsDiffer();
    assert k !in rules;
  }

  /**
   When every returned rule carries its version the injected rules are the
   internal prefix, even if the caller's own rules repeat them, and stripping
   them gives back the caller's part exactly, now and after any later change.
   */
  lemma ExpandedIsRecovered(desired: seq<FirewallRule>, internal: seq<FirewallRule>, applied: seq<FirewallRule>,
                            current: seq<FirewallRule>)
    requires Versioned(internal) && Versioned(applied) && ListEquivalent(applied, desired)
    ensures multiset(Injected(desired, internal + applied)) == multiset(internal)
    ensures Stripped(internal + current, Injected(desired, internal + applied)) == current
  {
    VersionsDiffer();
    var returned := internal + applied;
    assert Versioned(returned);
    assert NoneHalfAccounted(desired, returned) by {
      assert forall i | 0 <= i < |returned| :: returned[i] in returned;
    }
    forall k: FirewallRule | k.ipVersion == ""
      ensures multiset(Injected(desired, returned))[k] == multiset(internal)[k]
    {
      VersionedHasNoVersionless(returned, k);
      VersionedHasNoVersionless(internal, k);
      InjectedIsReturned(desired, returned);
    }
    RecognisedByVersionless(desired, internal, applied);
    RecognisedEntirely(internal, Injected(desired, returned));
    StripsWholePrefix(internal, current, Injected(desired, returned));
  }

  lemma RecognisedEntirely(internal: seq<FirewallRule>, injected: seq<FirewallRule>)
    requires Versioned(internal) && Recognised(internal, injected)
    ensures multiset(injected) == multiset(internal)
  {
    forall r
      ensures multiset(injected)[r] == multiset(internal)[r]
    {
      if !Known(r) {
        assert r !in internal;
      }
    }
  }

  // ---- Inputs on which the loop does not converge

  lemma ProjectionOfOne(a: FirewallRule, v: IPVersion)
    ensures Projection([a], v) == if a.AppliesTo(v) then [a.Key()] else []
  {
    assert [] + [a] == [a];
    ProjectionSnoc([], a, v);
  }

  lemma ProjectionOfTwo(a: FirewallRule, b: FirewallRule, v: IPVersion)
    requires a.AppliesTo(v) && b.AppliesTo(v)
    ensures Projection([a, b], v) == [a.Key(), b.Key()]
  {
    assert [a] + [b] == [a, b];
    ProjectionOfOne(a, v);
    ProjectionSnoc([a], b, v);
  }

  /** An internal rule for one version meets a caller's rule that comes back version-less. */
  lemma FailsOnVersionlessForm(r: FirewallRule)
    requires r.ipVersion == ""
    ensures !Converges([r], [r.(ipVersion := IPv4)], [r], [r])
  {
    VersionsDiffer();
    var r4 := r.(ipVersion := IPv4);
    assert r4.Key() == r && r.Key() == r;
    ProjectionOfOne(r, IPv4);
    ProjectionOfOne(r, IPv6);
    ProjectionOfOne(r4, IPv4);
    ProjectionOfOne(r4, IPv6);
    assert HalfAccounted([r], [r4], r);
    assert ([r4] + [r])[..1] == [r4] && ([r4] + [r])[1] == r;
    assert !NoneHalfAccounted([r], [r4] + [r]);
    if Converges([r], [r4], [r], [r]) {
      ConvergingNoneHalf([r], [r4], [r]);
    }
  }

  lemma InjectedOfThree(posted: seq<FirewallRule>, a: FirewallRule, b: FirewallRule, c: FirewallRule)
    ensures Injected(posted, [a, b, c]) ==
            (if Unmatched(posted, [], a) then [a] else [])
            + (if Unmatched(posted, [a], b) then [b] else [])
            + (if Unmatched(posted, [a, b], c) then [c] else [])
  {
    assert [] + [a] == [a] && [a] + [b] == [a, b] && [a, b] + [c] == [a, b, c];
    InjectedSnoc(posted, [], a);
    InjectedSnoc(posted, [a], b);
    InjectedSnoc(posted, [a, b], c);
  }

  lemma AppendedIsReported(a: FirewallRule, b: FirewallRule)
    requires a.ipVersion == IPv4 && b.ipVersion == IPv4 && a.Key() != b.Key()
    ensures Injected([a, b], [a, b, a]) == [a]
  {
    VersionsDiffer();
    ProjectionOfOne(a, IPv4);
    ProjectionOfTwo(a, b, IPv4);
    assert [] + [a] == [a];
    assert !Unmatched([a, b], [], a);
    assert !Unmatched([a, b], [a], b);
    assert Unmatched([a, b], [a, b], a);
    InjectedOfThree([a, b], a, b, a);
  }

  /** An internal rule equal to a caller's rule is appended instead of prepended: the caller's order is lost. */
  lemma FailsWhenAppended(a: FirewallRule, b: FirewallRule)
    requires a.ipVersion == IPv4 && b.ipVersion == IPv4 && a != b
    ensures Stripped([a, b, a], Injected([a, b], [a, b, a])) == [b, a]
    ensures !ListEquivalent([b, a], [a, b])
  {
    assert a.Key().(ipVersion := IPv4) == a && b.Key().(ipVersion := IPv4) == b;
    AppendedIsReported(a, b);
    ProjectionOfTwo(a, b, IPv4);
    ProjectionOfTwo(b, a, IPv4);
    assert [a] + [b, a] == [a, b, a];
    StripsWholePrefix([a], [b, a], [a]);
    assert [b.Key(), a.Key()][0] != [a.Key(), b.Key()][0];
  }
}
