/**
 The reconcile protocol: strip from the current list the rules the server was
 seen to inject, and compare with the desired list. The server answers with an
 internal prefix followed by some form of what was posted.
 */
module Reconcile {
  import opened Rules
  import opened Diff
  import opened Stripping

  /** The rule takes part in some version's filtering. */
  ghost predicate Known(r: FirewallRule) {
    r.AppliesTo(IPv4) || r.AppliesTo(IPv6)
  }

  ghost predicate Versioned(rules: seq<FirewallRule>) {
    forall r <- rules :: Filtered(r.ipVersion)
  }

  ghost predicate WantedInBoth(desired: seq<FirewallRule>, k: FirewallRule) {
    Copies(desired, IPv4, k) > 0 && Copies(desired, IPv6, k) > 0
  }

  /**
   What a caller can check from the desired list and the account's internal
   rules: no internal rule's key is wanted in both versions, and a version-less
   internal rule finds none of the desired copies left by the rules before it.
   */
  ghost predicate Recognisable(desired: seq<FirewallRule>, internal: seq<FirewallRule>) {
    forall i | 0 <= i < |internal| && Known(internal[i]) ::
      && !WantedInBoth(desired, internal[i].Key())
      && (internal[i].ipVersion == "" ==> Unmatched(desired, internal[..i], internal[i]))
  }

  /** The stripped list agrees with the internal prefix on every rule that filters. */
  ghost predicate Recognised(internal: seq<FirewallRule>, injected: seq<FirewallRule>) {
    forall r :: multiset(injected)[r] == if Known(r) then multiset(internal)[r] else 0
  }

  // ---- Stripping a recognised prefix

  lemma {:induction false} StripsOnlyPrefix(prefix: seq<FirewallRule>, rest: seq<FirewallRule>, remove: seq<FirewallRule>)
    requires multiset(remove) <= multiset(prefix)
    ensures Stripped(prefix + rest, remove) == Stripped(prefix, remove) + rest
  {
    if rest == [] {
      assert prefix + rest == prefix;
    } else {
      var n := |rest| - 1;
      assert prefix + rest == (prefix + rest[..n]) + [rest[n]];
      StripsOnlyPrefix(prefix, rest[..n], remove);
      StrippedSnoc(prefix + rest[..n], rest[n], remove);
    }
  }

  lemma NoCopiesNoRules(rules: seq<FirewallRule>, v: IPVersion)
    requires forall k :: Copies(rules, v, k) == 0
    ensures Projection(rules, v) == []
  {
    var seen := multiset(Projection(rules, v));
    assert forall k :: seen[k] == Copies(rules, v, k);
    assert seen == multiset{};
    assert |Projection(rules, v)| == |seen|;
  }

  /** Once the prefix is recognised, what is left filters like the rest, whatever the rest is. */
  lemma StripsRecognisedPrefix(internal: seq<FirewallRule>, rest: seq<FirewallRule>, injected: seq<FirewallRule>, v: IPVersion)
    requires Recognised(internal, injected)
    requires Filtered(v)
    ensures Projection(Stripped(internal + rest, injected), v) == Projection(rest, v)
  {
    StripsOnlyPrefix(internal, rest, injected);
    forall k
      ensures Copies(Stripped(internal, injected), v, k) == 0
    {
      StrippedCopies(internal, injected, v, k);
      CopiesAreRules(internal, v, k);
      CopiesAreRules(injected, v, k);
    }
    NoCopiesNoRules(Stripped(internal, injected), v);
    ProjectionAppend(Stripped(internal, injected), rest, v);
  }

  // ---- When the prefix is recognised

  lemma {:induction false} InjectedIsKnown(posted: seq<FirewallRule>, returned: seq<FirewallRule>, r: FirewallRule)
    requires !Known(r)
    ensures multiset(Injected(posted, returned))[r] == 0
  {
    if returned != [] {
      InjectedIsKnown(posted, returned[..|returned| - 1], r);
    }
  }

  lemma SurplusIsPrefix(desired: seq<FirewallRule>, internal: seq<FirewallRule>, applied: seq<FirewallRule>, v: IPVersion, k: FirewallRule)
    requires ListEquivalent(applied, desired) && NoneHalfAccounted(desired, internal + applied)
    requires Filtered(v)
    ensures Copies(Injected(desired, internal + applied), v, k) == Copies(internal, v, k)
  {
    ProjectionAppend(internal, applied, v);
    SurplusIsReported(desired, internal + applied, v, k);
    HalfMissedNever(desired, internal + applied, v, k);
  }

  /** It is enough that no rule is half accounted for and the version-less rules agree. */
  lemma RecognisedByVersionless(desired: seq<FirewallRule>, internal: seq<FirewallRule>, applied: seq<FirewallRule>)
    requires ListEquivalent(applied, desired) && NoneHalfAccounted(desired, internal + applied)
    requires forall k: FirewallRule | k.ipVersion == "" ::
               multiset(Injected(desired, internal + applied))[k] == multiset(internal)[k]
    ensures Recognised(internal, Injected(desired, internal + applied))
  {
    var injected := Injected(desired, internal + applied);
    forall r
      ensures multiset(injected)[r] == if Known(r) then multiset(internal)[r] else 0
    {
      if !Known(r) {
        InjectedIsKnown(desired, internal + applied, r);
      } else if r.ipVersion != "" {
        var v, k := r.ipVersion, r.Key();
        SurplusIsPrefix(desired, internal, applied, v, k);
        CopiesAreRules(injected, v, k);
        CopiesAreRules(internal, v, k);
        assert k.(ipVersion := v) == r;
      }
    }
  }

  lemma {:induction false} InjectedAll(posted: seq<FirewallRule>, rules: seq<FirewallRule>, r: FirewallRule)
    requires forall i | 0 <= i < |rules| && rules[i] == r :: Unmatched(posted, rules[..i], rules[i])
    ensures multiset(Injected(posted, rules))[r] == multiset(rules)[r]
  {
    if rules != [] {
      var before, last := rules[..|rules| - 1], rules[|rules| - 1];
      assert rules == before + [last];
      forall i | 0 <= i < |before| && before[i] == r
        ensures Unmatched(posted, before[..i], before[i])
      {
        assert before[..i] == rules[..i] && before[i] == rules[i];
      }
      InjectedAll(posted, before, r);
      InjectedSnoc(posted, before, last);
      assert rules[..|before|] == before;
    }
  }

  lemma {:induction false} InjectedNone(posted: seq<FirewallRule>, prefix: seq<FirewallRule>, rest: seq<FirewallRule>, r: FirewallRule)
    requires forall j | 0 <= j < |rest| && rest[j] == r :: !Unmatched(posted, prefix + rest[..j], rest[j])
    ensures multiset(Injected(posted, prefix + rest))[r] == multiset(Injected(posted, prefix))[r]
  {
    if rest == [] {
      assert prefix + rest == prefix;
    } else {
      var n := |rest| - 1;
      var before, last := rest[..n], rest[n];
      assert prefix + rest == (prefix + before) + [last];
      forall j | 0 <= j < |before| && before[j] == r
        ensures !Unmatched(posted, prefix + before[..j], before[j])
      {
        assert before[..j] == rest[..j] && before[j] == rest[j];
      }
      InjectedNone(posted, prefix, before, r);
      InjectedSnoc(posted, prefix + before, last);
    }
  }

  /** A known rule seen in version v stands at some position of the list. */
  lemma {:induction false} CopyStandsSomewhere(rules: seq<FirewallRule>, v: IPVersion, k: FirewallRule)
    returns (i: nat)
    requires Copies(rules, v, k) > 0
    ensures i < |rules| && rules[i].AppliesTo(v) && rules[i].Key() == k
  {
    var before, last := rules[..|rules| - 1], rules[|rules| - 1];
    assert rules == before + [last];
    ProjectionSnoc(before, last, v);
    if last.AppliesTo(v) && last.Key() == k {
      i := |rules| - 1;
    } else {
      i := CopyStandsSomewhere(before, v, k);
    }
  }

  lemma CopyAtPosition(rules: seq<FirewallRule>, j: nat, v: IPVersion)
    requires j < |rules| && rules[j].AppliesTo(v)
    ensures Copies(rules[..j], v, rules[j].Key()) < Copies(rules, v, rules[j].Key())
  {
    assert rules == (rules[..j] + [rules[j]]) + rules[j + 1..];
    ProjectionSnoc(rules[..j], rules[j], v);
    ProjectionAppend(rules[..j] + [rules[j]], rules[j + 1..], v);
  }

  /** Under Recognisable a version-less rule of the applied form is accounted for in both versions. */
  lemma AppliedVersionlessAccounted(desired: seq<FirewallRule>, internal: seq<FirewallRule>, applied: seq<FirewallRule>, j: nat, v: IPVersion)
    requires Recognisable(desired, internal) && ListEquivalent(applied, desired)
    requires j < |applied| && applied[j].ipVersion == ""
    requires Filtered(v)
    ensures Accounted(desired, internal + applied[..j], applied[j], v)
  {
    var k := applied[j].Key();
    CopyAtPosition(applied, j, IPv4);
    CopyAtPosition(applied, j, IPv6);
    assert WantedInBoth(desired, k);
    if Copies(internal, v, k) > 0 {
      var i := CopyStandsSomewhere(internal, v, k);
      assert Known(internal[i]);
      assert false;
    }
    ProjectionAppend(internal, applied[..j], v);
  }

  lemma RecognisableNoneHalf(desired: seq<FirewallRule>, internal: seq<FirewallRule>, applied: seq<FirewallRule>)
    requires Recognisable(desired, internal) && ListEquivalent(applied, desired)
    ensures NoneHalfAccounted(desired, internal + applied)
  {
    var returned := internal + applied;
    forall i | 0 <= i < |returned|
      ensures !HalfAccounted(desired, returned[..i], returned[i])
    {
      if i < |internal| {
        assert returned[..i] == internal[..i] && returned[i] == internal[i];
      } else if returned[i].ipVersion == "" {
        var j := i - |internal|;
        assert returned[..i] == internal + applied[..j] && returned[i] == applied[j];
        AppliedVersionlessAccounted(desired, internal, applied, j, IPv4);
        AppliedVersionlessAccounted(desired, internal, applied, j, IPv6);
      }
    }
  }

  /** Recognisable prefixes are recognised, for every form in which the server returns the desired rules. */
  lemma RecognisableIsRecognised(desired: seq<FirewallRule>, internal: seq<FirewallRule>, applied: seq<FirewallRule>)
    requires Recognisable(desired, internal) && ListEquivalent(applied, desired)
    ensures Recognised(internal, Injected(desired, internal + applied))
  {
    RecognisableNoneHalf(desired, internal, applied);
    forall k: FirewallRule | k.ipVersion == ""
      ensures multiset(Injected(desired, internal + applied))[k] == multiset(internal)[k]
    {
      InjectedAll(desired, internal, k);
      forall j | 0 <= j < |applied| && applied[j] == k
        ensures !Unmatched(desired, internal + applied[..j], applied[j])
      {
        AppliedVersionlessAccounted(desired, internal, applied, j, IPv4);
      }
      InjectedNone(desired, internal, applied, k);
    }
    RecognisedByVersionless(desired, internal, applied);
  }
}
