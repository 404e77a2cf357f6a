/**
 The exact condition under which the documented reconcile loop converges: the
 stripped list is equivalent to the desired one for every form in which the
 server returned the desired rules when they were applied and when they were
 read back.
 */
module Convergence {
  import opened Basics
  import opened Rules
  import opened Diff
  import opened Stripping
  import opened Reconcile

  ghost predicate Converges(desired: seq<FirewallRule>, internal: seq<FirewallRule>,
                            applied: seq<FirewallRule>, current: seq<FirewallRule>) {
    ListEquivalent(Stripped(internal + current, Injected(desired, internal + applied)), desired)
  }

  ghost predicate ConvergesForEveryForm(desired: seq<FirewallRule>, internal: seq<FirewallRule>) {
    forall applied, current | ListEquivalent(applied, desired) && ListEquivalent(current, desired) ::
      Converges(desired, internal, applied, current)
  }

  // ---- Forms of a list: split everything, or merge as many copies of one key as possible

  ghost predicate Keys(rules: seq<FirewallRule>) {
    forall r <- rules :: r.ipVersion == ""
  }

  lemma {:induction false} ProjectionIsKeys(rules: seq<FirewallRule>, v: IPVersion)
    ensures Keys(Projection(rules, v))
  {
    if rules != [] {
      ProjectionIsKeys(rules[..|rules| - 1], v);
    }
  }

  ghost function Tagged(keys: seq<FirewallRule>, v: IPVersion): (rules: seq<FirewallRule>)
    ensures |rules| == |keys|
    ensures forall i | 0 <= i < |keys| :: rules[i] == keys[i].(ipVersion := v)
  {
    seq(|keys|, i requires 0 <= i < |keys| => keys[i].(ipVersion := v))
  }

  lemma TaggedSnoc(keys: seq<FirewallRule>, k: FirewallRule, v: IPVersion)
    ensures Tagged(keys + [k], v) == Tagged(keys, v) + [k.(ipVersion := v)]
  {
  }

  lemma {:induction false} ProjectionOfTagged(keys: seq<FirewallRule>, v: IPVersion, w: IPVersion)
    requires Keys(keys) && Filtered(v) && Filtered(w)
    ensures Projection(Tagged(keys, v), w) == if v == w then keys else []
  {
    VersionsDiffer();
    if keys != [] {
      var before, last := keys[..|keys| - 1], keys[|keys| - 1];
      assert keys == before + [last];
      TaggedSnoc(before, last, v);
      ProjectionOfTagged(before, v, w);
      ProjectionSnoc(Tagged(before, v), last.(ipVersion := v), w);
      assert last.(ipVersion := v).Key() == last;
    }
  }

  /** All rules for ipv4, then all rules for ipv6. */
  ghost function Split(four: seq<FirewallRule>, six: seq<FirewallRule>): seq<FirewallRule> {
    Tagged(four, IPv4) + Tagged(six, IPv6)
  }

  lemma ProjectionOfSplit(four: seq<FirewallRule>, six: seq<FirewallRule>)
    requires Keys(four) && Keys(six)
    ensures Projection(Split(four, six), IPv4) == four && Projection(Split(four, six), IPv6) == six
    ensures forall k: FirewallRule | k.ipVersion == "" :: k !in Split(four, six)
  {
    VersionsDiffer();
    forall v | Filtered(v)
      ensures Projection(Split(four, six), v) == if v == IPv4 then four else six
    {
      ProjectionOfTagged(four, IPv4, v);
      ProjectionOfTagged(six, IPv6, v);
      ProjectionAppend(Tagged(four, IPv4), Tagged(six, IPv6), v);
    }
    assert Filtered(IPv4) && Filtered(IPv6);
    assert forall r <- Split(four, six) :: r.ipVersion == IPv4 || r.ipVersion == IPv6;
  }

  ghost function LastIndex(s: seq<FirewallRule>, k: FirewallRule): (i: nat)
    requires k in s
    ensures i < |s| && s[i] == k && k !in s[i + 1..]
  {
    if s[|s| - 1] == k then |s| - 1 else LastIndex(s[..|s| - 1], k)
  }

  /** The last copies of k in both versions are merged pairwise into version-less rules. */
  ghost function Merged(four: seq<FirewallRule>, six: seq<FirewallRule>, k: FirewallRule): seq<FirewallRule>
    decreases |four|
  {
    if k !in four || k !in six then
      Split(four, six)
    else
      var a, b := LastIndex(four, k), LastIndex(six, k);
      Merged(four[..a], six[..b], k) + [k] + Split(four[a + 1..], six[b + 1..])
  }

  lemma {:induction false} ProjectionOfMerged(four: seq<FirewallRule>, six: seq<FirewallRule>, k: FirewallRule)
    requires Keys(four) && Keys(six) && k.ipVersion == ""
    ensures Projection(Merged(four, six, k), IPv4) == four && Projection(Merged(four, six, k), IPv6) == six
    decreases |four|
  {
    if k !in four || k !in six {
      ProjectionOfSplit(four, six);
    } else {
      var a, b := LastIndex(four, k), LastIndex(six, k);
      var front, back := Merged(four[..a], six[..b], k), Split(four[a + 1..], six[b + 1..]);
      ProjectionOfMerged(four[..a], six[..b], k);
      ProjectionOfSplit(four[a + 1..], six[b + 1..]);
      MergedProjections(front, k, back, IPv4);
      MergedProjections(front, k, back, IPv6);
      SplitAround(four, a);
      SplitAround(six, b);
    }
  }

  lemma {:induction false} MergedCount(four: seq<FirewallRule>, six: seq<FirewallRule>, k: FirewallRule)
    requires Keys(four) && Keys(six) && k.ipVersion == ""
    ensures multiset(Merged(four, six, k))[k] == Min(multiset(four)[k], multiset(six)[k])
    decreases |four|
  {
    if k !in four || k !in six {
      ProjectionOfSplit(four, six);
    } else {
      var a, b := LastIndex(four, k), LastIndex(six, k);
      MergedCount(four[..a], six[..b], k);
      ProjectionOfSplit(four[a + 1..], six[b + 1..]);
      CountAroundLast(four, a, k);
      CountAroundLast(six, b, k);
    }
  }

  lemma CountAroundLast<T>(s: seq<T>, a: nat, k: T)
    requires a < |s| && s[a] == k && k !in s[a + 1..]
    ensures multiset(s)[k] == multiset(s[..a])[k] + 1
  {
    SplitAround(s, a);
    assert multiset(s) == multiset(s[..a]) + multiset{k} + multiset(s[a + 1..]);
  }

  lemma MergedProjections(front: seq<FirewallRule>, k: FirewallRule, back: seq<FirewallRule>, v: IPVersion)
    requires k.ipVersion == ""
    ensures Projection(front + [k] + back, v) == Projection(front, v) + [k] + Projection(back, v)
  {
    ProjectionSnoc(front, k, v);
    ProjectionAppend(front + [k], back, v);
    assert k.Key() == k;
  }

  // ---- Converging for every form forces the condition

  lemma ConvergingNoneHalf(desired: seq<FirewallRule>, internal: seq<FirewallRule>, applied: seq<FirewallRule>)
    requires Converges(desired, internal, applied, applied) && ListEquivalent(applied, desired)
    ensures NoneHalfAccounted(desired, internal + applied)
  {
    forall v, k | Filtered(v)
      ensures Copies(Stripped(internal + applied, Injected(desired, internal + applied)), v, k) ==
              Min(Copies(internal + applied, v, k), Copies(desired, v, k))
    {
      ProjectionAppend(internal, applied, v);
    }
    StripsExactlyIff(desired, internal + applied);
  }

  lemma {:induction false} InjectedGrows(posted: seq<FirewallRule>, a: seq<FirewallRule>, b: seq<FirewallRule>, r: FirewallRule)
    ensures multiset(Injected(posted, a))[r] <= multiset(Injected(posted, a + b))[r]
  {
    if b == [] {
      assert a + b == a;
    } else {
      var n := |b| - 1;
      assert a + b == (a + b[..n]) + [b[n]];
      InjectedGrows(posted, a, b[..n], r);
      InjectedSnoc(posted, a + b[..n], b[n]);
    }
  }

  lemma FormsOf(desired: seq<FirewallRule>, k: FirewallRule)
    returns (four: seq<FirewallRule>, six: seq<FirewallRule>)
    requires k.ipVersion == ""
    ensures Keys(four) && Keys(six)
    ensures four == Projection(desired, IPv4) && six == Projection(desired, IPv6)
    ensures ListEquivalent(Split(four, six), desired) && ListEquivalent(Merged(four, six, k), desired)
  {
    four, six := Projection(desired, IPv4), Projection(desired, IPv6);
    ProjectionIsKeys(desired, IPv4);
    ProjectionIsKeys(desired, IPv6);
    ProjectionOfSplit(four, six);
    ProjectionOfMerged(four, six, k);
  }

  lemma SplitAddsNoVersionless(desired: seq<FirewallRule>, internal: seq<FirewallRule>,
                               four: seq<FirewallRule>, six: seq<FirewallRule>, k: FirewallRule)
    requires Keys(four) && Keys(six) && k.ipVersion == ""
    ensures multiset(internal + Split(four, six))[k] == multiset(internal)[k]
    ensures multiset(Injected(desired, internal + Split(four, six)))[k] == multiset(Injected(desired, internal))[k]
  {
    var split := Split(four, six);
    ProjectionOfSplit(four, six);
    assert k !in split;
    assert multiset(internal + split) == multiset(internal) + multiset(split);
    InjectedNone(desired, internal, split, k);
  }

  ghost function Monus(a: int, b: int): int {
    if a < b then 0 else a - b
  }

  /** What is reported of a key in a version is as much as the internal prefix holds. */
  lemma ReportedTotal(desired: seq<FirewallRule>, internal: seq<FirewallRule>, applied: seq<FirewallRule>,
                      v: IPVersion, k: FirewallRule)
    requires Converges(desired, internal, applied, applied) && ListEquivalent(applied, desired)
    requires Filtered(v) && k.ipVersion == ""
    ensures var injected := multiset(Injected(desired, internal + applied));
            injected[k] + injected[k.(ipVersion := v)] == multiset(internal)[k] + multiset(internal)[k.(ipVersion := v)]
  {
    ConvergingNoneHalf(desired, internal, applied);
    SurplusIsPrefix(desired, internal, applied, v, k);
    CopiesAreRules(Injected(desired, internal + applied), v, k);
    CopiesAreRules(internal, v, k);
  }

  /** What is left of a key in a version after stripping is as much as the current form holds. */
  lemma LeftTotal(desired: seq<FirewallRule>, internal: seq<FirewallRule>, applied: seq<FirewallRule>, current: seq<FirewallRule>,
                  v: IPVersion, k: FirewallRule)
    requires Converges(desired, internal, applied, current) && ListEquivalent(current, desired)
    requires Filtered(v) && k.ipVersion == ""
    ensures var injected, kv := multiset(Injected(desired, internal + applied)), k.(ipVersion := v);
            Monus(multiset(internal)[k] + multiset(current)[k], injected[k])
            + Monus(multiset(internal)[kv] + multiset(current)[kv], injected[kv]) ==
            multiset(current)[k] + multiset(current)[kv]
  {
    var injected := Injected(desired, internal + applied);
    StrippedMultiset(internal + current, injected);
    assert multiset(internal + current) == multiset(internal) + multiset(current);
    CopiesAreRules(Stripped(internal + current, injected), v, k);
    CopiesAreRules(current, v, k);
  }

  lemma MergedLeavesNone(four: seq<FirewallRule>, six: seq<FirewallRule>, k: FirewallRule) returns (v: IPVersion)
    requires Keys(four) && Keys(six) && k.ipVersion == ""
    ensures Filtered(v) && multiset(Merged(four, six, k))[k.(ipVersion := v)] == 0
  {
    v := if multiset(four)[k] <= multiset(six)[k] then IPv4 else IPv6;
    ProjectionOfMerged(four, six, k);
    MergedCount(four, six, k);
    CopiesAreRules(Merged(four, six, k), v, k);
  }

  /** Reading back a merged form shows that the prefix's own version-less copies were all reported. */
  lemma PrefixVersionlessReported(desired: seq<FirewallRule>, internal: seq<FirewallRule>, k: FirewallRule,
                                  four: seq<FirewallRule>, six: seq<FirewallRule>)
    requires k.ipVersion == "" && Keys(four) && Keys(six)
    requires ListEquivalent(Split(four, six), desired) && ListEquivalent(Merged(four, six, k), desired)
    requires Converges(desired, internal, Split(four, six), Split(four, six))
    requires Converges(desired, internal, Split(four, six), Merged(four, six, k))
    ensures multiset(Injected(desired, internal))[k] == multiset(internal)[k]
  {
    var v := MergedLeavesNone(four, six, k);
    ReportedTotal(desired, internal, Split(four, six), v, k);
    LeftTotal(desired, internal, Split(four, six), Merged(four, six, k), v, k);
    SplitAddsNoVersionless(desired, internal, four, six, k);
    InjectedIsReturned(desired, internal);
  }

  /** Reading back the split form shows that no merged copy was reported. */
  lemma MergedCopiesNotReported(desired: seq<FirewallRule>, internal: seq<FirewallRule>, k: FirewallRule,
                                four: seq<FirewallRule>, six: seq<FirewallRule>)
    requires k.ipVersion == "" && Keys(four) && Keys(six) && k in four
    requires ListEquivalent(Split(four, six), desired) && ListEquivalent(Merged(four, six, k), desired)
    requires Converges(desired, internal, Merged(four, six, k), Merged(four, six, k))
    requires Converges(desired, internal, Merged(four, six, k), Split(four, six))
    requires multiset(Injected(desired, internal))[k] == multiset(internal)[k]
    ensures multiset(Injected(desired, internal + Merged(four, six, k)))[k] == multiset(internal)[k]
  {
    ReportedTotal(desired, internal, Merged(four, six, k), IPv4, k);
    LeftTotal(desired, internal, Merged(four, six, k), Split(four, six), IPv4, k);
    InjectedGrows(desired, internal, Merged(four, six, k), k);
    ProjectionOfSplit(four, six);
    CopiesAreRules(Split(four, six), IPv4, k);
  }

  lemma MergedShape(four: seq<FirewallRule>, six: seq<FirewallRule>, k: FirewallRule)
    returns (front: seq<FirewallRule>, back: seq<FirewallRule>)
    requires k.ipVersion == "" && Keys(four) && Keys(six) && k in four && k in six
    ensures Merged(four, six, k) == front + [k] + back
    ensures Copies(front, IPv4, k) == multiset(four)[k] - 1
    ensures Copies(front, IPv6, k) == multiset(six)[k] - 1
  {
    var a, b := LastIndex(four, k), LastIndex(six, k);
    front, back := Merged(four[..a], six[..b], k), Split(four[a + 1..], six[b + 1..]);
    ProjectionOfMerged(four[..a], six[..b], k);
    CountAroundLast(four, a, k);
    CountAroundLast(six, b, k);
  }

  /** The last merged copy is neither reported nor half accounted for, so it is accounted for. */
  lemma LastMergedAccounted(desired: seq<FirewallRule>, before: seq<FirewallRule>, back: seq<FirewallRule>, k: FirewallRule, n: nat)
    requires k.ipVersion == ""
    requires NoneHalfAccounted(desired, before + [k] + back)
    requires multiset(Injected(desired, before + [k] + back))[k] <= n <= multiset(Injected(desired, before))[k]
    ensures Accounted(desired, before, k, IPv4) && Accounted(desired, before, k, IPv6)
  {
    var all := before + [k] + back;
    assert all[|before|] == k && all[..|before|] == before;
    assert !HalfAccounted(desired, before, k);
    InjectedSnoc(desired, before, k);
    InjectedGrows(desired, before + [k], back, k);
    assert !Unmatched(desired, before, k);
    assert k.Key() == k;
  }

  lemma MergedNotReported(desired: seq<FirewallRule>, internal: seq<FirewallRule>, k: FirewallRule)
    returns (four: seq<FirewallRule>, six: seq<FirewallRule>)
    requires ConvergesForEveryForm(desired, internal)
    requires k.ipVersion == "" && WantedInBoth(desired, k)
    ensures Keys(four) && Keys(six) && k in four && k in six
    ensures multiset(four)[k] == Copies(desired, IPv4, k) && multiset(six)[k] == Copies(desired, IPv6, k)
    ensures ListEquivalent(Merged(four, six, k), desired)
    ensures NoneHalfAccounted(desired, internal + Merged(four, six, k))
    ensures multiset(Injected(desired, internal + Merged(four, six, k)))[k] == multiset(Injected(desired, internal))[k]
  {
    four, six := FormsOf(desired, k);
    var split, merged := Split(four, six), Merged(four, six, k);
    assert Converges(desired, internal, split, split) && Converges(desired, internal, split, merged);
    assert Converges(desired, internal, merged, split) && Converges(desired, internal, merged, merged);
    PrefixVersionlessReported(desired, internal, k, four, six);
    MergedCopiesNotReported(desired, internal, k, four, six);
    ConvergingNoneHalf(desired, internal, merged);
  }

  lemma LastMergedRanks(desired: seq<FirewallRule>, internal: seq<FirewallRule>, k: FirewallRule,
                        four: seq<FirewallRule>, six: seq<FirewallRule>)
    requires Keys(four) && Keys(six) && k.ipVersion == "" && k in four && k in six
    requires NoneHalfAccounted(desired, internal + Merged(four, six, k))
    requires multiset(Injected(desired, internal + Merged(four, six, k)))[k] == multiset(Injected(desired, internal))[k]
    ensures Copies(internal, IPv4, k) + multiset(four)[k] <= Copies(desired, IPv4, k)
    ensures Copies(internal, IPv6, k) + multiset(six)[k] <= Copies(desired, IPv6, k)
  {
    var front, back := MergedShape(four, six, k);
    ReportedPrefix(desired, internal, front, back, k);
    ProjectionAppend(internal, front, IPv4);
    ProjectionAppend(internal, front, IPv6);
  }

  lemma ReportedPrefix(desired: seq<FirewallRule>, internal: seq<FirewallRule>,
                       front: seq<FirewallRule>, back: seq<FirewallRule>, k: FirewallRule)
    requires k.ipVersion == ""
    requires NoneHalfAccounted(desired, internal + (front + [k] + back))
    requires multiset(Injected(desired, internal + (front + [k] + back)))[k] == multiset(Injected(desired, internal))[k]
    ensures Copies(internal + front, IPv4, k) < Copies(desired, IPv4, k)
    ensures Copies(internal + front, IPv6, k) < Copies(desired, IPv6, k)
  {
    assert internal + (front + [k] + back) == internal + front + [k] + back;
    InjectedGrows(desired, internal, front, k);
    LastMergedAccounted(desired, internal + front, back, k, multiset(Injected(desired, internal))[k]);
    assert k.Key() == k;
  }

  /** No internal rule may carry a key that is wanted in both versions. */
  lemma WantedInBothIsNotInternal(desired: seq<FirewallRule>, internal: seq<FirewallRule>, k: FirewallRule)
    requires ConvergesForEveryForm(desired, internal)
    requires k.ipVersion == "" && WantedInBoth(desired, k)
    ensures Copies(internal, IPv4, k) == 0 && Copies(internal, IPv6, k) == 0
  {
    var four, six := MergedNotReported(desired, internal, k);
    LastMergedRanks(desired, internal, k, four, six);
  }

  lemma ConvergingIsRecognisable(desired: seq<FirewallRule>, internal: seq<FirewallRule>)
    requires ConvergesForEveryForm(desired, internal)
    ensures Recognisable(desired, internal)
  {
    forall i | 0 <= i < |internal| && Known(internal[i])
      ensures !WantedInBoth(desired, internal[i].Key())
      ensures internal[i].ipVersion == "" ==> Unmatched(desired, internal[..i], internal[i])
    {
      var r, k := internal[i], internal[i].Key();
      var v := if r.AppliesTo(IPv4) then IPv4 else IPv6;
      CopyAtPosition(internal, i, v);
      if WantedInBoth(desired, k) {
        WantedInBothIsNotInternal(desired, internal, k);
        assert false;
      }
      assert Converges(desired, internal, desired, desired);
      ConvergingNoneHalf(desired, internal, desired);
      assert (internal + desired)[i] == r && (internal + desired)[..i] == internal[..i];
      assert !HalfAccounted(desired, internal[..i], r);
    }
  }

  /**
   The reconcile loop converges for every form in which the server may return
   the desired rules if and only if the internal rules are recognisable.
   */
  lemma ConvergesIff(desired: seq<FirewallRule>, internal: seq<FirewallRule>)
    ensures ConvergesForEveryForm(desired, internal) <==> Recognisable(desired, internal)
  {
    if Recognisable(desired, internal) {
      forall applied, current | ListEquivalent(applied, desired) && ListEquivalent(current, desired)
        ensures Converges(desired, internal, applied, current)
      {
        VerdictIsRight(desired, internal, applied, current);
      }
    } else if ConvergesForEveryForm(desired, internal) {
      ConvergingIsRecognisable(desired, internal);
    }
  }

  /** Whatever the list drifts to later, the verdict is right: equivalent to desired if and only if nothing drifted. */
  lemma VerdictIsRight(desired: seq<FirewallRule>, internal: seq<FirewallRule>, applied: seq<FirewallRule>, current: seq<FirewallRule>)
    requires Recognisable(desired, internal) && ListEquivalent(applied, desired)
    ensures Converges(desired, internal, applied, current) <==> ListEquivalent(current, desired)
  {
    RecognisableIsRecognised(desired, internal, applied);
    StripsRecognisedPrefix(internal, current, Injected(desired, internal + applied), IPv4);
    StripsRecognisedPrefix(internal, current, Injected(desired, internal + applied), IPv6);
  }

  /** Internal rules that all carry their version are recognisable when none of their keys is wanted in both versions. */
  lemma VersionedConvergesIff(desired: seq<FirewallRule>, internal: seq<FirewallRule>)
    requires Versioned(internal)
    ensures ConvergesForEveryForm(desired, internal) <==> forall r <- internal :: !WantedInBoth(desired, r.Key())
  {
    VersionsDiffer();
    ConvergesIff(desired, internal);
    if Recognisable(desired, internal) {
      forall r <- internal
        ensures !WantedInBoth(desired, r.Key())
      {
        var i :| 0 <= i < |internal| && internal[i] == r;
        assert Known(internal[i]);
      }
    } else {
      var i :| 0 <= i < |internal| && Known(internal[i]) && !(
                 && !WantedInBoth(desired, internal[i].Key())
                 && (internal[i].ipVersion == "" ==> Unmatched(desired, internal[..i], internal[i])));
      assert internal[i] in internal;
    }
  }
}
