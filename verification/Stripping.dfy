/**
 What the two loops do to the number of copies of a rule, for every posted and
 every returned list: nothing the caller posted is ever stripped, and exactly
 the surplus is stripped unless some rule is accounted for in one version only.
 */
module Stripping {
  import opened Basics
  import opened Rules
  import opened Diff

  ghost predicate Filtered(v: IPVersion) {
    v == IPv4 || v == IPv6
  }

  ghost function Other(v: IPVersion): IPVersion {
    if v == IPv4 then IPv6 else IPv4
  }

  /** A version-less rule that is accounted for in one version and not in the other. */
  ghost predicate HalfAccounted(posted: seq<FirewallRule>, before: seq<FirewallRule>, r: FirewallRule) {
    r.ipVersion == "" && (Accounted(posted, before, r, IPv4) <==> !Accounted(posted, before, r, IPv6))
  }

  ghost predicate NoneHalfAccounted(posted: seq<FirewallRule>, returned: seq<FirewallRule>) {
    forall i | 0 <= i < |returned| :: !HalfAccounted(posted, returned[..i], returned[i])
  }

  /** Version-less rules with key k that are missed in v alone. */
  ghost function HalfMissed(posted: seq<FirewallRule>, returned: seq<FirewallRule>, v: IPVersion, k: FirewallRule): nat {
    if returned == [] then
      0
    else
      var before, last := returned[..|returned| - 1], returned[|returned| - 1];
      HalfMissed(posted, before, v, k)
      + if last.Key() == k && HalfAccounted(posted, before, last) && !Accounted(posted, before, last, v) then 1 else 0
  }

  /** Every copy version v sees is a version-less rule or one that carries v. */
  lemma {:induction false} CopiesAreRules(rules: seq<FirewallRule>, v: IPVersion, k: FirewallRule)
    requires Filtered(v)
    ensures k.ipVersion == "" ==> Copies(rules, v, k) == multiset(rules)[k] + multiset(rules)[k.(ipVersion := v)]
    ensures k.ipVersion != "" ==> Copies(rules, v, k) == 0
  {
    VersionsDiffer();
    if rules != [] {
      var before, last := rules[..|rules| - 1], rules[|rules| - 1];
      assert rules == before + [last];
      CopiesAreRules(before, v, k);
      ProjectionSnoc(before, last, v);
    }
  }

  /** Removal is truncated multiset difference. */
  lemma {:induction false} StrippedMultiset(rules: seq<FirewallRule>, remove: seq<FirewallRule>)
    ensures multiset(Stripped(rules, remove)) == multiset(rules) - multiset(remove)
  {
    if rules != [] {
      var before, last := rules[..|rules| - 1], rules[|rules| - 1];
      assert rules == before + [last];
      StrippedMultiset(before, remove);
      StrippedSnoc(before, last, remove);
    }
  }

  lemma {:induction false} InjectedIsReturned(posted: seq<FirewallRule>, returned: seq<FirewallRule>)
    ensures multiset(Injected(posted, returned)) <= multiset(returned)
  {
    if returned != [] {
      var before, last := returned[..|returned| - 1], returned[|returned| - 1];
      assert returned == before + [last];
      InjectedIsReturned(posted, before);
      InjectedSnoc(posted, before, last);
    }
  }

  lemma StrippedCopies(rules: seq<FirewallRule>, remove: seq<FirewallRule>, v: IPVersion, k: FirewallRule)
    requires Filtered(v)
    requires multiset(remove) <= multiset(rules)
    ensures Copies(Stripped(rules, remove), v, k) == Copies(rules, v, k) - Copies(remove, v, k)
  {
    StrippedMultiset(rules, remove);
    CopiesAreRules(rules, v, k);
    CopiesAreRules(remove, v, k);
    CopiesAreRules(Stripped(rules, remove), v, k);
  }

  /** The surplus of a key in a version is what is reported plus what is missed there alone. */
  lemma {:induction false} SurplusIsReported(posted: seq<FirewallRule>, returned: seq<FirewallRule>, v: IPVersion, k: FirewallRule)
    requires Filtered(v)
    ensures Copies(Injected(posted, returned), v, k) + HalfMissed(posted, returned, v, k) ==
            Copies(returned, v, k) - Min(Copies(returned, v, k), Copies(posted, v, k))
  {
    if returned != [] {
      var before, last := returned[..|returned| - 1], returned[|returned| - 1];
      assert returned == before + [last];
      SurplusIsReported(posted, before, v, k);
      SurplusStep(posted, before, last, v, k);
    }
  }

  lemma HalfMissedSnoc(posted: seq<FirewallRule>, before: seq<FirewallRule>, r: FirewallRule, v: IPVersion, k: FirewallRule)
    ensures HalfMissed(posted, before + [r], v, k) ==
            HalfMissed(posted, before, v, k)
            + if r.Key() == k && HalfAccounted(posted, before, r) && !Accounted(posted, before, r, v) then 1 else 0
  {
    assert (before + [r])[..|before|] == before;
  }

  /** The surplus of k in version v, as it is reported and as it is counted. */
  ghost predicate SurplusAgrees(posted: seq<FirewallRule>, returned: seq<FirewallRule>, v: IPVersion, k: FirewallRule) {
    Copies(Injected(posted, returned), v, k) + HalfMissed(posted, returned, v, k) ==
    Copies(returned, v, k) - Min(Copies(returned, v, k), Copies(posted, v, k))
  }

  lemma InjectedCopies(posted: seq<FirewallRule>, before: seq<FirewallRule>, r: FirewallRule, v: IPVersion, k: FirewallRule)
    ensures Copies(Injected(posted, before + [r]), v, k) ==
            Copies(Injected(posted, before), v, k) + if Unmatched(posted, before, r) && r.AppliesTo(v) && r.Key() == k then 1 else 0
  {
    InjectedSnoc(posted, before, r);
    ProjectionSnoc(Injected(posted, before), r, v);
    assert Injected(posted, before) + [] == Injected(posted, before);
  }

  lemma SurplusStep(posted: seq<FirewallRule>, before: seq<FirewallRule>, last: FirewallRule, v: IPVersion, k: FirewallRule)
    requires Filtered(v) && SurplusAgrees(posted, before, v, k)
    ensures SurplusAgrees(posted, before + [last], v, k)
  {
    InjectedCopies(posted, before, last, v, k);
    HalfMissedSnoc(posted, before, last, v, k);
    ProjectionSnoc(before, last, v);
    SurplusCase(posted, before, last, v);
  }

  /** A rule that applies to v and is missed there is reported, or else half accounted for. */
  lemma SurplusCase(posted: seq<FirewallRule>, before: seq<FirewallRule>, r: FirewallRule, v: IPVersion)
    requires Filtered(v)
    ensures r.AppliesTo(v) && Accounted(posted, before, r, v) ==> !Unmatched(posted, before, r)
    ensures r.AppliesTo(v) && !Accounted(posted, before, r, v) ==>
              (Unmatched(posted, before, r) <==> !HalfAccounted(posted, before, r))
    ensures !r.AppliesTo(v) ==> !HalfAccounted(posted, before, r)
  {
    VersionsDiffer();
    if r.ipVersion == "" {
      assert r.AppliesTo(IPv4) && r.AppliesTo(IPv6);
    } else if r.ipVersion == v {
      assert r.AppliesTo(v) && !r.AppliesTo(Other(v));
    }
  }

  /** Stripping never drops a caller's rule. */
  lemma StrippingKeepsPosted(posted: seq<FirewallRule>, returned: seq<FirewallRule>, v: IPVersion, k: FirewallRule)
    requires Filtered(v)
    ensures Copies(Stripped(returned, Injected(posted, returned)), v, k) ==
            Min(Copies(returned, v, k), Copies(posted, v, k)) + HalfMissed(posted, returned, v, k)
  {
    InjectedIsReturned(posted, returned);
    StrippedCopies(returned, Injected(posted, returned), v, k);
    SurplusIsReported(posted, returned, v, k);
  }

  /** Stripping leaves exactly the copies both lists have. */
  ghost predicate StripsExactly(posted: seq<FirewallRule>, returned: seq<FirewallRule>) {
    forall v, k | Filtered(v) ::
      Copies(Stripped(returned, Injected(posted, returned)), v, k) == Min(Copies(returned, v, k), Copies(posted, v, k))
  }

  lemma {:induction false} HalfMissedNever(posted: seq<FirewallRule>, returned: seq<FirewallRule>, v: IPVersion, k: FirewallRule)
    requires NoneHalfAccounted(posted, returned)
    ensures HalfMissed(posted, returned, v, k) == 0
  {
    if returned != [] {
      var n := |returned| - 1;
      forall i | 0 <= i < n
        ensures !HalfAccounted(posted, returned[..n][..i], returned[..n][i])
      {
        assert returned[..n][..i] == returned[..i];
      }
      HalfMissedNever(posted, returned[..n], v, k);
    }
  }

  lemma {:induction false} HalfMissedGrows(posted: seq<FirewallRule>, a: seq<FirewallRule>, b: seq<FirewallRule>, v: IPVersion, k: FirewallRule)
    ensures HalfMissed(posted, a, v, k) <= HalfMissed(posted, a + b, v, k)
  {
    if b == [] {
      assert a + b == a;
    } else {
      var n := |b| - 1;
      assert a + b == (a + b[..n]) + [b[n]];
      HalfMissedGrows(posted, a, b[..n], v, k);
      HalfMissedSnoc(posted, a + b[..n], b[n], v, k);
    }
  }

  lemma HalfMissedAt(posted: seq<FirewallRule>, returned: seq<FirewallRule>, i: nat, v: IPVersion)
    requires i < |returned|
    requires HalfAccounted(posted, returned[..i], returned[i])
    requires !Accounted(posted, returned[..i], returned[i], v)
    ensures HalfMissed(posted, returned, v, returned[i].Key()) > 0
  {
    HalfMissedSnoc(posted, returned[..i], returned[i], v, returned[i].Key());
    SplitAround(returned, i);
    HalfMissedGrows(posted, returned[..i] + [returned[i]], returned[i + 1..], v, returned[i].Key());
  }

  /** The surplus is stripped exactly if and only if no returned rule is accounted for in one version only. */
  lemma StripsExactlyIff(posted: seq<FirewallRule>, returned: seq<FirewallRule>)
    ensures StripsExactly(posted, returned) <==> NoneHalfAccounted(posted, returned)
  {
    forall v, k | Filtered(v) {
      StrippingKeepsPosted(posted, returned, v, k);
    }
    if NoneHalfAccounted(posted, returned) {
      forall v, k | Filtered(v) {
        HalfMissedNever(posted, returned, v, k);
      }
    } else {
      var i :| 0 <= i < |returned| && HalfAccounted(posted, returned[..i], returned[i]);
      var v := if Accounted(posted, returned[..i], returned[i], IPv4) then IPv6 else IPv4;
      HalfMissedAt(posted, returned, i, v);
      assert Copies(Stripped(returned, Injected(posted, returned)), v, returned[i].Key()) !=
             Min(Copies(returned, v, returned[i].Key()), Copies(posted, v, returned[i].Key()));
    }
  }
}
