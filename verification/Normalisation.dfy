/**
 Equivalence is exactly what the API's normalisation can do to a list: splitting
 a version-less rule into an adjacent ipv4/ipv6 pair or merging one back, and
 swapping neighbours of different versions.
 */
module Normalisation {
  import opened Rules
  import opened Stripping
  import opened Reconcile
  import opened Convergence

  type RuleList = seq<FirewallRule>

  ghost predicate SplitsAt(a: RuleList, b: RuleList, front: RuleList, k: FirewallRule, back: RuleList) {
    && k.ipVersion == ""
    && a == front + [k] + back
    && b == front + [k.(ipVersion := IPv4), k.(ipVersion := IPv6)] + back
  }

  ghost predicate SwapsAt(a: RuleList, b: RuleList, front: RuleList, p: FirewallRule, q: FirewallRule, back: RuleList) {
    && Filtered(p.ipVersion) && q.ipVersion == Other(p.ipVersion)
    && a == front + [p, q] + back
    && b == front + [q, p] + back
  }

  ghost predicate Splits(a: RuleList, b: RuleList) {
    exists front, k, back :: SplitsAt(a, b, front, k, back)
  }

  ghost predicate Swaps(a: RuleList, b: RuleList) {
    exists front, p, q, back :: SwapsAt(a, b, front, p, q, back)
  }

  ghost predicate Step(a: RuleList, b: RuleList) {
    Splits(a, b) || Splits(b, a) || Swaps(a, b)
  }

  ghost predicate ReachesIn(a: RuleList, b: RuleList, n: nat)
    decreases n
  {
    if n == 0 then a == b else exists mid :: Step(a, mid) && ReachesIn(mid, b, n - 1)
  }

  ghost predicate Reaches(a: RuleList, b: RuleList) {
    exists n :: ReachesIn(a, b, n)
  }

  // ---- Steps keep what each version sees

  lemma ProjectionOfPair(p: FirewallRule, q: FirewallRule, v: IPVersion)
    ensures Projection([p, q], v) ==
            (if p.AppliesTo(v) then [p.Key()] else []) + if q.AppliesTo(v) then [q.Key()] else []
  {
    assert [] + [p] == [p] && [p] + [q] == [p, q];
    ProjectionSnoc([], p, v);
    ProjectionSnoc([p], q, v);
  }

  lemma MiddleReplaced(front: RuleList, m: RuleList, m': RuleList, back: RuleList, v: IPVersion)
    requires Projection(m, v) == Projection(m', v)
    ensures Projection(front + m + back, v) == Projection(front + m' + back, v)
  {
    ProjectionAppend(front, m, v);
    ProjectionAppend(front, m', v);
    ProjectionAppend(front + m, back, v);
    ProjectionAppend(front + m', back, v);
  }

  lemma SplitKeeps(a: RuleList, b: RuleList, v: IPVersion)
    requires Splits(a, b) && Filtered(v)
    ensures Projection(a, v) == Projection(b, v)
  {
    VersionsDiffer();
    var front, k, back :| SplitsAt(a, b, front, k, back);
    var k4, k6 := k.(ipVersion := IPv4), k.(ipVersion := IPv6);
    assert k4.Key() == k.Key() == k6.Key();
    ProjectionOfPair(k4, k6, v);
    assert [] + [k] == [k];
    ProjectionSnoc([], k, v);
    MiddleReplaced(front, [k], [k4, k6], back, v);
  }

  lemma SwapKeeps(a: RuleList, b: RuleList, v: IPVersion)
    requires Swaps(a, b) && Filtered(v)
    ensures Projection(a, v) == Projection(b, v)
  {
    VersionsDiffer();
    var front, p, q, back :| SwapsAt(a, b, front, p, q, back);
    ProjectionOfPair(p, q, v);
    ProjectionOfPair(q, p, v);
    MiddleReplaced(front, [p, q], [q, p], back, v);
  }

  lemma StepKeeps(a: RuleList, b: RuleList)
    requires Step(a, b)
    ensures ListEquivalent(a, b)
  {
    forall v | Filtered(v)
      ensures Projection(a, v) == Projection(b, v)
    {
      if Splits(a, b) {
        SplitKeeps(a, b, v);
      } else if Splits(b, a) {
        SplitKeeps(b, a, v);
      } else {
        SwapKeeps(a, b, v);
      }
    }
    assert Filtered(IPv4) && Filtered(IPv6);
  }

  lemma {:induction false} ReachingKeeps(a: RuleList, b: RuleList, n: nat)
    requires ReachesIn(a, b, n)
    ensures ListEquivalent(a, b)
    decreases n
  {
    if n > 0 {
      var mid :| Step(a, mid) && ReachesIn(mid, b, n - 1);
      StepKeeps(a, mid);
      ReachingKeeps(mid, b, n - 1);
    }
  }

  // ---- Reaching is an equivalence and is kept by what follows

  lemma {:induction false} ReachesInTrans(a: RuleList, b: RuleList, c: RuleList, m: nat, n: nat)
    requires ReachesIn(a, b, m) && ReachesIn(b, c, n)
    ensures ReachesIn(a, c, m + n)
    decreases m
  {
    if m > 0 {
      var mid :| Step(a, mid) && ReachesIn(mid, b, m - 1);
      ReachesInTrans(mid, b, c, m - 1, n);
      assert ReachesIn(mid, c, m + n - 1);
    }
  }

  lemma ReachesTrans(a: RuleList, b: RuleList, c: RuleList)
    requires Reaches(a, b) && Reaches(b, c)
    ensures Reaches(a, c)
  {
    var m :| ReachesIn(a, b, m);
    var n :| ReachesIn(b, c, n);
    ReachesInTrans(a, b, c, m, n);
  }

  lemma ReachesStep(a: RuleList, b: RuleList)
    requires Step(a, b)
    ensures Reaches(a, b)
  {
    assert ReachesIn(b, b, 0);
    assert ReachesIn(a, b, 1);
  }

  lemma ReachesSelf(a: RuleList)
    ensures Reaches(a, a)
  {
    assert ReachesIn(a, a, 0);
  }

  lemma StepBack(a: RuleList, b: RuleList)
    requires Step(a, b)
    ensures Step(b, a)
  {
    VersionsDiffer();
    if Swaps(a, b) {
      var front, p, q, back :| SwapsAt(a, b, front, p, q, back);
      assert SwapsAt(b, a, front, q, p, back);
    }
  }

  lemma {:induction false} ReachesInBack(a: RuleList, b: RuleList, n: nat)
    requires ReachesIn(a, b, n)
    ensures Reaches(b, a)
    decreases n
  {
    if n == 0 {
      ReachesSelf(a);
    } else {
      var mid :| Step(a, mid) && ReachesIn(mid, b, n - 1);
      ReachesInBack(mid, b, n - 1);
      StepBack(a, mid);
      ReachesStep(mid, a);
      ReachesTrans(b, mid, a);
    }
  }

  lemma StepExtends(a: RuleList, b: RuleList, r: FirewallRule)
    requires Step(a, b)
    ensures Step(a + [r], b + [r])
  {
    if Splits(a, b) {
      var front, k, back :| SplitsAt(a, b, front, k, back);
      assert SplitsAt(a + [r], b + [r], front, k, back + [r]);
    } else if Splits(b, a) {
      var front, k, back :| SplitsAt(b, a, front, k, back);
      assert SplitsAt(b + [r], a + [r], front, k, back + [r]);
    } else {
      var front, p, q, back :| SwapsAt(a, b, front, p, q, back);
      assert SwapsAt(a + [r], b + [r], front, p, q, back + [r]);
    }
  }

  lemma {:induction false} ReachesInExtends(a: RuleList, b: RuleList, r: FirewallRule, n: nat)
    requires ReachesIn(a, b, n)
    ensures ReachesIn(a + [r], b + [r], n)
    decreases n
  {
    if n > 0 {
      var mid :| Step(a, mid) && ReachesIn(mid, b, n - 1);
      StepExtends(a, mid, r);
      ReachesInExtends(mid, b, r, n - 1);
    }
  }

  lemma ReachesExtends(a: RuleList, b: RuleList, r: FirewallRule)
    requires Reaches(a, b)
    ensures Reaches(a + [r], b + [r])
  {
    var n :| ReachesIn(a, b, n);
    ReachesInExtends(a, b, r, n);
  }

  // ---- Every list reaches its split form

  ghost predicate AllKnown(rules: RuleList) {
    forall r <- rules :: Known(r)
  }

  ghost function SplitForm(rules: RuleList): RuleList {
    Split(Projection(rules, IPv4), Projection(rules, IPv6))
  }

  /** An ipv4 rule moves left past ipv6 rules. */
  lemma {:induction false} MovesLeft(front: RuleList, six: RuleList, r: FirewallRule)
    requires r.ipVersion == IPv4 && forall q <- six :: q.ipVersion == IPv6
    ensures Reaches(front + six + [r], front + [r] + six)
  {
    VersionsDiffer();
    if six == [] {
      assert front + six + [r] == front + [r] + six;
      ReachesSelf(front + [r] + six);
    } else {
      var n := |six| - 1;
      var q, rest := six[n], six[..n];
      assert q in six && forall x <- rest :: x in six;
      assert six == rest + [q];
      assert SwapsAt(front + six + [r], front + rest + [r] + [q], front + rest, q, r, []);
      ReachesStep(front + six + [r], front + rest + [r] + [q]);
      MovesLeft(front, rest, r);
      ReachesExtends(front + rest + [r], front + [r] + rest, q);
      assert front + [r] + rest + [q] == front + [r] + six;
      ReachesTrans(front + six + [r], front + rest + [r] + [q], front + [r] + six);
    }
  }

  lemma SplitSnocFour(four: RuleList, six: RuleList, k: FirewallRule)
    requires k.ipVersion == ""
    ensures Reaches(Split(four, six) + [k.(ipVersion := IPv4)], Split(four + [k], six))
  {
    var k4 := k.(ipVersion := IPv4);
    TaggedSnoc(four, k, IPv4);
    MovesLeft(Tagged(four, IPv4), Tagged(six, IPv6), k4);
  }

  lemma SplitSnocSix(four: RuleList, six: RuleList, k: FirewallRule)
    ensures Split(four, six) + [k.(ipVersion := IPv6)] == Split(four, six + [k])
  {
    TaggedSnoc(six, k, IPv6);
  }

  lemma SplitSnocBoth(four: RuleList, six: RuleList, k: FirewallRule)
    requires k.ipVersion == ""
    ensures Reaches(Split(four, six) + [k], Split(four + [k], six + [k]))
  {
    var k4, k6 := k.(ipVersion := IPv4), k.(ipVersion := IPv6);
    var s := Split(four, six);
    assert SplitsAt(s + [k], s + [k4] + [k6], s, k, []);
    ReachesStep(s + [k], s + [k4] + [k6]);
    SplitSnocFour(four, six, k);
    ReachesExtends(s + [k4], Split(four + [k], six), k6);
    SplitSnocSix(four + [k], six, k);
    ReachesTrans(s + [k], s + [k4] + [k6], Split(four + [k], six + [k]));
  }

  lemma {:induction false} ReachesSplitForm(rules: RuleList)
    requires AllKnown(rules)
    ensures Reaches(rules, SplitForm(rules))
  {
    if rules == [] {
      assert SplitForm([]) == [];
      ReachesSelf([]);
    } else {
      var before, r := rules[..|rules| - 1], rules[|rules| - 1];
      assert rules == before + [r] && r in rules && forall x <- before :: x in rules;
      ReachesSplitForm(before);
      ReachesExtends(before, SplitForm(before), r);
      SplitFormSnoc(before, r);
      ReachesTrans(rules, SplitForm(before) + [r], SplitForm(rules));
    }
  }

  lemma SplitFormSnoc(before: RuleList, r: FirewallRule)
    requires Known(r)
    ensures Reaches(SplitForm(before) + [r], SplitForm(before + [r]))
  {
    VersionsDiffer();
    var four, six, k := Projection(before, IPv4), Projection(before, IPv6), r.Key();
    ProjectionSnoc(before, r, IPv4);
    ProjectionSnoc(before, r, IPv6);
    assert four + [] == four && six + [] == six;
    if r.ipVersion == "" {
      assert k == r;
      SplitSnocBoth(four, six, k);
    } else if r.ipVersion == IPv4 {
      assert k.(ipVersion := IPv4) == r;
      SplitSnocFour(four, six, k);
    } else {
      assert k.(ipVersion := IPv6) == r;
      SplitSnocSix(four, six, k);
      ReachesSelf(SplitForm(before + [r]));
    }
  }

  /** Rules that filter nothing are invisible to the comparison. */
  ghost function KnownPart(rules: RuleList): RuleList {
    if rules == [] then
      []
    else
      KnownPart(rules[..|rules| - 1]) + if Known(rules[|rules| - 1]) then [rules[|rules| - 1]] else []
  }

  lemma {:induction false} KnownPartKeeps(rules: RuleList)
    ensures AllKnown(KnownPart(rules)) && ListEquivalent(KnownPart(rules), rules)
  {
    if rules != [] {
      var before, r := rules[..|rules| - 1], rules[|rules| - 1];
      assert rules == before + [r];
      KnownPartKeeps(before);
      KnownPartSnoc(before, r, IPv4);
      KnownPartSnoc(before, r, IPv6);
    }
  }

  lemma KnownPartSnoc(before: RuleList, r: FirewallRule, v: IPVersion)
    requires Projection(KnownPart(before), v) == Projection(before, v) && Filtered(v)
    ensures Projection(KnownPart(before) + (if Known(r) then [r] else []), v) == Projection(before + [r], v)
  {
    ProjectionSnoc(before, r, v);
    if Known(r) {
      ProjectionSnoc(KnownPart(before), r, v);
    } else {
      assert KnownPart(before) + [] == KnownPart(before);
      assert Projection(before, v) + [] == Projection(before, v);
    }
  }

  /** Two lists are equivalent if and only if normalisation takes the one's filtering rules to the other's. */
  lemma EquivalentIffReaches(a: RuleList, b: RuleList)
    ensures ListEquivalent(a, b) <==> Reaches(KnownPart(a), KnownPart(b))
  {
    KnownPartKeeps(a);
    KnownPartKeeps(b);
    if Reaches(KnownPart(a), KnownPart(b)) {
      var n :| ReachesIn(KnownPart(a), KnownPart(b), n);
      ReachingKeeps(KnownPart(a), KnownPart(b), n);
    }
    if ListEquivalent(a, b) {
      ReachesSplitForm(KnownPart(a));
      ReachesSplitForm(KnownPart(b));
      var n :| ReachesIn(KnownPart(b), SplitForm(KnownPart(b)), n);
      ReachesInBack(KnownPart(b), SplitForm(KnownPart(b)), n);
      ReachesTrans(KnownPart(a), SplitForm(KnownPart(a)), KnownPart(b));
    }
  }
}
