/**
 What Equivalent says about traffic. A packet of one IP version gets the action
 of the first rule that applies to the version and whose condition the packet
 meets; a packet that meets none gets the API's fallback action. Conditions are
 not interpreted: a packet is any set of conditions.
 */
module Filtering {
  import opened Basics
  import opened Rules
  import opened Stripping
  import opened Convergence
  import opened GoStrings

  type Packet = iset<FirewallRule>

  /** What a packet can meet of a rule: everything but its name, its IP version and its action. */
  function Condition(r: FirewallRule): FirewallRule {
    r.(name := "", ipVersion := "", action := "")
  }

  /** What a rule does: its condition and its action. */
  function Meaning(r: FirewallRule): FirewallRule {
    r.(name := "", ipVersion := "")
  }

  /** The first rule of the list that applies to v and whose condition the packet meets. */
  ghost function FirstMatch(rules: seq<FirewallRule>, v: IPVersion, packet: Packet): Option<FirewallRule> {
    if rules == [] then None
    else if rules[0].AppliesTo(v) && Condition(rules[0]) in packet then Some(rules[0].Key())
    else FirstMatch(rules[1..], v, packet)
  }

  ghost function Action(deciding: Option<FirewallRule>, fallback: Text): Text {
    if deciding.Some? then deciding.value.action else fallback
  }

  /** What happens to a packet of version v. */
  ghost function Verdict(rules: seq<FirewallRule>, v: IPVersion, packet: Packet, fallback: Text): Text {
    Action(FirstMatch(rules, v, packet), fallback)
  }

  ghost predicate VersionAlike(a: seq<FirewallRule>, b: seq<FirewallRule>, v: IPVersion, fallback: Text) {
    forall packet :: Verdict(a, v, packet, fallback) == Verdict(b, v, packet, fallback)
  }

  /** Every packet gets the same verdict. */
  ghost predicate FilterAlike(a: seq<FirewallRule>, b: seq<FirewallRule>, fallback: Text) {
    VersionAlike(a, b, IPv4, fallback) && VersionAlike(a, b, IPv6, fallback)
  }

  // ---- The first rule of a projection

  ghost function First(keys: seq<FirewallRule>, packet: Packet): Option<FirewallRule> {
    if keys == [] then None else if Condition(keys[0]) in packet then Some(keys[0]) else First(keys[1..], packet)
  }

  lemma {:induction false} FirstAppend(a: seq<FirewallRule>, b: seq<FirewallRule>, packet: Packet)
    ensures First(a + b, packet) == if First(a, packet).Some? then First(a, packet) else First(b, packet)
  {
    if a == [] {
      assert a + b == b;
    } else {
      assert (a + b)[1..] == a[1..] + b;
      FirstAppend(a[1..], b, packet);
    }
  }

  /** Filtering by the whole list is filtering by the version's projection. */
  lemma {:induction false} FirstMatchIsProjected(rules: seq<FirewallRule>, v: IPVersion, packet: Packet)
    ensures FirstMatch(rules, v, packet) == First(Projection(rules, v), packet)
  {
    if rules != [] {
      var r := rules[0];
      assert rules == [r] + rules[1..] && [] + [r] == [r];
      ProjectionSnoc([], r, v);
      ProjectionAppend([r], rules[1..], v);
      FirstAppend(Projection([r], v), Projection(rules[1..], v), packet);
      FirstMatchIsProjected(rules[1..], v, packet);
    }
  }

  /** Where the deciding rule stands; at the end when there is none. */
  lemma {:induction false} FirstAt(keys: seq<FirewallRule>, packet: Packet) returns (i: nat)
    ensures i <= |keys| && forall j | 0 <= j < i :: Condition(keys[j]) !in packet
    ensures First(keys, packet) == if i < |keys| then Some(keys[i]) else None
    ensures i < |keys| ==> Condition(keys[i]) in packet
  {
    if keys == [] || Condition(keys[0]) in packet {
      i := 0;
    } else {
      var k := FirstAt(keys[1..], packet);
      i := k + 1;
    }
  }

  ghost predicate SameVerdicts(p: seq<FirewallRule>, q: seq<FirewallRule>, fallback: Text) {
    forall packet :: Action(First(p, packet), fallback) == Action(First(q, packet), fallback)
  }

  lemma VersionAlikeIsProjected(a: seq<FirewallRule>, b: seq<FirewallRule>, v: IPVersion, fallback: Text)
    ensures VersionAlike(a, b, v, fallback) <==> SameVerdicts(Projection(a, v), Projection(b, v), fallback)
  {
    forall packet
      ensures Verdict(a, v, packet, fallback) == Action(First(Projection(a, v), packet), fallback)
      ensures Verdict(b, v, packet, fallback) == Action(First(Projection(b, v), packet), fallback)
    {
      FirstMatchIsProjected(a, v, packet);
      FirstMatchIsProjected(b, v, packet);
    }
    if VersionAlike(a, b, v, fallback) {
      forall packet
        ensures Action(First(Projection(a, v), packet), fallback) == Action(First(Projection(b, v), packet), fallback)
      {
        assert Verdict(a, v, packet, fallback) == Verdict(b, v, packet, fallback);
      }
    }
  }

  // ---- Exactly when two lists filter alike

  /** m is what the first rule with its condition does. */
  ghost predicate Decides(keys: seq<FirewallRule>, m: FirewallRule) {
    exists i :: 0 <= i < |keys| && Meaning(keys[i]) == m && forall j | 0 <= j < i :: Condition(keys[j]) != Condition(m)
  }

  /** m decides the packets that meet its condition and that of n. */
  ghost predicate Overrides(keys: seq<FirewallRule>, m: FirewallRule, n: FirewallRule) {
    exists i :: 0 <= i < |keys| && Meaning(keys[i]) == m &&
                forall j | 0 <= j < i :: Condition(keys[j]) != Condition(m) && Condition(keys[j]) != Condition(n)
  }

  /** The rules of p that differ from the fallback decide in q too, and are overridden there by the same rules with another action. */
  ghost predicate CarriedOver(p: seq<FirewallRule>, q: seq<FirewallRule>, fallback: Text) {
    forall n: FirewallRule | n.action != fallback && Decides(p, n) ::
      && Decides(q, n)
      && forall m: FirewallRule | m.action != n.action && Overrides(q, m, n) :: Overrides(p, m, n)
  }

  ghost predicate SameDecisions(p: seq<FirewallRule>, q: seq<FirewallRule>, fallback: Text) {
    CarriedOver(p, q, fallback) && CarriedOver(q, p, fallback)
  }

  /** An overridden rule does not decide a packet that meets the overriding rule's condition. */
  lemma OverriddenIsNotFirst(keys: seq<FirewallRule>, m: FirewallRule, n: FirewallRule, packet: Packet)
    requires Overrides(keys, m, n) && Condition(m) in packet && m != n
    ensures First(keys, packet).Some? ==> Meaning(First(keys, packet).value) != n
  {
    var i := FirstAt(keys, packet);
    var at :| 0 <= at < |keys| && Meaning(keys[at]) == m &&
              forall j | 0 <= j < at :: Condition(keys[j]) != Condition(m) && Condition(keys[j]) != Condition(n);
    assert Condition(keys[at]) == Condition(m);
    assert i <= at;
    assert Condition(keys[i]) == Condition(Meaning(keys[i]));
  }

  lemma DecidingIsMet(keys: seq<FirewallRule>, n: FirewallRule, packet: Packet)
    requires Decides(keys, n) && Condition(n) in packet
    ensures First(keys, packet).Some?
  {
    var i := FirstAt(keys, packet);
    var at :| 0 <= at < |keys| && Meaning(keys[at]) == n && forall j | 0 <= j < at :: Condition(keys[j]) != Condition(n);
    assert Condition(keys[at]) == Condition(n);
  }

  /** A verdict that differs from the fallback is carried over. */
  lemma CarriedVerdict(p: seq<FirewallRule>, q: seq<FirewallRule>, packet: Packet, fallback: Text)
    requires CarriedOver(p, q, fallback)
    requires Action(First(p, packet), fallback) != fallback
    ensures Action(First(q, packet), fallback) == Action(First(p, packet), fallback)
  {
    var i := FirstAt(p, packet);
    var j := FirstAt(q, packet);
    var n := Meaning(p[i]);
    assert Condition(n) == Condition(p[i]);
    assert Decides(p, n);
    DecidingIsMet(q, n, packet);
    var m := Meaning(q[j]);
    assert Condition(m) == Condition(q[j]);
    if m.action != n.action {
      assert Overrides(q, m, n);
      OverriddenIsNotFirst(p, m, n, packet);
    }
  }

  lemma DecidesAlone(keys: seq<FirewallRule>, n: FirewallRule)
    ensures Decides(keys, n) <==>
            First(keys, iset{Condition(n)}).Some? && Meaning(First(keys, iset{Condition(n)}).value) == n
  {
    var i := FirstAt(keys, iset{Condition(n)});
    if Decides(keys, n) {
      var at :| 0 <= at < |keys| && Meaning(keys[at]) == n && forall j | 0 <= j < at :: Condition(keys[j]) != Condition(n);
      assert Condition(keys[at]) == Condition(n);
    }
  }

  lemma OverridesPair(keys: seq<FirewallRule>, m: FirewallRule, n: FirewallRule)
    ensures Overrides(keys, m, n) <==>
            && First(keys, iset{Condition(m), Condition(n)}).Some?
            && Meaning(First(keys, iset{Condition(m), Condition(n)}).value) == m
  {
    var i := FirstAt(keys, iset{Condition(m), Condition(n)});
    if Overrides(keys, m, n) {
      var at :| 0 <= at < |keys| && Meaning(keys[at]) == m &&
                forall j | 0 <= j < at :: Condition(keys[j]) != Condition(m) && Condition(keys[j]) != Condition(n);
      assert Condition(keys[at]) == Condition(m);
    }
  }

  lemma SameMeaning(r: FirewallRule, n: FirewallRule)
    requires Condition(r) == Condition(n) && r.action == n.action && Meaning(n) == n
    ensures Meaning(r) == n
  {
    assert Meaning(r) == Condition(r).(action := r.action);
    assert n == Condition(n).(action := n.action);
  }

  lemma SameVerdictsCarryOver(p: seq<FirewallRule>, q: seq<FirewallRule>, fallback: Text)
    requires SameVerdicts(p, q, fallback)
    ensures CarriedOver(p, q, fallback)
  {
    forall n: FirewallRule | n.action != fallback && Decides(p, n)
      ensures Decides(q, n)
      ensures forall m: FirewallRule | m.action != n.action && Overrides(q, m, n) :: Overrides(p, m, n)
    {
      CarriesDeciding(p, q, n, fallback);
      forall m: FirewallRule | m.action != n.action && Overrides(q, m, n)
        ensures Overrides(p, m, n)
      {
        CarriesOverriding(p, q, m, n, fallback);
      }
    }
  }

  lemma CarriesDeciding(p: seq<FirewallRule>, q: seq<FirewallRule>, n: FirewallRule, fallback: Text)
    requires SameVerdicts(p, q, fallback) && n.action != fallback && Decides(p, n)
    ensures Decides(q, n)
  {
    var alone := iset{Condition(n)};
    DecidesAlone(p, n);
    DecidesAlone(q, n);
    assert Action(First(p, alone), fallback) == Action(First(q, alone), fallback);
    var j := FirstAt(q, alone);
    assert Meaning(n) == n;
    SameMeaning(q[j], n);
  }

  lemma CarriesOverriding(p: seq<FirewallRule>, q: seq<FirewallRule>, m: FirewallRule, n: FirewallRule, fallback: Text)
    requires SameVerdicts(p, q, fallback) && n.action != fallback && Decides(p, n)
    requires m.action != n.action && Overrides(q, m, n)
    ensures Overrides(p, m, n)
  {
    var both := iset{Condition(m), Condition(n)};
    OverridesPair(q, m, n);
    OverridesPair(p, m, n);
    assert Action(First(p, both), fallback) == Action(First(q, both), fallback);
    var at :| 0 <= at < |p| && Meaning(p[at]) == n && forall j | 0 <= j < at :: Condition(p[j]) != Condition(n);
    assert Condition(p[at]) == Condition(n);
    var i := FirstAt(p, both);
    assert i <= at;
    assert p[i].action == m.action;
    assert Meaning(p[at]).action == p[at].action;
    assert Condition(p[i]) != Condition(n);
    assert Meaning(m) == m;
    SameMeaning(p[i], m);
  }

  /** Two projections give every packet the same verdict exactly when their decisions are the same. */
  lemma SameVerdictsIff(p: seq<FirewallRule>, q: seq<FirewallRule>, fallback: Text)
    ensures SameVerdicts(p, q, fallback) <==> SameDecisions(p, q, fallback)
  {
    if SameVerdicts(p, q, fallback) {
      SameVerdictsCarryOver(p, q, fallback);
      assert SameVerdicts(q, p, fallback);
      SameVerdictsCarryOver(q, p, fallback);
    }
    if SameDecisions(p, q, fallback) {
      forall packet
        ensures Action(First(p, packet), fallback) == Action(First(q, packet), fallback)
      {
        if Action(First(p, packet), fallback) != fallback {
          CarriedVerdict(p, q, packet, fallback);
        } else if Action(First(q, packet), fallback) != fallback {
          CarriedVerdict(q, p, packet, fallback);
        }
      }
    }
  }

  /**
   Two lists filter traffic identically if and only if, in each version, the
   same rules with another action than the fallback decide, each overridden by
   the same rules with another action than its own.
   */
  lemma FilterAlikeIff(a: seq<FirewallRule>, b: seq<FirewallRule>, fallback: Text)
    ensures FilterAlike(a, b, fallback) <==>
            && SameDecisions(Projection(a, IPv4), Projection(b, IPv4), fallback)
            && SameDecisions(Projection(a, IPv6), Projection(b, IPv6), fallback)
  {
    VersionAlikeIsProjected(a, b, IPv4, fallback);
    VersionAlikeIsProjected(a, b, IPv6, fallback);
    SameVerdictsIff(Projection(a, IPv4), Projection(b, IPv4), fallback);
    SameVerdictsIff(Projection(a, IPv6), Projection(b, IPv6), fallback);
  }

  // ---- Equivalent and filtering alike

  /** Equivalent lists decide every packet by the same rule, so they filter alike whatever the fallback. */
  lemma EquivalentFiltersAlike(a: seq<FirewallRule>, b: seq<FirewallRule>, fallback: Text)
    requires ListEquivalent(a, b)
    ensures forall v, packet | Filtered(v) :: FirstMatch(a, v, packet) == FirstMatch(b, v, packet)
    ensures FilterAlike(a, b, fallback)
  {
    forall v, packet | Filtered(v)
      ensures FirstMatch(a, v, packet) == FirstMatch(b, v, packet)
    {
      FirstMatchIsProjected(a, v, packet);
      FirstMatchIsProjected(b, v, packet);
    }
    VersionAlikeIsProjected(a, b, IPv4, fallback);
    VersionAlikeIsProjected(a, b, IPv6, fallback);
  }

  /** No condition is repeated and the list does not end in the fallback. */
  ghost predicate Tidy(keys: seq<FirewallRule>, fallback: Text) {
    && (forall i, j | 0 <= i < j < |keys| :: Condition(keys[i]) != Condition(keys[j]))
    && (keys != [] ==> keys[|keys| - 1].action != fallback)
  }

  /** No two neighbours have the same action. */
  ghost predicate Alternating(keys: seq<FirewallRule>) {
    forall i | 0 < i < |keys| :: keys[i - 1].action != keys[i].action
  }

  /** Rules that mean the same have the same name. */
  ghost predicate SameNames(p: seq<FirewallRule>, q: seq<FirewallRule>) {
    forall i, j | 0 <= i < |p| && 0 <= j < |q| && Meaning(p[i]) == Meaning(q[j]) :: p[i] == q[j]
  }

  lemma {:induction false} FirstIgnoresAbsent(keys: seq<FirewallRule>, c: FirewallRule, packet: Packet)
    requires forall i | 0 <= i < |keys| :: Condition(keys[i]) != c
    ensures First(keys, packet) == First(keys, packet - iset{c})
  {
    if keys != [] {
      FirstIgnoresAbsent(keys[1..], c, packet);
    }
  }

  lemma FirstSkipsHead(keys: seq<FirewallRule>, packet: Packet)
    requires keys != [] && forall i | 0 < i < |keys| :: Condition(keys[i]) != Condition(keys[0])
    ensures First(keys, packet - iset{Condition(keys[0])}) == First(keys[1..], packet)
  {
    forall i | 0 <= i < |keys[1..]|
      ensures Condition(keys[1..][i]) != Condition(keys[0])
    {
      assert keys[1..][i] == keys[i + 1];
    }
    FirstIgnoresAbsent(keys[1..], Condition(keys[0]), packet);
  }

  /** A tidy list that is not empty decides some packet against the fallback. */
  lemma TidyDecides(keys: seq<FirewallRule>, fallback: Text)
    requires Tidy(keys, fallback) && keys != []
    ensures !SameVerdicts(keys, [], fallback) && !SameVerdicts([], keys, fallback)
  {
    var last := keys[|keys| - 1];
    var alone := iset{Condition(last)};
    var i := FirstAt(keys, alone);
    assert Action(First(keys, alone), fallback) != Action(First([], alone), fallback);
  }

  /** The heads mean the same: otherwise the second rule of p, or nothing, would decide in p what the head of q decides. */
  lemma HeadsAgree(p: seq<FirewallRule>, q: seq<FirewallRule>, fallback: Text)
    requires Tidy(p, fallback) && Alternating(p) && SameVerdicts(p, q, fallback) && p != [] && q != []
    ensures Meaning(p[0]) == Meaning(q[0])
  {
    var heads := iset{Condition(p[0]), Condition(q[0])};
    assert Action(First(p, heads), fallback) == Action(First(q, heads), fallback);
    var c := Condition(q[0]);
    var some := if |p| > 1 then iset{c, Condition(p[1])} else iset{c};
    assert Action(First(p, some), fallback) == Action(First(q, some), fallback);
    var i := FirstAt(p, some);
    assert c == Condition(p[0]);
    assert Meaning(p[0]) == Condition(p[0]).(action := p[0].action);
    assert Meaning(q[0]) == Condition(q[0]).(action := q[0].action);
  }

  lemma TailsAlike(p: seq<FirewallRule>, q: seq<FirewallRule>, fallback: Text)
    requires Tidy(p, fallback) && Tidy(q, fallback) && SameVerdicts(p, q, fallback)
    requires p != [] && q != [] && Condition(p[0]) == Condition(q[0])
    ensures SameVerdicts(p[1..], q[1..], fallback)
  {
    forall packet
      ensures Action(First(p[1..], packet), fallback) == Action(First(q[1..], packet), fallback)
    {
      FirstSkipsHead(p, packet);
      FirstSkipsHead(q, packet);
      var rest := packet - iset{Condition(p[0])};
      assert Action(First(p, rest), fallback) == Action(First(q, rest), fallback);
    }
  }

  /** A tidy list whose neighbours differ in action is determined by its verdicts, up to names. */
  lemma {:induction false} VerdictsDetermine(p: seq<FirewallRule>, q: seq<FirewallRule>, fallback: Text)
    requires Tidy(p, fallback) && Tidy(q, fallback) && Alternating(p) && SameVerdicts(p, q, fallback)
    ensures |p| == |q| && forall i | 0 <= i < |p| :: Meaning(p[i]) == Meaning(q[i])
  {
    if p == [] || q == [] {
      if p != [] {
        TidyDecides(p, fallback);
      }
      if q != [] {
        TidyDecides(q, fallback);
      }
    } else {
      HeadsAgree(p, q, fallback);
      assert Condition(p[0]) == Condition(Meaning(p[0])) == Condition(Meaning(q[0])) == Condition(q[0]);
      TailsAlike(p, q, fallback);
      VerdictsDetermine(p[1..], q[1..], fallback);
      forall i | 0 <= i < |p|
        ensures Meaning(p[i]) == Meaning(q[i])
      {
        if i > 0 {
          assert p[i] == p[1..][i - 1] && q[i] == q[1..][i - 1];
        }
      }
    }
  }

  ghost function Swapped(p: seq<FirewallRule>, i: nat): (q: seq<FirewallRule>)
    requires 0 < i < |p|
    ensures |q| == |p|
    ensures forall j | 0 <= j < |p| :: q[j] == p[if j == i then i - 1 else if j == i - 1 then i else j]
  {
    p[i - 1 := p[i]][i := p[i - 1]]
  }

  /** Neighbours with the same action may change places. */
  lemma SwappingKeepsVerdicts(p: seq<FirewallRule>, i: nat, fallback: Text)
    requires 0 < i < |p| && p[i - 1].action == p[i].action
    ensures SameVerdicts(p, Swapped(p, i), fallback)
  {
    var x, y, front, back := p[i - 1], p[i], p[..i - 1], p[i + 1..];
    assert p == front + ([x, y] + back) && Swapped(p, i) == front + ([y, x] + back);
    assert [x, y][1..] == [y] && [y, x][1..] == [x] && [x][1..] == [] && [y][1..] == [];
    forall packet
      ensures Action(First(p, packet), fallback) == Action(First(Swapped(p, i), packet), fallback)
    {
      FirstAppend(front, [x, y] + back, packet);
      FirstAppend(front, [y, x] + back, packet);
      FirstAppend([x, y], back, packet);
      FirstAppend([y, x], back, packet);
    }
  }

  ghost predicate TidyRules(a: seq<FirewallRule>, fallback: Text) {
    Tidy(Projection(a, IPv4), fallback) && Tidy(Projection(a, IPv6), fallback)
  }

  ghost predicate RulesAlternate(a: seq<FirewallRule>) {
    Alternating(Projection(a, IPv4)) && Alternating(Projection(a, IPv6))
  }

  ghost predicate RulesNamedAlike(a: seq<FirewallRule>, b: seq<FirewallRule>) {
    SameNames(Projection(a, IPv4), Projection(b, IPv4)) && SameNames(Projection(a, IPv6), Projection(b, IPv6))
  }

  lemma AlikeProjectionsEqual(p: seq<FirewallRule>, q: seq<FirewallRule>, fallback: Text)
    requires Tidy(p, fallback) && Tidy(q, fallback) && Alternating(p) && SameNames(p, q) && SameVerdicts(p, q, fallback)
    ensures p == q
  {
    VerdictsDetermine(p, q, fallback);
  }

  /** For tidy lists that name their rules alike, one of which alternates, Equivalent is exactly filtering alike. */
  lemma EquivalentIffFiltersAlike(a: seq<FirewallRule>, b: seq<FirewallRule>, fallback: Text)
    requires TidyRules(a, fallback) && TidyRules(b, fallback) && RulesNamedAlike(a, b) && RulesAlternate(a)
    ensures ListEquivalent(a, b) <==> FilterAlike(a, b, fallback)
  {
    if ListEquivalent(a, b) {
      EquivalentFiltersAlike(a, b, fallback);
    }
    if FilterAlike(a, b, fallback) {
      VersionAlikeIsProjected(a, b, IPv4, fallback);
      VersionAlikeIsProjected(a, b, IPv6, fallback);
      AlikeProjectionsEqual(Projection(a, IPv4), Projection(b, IPv4), fallback);
      AlikeProjectionsEqual(Projection(a, IPv6), Projection(b, IPv6), fallback);
    }
  }

  /** Among tidy lists that name their rules alike, Equivalent recognises every list that filters like a. */
  ghost predicate EquivalentRecognises(a: seq<FirewallRule>, fallback: Text) {
    forall b | TidyRules(b, fallback) && RulesNamedAlike(a, b) && FilterAlike(a, b, fallback) :: ListEquivalent(a, b)
  }

  lemma TidyNamesItself(p: seq<FirewallRule>, fallback: Text)
    requires Tidy(p, fallback)
    ensures SameNames(p, p)
  {
    forall j, l | 0 <= j < |p| && 0 <= l < |p| && Meaning(p[j]) == Meaning(p[l])
      ensures j == l
    {
      assert Condition(p[j]) == Condition(Meaning(p[j])) == Condition(p[l]);
    }
  }

  lemma SwappedStaysTidy(p: seq<FirewallRule>, i: nat, fallback: Text)
    requires Tidy(p, fallback) && 0 < i < |p| && p[i - 1].action == p[i].action
    ensures Tidy(Swapped(p, i), fallback) && SameNames(p, Swapped(p, i)) && Swapped(p, i) != p
  {
    var q := Swapped(p, i);
    TidyNamesItself(p, fallback);
    assert q[i] == p[i - 1] && Condition(p[i - 1]) != Condition(p[i]);
  }

  /** A tidy twin with the same verdicts but another order. */
  ghost predicate Twin(p: seq<FirewallRule>, q: seq<FirewallRule>, fallback: Text) {
    Keys(q) && Tidy(q, fallback) && SameNames(p, q) && SameVerdicts(p, q, fallback)
  }

  lemma TwinToldApart(a: seq<FirewallRule>, four: seq<FirewallRule>, six: seq<FirewallRule>, fallback: Text)
    requires Twin(Projection(a, IPv4), four, fallback) && Twin(Projection(a, IPv6), six, fallback)
    requires Projection(a, IPv4) != four || Projection(a, IPv6) != six
    ensures !EquivalentRecognises(a, fallback)
  {
    var b := Split(four, six);
    ProjectionOfSplit(four, six);
    VersionAlikeIsProjected(a, b, IPv4, fallback);
    VersionAlikeIsProjected(a, b, IPv6, fallback);
    assert TidyRules(b, fallback) && RulesNamedAlike(a, b) && FilterAlike(a, b, fallback) && !ListEquivalent(a, b);
  }

  lemma OwnTwin(a: seq<FirewallRule>, v: IPVersion, fallback: Text)
    requires Tidy(Projection(a, v), fallback)
    ensures Twin(Projection(a, v), Projection(a, v), fallback)
  {
    ProjectionIsKeys(a, v);
    TidyNamesItself(Projection(a, v), fallback);
  }

  lemma OtherTwin(a: seq<FirewallRule>, v: IPVersion, fallback: Text) returns (q: seq<FirewallRule>)
    requires Tidy(Projection(a, v), fallback) && !Alternating(Projection(a, v))
    ensures Twin(Projection(a, v), q, fallback) && q != Projection(a, v)
  {
    var p := Projection(a, v);
    ProjectionIsKeys(a, v);
    var i: nat :| 0 < i < |p| && p[i - 1].action == p[i].action;
    q := Swapped(p, i);
    SwappedStaysTidy(p, i, fallback);
    SwappingKeepsVerdicts(p, i, fallback);
  }

  /**
   Equivalent recognises every tidy list that filters like a given tidy list if
   and only if no two neighbours of the latter share their action.
   */
  lemma EquivalentRecognisesIff(a: seq<FirewallRule>, fallback: Text)
    requires TidyRules(a, fallback)
    ensures EquivalentRecognises(a, fallback) <==> RulesAlternate(a)
  {
    if RulesAlternate(a) {
      forall b | TidyRules(b, fallback) && RulesNamedAlike(a, b) && FilterAlike(a, b, fallback)
        ensures ListEquivalent(a, b)
      {
        EquivalentIffFiltersAlike(a, b, fallback);
      }
    } else {
      OwnTwin(a, IPv4, fallback);
      OwnTwin(a, IPv6, fallback);
      if !Alternating(Projection(a, IPv4)) {
        var four := OtherTwin(a, IPv4, fallback);
        TwinToldApart(a, four, Projection(a, IPv6), fallback);
      } else {
        var six := OtherTwin(a, IPv6, fallback);
        TwinToldApart(a, Projection(a, IPv4), six, fallback);
      }
    }
  }

  // ---- Lists that filter alike and are told apart

  lemma ProjectedRules(a: FirewallRule, b: FirewallRule, v: IPVersion)
    requires a.ipVersion == b.ipVersion == IPv4 && Filtered(v)
    ensures Projection([a], v) == if v == IPv4 then [a.Key()] else []
    ensures Projection([a, b], v) == if v == IPv4 then [a.Key(), b.Key()] else []
  {
    VersionsDiffer();
    assert [] + [a] == [a] && [a] + [b] == [a, b];
    ProjectionSnoc([], a, v);
    ProjectionSnoc([a], b, v);
  }

  /** A repeated rule never decides, yet Equivalent tells the lists apart. */
  lemma RepetitionIsToldApart(a: FirewallRule, fallback: Text)
    requires a.ipVersion == IPv4
    ensures FilterAlike([a, a], [a], fallback) && !ListEquivalent([a, a], [a])
  {
    VersionsDiffer();
    var k := a.Key();
    ProjectedRules(a, a, IPv4);
    ProjectedRules(a, a, IPv6);
    assert [k, k][1..] == [k] && [k][1..] == [];
    assert SameVerdicts([k, k], [k], fallback);
    VersionAlikeIsProjected([a, a], [a], IPv4, fallback);
    VersionAlikeIsProjected([a, a], [a], IPv6, fallback);
  }

  /** The order of two rules with the same action never matters, yet Equivalent tells the lists apart. */
  lemma OrderIsToldApart(a: FirewallRule, b: FirewallRule, fallback: Text)
    requires a.ipVersion == b.ipVersion == IPv4 && a.action == b.action && a != b
    ensures FilterAlike([a, b], [b, a], fallback) && !ListEquivalent([a, b], [b, a])
  {
    VersionsDiffer();
    var k, l := a.Key(), b.Key();
    assert k.(ipVersion := IPv4) == a && l.(ipVersion := IPv4) == b;
    ProjectedRules(a, b, IPv4);
    ProjectedRules(b, a, IPv4);
    ProjectedRules(a, b, IPv6);
    ProjectedRules(b, a, IPv6);
    assert Swapped([k, l], 1) == [l, k];
    SwappingKeepsVerdicts([k, l], 1, fallback);
    VersionAlikeIsProjected([a, b], [b, a], IPv4, fallback);
    VersionAlikeIsProjected([a, b], [b, a], IPv6, fallback);
    assert [k, l][0] != [l, k][0];
  }

  /** A name filters nothing, yet Equivalent tells renamed rules apart. */
  lemma NameIsToldApart(a: FirewallRule, name: Text, fallback: Text)
    requires a.ipVersion == IPv4 && a.name != name
    ensures FilterAlike([a], [a.(name := name)], fallback) && !ListEquivalent([a], [a.(name := name)])
  {
    VersionsDiffer();
    var b := a.(name := name);
    ProjectedRules(a, b, IPv4);
    ProjectedRules(b, a, IPv4);
    ProjectedRules(a, b, IPv6);
    ProjectedRules(b, a, IPv6);
    assert Condition(a.Key()) == Condition(b.Key());
    assert [a.Key()][1..] == [] && [b.Key()][1..] == [];
    assert SameVerdicts([a.Key()], [b.Key()], fallback);
    VersionAlikeIsProjected([a], [b], IPv4, fallback);
    VersionAlikeIsProjected([a], [b], IPv6, fallback);
    assert a.Key().name != b.Key().name;
  }

  /** A last rule with the fallback action changes nothing, yet Equivalent tells the lists apart. */
  lemma FallbackIsToldApart(a: FirewallRule)
    requires a.ipVersion == IPv4
    ensures FilterAlike([a], [], a.action) && !ListEquivalent([a], [])
  {
    VersionsDiffer();
    ProjectedRules(a, a, IPv4);
    ProjectedRules(a, a, IPv6);
    assert [a.Key()][1..] == [];
    assert SameVerdicts([a.Key()], [], a.action);
    VersionAlikeIsProjected([a], [], IPv4, a.action);
    VersionAlikeIsProjected([a], [], IPv6, a.action);
  }
}
