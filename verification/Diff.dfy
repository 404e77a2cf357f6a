/**
 The two consuming loops of the reconcile protocol (firewall.go): finding the
 rules a server added to a posted list, and removing given rules from a list.
 Each loop is tied to a specification by position.
 */
module Diff {
  import opened Basics
  import opened Rules

  /** Reading a Go map of counters by rule: a missing key counts zero. */
  function Counter(m: map<FirewallRule, int>, k: FirewallRule): int {
    if k in m then m[k] else 0
  }

  /** Reading a Go map of counters by position. */
  function CounterAt(m: map<int, int>, n: int): int {
    if n in m then m[n] else 0
  }

  /** Some posted copy is still free for the rule that follows the rules in before. */
  ghost predicate Accounted(posted: seq<FirewallRule>, before: seq<FirewallRule>, r: FirewallRule, v: IPVersion) {
    Copies(before, v, r.Key()) < Copies(posted, v, r.Key())
  }

  /** The rule applies somewhere and is accounted for in no version it applies to. */
  ghost predicate Unmatched(posted: seq<FirewallRule>, before: seq<FirewallRule>, r: FirewallRule) {
    && (r.AppliesTo(IPv4) || r.AppliesTo(IPv6))
    && (r.AppliesTo(IPv4) ==> !Accounted(posted, before, r, IPv4))
    && (r.AppliesTo(IPv6) ==> !Accounted(posted, before, r, IPv6))
  }

  ghost function Injected(posted: seq<FirewallRule>, returned: seq<FirewallRule>): seq<FirewallRule> {
    if returned == [] then
      []
    else
      var before, last := returned[..|returned| - 1], returned[|returned| - 1];
      Injected(posted, before) + if Unmatched(posted, before, last) then [last] else []
  }

  ghost function Stripped(rules: seq<FirewallRule>, remove: seq<FirewallRule>): seq<FirewallRule> {
    if rules == [] then
      []
    else
      var before, last := rules[..|rules| - 1], rules[|rules| - 1];
      Stripped(before, remove) + if multiset(before)[last] < multiset(remove)[last] then [] else [last]
  }

  ghost function InjectedRuleset(posted: FirewallRules, returned: FirewallRules): FirewallRules {
    FirewallRules(Injected(posted.input, returned.input), Injected(posted.output, returned.output))
  }

  ghost function Without(rules: FirewallRules, remove: FirewallRules): FirewallRules {
    FirewallRules(Stripped(rules.input, remove.input), Stripped(rules.output, remove.output))
  }

  lemma InjectedSnoc(posted: seq<FirewallRule>, before: seq<FirewallRule>, r: FirewallRule)
    ensures Injected(posted, before + [r]) ==
            Injected(posted, before) + if Unmatched(posted, before, r) then [r] else []
  {
    assert (before + [r])[..|before|] == before;
  }

  lemma StrippedSnoc(before: seq<FirewallRule>, r: FirewallRule, remove: seq<FirewallRule>)
    ensures Stripped(before + [r], remove) ==
            Stripped(before, remove) + if multiset(before)[r] < multiset(remove)[r] then [] else [r]
  {
    assert (before + [r])[..|before|] == before;
  }

  /** Copies of r in remove that the rules in before have not used up. */
  ghost function Owed(remove: seq<FirewallRule>, before: seq<FirewallRule>, r: FirewallRule): nat {
    if multiset(before)[r] < multiset(remove)[r] then multiset(remove)[r] - multiset(before)[r] else 0
  }

  /** Posted copies of a key in version v that the rules in before have not used up. */
  ghost function Free(posted: seq<FirewallRule>, before: seq<FirewallRule>, v: IPVersion, key: FirewallRule): nat {
    if Copies(before, v, key) < Copies(posted, v, key) then Copies(posted, v, key) - Copies(before, v, key) else 0
  }

  lemma OwedSnoc(remove: seq<FirewallRule>, before: seq<FirewallRule>, rule: FirewallRule)
    ensures forall r :: Owed(remove, before + [rule], r) ==
                        if r == rule && Owed(remove, before, r) > 0 then Owed(remove, before, r) - 1
                        else Owed(remove, before, r)
  {
  }

  lemma FreeSnoc(posted: seq<FirewallRule>, before: seq<FirewallRule>, rule: FirewallRule, v: IPVersion)
    ensures forall k ::
              Free(posted, before + [rule], v, k) ==
              if rule.AppliesTo(v) && k == rule.Key() && Free(posted, before, v, k) > 0
              then Free(posted, before, v, k) - 1 else Free(posted, before, v, k)
  {
    ProjectionSnoc(before, rule, v);
  }

  /** Adds one to the counter of position n when the flag is set. */
  method IncrementAt(m: map<int, int>, n: int, flag: bool) returns (m': map<int, int>)
    ensures forall i :: CounterAt(m', i) == CounterAt(m, i) + if i == n && flag then 1 else 0
  {
    m' := m;
    if flag {
      m' := m'[n := CounterAt(m, n) + 1];
      assert forall i | i != n :: CounterAt(m', i) == CounterAt(m, i);
    }
  }

  /** Takes one unit off the counter of k when there is one. */
  method Consume(m: map<FirewallRule, int>, k: FirewallRule) returns (found: bool, m': map<FirewallRule, int>)
    ensures found <==> Counter(m, k) > 0
    ensures forall r :: Counter(m', r) == Counter(m, r) - if r == k && found then 1 else 0
  {
    found := Counter(m, k) > 0;
    m' := m;
    if found {
      m' := m'[k := Counter(m, k) - 1];
      assert forall r | r != k :: Counter(m', r) == Counter(m, r);
    }
  }

  /** Tallies a list into a counter map. */
  method Tally(rules: seq<FirewallRule>) returns (counts: map<FirewallRule, int>)
    ensures forall r :: Counter(counts, r) == multiset(rules)[r]
  {
    counts := map[];
    for n := 0 to |rules|
      invariant forall r :: Counter(counts, r) == multiset(rules[..n])[r]
    {
      PrefixSnoc(rules, n);
      ghost var before := counts;
      counts := counts[rules[n] := Counter(counts, rules[n]) + 1];
      assert forall r | r != rules[n] :: Counter(counts, r) == Counter(before, r);
    }
    assert rules[..|rules|] == rules;
  }

  /** Per position: does the rule apply to v and find no free posted copy there? */
  ghost function Misses(posted: seq<FirewallRule>, returned: seq<FirewallRule>, v: IPVersion): (m: seq<bool>)
    ensures |m| == |returned|
  {
    if returned == [] then
      []
    else
      var before, last := returned[..|returned| - 1], returned[|returned| - 1];
      Misses(posted, before, v) + [last.AppliesTo(v) && !Accounted(posted, before, last, v)]
  }

  lemma {:induction false} MissesAt(posted: seq<FirewallRule>, returned: seq<FirewallRule>, v: IPVersion, n: nat)
    requires n < |returned|
    ensures Misses(posted, returned, v)[n] <==>
            returned[n].AppliesTo(v) && !Accounted(posted, returned[..n], returned[n], v)
  {
    var before := returned[..|returned| - 1];
    if n < |before| {
      MissesAt(posted, before, v, n);
      assert before[..n] == returned[..n];
    }
  }

  /** One step of the matching loop: looks a rule up among the free posted copies. */
  method MatchRule(ghost posted: seq<FirewallRule>, ghost before: seq<FirewallRule>, rule: FirewallRule, v: IPVersion,
                   available: map<FirewallRule, int>)
    returns (missed: bool, available': map<FirewallRule, int>)
    requires forall k :: Counter(available, k) == Free(posted, before, v, k)
    ensures missed <==> rule.AppliesTo(v) && !Accounted(posted, before, rule, v)
    ensures forall k :: Counter(available', k) == Free(posted, before + [rule], v, k)
  {
    FreeSnoc(posted, before, rule, v);
    missed, available' := false, available;
    if rule.AppliesTo(v) {
      var accounted;
      accounted, available' := Consume(available, rule.Key());
      missed := !accounted;
    }
  }

  /** The pass of the matching loop over one IP version. */
  method MatchVersion(posted: seq<FirewallRule>, returned: seq<FirewallRule>, v: IPVersion,
                      applies: map<int, int>, unaccounted: map<int, int>)
    returns (applies': map<int, int>, unaccounted': map<int, int>)
    ensures forall n | 0 <= n < |returned| ::
              CounterAt(applies', n) == CounterAt(applies, n) + if returned[n].AppliesTo(v) then 1 else 0
    ensures forall n | 0 <= n < |returned| ::
              CounterAt(unaccounted', n) ==
              CounterAt(unaccounted, n) + if Misses(posted, returned, v)[n] then 1 else 0
  {
    applies', unaccounted' := applies, unaccounted;
    var projected := ProjectRules(posted, v);
    var available := Tally(projected);
    ghost var misses := Misses(posted, returned, v);
    for i := 0 to |returned|
      invariant forall n | 0 <= n < |returned| ::
                  CounterAt(applies', n) ==
                  CounterAt(applies, n) + if n < i && returned[n].AppliesTo(v) then 1 else 0
      invariant forall n | 0 <= n < |returned| ::
                  CounterAt(unaccounted', n) == CounterAt(unaccounted, n) + if n < i && misses[n] then 1 else 0
      invariant forall k :: Counter(available, k) == Free(posted, returned[..i], v, k)
    {
      var rule, missed := returned[i], false;
      missed, available := MatchRule(posted, returned[..i], rule, v, available);
      MissesAt(posted, returned, v, i);
      applies' := IncrementAt(applies', i, rule.AppliesTo(v));
      unaccounted' := IncrementAt(unaccounted', i, missed);
      PrefixSnoc(returned, i);
    }
  }

  method InjectedRules(posted: seq<FirewallRule>, returned: seq<FirewallRule>) returns (out: seq<FirewallRule>)
    ensures out == Injected(posted, returned)
  {
    var applies: map<int, int> := map[];
    var unaccounted: map<int, int> := map[];
    var versions := [IPv4, IPv6];
    for j := 0 to |versions|
      invariant forall n | 0 <= n < |returned| ::
                  CounterAt(applies, n) ==
                  (if j > 0 && returned[n].AppliesTo(IPv4) then 1 else 0)
                  + (if j > 1 && returned[n].AppliesTo(IPv6) then 1 else 0)
      invariant forall n | 0 <= n < |returned| ::
                  CounterAt(unaccounted, n) ==
                  (if j > 0 && Misses(posted, returned, IPv4)[n] then 1 else 0)
                  + (if j > 1 && Misses(posted, returned, IPv6)[n] then 1 else 0)
    {
      applies, unaccounted := MatchVersion(posted, returned, versions[j], applies, unaccounted);
    }

    out := [];
    ghost var before: seq<FirewallRule> := [];
    for i := 0 to |returned|
      invariant before == returned[..i]
      invariant out == Injected(posted, before)
    {
      InjectedSnoc(posted, before, returned[i]);
      MissesAt(posted, returned, IPv4, i);
      MissesAt(posted, returned, IPv6, i);
      if CounterAt(applies, i) > 0 && CounterAt(unaccounted, i) == CounterAt(applies, i) {
        out := out + [returned[i]];
      }
      before := before + [returned[i]];
      PrefixSnoc(returned, i);
    }
    assert returned[..|returned|] == returned;
  }

  /** One step of the removing loop: takes a rule off the pending removals. */
  method DropRule(ghost remove: seq<FirewallRule>, ghost before: seq<FirewallRule>, rule: FirewallRule,
                  pending: map<FirewallRule, int>)
    returns (dropped: bool, pending': map<FirewallRule, int>)
    requires forall r :: Counter(pending, r) == Owed(remove, before, r)
    ensures dropped <==> multiset(before)[rule] < multiset(remove)[rule]
    ensures forall r :: Counter(pending', r) == Owed(remove, before + [rule], r)
  {
    OwedSnoc(remove, before, rule);
    dropped, pending' := Consume(pending, rule);
  }

  method RemoveRules(rules: seq<FirewallRule>, remove: seq<FirewallRule>) returns (out: seq<FirewallRule>)
    ensures out == Stripped(rules, remove)
  {
    if |remove| == 0 {
      StrippedNothing(rules);
      return rules;
    }
    var pending := Tally(remove);
    out := [];
    for i := 0 to |rules|
      invariant out == Stripped(rules[..i], remove)
      invariant forall r :: Counter(pending, r) == Owed(remove, rules[..i], r)
    {
      var rule, dropped := rules[i], false;
      dropped, pending := DropRule(remove, rules[..i], rule, pending);
      StrippedSnoc(rules[..i], rule, remove);
      if !dropped {
        out := out + [rule];
      }
      PrefixSnoc(rules, i);
    }
    assert rules[..|rules|] == rules;
  }

  lemma {:induction false} StrippedNothing(rules: seq<FirewallRule>)
    ensures Stripped(rules, []) == rules
  {
    if rules != [] {
      StrippedNothing(rules[..|rules| - 1]);
    }
  }

  method ServerInjectedRules(posted: FirewallRules, returned: FirewallRules) returns (out: FirewallRules)
    ensures out == InjectedRuleset(posted, returned)
  {
    var input := InjectedRules(posted.input, returned.input);
    var output := InjectedRules(posted.output, returned.output);
    out := FirewallRules(input, output);
  }

  method RulesWithout(rules: FirewallRules, remove: FirewallRules) returns (out: FirewallRules)
    ensures out == Without(rules, remove)
  {
    var input := RemoveRules(rules.input, remove.input);
    var output := RemoveRules(rules.output, remove.output);
    out := FirewallRules(input, output);
  }
}
