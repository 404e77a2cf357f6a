/** Firewall rules and the per-version view of a rule list (firewall.go). */
module Rules {
  import opened Basics
  import opened GoStrings

  type IPVersion = Text

  const IPv4: IPVersion := "ipv4"
  const IPv6: IPVersion := "ipv6"

  datatype FirewallRule = FirewallRule(
    name: Text,
    ipVersion: IPVersion,
    action: Text,
    protocol: Text,
    sourceIP: Text,
    destIP: Text,
    sourcePort: Text,
    destPort: Text,
    tcpFlags: Text)
  {
    /** A rule without an IP version applies to both versions. */
    predicate AppliesTo(v: IPVersion) {
      ipVersion == "" || ipVersion == v
    }

    /** The rule with its IP version cleared, the key rules are matched by. */
    function Key(): FirewallRule {
      this.(ipVersion := "")
    }
  }

  datatype FirewallRules = FirewallRules(input: seq<FirewallRule>, output: seq<FirewallRule>)

  lemma VersionsDiffer()
    ensures IPv4 != IPv6 && IPv4 != "" && IPv6 != ""
  {
    assert IPv4[3] != IPv6[3];
  }

  /** A version sees the version-less rules and those that carry its name; any other version is seen by neither. */
  lemma VersionNames(r: FirewallRule)
    ensures r.AppliesTo(IPv4) <==> r.ipVersion == "" || r.ipVersion == "ipv4"
    ensures r.AppliesTo(IPv6) <==> r.ipVersion == "" || r.ipVersion == "ipv6"
  {
  }

  /** The ordered keys of the rules that apply to version v. */
  ghost function Projection(rules: seq<FirewallRule>, v: IPVersion): seq<FirewallRule> {
    if rules == [] then
      []
    else
      var last := rules[|rules| - 1];
      Projection(rules[..|rules| - 1], v) + if last.AppliesTo(v) then [last.Key()] else []
  }

  ghost predicate ListEquivalent(a: seq<FirewallRule>, b: seq<FirewallRule>) {
    Projection(a, IPv4) == Projection(b, IPv4) && Projection(a, IPv6) == Projection(b, IPv6)
  }

  ghost predicate Equivalent(a: FirewallRules, b: FirewallRules) {
    ListEquivalent(a.input, b.input) && ListEquivalent(a.output, b.output)
  }

  /** How many rules with the given key apply to version v. */
  ghost function Copies(rules: seq<FirewallRule>, v: IPVersion, key: FirewallRule): nat {
    multiset(Projection(rules, v))[key]
  }

  lemma ProjectionSnoc(rules: seq<FirewallRule>, r: FirewallRule, v: IPVersion)
    ensures Projection(rules + [r], v) == Projection(rules, v) + if r.AppliesTo(v) then [r.Key()] else []
    ensures Copies(rules + [r], v, r.Key()) == Copies(rules, v, r.Key()) + if r.AppliesTo(v) then 1 else 0
    ensures forall k | k != r.Key() :: Copies(rules + [r], v, k) == Copies(rules, v, k)
  {
    assert (rules + [r])[..|rules|] == rules;
  }

  lemma {:induction false} ProjectionAppend(a: seq<FirewallRule>, b: seq<FirewallRule>, v: IPVersion)
    ensures Projection(a + b, v) == Projection(a, v) + Projection(b, v)
    ensures forall k :: Copies(a + b, v, k) == Copies(a, v, k) + Copies(b, v, k)
  {
    if b == [] {
      assert a + b == a;
    } else {
      var n := |b| - 1;
      assert (a + b)[..|a + b| - 1] == a + b[..n];
      ProjectionAppend(a, b[..n], v);
    }
  }

  method ProjectRules(rules: seq<FirewallRule>, v: IPVersion) returns (out: seq<FirewallRule>)
    ensures out == Projection(rules, v)
  {
    out := [];
    for i := 0 to |rules|
      invariant out == Projection(rules[..i], v)
    {
      PrefixSnoc(rules, i);
      ProjectionSnoc(rules[..i], rules[i], v);
      if rules[i].AppliesTo(v) {
        out := out + [rules[i].Key()];
      }
    }
    assert rules[..|rules|] == rules;
  }

  method RulesEquivalent(a: seq<FirewallRule>, b: seq<FirewallRule>) returns (same: bool)
    ensures same <==> ListEquivalent(a, b)
  {
    var versions := [IPv4, IPv6];
    for j := 0 to |versions|
      invariant forall v <- versions[..j] :: Projection(a, v) == Projection(b, v)
    {
      var v := versions[j];
      assert v == IPv4 || v == IPv6;
      var pa := ProjectRules(a, v);
      var pb := ProjectRules(b, v);
      if |pa| != |pb| {
        return false;
      }
      for i := 0 to |pa|
        invariant pa[..i] == pb[..i]
      {
        if pa[i] != pb[i] {
          return false;
        }
        PrefixSnoc(pa, i);
        PrefixSnoc(pb, i);
      }
      assert pa[..|pa|] == pa && pb[..|pa|] == pb;
      PrefixSnoc(versions, j);
    }
    assert versions[0] in versions[..2] && versions[1] in versions[..2];
    return true;
  }

  method RulesetsEquivalent(a: FirewallRules, b: FirewallRules) returns (same: bool)
    ensures same <==> Equivalent(a, b)
  {
    same := RulesEquivalent(a.input, b.input);
    if same {
      same := RulesEquivalent(a.output, b.output);
    }
  }
}
