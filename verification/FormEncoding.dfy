/**
 The form encoder for rules[direction][index][field] bodies
 (internal/urlencode/firewall.go). Its output is the rendering of a list of
 entries that depends on the maps alone, not on their enumeration.
 */
module FormEncoding {
  import opened Basics
  import opened GoStrings
  import opened Strings
  import opened KeyOrder

  type RuleMap = map<Text, Text>

  /** The keys of a firewall form: a plain field, or a field of one rule. */
  datatype FormKey = Scalar(name: Text) | Field(direction: Text, index: nat, field: Text) | Malformed(text: Text)

  datatype Entry = Entry(key: FormKey, value: Text)

  function KeyText(k: FormKey): Text {
    match k
    case Scalar(name) => name
    case Field(direction, index, field) => "rules[" + direction + "][" + Decimal(index) + "][" + field + "]"
    case Malformed(text) => text
  }

  function Render(e: Entry): Text {
    KeyText(e.key) + "=" + Escape(e.value)
  }

  ghost function Rendered(entries: seq<Entry>): (parts: seq<Text>)
    ensures |parts| == |entries|
    ensures forall i | 0 <= i < |entries| :: parts[i] == Render(entries[i])
  {
    seq(|entries|, i requires 0 <= i < |entries| => Render(entries[i]))
  }

  lemma RenderedAppend(a: seq<Entry>, b: seq<Entry>)
    ensures Rendered(a + b) == Rendered(a) + Rendered(b)
  {
  }

  // ---- The entries a form consists of, in the order they are emitted

  ghost function ScalarEntries(extra: map<Text, Text>, keys: seq<Text>): (es: seq<Entry>)
    requires forall k <- keys :: k in extra
    ensures |es| == |keys|
    ensures forall j | 0 <= j < |keys| :: es[j] == Entry(Scalar(keys[j]), extra[keys[j]])
  {
    seq(|keys|, j requires 0 <= j < |keys| => assert keys[j] in keys; Entry(Scalar(keys[j]), extra[keys[j]]))
  }

  ghost function FieldEntries(direction: Text, index: nat, rule: RuleMap, keys: seq<Text>): (es: seq<Entry>)
    requires forall k <- keys :: k in rule
    ensures |es| == |keys|
    ensures forall j | 0 <= j < |keys| :: es[j] == Entry(Field(direction, index, keys[j]), rule[keys[j]])
  {
    seq(|keys|, j requires 0 <= j < |keys| => assert keys[j] in keys; Entry(Field(direction, index, keys[j]), rule[keys[j]]))
  }

  ghost function RuleEntries(direction: Text, index: nat, rule: RuleMap): seq<Entry> {
    FieldEntries(direction, index, rule, KeysInOrder(rule.Keys))
  }

  ghost function ListEntries(direction: Text, rules: seq<RuleMap>): seq<Entry> {
    if rules == [] then
      []
    else
      var n := |rules| - 1;
      ListEntries(direction, rules[..n]) + RuleEntries(direction, n, rules[n])
  }

  ghost function DirectionEntries(rules: map<Text, seq<RuleMap>>, directions: seq<Text>): seq<Entry>
    requires forall d <- directions :: d in rules
  {
    if directions == [] then
      []
    else
      var before, last := directions[..|directions| - 1], directions[|directions| - 1];
      assert last in directions;
      DirectionEntries(rules, before) + ListEntries(last, rules[last])
  }

  ghost function RulesetEntries(rules: map<Text, seq<RuleMap>>): seq<Entry> {
    DirectionEntries(rules, KeysInOrder(rules.Keys))
  }

  ghost function ExtraEntries(extra: map<Text, Text>): seq<Entry> {
    ScalarEntries(extra, KeysInOrder(extra.Keys))
  }

  lemma ListEntriesSnoc(direction: Text, rules: seq<RuleMap>, i: nat)
    requires i < |rules|
    ensures ListEntries(direction, rules[..i + 1]) == ListEntries(direction, rules[..i]) + RuleEntries(direction, i, rules[i])
  {
    PrefixSnoc(rules, i);
    assert (rules[..i] + [rules[i]])[..i] == rules[..i];
  }

  lemma DirectionEntriesSnoc(rules: map<Text, seq<RuleMap>>, directions: seq<Text>, n: nat)
    requires n < |directions| && forall d <- directions :: d in rules
    ensures DirectionEntries(rules, directions[..n + 1]) ==
            DirectionEntries(rules, directions[..n]) + ListEntries(directions[n], rules[directions[n]])
  {
    assert directions[..n + 1][..n] == directions[..n];
  }

  // ---- The encoder

  method EncodeFields(direction: Text, index: nat, rule: RuleMap) returns (parts: seq<Text>)
    ensures parts == Rendered(RuleEntries(direction, index, rule))
  {
    var keys := SortedKeys(rule);
    parts := [];
    ghost var entries := RuleEntries(direction, index, rule);
    for j := 0 to |keys|
      invariant parts == Rendered(entries[..j])
    {
      var key := keys[j];
      assert key in rule.Keys;
      var hierKey := "rules[" + direction + "][" + Decimal(index) + "][" + key + "]";
      var encodedValue := Escape(rule[key]);
      parts := parts + [hierKey + "=" + encodedValue];
      PrefixSnoc(entries, j);
      RenderedAppend(entries[..j], [entries[j]]);
      assert hierKey == KeyText(entries[j].key);
    }
    assert entries[..|keys|] == entries;
  }

  method EncodeDirection(direction: Text, rules: seq<RuleMap>) returns (parts: seq<Text>)
    ensures parts == Rendered(ListEntries(direction, rules))
  {
    parts := [];
    for i := 0 to |rules|
      invariant parts == Rendered(ListEntries(direction, rules[..i]))
    {
      var more := EncodeFields(direction, i, rules[i]);
      parts := parts + more;
      ListEntriesSnoc(direction, rules, i);
      RenderedAppend(ListEntries(direction, rules[..i]), RuleEntries(direction, i, rules[i]));
    }
    assert rules[..|rules|] == rules;
  }

  method EncodeFirewallRules(rules: map<Text, seq<RuleMap>>) returns (body: Text)
    ensures body == Join(Rendered(RulesetEntries(rules)), '&')
  {
    var directions := SortedKeys(rules);
    var parts: seq<Text> := [];
    for n := 0 to |directions|
      invariant forall d <- directions :: d in rules
      invariant parts == Rendered(DirectionEntries(rules, directions[..n]))
    {
      var more := EncodeDirection(directions[n], rules[directions[n]]);
      parts := parts + more;
      RenderedAppend(DirectionEntries(rules, directions[..n]), ListEntries(directions[n], rules[directions[n]]));
      DirectionEntriesSnoc(rules, directions, n);
    }
    assert directions[..|directions|] == directions;
    body := Join(parts, '&');
  }

  ghost function ListFor(rules: map<Text, seq<RuleMap>>, direction: Text): seq<RuleMap> {
    if direction in rules then rules[direction] else []
  }

  class FirewallRuleEncoder {
    var rules: map<Text, seq<RuleMap>>

    constructor ()
      ensures rules == map[]
    {
      rules := map[];
    }

    method AddInputRule(rule: RuleMap)
      modifies this
      ensures rules == old(rules)["input" := ListFor(old(rules), "input") + [rule]]
    {
      if "input" !in rules {
        rules := rules["input" := []];
      }
      rules := rules["input" := rules["input"] + [rule]];
    }

    method AddOutputRule(rule: RuleMap)
      modifies this
      ensures rules == old(rules)["output" := ListFor(old(rules), "output") + [rule]]
    {
      if "output" !in rules {
        rules := rules["output" := []];
      }
      rules := rules["output" := rules["output"] + [rule]];
    }

    method Encode() returns (body: Text)
      ensures body == Join(Rendered(RulesetEntries(rules)), '&')
    {
      body := EncodeFirewallRules(rules);
    }

    /** The additional values, then the rules, as one form. */
    method EncodeToString(additional: map<Text, Text>) returns (body: Text)
      ensures body == Join(Rendered(ExtraEntries(additional) + RulesetEntries(rules)), '&')
    {
      var keys := SortedKeys(additional);
      var parts: seq<Text> := [];
      ghost var entries := ExtraEntries(additional);
      for j := 0 to |keys|
        invariant parts == Rendered(entries[..j])
      {
        var key := keys[j];
        assert key in additional.Keys;
        parts := parts + [key + "=" + Escape(additional[key])];
        PrefixSnoc(entries, j);
        RenderedAppend(entries[..j], [entries[j]]);
        assert key == KeyText(entries[j].key);
      }
      assert entries[..|keys|] == entries;
      var rulesStr := Encode();
      NestedJoin(entries, RulesetEntries(rules));
      if rulesStr != "" {
        parts := parts + [rulesStr];
      }
      body := Join(parts, '&');
    }
  }

  /** Joining a joined tail is joining the whole; a tail without entries joins to nothing. */
  lemma NestedJoin(a: seq<Entry>, b: seq<Entry>)
    ensures Join(Rendered(b), '&') == "" <==> b == []
    ensures b != [] ==> Join(Rendered(a) + [Join(Rendered(b), '&')], '&') == Join(Rendered(a + b), '&')
    ensures b == [] ==> Rendered(a + b) == Rendered(a)
  {
    RenderedAppend(a, b);
    var pa, pb := Rendered(a), Rendered(b);
    if b != [] {
      assert pb[0] == Render(b[0]) && pb[0] != "";
      assert Join(pb, '&') != "" by {
        if |pb| > 1 {
          assert Join(pb, '&') == pb[0] + ['&'] + Join(pb[1..], '&');
        }
      }
      if a == [] {
        assert pa + pb == pb && pa + [Join(pb, '&')] == [Join(pb, '&')];
      } else {
        JoinAppend(pa, pb, '&');
        JoinAppend(pa, [Join(pb, '&')], '&');
      }
    }
  }

  // ---- The documented example

  lemma TwoKeys(a: Text, b: Text, s: set<Text>)
    requires Less(a, b) && s == {a, b}
    ensures KeysInOrder(s) == [a, b]
  {
    LessIrreflexive(a);
    InOrderUnique(KeysInOrder(s), [a, b], s);
  }

  lemma OneKey(a: Text)
    ensures KeysInOrder({a}) == [a]
  {
    InOrderUnique(KeysInOrder({a}), [a], {a});
  }

  lemma FirstInputKey(field: Text)
    ensures KeyText(Field("input", 0, field)) == "rules[input][0][" + field + "]"
  {
    assert Decimal(0) == "0";
    assert "rules[" + "input" + "][" + "0" + "][" == "rules[input][0][";
  }

  lemma ExampleParts(name: Text, action: Text)
    ensures Render(Entry(Field("input", 0, "action"), action)) == "rules[input][0][action]=" + Escape(action)
    ensures Render(Entry(Field("input", 0, "name"), name)) == "rules[input][0][name]=" + Escape(name)
  {
    FirstInputKey("action");
    FirstInputKey("name");
    assert "rules[input][0][" + "action" + "]" + "=" == "rules[input][0][action]=";
    assert "rules[input][0][" + "name" + "]" + "=" == "rules[input][0][name]=";
  }

  /** One rule with a name and an action: the fields come in ascending order, each with a literal bracket key. */
  lemma ExampleBody(name: Text, action: Text)
    ensures Join(Rendered(RulesetEntries(map["input" := [map["name" := name, "action" := action]]])), '&') ==
            ("rules[input][0][action]=" + Escape(action)) + "&" + ("rules[input][0][name]=" + Escape(name))
  {
    var rule: RuleMap := map["name" := name, "action" := action];
    var rules := map["input" := [rule]];
    ExampleEntries(rule, rules);
    var a, n := Entry(Field("input", 0, "action"), action), Entry(Field("input", 0, "name"), name);
    assert Rendered([a, n]) == [Render(a), Render(n)];
    assert [Render(a), Render(n)][1..] == [Render(n)];
    ExampleParts(name, action);
    assert Join([Render(a), Render(n)], '&') == Render(a) + ['&'] + Render(n);
  }

  lemma ExampleEntries(rule: RuleMap, rules: map<Text, seq<RuleMap>>)
    requires rule.Keys == {"name", "action"} && rules == map["input" := [rule]]
    ensures RulesetEntries(rules) ==
            [Entry(Field("input", 0, "action"), rule["action"]), Entry(Field("input", 0, "name"), rule["name"])]
  {
    assert "action"[0] < "name"[0];
    TwoKeys("action", "name", rule.Keys);
    OneKey("input");
    assert rules.Keys == {"input"};
    var es := RuleEntries("input", 0, rule);
    assert es == [Entry(Field("input", 0, "action"), rule["action"]), Entry(Field("input", 0, "name"), rule["name"])];
    assert [rule][..0] == [] && ["input"][..0] == [];
    assert ListEntries("input", [rule]) == [] + es;
    assert DirectionEntries(rules, ["input"]) == [] + ListEntries("input", [rule]);
  }
}
