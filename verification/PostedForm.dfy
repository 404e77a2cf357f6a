/**
 Whole posted bodies (encodeRules): reading a body back gives exactly the extra
 fields and the ordered rules it was built from, and every key in it satisfies
 the documented key grammar (internal/spectest/firewall.go).
 */
module PostedForm {
  import opened Basics
  import opened GoStrings
  import opened Strings
  import opened KeyOrder
  import opened Rules
  import opened FormEncoding
  import opened FormDecoding
  import opened FormRoundTrip
  import opened RuleForm

  datatype Posted = Posted(extra: map<Text, Text>, rules: FirewallRules)

  function RulesFrom(datas: seq<RuleMap>): seq<FirewallRule> {
    seq(|datas|, i requires 0 <= i < |datas| => RuleFrom(datas[i]))
  }

  /** What the API reads from a posted body. */
  function DecodePosted(body: Text): Option<Posted> {
    var form := DecodeForm(body);
    if form.None? then None
    else Some(Posted(form.value.extra, FirewallRules(RulesFrom(form.value.input), RulesFrom(form.value.output))))
  }

  ghost predicate EncodesList(datas: seq<RuleMap>, rules: seq<FirewallRule>) {
    |datas| == |rules| && forall i | 0 <= i < |rules| :: EncodesRule(datas[i], rules[i])
  }

  /** The encoder's map holds the two directions of the ruleset and nothing else. */
  ghost predicate EncodesRuleset(m: map<Text, seq<RuleMap>>, rules: FirewallRules) {
    && m.Keys <= {"input", "output"}
    && EncodesList(ListFor(m, "input"), rules.input)
    && EncodesList(ListFor(m, "output"), rules.output)
  }

  lemma DirectionsDiffer()
    ensures "input" != "output" && PlainName("input") && PlainName("output")
  {
  }

  lemma EncodedListPlain(datas: seq<RuleMap>, rules: seq<FirewallRule>)
    requires EncodesList(datas, rules)
    ensures NoneEmpty(datas) && forall data <- datas :: PlainKeys(data)
    ensures RulesFrom(datas) == rules
  {
    FieldNamesAllowed();
    forall data <- datas
      ensures data != map[] && PlainKeys(data)
    {
      var i :| 0 <= i < |datas| && datas[i] == data;
      assert EncodesRule(datas[i], rules[i]);
      assert "action" in data;
    }
  }

  lemma EncodedIsPlain(m: map<Text, seq<RuleMap>>, rules: FirewallRules)
    requires EncodesRuleset(m, rules)
    ensures PlainRules(m)
  {
    DirectionsDiffer();
    EncodedListPlain(ListFor(m, "input"), rules.input);
    EncodedListPlain(ListFor(m, "output"), rules.output);
    forall d <- m
      ensures PlainName(d) && forall data <- m[d] :: PlainKeys(data)
    {
      assert d == "input" || d == "output";
    }
  }

  /** A body built from a ruleset reads back as that ruleset: no rule and no field is lost or moved. */
  lemma PostedRoundTrip(extra: map<Text, Text>, m: map<Text, seq<RuleMap>>, rules: FirewallRules)
    requires PlainKeys(extra) && EncodesRuleset(m, rules)
    ensures DecodePosted(FormBody(extra, m)) == Some(Posted(extra, rules))
  {
    EncodedIsPlain(m, rules);
    EncodedListPlain(ListFor(m, "input"), rules.input);
    EncodedListPlain(ListFor(m, "output"), rules.output);
    RoundTripIff(extra, m);
  }

  lemma EncodesListSnoc(datas: seq<RuleMap>, data: RuleMap, rules: seq<FirewallRule>, i: nat)
    requires i < |rules| && EncodesList(datas, rules[..i]) && EncodesRule(data, rules[i])
    ensures EncodesList(datas + [data], rules[..i + 1])
  {
    PrefixSnoc(rules, i);
  }

  method AddInputRules(encoder: FirewallRuleEncoder, rules: seq<FirewallRule>)
    requires encoder.rules == map[]
    modifies encoder
    ensures encoder.rules.Keys <= {"input"} && EncodesList(ListFor(encoder.rules, "input"), rules)
  {
    for i := 0 to |rules|
      invariant encoder.rules.Keys <= {"input"}
      invariant EncodesList(ListFor(encoder.rules, "input"), rules[..i])
    {
      var data := EncodeRule(rules[i]);
      EncodesListSnoc(ListFor(encoder.rules, "input"), data, rules, i);
      encoder.AddInputRule(data);
    }
    assert rules[..|rules|] == rules;
  }

  method AddOutputRules(encoder: FirewallRuleEncoder, rules: seq<FirewallRule>)
    requires encoder.rules.Keys <= {"input"}
    modifies encoder
    ensures encoder.rules.Keys <= {"input", "output"} && EncodesList(ListFor(encoder.rules, "output"), rules)
    ensures ListFor(encoder.rules, "input") == old(ListFor(encoder.rules, "input"))
  {
    DirectionsDiffer();
    for i := 0 to |rules|
      invariant encoder.rules.Keys <= {"input", "output"}
      invariant ListFor(encoder.rules, "input") == old(ListFor(encoder.rules, "input"))
      invariant EncodesList(ListFor(encoder.rules, "output"), rules[..i])
    {
      var data := EncodeRule(rules[i]);
      EncodesListSnoc(ListFor(encoder.rules, "output"), data, rules, i);
      encoder.AddOutputRule(data);
    }
    assert rules[..|rules|] == rules;
  }

  method EncodeRules(rules: FirewallRules, extra: map<Text, Text>) returns (body: Text)
    ensures exists m :: EncodesRuleset(m, rules) && body == FormBody(extra, m)
    ensures PlainKeys(extra) ==> DecodePosted(body) == Some(Posted(extra, rules))
    ensures PlainKeys(extra) ==>
              && ParseForm(body).Some?
              && PostsList(ParseForm(body).value, "input", rules.input)
              && PostsList(ParseForm(body).value, "output", rules.output)
  {
    var encoder := new FirewallRuleEncoder();
    AddInputRules(encoder, rules.input);
    AddOutputRules(encoder, rules.output);
    body := encoder.EncodeToString(extra);
    assert EncodesRuleset(encoder.rules, rules) && body == FormBody(extra, encoder.rules);
    if PlainKeys(extra) {
      PostedRoundTrip(extra, encoder.rules, rules);
      PostedFields(extra, encoder.rules, rules);
    }
  }

  // ---- The key grammar

  /** rules[input|output][digits][letters or underscores] */
  ghost predicate FirewallRuleKey(key: Text) {
    exists direction, digits, field :: KeyShape(key, direction, digits, field)
  }

  ghost predicate KeyShape(key: Text, direction: Text, digits: Text, field: Text) {
    && key == "rules[" + direction + "][" + digits + "][" + field + "]"
    && direction in {"input", "output"}
    && digits != "" && AllDigits(digits)
    && field != "" && LetterName(field)
  }

  function LastIndexByte(s: Text, c: Byte): (i: int)
    ensures -1 <= i < |s|
  {
    if s == "" then -1 else if s[|s| - 1] == c then |s| - 1 else LastIndexByte(s[..|s| - 1], c)
  }

  /** The text after the last opening bracket, without the final byte. */
  function FieldPart(key: Text): Text {
    var i := LastIndexByte(key, '[');
    if i + 1 < |key| then key[i + 1..|key| - 1] else ""
  }

  ghost predicate FirewallRuleKeyOrScalar(key: Text) {
    '[' in key ==> FirewallRuleKey(key) && FieldPart(key) in AllowedFields()
  }

  lemma {:induction false} LastIndexAppend(front: Text, c: Byte, back: Text)
    requires c !in back
    ensures LastIndexByte(front + [c] + back, c) == |front|
  {
    var s := front + [c] + back;
    if back != "" {
      var n := |back| - 1;
      assert back[n] in back && forall x <- back[..n] :: x in back;
      assert s[..|s| - 1] == front + [c] + back[..n];
      LastIndexAppend(front, c, back[..n]);
    }
  }

  lemma FieldKeyAllowed(direction: Text, index: nat, field: Text)
    requires direction in {"input", "output"} && field in FieldNames()
    ensures FirewallRuleKeyOrScalar(KeyText(Field(direction, index, field)))
  {
    FieldNamesAllowed();
    var key := KeyText(Field(direction, index, field));
    assert KeyShape(key, direction, Decimal(index), field);
    var front := "rules[" + direction + "][" + Decimal(index) + "]";
    assert "][" == "]" + "[";
    assert key == front + ['['] + (field + "]");
    assert '[' !in field + "]";
    LastIndexAppend(front, '[', field + "]");
    assert FieldPart(key) == field;
  }

  /** Every key of a posted body is in the documented grammar. */
  lemma PostedKeysAllowed(extra: map<Text, Text>, m: map<Text, seq<RuleMap>>, rules: FirewallRules)
    requires PlainKeys(extra) && EncodesRuleset(m, rules)
    ensures ParseForm(FormBody(extra, m)).Some?
    ensures forall e <- ParseForm(FormBody(extra, m)).value :: FirewallRuleKeyOrScalar(KeyText(e.key))
  {
    var entries := ExtraEntries(extra) + RulesetEntries(m);
    EncodedIsPlain(m, rules);
    FormEntriesClean(extra, m);
    ParseFormOfEntries(entries);
    CollectForm(extra, m);
    forall e <- entries
      ensures FirewallRuleKeyOrScalar(KeyText(e.key))
    {
      CollectedKey(entries, e);
      KeyOfRuleset(e.key, extra, m, rules);
    }
  }

  lemma {:induction false} CollectedKey(entries: seq<Entry>, e: Entry)
    requires e in entries
    ensures e.key in Collect(entries)
  {
    var n := |entries| - 1;
    assert entries == entries[..n] + [entries[n]];
    if e != entries[n] {
      CollectedKey(entries[..n], e);
    }
  }

  lemma KeyOfRuleset(k: FormKey, extra: map<Text, Text>, m: map<Text, seq<RuleMap>>, rules: FirewallRules)
    requires PlainKeys(extra) && EncodesRuleset(m, rules)
    requires (k.Scalar? && k.name in extra) || (k.Field? && HasField(k.direction, ListFor(m, k.direction), k))
    ensures FirewallRuleKeyOrScalar(KeyText(k))
  {
    DirectionsDiffer();
    if k.Field? {
      assert k.direction in m && (k.direction == "input" || k.direction == "output");
      var data := ListFor(m, k.direction)[k.index];
      var list := if k.direction == "input" then rules.input else rules.output;
      assert EncodesRule(data, list[k.index]);
      FieldKeyAllowed(k.direction, k.index, k.field);
    }
  }

  // ---- Where the parts of a rule stand in a posted body

  lemma {:induction false} FieldEntriesMember(direction: Text, index: nat, rule: RuleMap, e: Entry)
    ensures e in RuleEntries(direction, index, rule) <==>
            && e.key.Field? && e.key.direction == direction && e.key.index == index
            && e.key.field in rule && e.value == rule[e.key.field]
  {
    var keys, es := KeysInOrder(rule.Keys), RuleEntries(direction, index, rule);
    assert forall k :: k in keys <==> k in rule.Keys;
    if e.key.Field? && e.key.direction == direction && e.key.index == index && e.key.field in rule && e.value == rule[e.key.field] {
      var j :| 0 <= j < |keys| && keys[j] == e.key.field;
      assert es[j] == e;
    }
  }

  lemma {:induction false} ListEntriesMember(direction: Text, rules: seq<RuleMap>, e: Entry)
    ensures e in ListEntries(direction, rules) <==>
            HasField(direction, rules, e.key) && e.value == rules[e.key.index][e.key.field]
  {
    if rules != [] {
      var n := |rules| - 1;
      ListEntriesMember(direction, rules[..n], e);
      FieldEntriesMember(direction, n, rules[n], e);
    }
  }

  lemma {:induction false} DirectionEntriesMember(rules: map<Text, seq<RuleMap>>, directions: seq<Text>, e: Entry)
    requires forall d <- directions :: d in rules
    ensures e in DirectionEntries(rules, directions) <==>
            HasRuleField(rules, directions, e.key) && e.value == rules[e.key.direction][e.key.index][e.key.field]
  {
    if directions != [] {
      var before, last := directions[..|directions| - 1], directions[|directions| - 1];
      assert directions == before + [last] && last in directions;
      DirectionEntriesMember(rules, before, e);
      ListEntriesMember(last, rules[last], e);
    }
  }

  /** The value of a field of one rule in the entries of a whole form. */
  lemma FormHoldsField(extra: map<Text, Text>, m: map<Text, seq<RuleMap>>, direction: Text, i: nat, field: Text, x: Text)
    requires i < |ListFor(m, direction)|
    ensures Entry(Field(direction, i, field), x) in ExtraEntries(extra) + RulesetEntries(m) <==>
            field in ListFor(m, direction)[i] && x == ListFor(m, direction)[i][field]
  {
    var e := Entry(Field(direction, i, field), x);
    DirectionEntriesMember(m, KeysInOrder(m.Keys), e);
    assert direction in KeysInOrder(m.Keys) <==> direction in m.Keys;
    assert e !in ExtraEntries(extra);
  }

  /** The entries hold the field with this value, and only with it, unless it is empty. */
  ghost predicate Posts(entries: seq<Entry>, direction: Text, i: nat, field: Text, value: Text) {
    forall x :: Entry(Field(direction, i, field), x) in entries <==> x == value && value != ""
  }

  ghost predicate PostsRule(entries: seq<Entry>, direction: Text, i: nat, rule: FirewallRule) {
    && Posts(entries, direction, i, "name", rule.name)
    && Posts(entries, direction, i, "ip_version", rule.ipVersion)
    && (forall x :: Entry(Field(direction, i, "action"), x) in entries <==> x == rule.action)
    && Posts(entries, direction, i, "protocol", rule.protocol)
    && Posts(entries, direction, i, "src_ip", rule.sourceIP)
    && Posts(entries, direction, i, "dst_ip", rule.destIP)
    && Posts(entries, direction, i, "src_port", rule.sourcePort)
    && Posts(entries, direction, i, "dst_port", rule.destPort)
    && Posts(entries, direction, i, "tcp_flags", rule.tcpFlags)
  }

  ghost predicate PostsList(entries: seq<Entry>, direction: Text, rules: seq<FirewallRule>) {
    forall i | 0 <= i < |rules| :: PostsRule(entries, direction, i, rules[i])
  }

  lemma CarriedIsPosted(extra: map<Text, Text>, m: map<Text, seq<RuleMap>>, direction: Text, i: nat, field: Text, value: Text)
    requires i < |ListFor(m, direction)| && Carries(ListFor(m, direction)[i], field, value)
    ensures Posts(ExtraEntries(extra) + RulesetEntries(m), direction, i, field, value)
  {
    forall x
      ensures Entry(Field(direction, i, field), x) in ExtraEntries(extra) + RulesetEntries(m) <==> x == value && value != ""
    {
      FormHoldsField(extra, m, direction, i, field, x);
    }
  }

  lemma RuleIsPosted(extra: map<Text, Text>, m: map<Text, seq<RuleMap>>, direction: Text, i: nat, rule: FirewallRule)
    requires i < |ListFor(m, direction)| && CarriesRule(ListFor(m, direction)[i], rule)
    ensures PostsRule(ExtraEntries(extra) + RulesetEntries(m), direction, i, rule)
  {
    CarriedIsPosted(extra, m, direction, i, "name", rule.name);
    CarriedIsPosted(extra, m, direction, i, "ip_version", rule.ipVersion);
    CarriedIsPosted(extra, m, direction, i, "protocol", rule.protocol);
    CarriedIsPosted(extra, m, direction, i, "src_ip", rule.sourceIP);
    CarriedIsPosted(extra, m, direction, i, "dst_ip", rule.destIP);
    CarriedIsPosted(extra, m, direction, i, "src_port", rule.sourcePort);
    CarriedIsPosted(extra, m, direction, i, "dst_port", rule.destPort);
    CarriedIsPosted(extra, m, direction, i, "tcp_flags", rule.tcpFlags);
    forall x
      ensures Entry(Field(direction, i, "action"), x) in ExtraEntries(extra) + RulesetEntries(m) <==> x == rule.action
    {
      FormHoldsField(extra, m, direction, i, "action", x);
    }
  }

  /** Every part of every rule stands in the posted body under its own documented field name. */
  lemma PostedFields(extra: map<Text, Text>, m: map<Text, seq<RuleMap>>, rules: FirewallRules)
    requires PlainKeys(extra) && EncodesRuleset(m, rules)
    ensures ParseForm(FormBody(extra, m)).Some?
    ensures PostsList(ParseForm(FormBody(extra, m)).value, "input", rules.input)
    ensures PostsList(ParseForm(FormBody(extra, m)).value, "output", rules.output)
  {
    EncodedIsPlain(m, rules);
    FormEntriesClean(extra, m);
    ParseFormOfEntries(ExtraEntries(extra) + RulesetEntries(m));
    forall i | 0 <= i < |rules.input|
      ensures PostsRule(ExtraEntries(extra) + RulesetEntries(m), "input", i, rules.input[i])
    {
      EncodedCarries(ListFor(m, "input")[i], rules.input[i]);
      RuleIsPosted(extra, m, "input", i, rules.input[i]);
    }
    forall i | 0 <= i < |rules.output|
      ensures PostsRule(ExtraEntries(extra) + RulesetEntries(m), "output", i, rules.output[i])
    {
      EncodedCarries(ListFor(m, "output")[i], rules.output[i]);
      RuleIsPosted(extra, m, "output", i, rules.output[i]);
    }
  }
}
