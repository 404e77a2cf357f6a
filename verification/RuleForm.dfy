/**
 One firewall rule as a map of form fields (encodeRule): which fields the map
 holds, and how the rule is read back from it.
 */
module RuleForm {
  import opened GoStrings
  import opened Strings
  import opened KeyOrder
  import opened Rules
  import opened FormEncoding
  import opened FormDecoding
  import opened FormRoundTrip

  /** A field the body does not carry acts like the empty value. */
  function FieldOf(data: RuleMap, name: Text): Text {
    if name in data then data[name] else ""
  }

  function RuleFrom(data: RuleMap): FirewallRule {
    FirewallRule(
      FieldOf(data, "name"), FieldOf(data, "ip_version"), FieldOf(data, "action"), FieldOf(data, "protocol"),
      FieldOf(data, "src_ip"), FieldOf(data, "dst_ip"), FieldOf(data, "src_port"), FieldOf(data, "dst_port"),
      FieldOf(data, "tcp_flags"))
  }

  /** The per-rule fields the API documents. */
  function AllowedFields(): set<Text> {
    {"name", "ip_version", "dst_ip", "src_ip", "dst_port", "src_port", "protocol", "tcp_flags", "action"}
  }

  ghost predicate Distinct(names: seq<Text>) {
    forall i, j | 0 <= i < j < |names| :: names[i] != names[j]
  }

  /** The fields in the order encodeRule looks at them. */
  function FieldNames(): (names: seq<Text>)
    ensures |names| == 9
  {
    ["name", "ip_version", "action", "protocol", "src_ip", "dst_ip", "src_port", "dst_port", "tcp_flags"]
  }

  function FieldValues(r: FirewallRule): (values: seq<Text>)
    ensures |values| == 9
  {
    [r.name, r.ipVersion, r.action, r.protocol, r.sourceIP, r.destIP, r.sourcePort, r.destPort, r.tcpFlags]
  }

  lemma FieldNamesDiffer()
    ensures Distinct(FieldNames())
  {
    assert "action"[0] != "src_ip"[0] && "action"[0] != "dst_ip"[0] && "src_ip"[0] != "dst_ip"[0];
    assert "protocol"[0] != "src_port"[0] && "protocol"[0] != "dst_port"[0] && "src_port"[0] != "dst_port"[0];
  }

  /** Letters and underscores only, as the key grammar wants. */
  predicate LetterName(s: Text) {
    forall c <- s :: 'a' <= c <= 'z' || c == '_'
  }

  lemma FieldNamesAllowed()
    ensures forall n <- FieldNames() :: n in AllowedFields() && n != "" && LetterName(n) && PlainName(n)
  {
    forall n <- FieldNames()
      ensures n in AllowedFields() && n != "" && LetterName(n) && PlainName(n)
    {
      var i :| 0 <= i < 9 && FieldNames()[i] == n;
      AllowedName(i);
    }
  }

  lemma AllowedName(i: nat)
    requires i < 9
    ensures FieldNames()[i] in AllowedFields() && FieldNames()[i] != "" && LetterName(FieldNames()[i])
  {
    var n := FieldNames()[i];
    assert i == 0 || i == 1 || i == 2 || i == 3 || i == 4 || i == 5 || i == 6 || i == 7 || i == 8;
  }

  const ACTION := 2

  /** The first n fields are stored: the action always, the others unless empty. */
  ghost predicate Stored(data: RuleMap, names: seq<Text>, values: seq<Text>, n: nat) {
    && n <= |names| == |values| && ACTION < |names|
    && (forall j | 0 <= j < n :: FieldOf(data, names[j]) == values[j])
    && (forall k <- data :: k in names[..n])
    && (forall k <- data :: k == names[ACTION] || data[k] != "")
    && (n > ACTION ==> names[ACTION] in data)
  }

  method StoreField(data: RuleMap, names: seq<Text>, values: seq<Text>, n: nat) returns (data': RuleMap)
    requires Distinct(names) && n < |names| && Stored(data, names, values, n)
    ensures Stored(data', names, values, n + 1)
  {
    data' := data;
    assert names[..n + 1] == names[..n] + [names[n]];
    assert names[n] !in data;
    if n == ACTION || values[n] != "" {
      data' := data'[names[n] := values[n]];
    }
  }

  ghost predicate EncodesRule(data: RuleMap, rule: FirewallRule) {
    && RuleFrom(data) == rule
    && "action" in data
    && forall n <- data :: n in FieldNames() && (n == "action" || data[n] != "")
  }

  /** The field is present exactly when the value is not empty, and then holds it. */
  ghost predicate Carries(data: RuleMap, name: Text, value: Text) {
    (name in data <==> value != "") && (name in data ==> data[name] == value)
  }

  /** Which form field carries which part of the rule. */
  ghost predicate CarriesRule(data: RuleMap, rule: FirewallRule) {
    && Carries(data, "name", rule.name)
    && Carries(data, "ip_version", rule.ipVersion)
    && "action" in data && data["action"] == rule.action
    && Carries(data, "protocol", rule.protocol)
    && Carries(data, "src_ip", rule.sourceIP)
    && Carries(data, "dst_ip", rule.destIP)
    && Carries(data, "src_port", rule.sourcePort)
    && Carries(data, "dst_port", rule.destPort)
    && Carries(data, "tcp_flags", rule.tcpFlags)
  }

  lemma EncodedCarries(data: RuleMap, rule: FirewallRule)
    requires EncodesRule(data, rule)
    ensures CarriesRule(data, rule)
  {
    assert "action" == FieldNames()[ACTION];
    FieldNamesDiffer();
    var names := FieldNames();
    assert names[0] != names[ACTION] && names[1] != names[ACTION] && names[3] != names[ACTION] && names[4] != names[ACTION];
    assert names[5] != names[ACTION] && names[6] != names[ACTION] && names[7] != names[ACTION] && names[8] != names[ACTION];
  }

  method EncodeRule(rule: FirewallRule) returns (data: RuleMap)
    ensures CarriesRule(data, rule)
    ensures data.Keys <= {"name", "ip_version", "action", "protocol", "src_ip", "dst_ip", "src_port", "dst_port", "tcp_flags"}
    ensures EncodesRule(data, rule)
  {
    FieldNamesDiffer();
    data := StoreFields(FieldNames(), FieldValues(rule));
    StoredEncodes(data, rule);
    EncodedCarries(data, rule);
    assert forall n <- data :: n in FieldNames();
  }

  lemma StoredEncodes(data: RuleMap, rule: FirewallRule)
    requires Stored(data, FieldNames(), FieldValues(rule), 9)
    ensures EncodesRule(data, rule)
  {
    var names, values := FieldNames(), FieldValues(rule);
    assert names[..9] == names;
    assert FieldOf(data, names[0]) == values[0] && FieldOf(data, names[1]) == values[1] && FieldOf(data, names[2]) == values[2];
    assert FieldOf(data, names[3]) == values[3] && FieldOf(data, names[4]) == values[4] && FieldOf(data, names[5]) == values[5];
    assert FieldOf(data, names[6]) == values[6] && FieldOf(data, names[7]) == values[7] && FieldOf(data, names[8]) == values[8];
  }

  method StoreFields(names: seq<Text>, values: seq<Text>) returns (data: RuleMap)
    requires Distinct(names) && |names| == |values| == 9
    ensures Stored(data, names, values, 9)
  {
    data := map[];
    data := StoreField(data, names, values, 0);
    data := StoreField(data, names, values, 1);
    data := StoreField(data, names, values, ACTION);
    data := StoreField(data, names, values, 3);
    data := StoreField(data, names, values, 4);
    data := StoreField(data, names, values, 5);
    data := StoreField(data, names, values, 6);
    data := StoreField(data, names, values, 7);
    data := StoreField(data, names, values, 8);
  }
}
