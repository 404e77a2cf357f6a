/**
 Rebuilding a form from its entries, whatever their order, and the round trip
 with the encoder.
 */
module FormRoundTrip {
  import opened GoStrings
  import opened Strings
  import opened KeyOrder
  import opened FormEncoding
  import opened FormDecoding

  type FormMap = map<FormKey, Text>

  datatype Form = Form(extra: map<Text, Text>, input: seq<RuleMap>, output: seq<RuleMap>)

  function Collect(entries: seq<Entry>): FormMap {
    if entries == [] then map[]
    else Collect(entries[..|entries| - 1])[entries[|entries| - 1].key := entries[|entries| - 1].value]
  }

  function ScalarsOf(fm: FormMap): map<Text, Text> {
    map k | k in fm && k.Scalar? :: k.name := fm[k]
  }

  function IndicesOf(fm: FormMap, direction: Text): set<nat> {
    set k | k in fm && k.Field? && k.direction == direction :: k.index
  }

  function RuleAt(fm: FormMap, direction: Text, index: nat): RuleMap {
    map k | k in fm && k.Field? && k.direction == direction && k.index == index :: k.field := fm[k]
  }

  /** As many rules as there are distinct indices. */
  function RulesOf(fm: FormMap, direction: Text): seq<RuleMap> {
    seq(|IndicesOf(fm, direction)|, i requires i >= 0 => RuleAt(fm, direction, i))
  }

  function DecodeForm(body: Text): Option<Form> {
    var entries := ParseForm(body);
    if entries.None? || exists e <- entries.value :: e.key.Malformed? then None
    else
      var fm := Collect(entries.value);
      Some(Form(ScalarsOf(fm), RulesOf(fm, "input"), RulesOf(fm, "output")))
  }

  // ---- What collecting the encoder's entries gives

  lemma {:induction false} CollectAppend(a: seq<Entry>, b: seq<Entry>)
    ensures Collect(a + b) == Collect(a) + Collect(b)
  {
    if b == [] {
      assert a + b == a;
    } else {
      var n := |b| - 1;
      assert (a + b)[..|a| + n] == a + b[..n];
      CollectAppend(a, b[..n]);
    }
  }

  lemma {:induction false} CollectFields(direction: Text, index: nat, rule: RuleMap, keys: seq<Text>)
    requires forall k <- keys :: k in rule
    ensures forall k :: k in Collect(FieldEntries(direction, index, rule, keys)) <==>
                        k.Field? && k.direction == direction && k.index == index && k.field in keys
    ensures forall k | k in Collect(FieldEntries(direction, index, rule, keys)) ::
              k.Field? && k.field in rule && Collect(FieldEntries(direction, index, rule, keys))[k] == rule[k.field]
  {
    if keys != [] {
      var before, last := keys[..|keys| - 1], keys[|keys| - 1];
      assert keys == before + [last];
      assert last in keys;
      var es := FieldEntries(direction, index, rule, keys);
      assert es[..|keys| - 1] == FieldEntries(direction, index, rule, before);
      CollectFields(direction, index, rule, before);
    }
  }

  lemma {:induction false} CollectScalars(extra: map<Text, Text>, keys: seq<Text>)
    requires forall k <- keys :: k in extra
    ensures forall k :: k in Collect(ScalarEntries(extra, keys)) <==> k.Scalar? && k.name in keys
    ensures forall k | k in Collect(ScalarEntries(extra, keys)) ::
              k.Scalar? && k.name in extra && Collect(ScalarEntries(extra, keys))[k] == extra[k.name]
  {
    if keys != [] {
      var before, last := keys[..|keys| - 1], keys[|keys| - 1];
      assert keys == before + [last];
      assert last in keys;
      assert ScalarEntries(extra, keys)[..|keys| - 1] == ScalarEntries(extra, before);
      CollectScalars(extra, before);
    }
  }

  /** The key names a field that some rule of the list has. */
  ghost predicate HasField(direction: Text, rules: seq<RuleMap>, k: FormKey) {
    k.Field? && k.direction == direction && k.index < |rules| && k.field in rules[k.index]
  }

  ghost predicate HoldsList(fm: FormMap, direction: Text, rules: seq<RuleMap>) {
    && (forall k :: k in fm <==> HasField(direction, rules, k))
    && forall k | HasField(direction, rules, k) :: k in fm && fm[k] == rules[k.index][k.field]
  }

  lemma {:induction false} CollectList(direction: Text, rules: seq<RuleMap>)
    ensures HoldsList(Collect(ListEntries(direction, rules)), direction, rules)
  {
    if rules != [] {
      var n := |rules| - 1;
      CollectList(direction, rules[..n]);
      CollectRule(direction, n, rules[n]);
      CollectAppend(ListEntries(direction, rules[..n]), RuleEntries(direction, n, rules[n]));
      HoldsListSnoc(Collect(ListEntries(direction, rules[..n])), Collect(RuleEntries(direction, n, rules[n])),
                    direction, rules);
    }
  }

  ghost predicate HoldsRule(fm: FormMap, direction: Text, index: nat, rule: RuleMap) {
    && (forall k :: k in fm <==> k.Field? && k.direction == direction && k.index == index && k.field in rule)
    && forall k | k in fm :: k.Field? && k.field in rule && fm[k] == rule[k.field]
  }

  lemma CollectRule(direction: Text, index: nat, rule: RuleMap)
    ensures HoldsRule(Collect(RuleEntries(direction, index, rule)), direction, index, rule)
  {
    CollectFields(direction, index, rule, KeysInOrder(rule.Keys));
  }

  lemma HoldsListSnoc(front: FormMap, last: FormMap, direction: Text, rules: seq<RuleMap>)
    requires rules != []
    requires HoldsList(front, direction, rules[..|rules| - 1])
    requires HoldsRule(last, direction, |rules| - 1, rules[|rules| - 1])
    ensures HoldsList(front + last, direction, rules)
  {
    var n := |rules| - 1;
    forall k
      ensures k in front + last <==> HasField(direction, rules, k)
      ensures HasField(direction, rules, k) ==> (front + last)[k] == rules[k.index][k.field]
    {
      assert k in front <==> HasField(direction, rules[..n], k);
    }
  }

  ghost predicate HasRuleField(rules: map<Text, seq<RuleMap>>, directions: seq<Text>, k: FormKey)
    requires forall d <- directions :: d in rules
  {
    k.Field? && k.direction in directions && HasField(k.direction, rules[k.direction], k)
  }

  lemma {:induction false} CollectDirections(rules: map<Text, seq<RuleMap>>, directions: seq<Text>)
    requires forall d <- directions :: d in rules
    ensures forall k :: k in Collect(DirectionEntries(rules, directions)) <==> HasRuleField(rules, directions, k)
    ensures forall k | k in Collect(DirectionEntries(rules, directions)) ::
              && HasRuleField(rules, directions, k)
              && Collect(DirectionEntries(rules, directions))[k] == rules[k.direction][k.index][k.field]
  {
    if directions != [] {
      var before, last := directions[..|directions| - 1], directions[|directions| - 1];
      assert directions == before + [last];
      assert last in directions;
      CollectDirections(rules, before);
      CollectList(last, rules[last]);
      CollectAppend(DirectionEntries(rules, before), ListEntries(last, rules[last]));
      var front, back := Collect(DirectionEntries(rules, before)), Collect(ListEntries(last, rules[last]));
      forall k
        ensures k in front + back <==> HasRuleField(rules, directions, k)
        ensures k in front + back ==> (front + back)[k] == rules[k.direction][k.index][k.field]
      {
        assert k in back <==> HasField(last, rules[last], k);
        assert k in front <==> HasRuleField(rules, before, k);
      }
    }
  }

  /** The map of a whole form: its scalars, and the fields of its rules. */
  ghost predicate HoldsForm(fm: FormMap, extra: map<Text, Text>, rules: map<Text, seq<RuleMap>>) {
    && (forall k :: k in fm <==> (k.Scalar? && k.name in extra) || (k.Field? && HasField(k.direction, ListFor(rules, k.direction), k)))
    && (forall k | k in fm && k.Scalar? :: k.name in extra && fm[k] == extra[k.name])
    && (forall k | k in fm && k.Field? ::
          HasField(k.direction, ListFor(rules, k.direction), k) && fm[k] == ListFor(rules, k.direction)[k.index][k.field])
  }

  lemma CollectForm(extra: map<Text, Text>, rules: map<Text, seq<RuleMap>>)
    ensures HoldsForm(Collect(ExtraEntries(extra) + RulesetEntries(rules)), extra, rules)
  {
    var scalars, fields := Collect(ExtraEntries(extra)), Collect(RulesetEntries(rules));
    CollectAppend(ExtraEntries(extra), RulesetEntries(rules));
    CollectScalars(extra, KeysInOrder(extra.Keys));
    CollectDirections(rules, KeysInOrder(rules.Keys));
    forall k
      ensures k in scalars <==> k.Scalar? && k.name in extra
      ensures k in fields <==> k.Field? && HasField(k.direction, ListFor(rules, k.direction), k)
      ensures k in fields ==> fields[k] == ListFor(rules, k.direction)[k.index][k.field]
    {
      if k.Scalar? {
        assert k.name in KeysInOrder(extra.Keys) <==> k.name in extra.Keys;
      }
      if k.Field? {
        assert k.direction in KeysInOrder(rules.Keys) <==> k.direction in rules.Keys;
      }
    }
  }

  // ---- Rebuilding

  lemma RebuildScalars(fm: FormMap, extra: map<Text, Text>, rules: map<Text, seq<RuleMap>>)
    requires HoldsForm(fm, extra, rules)
    ensures ScalarsOf(fm) == extra
  {
    forall name
      ensures name in ScalarsOf(fm) <==> name in extra
    {
      assert Scalar(name) in fm <==> name in extra;
    }
  }

  lemma RebuildRule(fm: FormMap, extra: map<Text, Text>, rules: map<Text, seq<RuleMap>>, direction: Text, i: nat)
    requires HoldsForm(fm, extra, rules) && i < |ListFor(rules, direction)|
    ensures RuleAt(fm, direction, i) == ListFor(rules, direction)[i]
  {
    var rule := ListFor(rules, direction)[i];
    forall field
      ensures field in RuleAt(fm, direction, i) <==> field in rule
    {
      assert Field(direction, i, field) in fm <==> field in rule;
    }
  }

  ghost predicate NoneEmpty(rules: seq<RuleMap>) {
    forall rule <- rules :: rule != map[]
  }

  lemma IndexPresent(fm: FormMap, extra: map<Text, Text>, rules: map<Text, seq<RuleMap>>, direction: Text, i: nat)
    requires HoldsForm(fm, extra, rules)
    ensures i in IndicesOf(fm, direction) <==> i < |ListFor(rules, direction)| && ListFor(rules, direction)[i] != map[]
  {
    var list := ListFor(rules, direction);
    if i < |list| && list[i] != map[] {
      var field :| field in list[i];
      assert Field(direction, i, field) in fm;
    }
    if i in IndicesOf(fm, direction) {
      var k :| k in fm && k.Field? && k.direction == direction && k.index == i;
      assert k.field in list[i];
    }
  }

  ghost function Below(n: nat): (s: set<nat>)
    ensures |s| == n && forall i: nat :: i in s <==> i < n
  {
    if n == 0 then {} else Below(n - 1) + {n - 1}
  }

  lemma SmallerSubset(a: set<nat>, b: set<nat>)
    requires a <= b
    ensures |a| <= |b| && (|a| == |b| ==> a == b)
  {
    assert |b| == |a| + |b - a| by {
      assert b == a + (b - a);
    }
    if a != b {
      var x :| x in b - a;
      assert |b - a| > 0;
    }
  }

  lemma RebuildRules(fm: FormMap, extra: map<Text, Text>, rules: map<Text, seq<RuleMap>>, direction: Text)
    requires HoldsForm(fm, extra, rules) && NoneEmpty(ListFor(rules, direction))
    ensures RulesOf(fm, direction) == ListFor(rules, direction)
  {
    var list := ListFor(rules, direction);
    forall i: nat
      ensures i in IndicesOf(fm, direction) <==> i in Below(|list|)
    {
      IndexPresent(fm, extra, rules, direction, i);
      if i < |list| {
        assert list[i] in list;
      }
    }
    assert IndicesOf(fm, direction) == Below(|list|);
    forall i | 0 <= i < |list|
      ensures RulesOf(fm, direction)[i] == list[i]
    {
      RebuildRule(fm, extra, rules, direction, i);
    }
  }

  /** The encoder emits nothing for an empty map, so its index is missing and the list comes back shorter. */
  lemma EmptyRuleIsLost(fm: FormMap, extra: map<Text, Text>, rules: map<Text, seq<RuleMap>>, direction: Text)
    requires HoldsForm(fm, extra, rules) && !NoneEmpty(ListFor(rules, direction))
    ensures |RulesOf(fm, direction)| < |ListFor(rules, direction)|
  {
    var list, indices := ListFor(rules, direction), IndicesOf(fm, direction);
    var rule :| rule in list && rule == map[];
    var i: nat :| i < |list| && list[i] == rule;
    IndexPresent(fm, extra, rules, direction, i);
    forall j: nat | j in indices
      ensures j in Below(|list|)
    {
      IndexPresent(fm, extra, rules, direction, j);
    }
    SmallerSubset(indices, Below(|list|));
    assert i in Below(|list|) && i !in indices;
  }

  // ---- The round trip

  ghost predicate PlainKeys(m: map<Text, Text>) {
    forall k <- m :: PlainName(k)
  }

  ghost predicate PlainRules(rules: map<Text, seq<RuleMap>>) {
    forall d <- rules :: PlainName(d) && forall rule <- rules[d] :: PlainKeys(rule)
  }

  lemma {:induction false} ListEntriesClean(direction: Text, rules: seq<RuleMap>)
    requires PlainName(direction) && forall rule <- rules :: PlainKeys(rule)
    ensures Clean(ListEntries(direction, rules))
  {
    if rules != [] {
      var n := |rules| - 1;
      assert rules[n] in rules && forall r <- rules[..n] :: r in rules;
      ListEntriesClean(direction, rules[..n]);
      var keys := KeysInOrder(rules[n].Keys);
      assert forall k <- keys :: k in rules[n].Keys;
      assert Clean(RuleEntries(direction, n, rules[n])) by {
        forall e <- RuleEntries(direction, n, rules[n])
          ensures CleanKey(e.key)
        {
          var j :| 0 <= j < |keys| && e == RuleEntries(direction, n, rules[n])[j];
          assert keys[j] in keys;
        }
      }
    }
  }

  lemma {:induction false} DirectionEntriesClean(rules: map<Text, seq<RuleMap>>, directions: seq<Text>)
    requires PlainRules(rules) && forall d <- directions :: d in rules
    ensures Clean(DirectionEntries(rules, directions))
  {
    if directions != [] {
      var before, last := directions[..|directions| - 1], directions[|directions| - 1];
      assert last in directions && forall d <- before :: d in directions;
      DirectionEntriesClean(rules, before);
      ListEntriesClean(last, rules[last]);
    }
  }

  lemma FormEntriesClean(extra: map<Text, Text>, rules: map<Text, seq<RuleMap>>)
    requires PlainKeys(extra) && PlainRules(rules)
    ensures Clean(ExtraEntries(extra) + RulesetEntries(rules))
  {
    var keys, dirs := KeysInOrder(extra.Keys), KeysInOrder(rules.Keys);
    assert forall d <- dirs :: d in rules.Keys;
    DirectionEntriesClean(rules, dirs);
    forall e <- ExtraEntries(extra)
      ensures CleanKey(e.key)
    {
      var j :| 0 <= j < |keys| && e == ExtraEntries(extra)[j];
      assert keys[j] in keys && keys[j] in extra.Keys;
    }
  }

  ghost function FormBody(extra: map<Text, Text>, rules: map<Text, seq<RuleMap>>): Text {
    Join(Rendered(ExtraEntries(extra) + RulesetEntries(rules)), '&')
  }

  lemma CleanDecodes(body: Text, entries: seq<Entry>)
    requires ParseForm(body) == Some(entries) && Clean(entries)
    ensures var fm := Collect(entries);
            DecodeForm(body) == Some(Form(ScalarsOf(fm), RulesOf(fm, "input"), RulesOf(fm, "output")))
  {
    assert forall e <- entries :: CleanKey(e.key);
  }

  lemma DecodedBody(extra: map<Text, Text>, rules: map<Text, seq<RuleMap>>) returns (fm: FormMap)
    requires PlainKeys(extra) && PlainRules(rules)
    ensures HoldsForm(fm, extra, rules)
    ensures DecodeForm(FormBody(extra, rules)) == Some(Form(ScalarsOf(fm), RulesOf(fm, "input"), RulesOf(fm, "output")))
  {
    var entries := ExtraEntries(extra) + RulesetEntries(rules);
    fm := Collect(entries);
    FormEntriesClean(extra, rules);
    ParseFormOfEntries(entries);
    CleanDecodes(FormBody(extra, rules), entries);
    CollectForm(extra, rules);
  }

  lemma DirectionRebuilt(fm: FormMap, extra: map<Text, Text>, rules: map<Text, seq<RuleMap>>, direction: Text)
    requires HoldsForm(fm, extra, rules)
    ensures RulesOf(fm, direction) == ListFor(rules, direction) <==> NoneEmpty(ListFor(rules, direction))
  {
    if NoneEmpty(ListFor(rules, direction)) {
      RebuildRules(fm, extra, rules, direction);
    } else {
      EmptyRuleIsLost(fm, extra, rules, direction);
    }
  }

  /** Reading the encoder's output gives back the maps it was given exactly when no rule map is empty. */
  lemma RoundTripIff(extra: map<Text, Text>, rules: map<Text, seq<RuleMap>>)
    requires PlainKeys(extra) && PlainRules(rules)
    ensures DecodeForm(FormBody(extra, rules)) == Some(Form(extra, ListFor(rules, "input"), ListFor(rules, "output"))) <==>
            NoneEmpty(ListFor(rules, "input")) && NoneEmpty(ListFor(rules, "output"))
  {
    var fm := DecodedBody(extra, rules);
    RebuildScalars(fm, extra, rules);
    DirectionRebuilt(fm, extra, rules, "input");
    DirectionRebuilt(fm, extra, rules, "output");
  }
}
