/**
 Reading a firewall form back: splitting on '&' and the first '=', unescaping,
 and parsing the bracket keys. Reading undoes the encoder.
 */
module FormDecoding {
  import opened GoStrings
  import opened Strings
  import opened KeyOrder
  import opened FormEncoding

  // ---- Reading entries

  /** The content of a piece that ends in the closing bracket. */
  function Bracketed(piece: Text): Option<Text> {
    if piece != "" && piece[|piece| - 1] == ']' && ']' !in piece[..|piece| - 1]
    then Some(piece[..|piece| - 1]) else None
  }

  function ParseKey(text: Text): FormKey {
    if '[' !in text then Scalar(text)
    else
      var pieces := Split(text, '[');
      if |pieces| != 4 || pieces[0] != "rules" then Malformed(text)
      else
        var direction, index, field := Bracketed(pieces[1]), Bracketed(pieces[2]), Bracketed(pieces[3]);
        if direction.Some? && index.Some? && field.Some? && index.value != "" && AllDigits(index.value)
        then Field(direction.value, Value(index.value), field.value)
        else Malformed(text)
  }

  function ParsePair(part: Text): Option<Entry> {
    var cut := if '=' in part then IndexOf(part, '=') else |part|;
    var key := Unescape(part[..cut]);
    var value := Unescape(if cut < |part| then part[cut + 1..] else "");
    if key.Some? && value.Some? then Some(Entry(ParseKey(key.value), value.value)) else None
  }

  /** Empty parts are skipped. */
  function ParsePairs(parts: seq<Text>): Option<seq<Entry>> {
    if parts == [] then Some([])
    else
      var rest := ParsePairs(parts[1..]);
      if parts[0] == "" then rest
      else
        var first := ParsePair(parts[0]);
        if first.Some? && rest.Some? then Some([first.value] + rest.value) else None
  }

  function ParseForm(body: Text): Option<seq<Entry>> {
    ParsePairs(Split(body, '&'))
  }

  /** Bytes with a meaning in a form; the encoder writes them in keys as they are. */
  predicate Reserved(c: char) {
    c == '&' || c == '=' || c == '%' || c == '+'
  }

  /** Names of form fields: no reserved byte and no bracket. */
  predicate PlainName(s: Text) {
    forall c <- s :: !Reserved(c) && c != '[' && c != ']'
  }

  predicate CleanKey(k: FormKey) {
    match k
    case Scalar(name) => PlainName(name)
    case Field(direction, _, field) => PlainName(direction) && PlainName(field)
    case Malformed(_) => false
  }

  predicate Clean(entries: seq<Entry>) {
    forall e <- entries :: CleanKey(e.key)
  }

  lemma CleanKeyText(k: FormKey)
    requires CleanKey(k)
    ensures forall c <- KeyText(k) :: !Reserved(c)
  {
    match k
    case Scalar(name) =>
    case Field(direction, index, field) =>
      assert forall c <- "rules[" :: !Reserved(c);
      assert forall c <- "][" :: !Reserved(c);
      assert forall c <- Decimal(index) :: !Reserved(c);
  }

  lemma ClosedPiece(s: Text)
    requires ']' !in s
    ensures Bracketed(s + "]") == Some(s)
  {
    assert (s + "]")[..|s|] == s;
  }

  lemma JoinedFour(a: Text, b: Text, c: Text, d: Text)
    ensures Join([a, b, c, d], '[') == a + ['['] + (b + ['['] + (c + ['['] + d))
  {
    assert [a, b, c, d][1..] == [b, c, d] && [b, c, d][1..] == [c, d] && [c, d][1..] == [d];
    assert Join([c, d], '[') == c + ['['] + d;
    assert Join([b, c, d], '[') == b + ['['] + Join([c, d], '[');
  }

  lemma FieldKeyText(direction: Text, index: nat, field: Text)
    ensures KeyText(Field(direction, index, field)) ==
            Join(["rules", direction + "]", Decimal(index) + "]", field + "]"], '[')
  {
    var b, c, d := direction + "]", Decimal(index) + "]", field + "]";
    JoinedFour("rules", b, c, d);
    assert "rules[" == "rules" + ['['] && "][" == "]" + ['['];
    var front := "rules[" + direction + "][";
    assert front == "rules" + ['['] + b + ['['];
    assert front + Decimal(index) + "][" == front + (c + ['[']);
    assert KeyText(Field(direction, index, field)) == front + (c + ['[']) + d;
  }

  lemma KeyPieces(direction: Text, index: nat, field: Text)
    requires '[' !in direction && '[' !in field
    ensures Split(KeyText(Field(direction, index, field)), '[') ==
            ["rules", direction + "]", Decimal(index) + "]", field + "]"]
  {
    FieldKeyText(direction, index, field);
    var pieces := ["rules", direction + "]", Decimal(index) + "]", field + "]"];
    assert '[' !in pieces[0] && '[' !in pieces[1] && '[' !in pieces[2] && '[' !in pieces[3];
    SplitJoin(pieces, '[');
  }

  lemma ParseFieldKey(direction: Text, index: nat, field: Text)
    requires PlainName(direction) && PlainName(field)
    ensures ParseKey(KeyText(Field(direction, index, field))) == Field(direction, index, field)
  {
    var text := KeyText(Field(direction, index, field));
    KeyPieces(direction, index, field);
    assert text[5] == '[';
    assert ']' !in Decimal(index);
    ClosedPiece(direction);
    ClosedPiece(Decimal(index));
    ClosedPiece(field);
    ValueOfDecimal(index);
  }

  lemma ParseKeyText(k: FormKey)
    requires CleanKey(k)
    ensures ParseKey(KeyText(k)) == k
  {
    if k.Field? {
      ParseFieldKey(k.direction, k.index, k.field);
    } else {
      assert '[' !in k.name;
    }
  }

  lemma ParseRendered(e: Entry)
    requires CleanKey(e.key)
    ensures ParsePair(Render(e)) == Some(e) && Render(e) != "" && '&' !in Render(e)
  {
    var key, value := KeyText(e.key), Escape(e.value);
    CleanKeyText(e.key);
    EscapeIsClean(e.value);
    assert '=' !in key;
    assert '%' !in key;
    assert '+' !in key;
    assert '&' !in key + ['='] + value;
    IndexOfAppend(key, '=', value);
    assert Render(e) == key + ['='] + value;
    assert Render(e)[|key|] == '=';
    assert Render(e)[..|key|] == key && Render(e)[|key| + 1..] == value;
    UnescapePlain(key);
    UnescapeEscape(e.value);
    ParseKeyText(e.key);
  }

  lemma {:induction false} ParseRenderedAll(entries: seq<Entry>)
    requires Clean(entries)
    ensures ParsePairs(Rendered(entries)) == Some(entries)
    ensures forall p <- Rendered(entries) :: '&' !in p
  {
    if entries != [] {
      var rest := entries[1..];
      assert entries[0] in entries && forall e <- rest :: e in entries;
      assert entries == [entries[0]] + rest;
      RenderedAppend([entries[0]], rest);
      assert Rendered(entries)[1..] == Rendered(rest);
      ParseRendered(entries[0]);
      ParseRenderedAll(rest);
    }
  }

  /** Reading a rendered form gives back its entries, in order. */
  lemma ParseFormOfEntries(entries: seq<Entry>)
    requires Clean(entries)
    ensures ParseForm(Join(Rendered(entries), '&')) == Some(entries)
  {
    ParseRenderedAll(entries);
    if entries != [] {
      SplitJoin(Rendered(entries), '&');
    } else {
      assert Split("", '&') == [""];
      assert [""][1..] == [];
    }
  }

  lemma BareName(a: Text)
    requires PlainName(a)
    ensures ParsePair(a) == Some(Entry(Scalar(a), ""))
  {
    assert '=' !in a && '%' !in a && '+' !in a && '[' !in a;
    UnescapePlain(a);
    assert a[..|a|] == a;
  }

  lemma JoinedTwo(a: Text, b: Text)
    ensures Join([a, b], '&') == a + ['&'] + b
  {
    assert [a, b][1..] == [b];
  }

  lemma ParsedTwo(a: Text, b: Text)
    requires a != "" && b != "" && ParsePair(a).Some? && ParsePair(b).Some?
    ensures ParsePairs([a, b]) == Some([ParsePair(a).value, ParsePair(b).value])
  {
    assert [a, b][1..] == [b] && [b][1..] == [];
    var x, y := ParsePair(a).value, ParsePair(b).value;
    assert [y] + [] == [y] && [x] + [y] == [x, y];
    assert ParsePairs([b]) == Some([y]);
  }

  lemma RenderedApart(a: Text, b: Text, value: Text)
    ensures Render(Entry(Scalar(a + "&" + b), value)) == Join([a, Render(Entry(Scalar(b), value))], '&')
  {
    JoinedTwo(a, Render(Entry(Scalar(b), value)));
  }

  /** Keys are not escaped: one that holds an ampersand reads back as two fields. */
  lemma AmpersandSplitsKey(a: Text, b: Text, value: Text)
    requires PlainName(a) && PlainName(b) && a != ""
    ensures ParseForm(Render(Entry(Scalar(a + "&" + b), value))) == Some([Entry(Scalar(a), ""), Entry(Scalar(b), value)])
  {
    var last := Render(Entry(Scalar(b), value));
    assert Split(Join([a, last], '&'), '&') == [a, last] by {
      ParseRendered(Entry(Scalar(b), value));
      assert '&' !in a;
      SplitJoin([a, last], '&');
    }
    assert ParsePairs([a, last]) == Some([Entry(Scalar(a), ""), Entry(Scalar(b), value)]) by {
      ParseRendered(Entry(Scalar(b), value));
      BareName(a);
      ParsedTwo(a, last);
    }
    RenderedApart(a, b, value);
  }
}
