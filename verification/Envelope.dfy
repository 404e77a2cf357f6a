/** Stripping the {"<resource>": ...} envelope from a response (client.go, unwrapResponse), on JSON trees. */
module Envelope {
  import opened GoStrings

  datatype Json =
    | Null
    | Bool(b: bool)
    | Num(digits: Text)
    | Str(text: Text)
    | Arr(items: seq<Json>)
    | Obj(members: map<Text, Json>)

  /** A response body: empty, a JSON text (perhaps after white space), or no JSON, told apart by its first byte. */
  datatype Body = Empty | Document(value: Json, padded: bool) | NotJson(first: Byte)

  datatype Result = Unchanged | Inner(value: Json) | ParseError

  predicate Container(v: Json) {
    v.Arr? || v.Obj?
  }

  /** The element seen as an object: anything else decodes to no members. */
  function Members(item: Json): map<Text, Json> {
    if item.Obj? then item.members else map[]
  }

  /** A one-member object around an object or an array. */
  ghost predicate Wraps(item: Json, k: Text, x: Json) {
    item == Obj(map[k := x]) && Container(x)
  }

  ghost predicate Wrapper(item: Json) {
    exists k, x :: Wraps(item, k, x)
  }

  /** The only key of a one-member object. */
  function OnlyKey(m: map<Text, Json>): (k: Text)
    requires |m| == 1
    ensures k in m && m == map[k := m[k]]
  {
    OneMember(m);
    var k :| k in m && m.Keys == {k};
    k
  }

  lemma OneMember(m: map<Text, Json>)
    requires |m| == 1
    ensures exists k :: k in m && m.Keys == {k}
    ensures forall k, k' | k in m && k' in m && m.Keys == {k} && m.Keys == {k'} :: k == k'
  {
    assert |m.Keys| == 1;
    var k :| k in m.Keys;
    assert m.Keys - {k} == {} by {
      assert |m.Keys - {k}| == 0;
    }
    assert m.Keys == {k};
  }

  ghost function KeyOf(item: Json): Text
    requires Wrapper(item)
  {
    var k, x :| Wraps(item, k, x);
    k
  }

  ghost function PayloadOf(item: Json): Json
    requires Wrapper(item)
  {
    var k, x :| Wraps(item, k, x);
    x
  }

  lemma WrapperIsWrapped(item: Json)
    requires Wrapper(item)
    ensures Wraps(item, KeyOf(item), PayloadOf(item))
    ensures forall k, x | Wraps(item, k, x) :: k == KeyOf(item) && x == PayloadOf(item)
  {
    var k, x := KeyOf(item), PayloadOf(item);
    var k0, x0 :| Wraps(item, k0, x0);
    assert map[k0 := x0].Keys == {k0};
    forall k', x' | Wraps(item, k', x')
      ensures k' == k0 && x' == x0
    {
      assert map[k' := x'].Keys == {k'};
      assert k0 in map[k' := x'];
    }
  }

  ghost predicate AllWrappers(items: seq<Json>) {
    forall i | 0 <= i < |items| :: Wrapper(items[i])
  }

  /** Once a key is not empty all later keys equal it; leading empty keys pass unnoticed. */
  ghost predicate KeysAgree(items: seq<Json>)
    requires AllWrappers(items)
  {
    forall i, j | 0 <= i < j < |items| :: KeyOf(items[i]) != "" ==> KeyOf(items[j]) == KeyOf(items[i])
  }

  /** The lists the code takes for a list of envelopes. */
  ghost predicate Unwraps(items: seq<Json>) {
    items != [] && AllWrappers(items) && KeysAgree(items)
  }

  /** What an element becomes: its payload, or null when it lacks the common key. */
  ghost function Unwrapped(item: Json, commonKey: Text): Json
    requires Wrapper(item)
  {
    if KeyOf(item) == commonKey then PayloadOf(item) else Null
  }

  /** The list the code produces from a list it takes for envelopes. */
  ghost predicate Produced(items: seq<Json>, out: seq<Json>)
    requires items != [] && AllWrappers(items)
  {
    |out| == |items| && forall i | 0 <= i < |items| :: out[i] == Unwrapped(items[i], KeyOf(items[|items| - 1]))
  }

  /** Reads one element: whether it is a wrapper, and its key. */
  method ReadWrapper(item: Json) returns (wrapper: bool, k: Text)
    ensures wrapper <==> Wrapper(item)
    ensures wrapper ==> k == KeyOf(item)
  {
    var m := Members(item);
    if Wrapper(item) {
      WrapperIsWrapped(item);
      assert m.Keys == {KeyOf(item)};
      assert |m.Keys| == 1;
    }
    wrapper, k := false, "";
    if |m| == 1 {
      k := OnlyKey(m);
      wrapper := Container(m[k]);
      if wrapper {
        assert Wraps(item, k, m[k]);
        WrapperIsWrapped(item);
      }
    }
  }

  /** Only objects and arrays are taken for the payload of a wrapper. */
  lemma WrapperIff(k: Text, v: Json)
    ensures Wrapper(Obj(map[k := v])) <==> v.Arr? || v.Obj?
    ensures v.Arr? || v.Obj? ==> KeyOf(Obj(map[k := v])) == k && PayloadOf(Obj(map[k := v])) == v
    ensures !v.Obj? ==> !Wrapper(v)
  {
    var item := Obj(map[k := v]);
    assert map[k := v].Keys == {k};
    if v.Arr? || v.Obj? {
      assert Wraps(item, k, v);
      WrapperIsWrapped(item);
    }
    forall j, x | Wraps(item, j, x)
      ensures x == v
    {
      assert j in map[k := v];
    }
  }

  /** A list with an element that is no object, or with a scalar under an element's only key, is not unwrapped. */
  lemma ScalarNotUnwrapped(items: seq<Json>, i: nat, k: Text, v: Json)
    requires i < |items| && (!items[i].Obj? || (items[i] == Obj(map[k := v]) && !v.Arr? && !v.Obj?))
    ensures !Unwraps(items)
  {
    WrapperIff(k, v);
    WrapperIff(k, items[i]);
  }

  method UnwrapArray(items: seq<Json>) returns (r: Result)
    ensures r.Inner? <==> Unwraps(items)
    ensures !r.Inner? ==> r == Unchanged
    ensures r.Inner? ==> Unwraps(items) && r.value.Arr? && Produced(items, r.value.items)
  {
    if items == [] {
      return Unchanged;
    }
    var commonKey: Text := "";
    for n := 0 to |items|
      invariant forall i | 0 <= i < n :: Wrapper(items[i])
      invariant forall i, j | 0 <= i < j < n :: KeyOf(items[i]) != "" ==> KeyOf(items[j]) == KeyOf(items[i])
      invariant n == 0 ==> commonKey == ""
      invariant n > 0 ==> commonKey == KeyOf(items[n - 1])
      invariant forall i | 0 <= i < n :: KeyOf(items[i]) == "" || KeyOf(items[i]) == commonKey
    {
      var wrapper, k := ReadWrapper(items[n]);
      if !wrapper {
        return Unchanged;
      }
      if commonKey == "" {
        commonKey := k;
      } else if k != commonKey {
        return Unchanged;
      }
    }
    var out: seq<Json> := [];
    for n := 0 to |items|
      invariant |out| == n
      invariant forall i | 0 <= i < n :: out[i] == Unwrapped(items[i], commonKey)
    {
      WrapperIsWrapped(items[n]);
      var m := Members(items[n]);
      out := out + [if commonKey in m then m[commonKey] else Null];
    }
    return Inner(Arr(out));
  }

  method UnwrapResponse(body: Body) returns (r: Result)
    ensures forall k, v | body == Document(Obj(map[k := v]), false) ::
              r == if k != "id" && (v.Arr? || v.Obj?) then Inner(v) else Unchanged
    ensures body.Document? && body.value.Obj? && |body.value.members| != 1 ==> r == Unchanged
    ensures body.Document? && (body.value.Null? || body.value.Bool? || body.value.Num? || body.value.Str?) ==> r == Unchanged
    ensures forall items, k, v, i: nat |
              body == Document(Arr(items), false) && i < |items| && items[i] == Obj(map[k := v]) && !v.Arr? && !v.Obj? ::
              r == Unchanged
    ensures body.Empty? ==> r == Unchanged
    ensures body.NotJson? ==> r == if body.first == '{' then ParseError else Unchanged
    ensures body.Document? ==> r == Unchanged || r.Inner?
    ensures body.Document? && (body.padded || !Container(body.value)) ==> r == Unchanged
    ensures body.Document? && !body.padded && body.value.Arr? ==>
              && (r.Inner? <==> Unwraps(body.value.items))
              && (r.Inner? ==> Unwraps(body.value.items) && r.value.Arr? && Produced(body.value.items, r.value.items))
    ensures body.Document? && !body.padded && body.value.Obj? ==>
              && (r.Inner? <==> Wrapper(body.value) && "id" !in body.value.members)
              && (r.Inner? ==> Wrapper(body.value) && r.value == PayloadOf(body.value))
  {
    match body
    case Empty => return Unchanged;
    case NotJson(first) => return if first == '{' then ParseError else Unchanged;
    case Document(value, padded) =>
      if padded {
        return Unchanged;
      }
      match value
      case Arr(items) =>
        forall k, v, i: nat | i < |items| && items[i] == Obj(map[k := v]) && !v.Arr? && !v.Obj?
          ensures !Unwraps(items)
        {
          ScalarNotUnwrapped(items, i, k, v);
        }
        r := UnwrapArray(items);
      case Obj(top) =>
        var wrapper, k := ReadWrapper(value);
        forall j, v | top == map[j := v]
          ensures Wrapper(value) <==> v.Arr? || v.Obj?
          ensures Wrapper(value) ==> KeyOf(value) == j && PayloadOf(value) == v
        {
          WrapperIff(j, v);
        }
        if "id" in top || !wrapper {
          return Unchanged;
        }
        WrapperIsWrapped(value);
        return Inner(top[k]);
      case _ =>
        return Unchanged;
  }

  // ---- What unwrapping means

  ghost function Envelopes(k: Text, payloads: seq<Json>): (items: seq<Json>)
    ensures |items| == |payloads|
    ensures forall i | 0 <= i < |payloads| :: items[i] == Obj(map[k := payloads[i]])
  {
    seq(|payloads|, i requires 0 <= i < |payloads| => Obj(map[k := payloads[i]]))
  }

  /** The payloads of a list of wrappers, in order. */
  ghost predicate Lossless(items: seq<Json>, out: seq<Json>)
    requires AllWrappers(items)
  {
    |out| == |items| && forall i | 0 <= i < |items| :: out[i] == PayloadOf(items[i])
  }

  /** Unwrapping inverts wrapping a list under any one key. */
  lemma UnwrapsEnvelopes(k: Text, payloads: seq<Json>, out: seq<Json>)
    requires payloads != [] && forall x <- payloads :: Container(x)
    ensures Unwraps(Envelopes(k, payloads))
    ensures Produced(Envelopes(k, payloads), out) <==> out == payloads
  {
    var items := Envelopes(k, payloads);
    forall i | 0 <= i < |items|
      ensures Wrapper(items[i]) && KeyOf(items[i]) == k && PayloadOf(items[i]) == payloads[i]
    {
      assert payloads[i] in payloads;
      assert Wraps(items[i], k, payloads[i]);
      WrapperIsWrapped(items[i]);
    }
  }

  /** Content is lost exactly when the first key is empty and the last is not. */
  lemma LosslessIff(items: seq<Json>, out: seq<Json>)
    requires Unwraps(items) && Produced(items, out)
    ensures Lossless(items, out) <==> !(KeyOf(items[0]) == "" && KeyOf(items[|items| - 1]) != "")
  {
    var last := |items| - 1;
    forall i | 0 <= i < |items|
      ensures Container(PayloadOf(items[i]))
      ensures KeyOf(items[0]) != "" || KeyOf(items[last]) == "" ==> KeyOf(items[i]) == KeyOf(items[last])
    {
      WrapperIsWrapped(items[i]);
      assert 0 < i ==> (KeyOf(items[0]) != "" ==> KeyOf(items[i]) == KeyOf(items[0]));
      assert i < last ==> (KeyOf(items[i]) != "" ==> KeyOf(items[last]) == KeyOf(items[i]));
    }
    if KeyOf(items[0]) == "" && KeyOf(items[last]) != "" {
      assert out[0] == Null;
    }
  }

  // ---- Differing keys

  ghost predicate KeysDiffer(items: seq<Json>)
    requires AllWrappers(items)
  {
    exists i, j :: 0 <= i < |items| && 0 <= j < |items| && KeyOf(items[i]) != KeyOf(items[j])
  }

  /** The first n keys are empty and the others are one and the same key that is not. */
  ghost predicate EmptyThenOne(items: seq<Json>, n: nat)
    requires AllWrappers(items)
  {
    && 0 < n < |items| && KeyOf(items[n]) != ""
    && (forall i | 0 <= i < n :: KeyOf(items[i]) == "")
    && forall i | n <= i < |items| :: KeyOf(items[i]) == KeyOf(items[n])
  }

  lemma {:induction false} LeadingEmpty(items: seq<Json>, n: nat) returns (m: nat)
    requires AllWrappers(items) && n <= |items|
    requires forall i | 0 <= i < n :: KeyOf(items[i]) == ""
    ensures n <= m <= |items| && forall i | 0 <= i < m :: KeyOf(items[i]) == ""
    ensures m < |items| ==> KeyOf(items[m]) != ""
    decreases |items| - n
  {
    m := n;
    if n < |items| && KeyOf(items[n]) == "" {
      m := LeadingEmpty(items, n + 1);
    }
  }

  /** Lists with differing keys are returned unchanged, except exactly those of empty keys followed by one other key. */
  lemma DifferingUnwrapsIff(items: seq<Json>)
    requires AllWrappers(items)
    ensures KeysDiffer(items) && Unwraps(items) <==> exists n :: EmptyThenOne(items, n)
  {
    if KeysDiffer(items) && Unwraps(items) {
      var n := LeadingEmpty(items, 0);
      assert EmptyThenOne(items, n);
    }
    if n: nat :| EmptyThenOne(items, n) {
      assert KeyOf(items[0]) != KeyOf(items[n]);
      assert KeysAgree(items);
    }
  }

  /** Such a list is unwrapped, and the payload under the empty key is gone. */
  lemma EmptyKeyIsLost(k: Text, x: Json, y: Json, out: seq<Json>)
    requires k != "" && Container(x) && Container(y)
    ensures var items := [Obj(map["" := x]), Obj(map[k := y])];
            && AllWrappers(items) && KeysDiffer(items) && Unwraps(items)
            && (Produced(items, out) <==> out == [Null, y])
  {
    var items := [Obj(map["" := x]), Obj(map[k := y])];
    assert Wraps(items[0], "", x) && Wraps(items[1], k, y);
    WrapperIsWrapped(items[0]);
    WrapperIsWrapped(items[1]);
    assert KeyOf(items[0]) == "" && KeyOf(items[1]) == k;
  }
}
