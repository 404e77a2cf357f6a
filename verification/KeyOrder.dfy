/**
 Map keys in ascending byte order (sortedKeys). Go enumerates a map in an
 unspecified order; sorting makes the outcome a function of the key set.
 */
module KeyOrder {
  import opened GoStrings

  /** Byte-wise lexicographic order, as sort.Strings uses. */
  predicate Less(a: Text, b: Text) {
    b != "" && (a == "" || a[0] < b[0] || (a[0] == b[0] && Less(a[1..], b[1..])))
  }

  /** The first byte where the texts differ. */
  ghost predicate SmallerAt(a: Text, b: Text, i: nat) {
    i < |a| && i < |b| && a[..i] == b[..i] && a[i] as int < b[i] as int
  }

  lemma LessCons(a: Text, b: Text)
    requires a != "" && b != "" && a[0] == b[0]
    ensures a < b <==> a[1..] < b[1..]
    ensures (exists i: nat :: SmallerAt(a, b, i)) <==> (exists i: nat :: SmallerAt(a[1..], b[1..], i))
  {
    assert a == [a[0]] + a[1..] && b == [b[0]] + b[1..];
    if i: nat :| SmallerAt(a, b, i) {
      assert i > 0;
      assert a[1..][..i - 1] == a[..i][1..] && b[1..][..i - 1] == b[..i][1..];
      assert SmallerAt(a[1..], b[1..], i - 1);
    }
    if i: nat :| SmallerAt(a[1..], b[1..], i) {
      assert a[..i + 1] == [a[0]] + a[1..][..i] && b[..i + 1] == [b[0]] + b[1..][..i];
      assert SmallerAt(a, b, i + 1);
    }
  }

  /** A text is less than the texts it is a proper prefix of and those with a greater byte at the first difference. */
  lemma {:induction false} LessIff(a: Text, b: Text)
    ensures Less(a, b) <==> a < b || exists i: nat :: SmallerAt(a, b, i)
  {
    if a != "" && b != "" {
      if a[0] == b[0] {
        LessCons(a, b);
        LessIff(a[1..], b[1..]);
      } else if a[0] < b[0] {
        assert SmallerAt(a, b, 0);
      } else {
        assert forall i: nat | 0 < i < |a| && i < |b| :: a[..i][0] != b[..i][0];
      }
    }
  }

  lemma {:induction false} LessTransitive(a: Text, b: Text, c: Text)
    requires Less(a, b) && Less(b, c)
    ensures Less(a, c)
  {
    if a != "" && a[0] == b[0] == c[0] {
      LessTransitive(a[1..], b[1..], c[1..]);
    }
  }

  lemma {:induction false} LessTotal(a: Text, b: Text)
    ensures a == b || Less(a, b) || Less(b, a)
  {
    if a != "" && b != "" && a[0] == b[0] {
      LessTotal(a[1..], b[1..]);
      assert a == [a[0]] + a[1..] && b == [b[0]] + b[1..];
    }
  }

  lemma {:induction false} LessIrreflexive(a: Text)
    ensures !Less(a, a)
  {
    if a != "" {
      LessIrreflexive(a[1..]);
    }
  }

  ghost predicate Ascending(keys: seq<Text>) {
    forall i, j | 0 <= i < j < |keys| :: Less(keys[i], keys[j])
  }

  /** The list enumerates the set in ascending order, each key once. */
  ghost predicate InOrder(keys: seq<Text>, s: set<Text>) {
    Ascending(keys) && forall k :: k in keys <==> k in s
  }

  lemma HeadIsLeast(keys: seq<Text>, s: set<Text>, k: Text)
    requires InOrder(keys, s) && k in s
    ensures keys != [] && (k == keys[0] || Less(keys[0], k))
  {
    assert k in keys;
  }

  lemma TailInOrder(keys: seq<Text>, s: set<Text>)
    requires InOrder(keys, s) && keys != []
    ensures InOrder(keys[1..], s - {keys[0]})
  {
    LessIrreflexive(keys[0]);
    forall k
      ensures k in keys[1..] <==> k in s - {keys[0]}
    {
      assert keys == [keys[0]] + keys[1..];
      assert k in keys <==> k in s;
      if k in keys[1..] {
        var i :| 0 <= i < |keys[1..]| && keys[1..][i] == k;
        assert Less(keys[0], keys[i + 1]);
      }
    }
  }

  lemma HeadIsMember(keys: seq<Text>)
    ensures keys == [] || exists k :: k in keys
  {
    if keys != [] {
      assert keys[0] in keys;
    }
  }

  /** A set of keys has only one ascending enumeration. */
  lemma {:induction false} InOrderUnique(p: seq<Text>, q: seq<Text>, s: set<Text>)
    requires InOrder(p, s) && InOrder(q, s)
    ensures p == q
    decreases |p|
  {
    if p == [] {
      HeadIsMember(q);
    } else {
      assert p[0] in p && p[0] in s && p[0] in q && q[0] in q && q[0] in s;
      HeadIsLeast(p, s, q[0]);
      HeadIsLeast(q, s, p[0]);
      if p[0] != q[0] {
        LessTransitive(p[0], q[0], p[0]);
        LessIrreflexive(p[0]);
      }
      TailInOrder(p, s);
      TailInOrder(q, s);
      InOrderUnique(p[1..], q[1..], s - {p[0]});
      assert p == [p[0]] + p[1..] && q == [q[0]] + q[1..];
    }
  }

  /** Inserts a key into an ascending list. */
  function Inserted(keys: seq<Text>, k: Text): (out: seq<Text>) {
    if keys == [] then [k]
    else if Less(k, keys[0]) then [k] + keys
    else [keys[0]] + Inserted(keys[1..], k)
  }

  lemma {:induction false} InsertedInOrder(keys: seq<Text>, k: Text, s: set<Text>)
    requires InOrder(keys, s) && k !in s
    ensures InOrder(Inserted(keys, k), s + {k})
    decreases |keys|
  {
    if keys == [] {
      assert forall x :: x in [k] <==> x == k;
    } else {
      var head := keys[0];
      assert head in keys && head in s;
      LessTotal(k, head);
      if Less(k, head) {
        forall x | x in s
          ensures Less(k, x)
        {
          HeadIsLeast(keys, s, x);
          if x != head {
            LessTransitive(k, head, x);
          }
        }
        Prepended(keys, s, k);
      } else {
        TailInOrder(keys, s);
        InsertedInOrder(keys[1..], k, s - {head});
        var rest := s - {head} + {k};
        forall x | x in rest
          ensures Less(head, x)
        {
          if x != k {
            HeadIsLeast(keys, s, x);
          }
        }
        Prepended(Inserted(keys[1..], k), rest, head);
        assert rest + {head} == s + {k};
      }
    }
  }

  lemma Prepended(keys: seq<Text>, s: set<Text>, k: Text)
    requires InOrder(keys, s) && forall x | x in s :: Less(k, x)
    ensures InOrder([k] + keys, s + {k})
  {
    var out := [k] + keys;
    forall i, j | 0 <= i < j < |out|
      ensures Less(out[i], out[j])
    {
      assert out[j] == keys[j - 1] && keys[j - 1] in keys;
    }
    assert forall x :: x in out <==> x == k || x in keys;
  }

  /** sort.Strings, on keys without repetition. */
  function SortedStrings(keys: seq<Text>): seq<Text> {
    if keys == [] then [] else Inserted(SortedStrings(keys[..|keys| - 1]), keys[|keys| - 1])
  }

  ghost predicate Enumerates(keys: seq<Text>, s: set<Text>) {
    && (forall k :: k in keys <==> k in s)
    && forall i, j | 0 <= i < j < |keys| :: keys[i] != keys[j]
  }

  lemma {:induction false} SortedInOrder(keys: seq<Text>, s: set<Text>)
    requires Enumerates(keys, s)
    ensures InOrder(SortedStrings(keys), s)
    decreases |keys|
  {
    if keys != [] {
      var before, last := keys[..|keys| - 1], keys[|keys| - 1];
      assert keys == before + [last];
      assert last in keys;
      assert last !in before;
      assert forall k :: k in keys <==> k in before || k == last;
      assert Enumerates(before, s - {last});
      SortedInOrder(before, s - {last});
      InsertedInOrder(SortedStrings(before), last, s - {last});
      assert s - {last} + {last} == s;
    }
  }

  lemma {:induction false} CanEnumerate(s: set<Text>) returns (keys: seq<Text>)
    ensures Enumerates(keys, s)
  {
    if s == {} {
      keys := [];
    } else {
      var k :| k in s;
      var rest := CanEnumerate(s - {k});
      keys := rest + [k];
      assert k !in rest;
      assert forall x :: x in keys <==> x in rest || x == k;
    }
  }

  /** The keys of a set in ascending order. */
  ghost function KeysInOrder(s: set<Text>): (keys: seq<Text>)
    ensures InOrder(keys, s)
  {
    assert exists keys :: InOrder(keys, s) by {
      var keys := CanEnumerate(s);
      SortedInOrder(keys, s);
    }
    var keys :| InOrder(keys, s);
    keys
  }

  /** The loop collects the keys in whatever order the map yields them. */
  method SortedKeys<V>(m: map<Text, V>) returns (keys: seq<Text>)
    ensures keys == KeysInOrder(m.Keys)
  {
    keys := [];
    var rest := m.Keys;
    while rest != {}
      invariant rest <= m.Keys
      invariant Enumerates(keys, m.Keys - rest)
      decreases |rest|
    {
      var k :| k in rest;
      assert k !in keys;
      rest := rest - {k};
      ghost var before := keys;
      keys := keys + [k];
      assert forall x :: x in keys <==> x in before || x == k;
    }
    assert m.Keys - rest == m.Keys;
    SortedInOrder(keys, m.Keys);
    keys := SortedStrings(keys);
    InOrderUnique(keys, KeysInOrder(m.Keys), m.Keys);
  }
}
