/**
 Reconciling when the internal rules are foreign to the desired ones: they may
 then stand anywhere in the returned list. Also the reading of both loops by
 position.
 */
module Interleaving {
  import opened Rules
  import opened Diff
  import opened Stripping
  import opened Reconcile

  /** The elements chosen by a test on the elements before and the element itself. */
  ghost function Chosen<T>(s: seq<T>, test: (seq<T>, T) -> bool): seq<T> {
    if s == [] then
      []
    else
      var before, last := s[..|s| - 1], s[|s| - 1];
      Chosen(before, test) + if test(before, last) then [last] else []
  }

  /** The elements that carry the wanted mark, in order. */
  ghost function Marked<T>(s: seq<T>, marks: seq<bool>, want: bool): seq<T>
    requires |marks| == |s|
  {
    if s == [] then
      []
    else
      var n := |s| - 1;
      Marked(s[..n], marks[..n], want) + if marks[n] == want then [s[n]] else []
  }

  lemma MarkedSnoc<T>(s: seq<T>, marks: seq<bool>, last: T, mark: bool, want: bool)
    requires |marks| == |s|
    ensures Marked(s + [last], marks + [mark], want) == Marked(s, marks, want) + if mark == want then [last] else []
  {
    assert (s + [last])[..|s|] == s && (marks + [mark])[..|s|] == marks;
  }

  lemma {:induction false} ChosenByPosition<T>(s: seq<T>, test: (seq<T>, T) -> bool) returns (marks: seq<bool>)
    ensures |marks| == |s| && Chosen(s, test) == Marked(s, marks, true)
    ensures forall i | 0 <= i < |s| :: marks[i] <==> test(s[..i], s[i])
  {
    if s == [] {
      marks := [];
    } else {
      var before, last := s[..|s| - 1], s[|s| - 1];
      assert s == before + [last];
      var front := ChosenByPosition(before, test);
      assert forall i | 0 <= i < |before| :: before[..i] == s[..i] && before[i] == s[i];
      MarkedSnoc(before, front, last, test(before, last), true);
      marks := front + [test(before, last)];
    }
  }

  lemma {:induction false} InjectedIsChosen(posted: seq<FirewallRule>, returned: seq<FirewallRule>)
    ensures Injected(posted, returned) == Chosen(returned, (before, r) => Unmatched(posted, before, r))
  {
    if returned != [] {
      InjectedIsChosen(posted, returned[..|returned| - 1]);
    }
  }

  lemma {:induction false} StrippedIsChosen(rules: seq<FirewallRule>, remove: seq<FirewallRule>)
    ensures Stripped(rules, remove) ==
            Chosen(rules, (before: seq<FirewallRule>, r) => multiset(remove)[r] <= multiset(before)[r])
  {
    if rules != [] {
      StrippedIsChosen(rules[..|rules| - 1], remove);
    }
  }

  /** A returned rule is reported if and only if, in each version it applies to, its rank reaches the posted count. */
  lemma InjectedByPosition(posted: seq<FirewallRule>, returned: seq<FirewallRule>) returns (marks: seq<bool>)
    ensures |marks| == |returned| && Injected(posted, returned) == Marked(returned, marks, true)
    ensures forall i | 0 <= i < |returned| ::
              marks[i] <==>
              && Known(returned[i])
              && forall v | Filtered(v) && returned[i].AppliesTo(v) ::
                Copies(posted, v, returned[i].Key()) <= Copies(returned[..i], v, returned[i].Key())
  {
    InjectedIsChosen(posted, returned);
    marks := ChosenByPosition(returned, (before, r) => Unmatched(posted, before, r));
  }

  /** Exactly the earliest copies of each removed rule are dropped. */
  lemma StrippedByPosition(rules: seq<FirewallRule>, remove: seq<FirewallRule>) returns (marks: seq<bool>)
    ensures |marks| == |rules| && Stripped(rules, remove) == Marked(rules, marks, true)
    ensures forall i | 0 <= i < |rules| :: marks[i] <==> multiset(remove)[rules[i]] <= multiset(rules[..i])[rules[i]]
  {
    StrippedIsChosen(rules, remove);
    marks := ChosenByPosition(rules, (before: seq<FirewallRule>, r) => multiset(remove)[r] <= multiset(before)[r]);
  }

  lemma {:induction false} MarkedPartition<T>(s: seq<T>, marks: seq<bool>)
    requires |marks| == |s|
    ensures multiset(s) == multiset(Marked(s, marks, true)) + multiset(Marked(s, marks, false))
  {
    if s != [] {
      var n := |s| - 1;
      MarkedPartition(s[..n], marks[..n]);
      assert s == s[..n] + [s[n]];
    }
  }

  lemma MarkedCopies(rules: seq<FirewallRule>, marks: seq<bool>, v: IPVersion, k: FirewallRule)
    requires |marks| == |rules| && Filtered(v)
    ensures Copies(rules, v, k) == Copies(Marked(rules, marks, true), v, k) + Copies(Marked(rules, marks, false), v, k)
  {
    MarkedPartition(rules, marks);
    CopiesAreRules(rules, v, k);
    CopiesAreRules(Marked(rules, marks, true), v, k);
    CopiesAreRules(Marked(rules, marks, false), v, k);
  }

  /** No internal rule's key is desired in a version the internal rule applies to. */
  ghost predicate Foreign(desired: seq<FirewallRule>, internal: seq<FirewallRule>) {
    forall r <- internal ::
      && Known(r)
      && forall v | Filtered(v) && r.AppliesTo(v) :: Copies(desired, v, r.Key()) == 0
  }

  /** The list holds no more copies of any rule, in any version, than desired. */
  ghost predicate Within(rules: seq<FirewallRule>, desired: seq<FirewallRule>) {
    forall v, k | Filtered(v) :: Copies(rules, v, k) <= Copies(desired, v, k)
  }

  lemma ForeignCopies(desired: seq<FirewallRule>, internal: seq<FirewallRule>, v: IPVersion, k: FirewallRule)
    requires Foreign(desired, internal) && Filtered(v)
    ensures Copies(internal, v, k) > 0 ==> Copies(desired, v, k) == 0
  {
    if Copies(internal, v, k) > 0 {
      var i := CopyStandsSomewhere(internal, v, k);
      assert internal[i] in internal;
    }
  }

  lemma WithinFront(front: seq<FirewallRule>, back: seq<FirewallRule>, desired: seq<FirewallRule>)
    requires Within(front + back, desired)
    ensures Within(front, desired)
  {
    forall v, k | Filtered(v)
      ensures Copies(front, v, k) <= Copies(desired, v, k)
    {
      ProjectionAppend(front, back, v);
      assert Copies(front + back, v, k) <= Copies(desired, v, k);
    }
  }

  /** A rule of ours is accounted for in every version it applies to. */
  lemma OursAccounted(desired: seq<FirewallRule>, before: seq<FirewallRule>, marks: seq<bool>, r: FirewallRule, v: IPVersion)
    requires |marks| == |before| && Filtered(v) && r.AppliesTo(v)
    requires Foreign(desired, Marked(before, marks, true))
    requires Within(Marked(before, marks, false) + [r], desired)
    ensures Accounted(desired, before, r, v)
  {
    MarkedCopies(before, marks, v, r.Key());
    ProjectionSnoc(Marked(before, marks, false), r, v);
    assert Copies(Marked(before, marks, false) + [r], v, r.Key()) <= Copies(desired, v, r.Key());
    ForeignCopies(desired, Marked(before, marks, true), v, r.Key());
  }

  lemma {:induction false} ForeignInjected(desired: seq<FirewallRule>, returned: seq<FirewallRule>, marks: seq<bool>)
    requires |marks| == |returned|
    requires Foreign(desired, Marked(returned, marks, true)) && Within(Marked(returned, marks, false), desired)
    ensures Injected(desired, returned) == Marked(returned, marks, true)
  {
    if returned != [] {
      var n := |returned| - 1;
      var before, r, front, mark := returned[..n], returned[n], marks[..n], marks[n];
      assert returned == before + [r] && marks == front + [mark];
      MarkedSnoc(before, front, r, mark, true);
      MarkedSnoc(before, front, r, mark, false);
      WithinFront(Marked(before, front, false), if mark then [] else [r], desired);
      ForeignInjected(desired, before, front);
      InjectedSnoc(desired, before, r);
      if mark {
        assert Known(r) && forall v | Filtered(v) && r.AppliesTo(v) :: Copies(desired, v, r.Key()) == 0;
        assert Unmatched(desired, before, r);
      } else {
        if r.AppliesTo(IPv4) {
          OursAccounted(desired, before, front, r, IPv4);
        }
        if r.AppliesTo(IPv6) {
          OursAccounted(desired, before, front, r, IPv6);
        }
        assert !Unmatched(desired, before, r);
      }
    }
  }

  ghost predicate Apart(a: seq<FirewallRule>, b: seq<FirewallRule>) {
    forall r :: multiset(a)[r] == 0 || multiset(b)[r] == 0
  }

  lemma {:induction false} MarkedAppend<T>(a: seq<T>, ma: seq<bool>, b: seq<T>, mb: seq<bool>, want: bool)
    requires |ma| == |a| && |mb| == |b|
    ensures Marked(a + b, ma + mb, want) == Marked(a, ma, want) + Marked(b, mb, want)
  {
    if b == [] {
      assert a + b == a && ma + mb == ma;
    } else {
      var n := |b| - 1;
      assert (a + b)[..|a| + n] == a + b[..n] && (ma + mb)[..|a| + n] == ma + mb[..n];
      MarkedAppend(a, ma, b[..n], mb[..n], want);
    }
  }

  lemma MarkedBefore<T>(s: seq<T>, marks: seq<bool>, i: nat, want: bool)
    requires |marks| == |s| && i < |s|
    ensures multiset(Marked(s[..i], marks[..i], want))[s[i]] + (if marks[i] == want then 1 else 0) <=
            multiset(Marked(s, marks, want))[s[i]]
  {
    var front := Marked(s[..i], marks[..i], want);
    var mid := if marks[i] == want then [s[i]] else [];
    var back := Marked(s[i + 1..], marks[i + 1..], want);
    assert s == (s[..i] + [s[i]]) + s[i + 1..] && marks == (marks[..i] + [marks[i]]) + marks[i + 1..];
    MarkedSnoc(s[..i], marks[..i], s[i], marks[i], want);
    MarkedAppend(s[..i] + [s[i]], marks[..i] + [marks[i]], s[i + 1..], marks[i + 1..], want);
    assert multiset(front + mid + back) == multiset(front) + multiset(mid) + multiset(back);
  }

  lemma {:induction false} MarkedFlip<T>(s: seq<T>, marks: seq<bool>, flipped: seq<bool>)
    requires |marks| == |s| == |flipped|
    requires forall i | 0 <= i < |s| :: marks[i] != flipped[i]
    ensures Marked(s, marks, true) == Marked(s, flipped, false)
  {
    if s != [] {
      MarkedFlip(s[..|s| - 1], marks[..|s| - 1], flipped[..|s| - 1]);
    }
  }

  lemma ForeignStripped(returned: seq<FirewallRule>, marks: seq<bool>)
    requires |marks| == |returned|
    requires Apart(Marked(returned, marks, false), Marked(returned, marks, true))
    ensures Stripped(returned, Marked(returned, marks, true)) == Marked(returned, marks, false)
  {
    var theirs, ours := Marked(returned, marks, true), Marked(returned, marks, false);
    var kept := StrippedByPosition(returned, theirs);
    forall i | 0 <= i < |returned|
      ensures kept[i] != marks[i]
    {
      MarkedPartition(returned[..i], marks[..i]);
      MarkedBefore(returned, marks, i, true);
      MarkedBefore(returned, marks, i, false);
      assert multiset(ours)[returned[i]] == 0 || multiset(theirs)[returned[i]] == 0;
    }
    MarkedFlip(returned, kept, marks);
  }

  lemma OursAreNotForeign(desired: seq<FirewallRule>, internal: seq<FirewallRule>, ours: seq<FirewallRule>, r: FirewallRule)
    requires Foreign(desired, internal) && Within(ours, desired)
    ensures multiset(ours)[r] == 0 || multiset(internal)[r] == 0
  {
    if r in ours {
      var i :| 0 <= i < |ours| && ours[i] == r;
      forall v | Filtered(v) && r.AppliesTo(v)
        ensures Copies(desired, v, r.Key()) > 0
      {
        CopyAtPosition(ours, i, v);
        assert Copies(ours, v, r.Key()) <= Copies(desired, v, r.Key());
      }
      assert Filtered(IPv4) && Filtered(IPv6);
      assert r !in internal;
    }
  }

  /**
   Foreign internal rules are reported exactly, in order, wherever the server
   puts them, and stripping them leaves exactly the other rules.
   */
  lemma ForeignRecognised(desired: seq<FirewallRule>, returned: seq<FirewallRule>, marks: seq<bool>)
    requires |marks| == |returned|
    requires Foreign(desired, Marked(returned, marks, true)) && Within(Marked(returned, marks, false), desired)
    ensures Injected(desired, returned) == Marked(returned, marks, true)
    ensures Stripped(returned, Injected(desired, returned)) == Marked(returned, marks, false)
  {
    ForeignInjected(desired, returned, marks);
    forall r
      ensures multiset(Marked(returned, marks, false))[r] == 0 || multiset(Marked(returned, marks, true))[r] == 0
    {
      OursAreNotForeign(desired, Marked(returned, marks, true), Marked(returned, marks, false), r);
    }
    ForeignStripped(returned, marks);
  }
}
