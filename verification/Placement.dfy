/**
 Reconciling when the API may put its internal rules anywhere, in any order, and
 every rule carries its version: exactly when stripping then keeps the caller's
 order.
 */
module Placement {
  import opened Rules
  import opened Diff
  import opened Stripping
  import opened Reconcile
  import opened Convergence
  import opened Rulesets

  /** The list z is made of the lists y and w, each in its order. */
  ghost predicate Interleaves(z: seq<FirewallRule>, y: seq<FirewallRule>, w: seq<FirewallRule>) {
    if z == [] then
      y == [] && w == []
    else
      || (y != [] && z[0] == y[0] && Interleaves(z[1..], y[1..], w))
      || (w != [] && z[0] == w[0] && Interleaves(z[1..], y, w[1..]))
  }

  /** The internal rules, in some order, stand anywhere among the caller's. */
  ghost predicate Placed(returned: seq<FirewallRule>, internal: seq<FirewallRule>, form: seq<FirewallRule>) {
    exists theirs :: multiset(theirs) == multiset(internal) && Interleaves(returned, theirs, form)
  }

  ghost predicate VersionedForm(desired: seq<FirewallRule>, form: seq<FirewallRule>) {
    Versioned(form) && ListEquivalent(form, desired)
  }

  ghost predicate ConvergesAnywhere(desired: seq<FirewallRule>, internal: seq<FirewallRule>) {
    forall a, c, applied, current |
      && VersionedForm(desired, a) && Placed(applied, internal, a)
      && VersionedForm(desired, c) && Placed(current, internal, c) ::
      ListEquivalent(Stripped(current, Injected(desired, applied)), desired)
  }

  /** From its first copy on the list holds only k. */
  ghost predicate OnlyAtEnd(keys: seq<FirewallRule>, k: FirewallRule) {
    forall i, j | 0 <= i < j < |keys| && keys[i] == k :: keys[j] == k
  }

  // ---- Facts about interleavings

  lemma {:induction false} InterleavedMultiset(z: seq<FirewallRule>, y: seq<FirewallRule>, w: seq<FirewallRule>)
    requires Interleaves(z, y, w)
    ensures multiset(z) == multiset(y) + multiset(w)
  {
    if z != [] {
      assert z == [z[0]] + z[1..];
      if y != [] && z[0] == y[0] && Interleaves(z[1..], y[1..], w) {
        assert y == [y[0]] + y[1..];
        InterleavedMultiset(z[1..], y[1..], w);
      } else {
        assert w == [w[0]] + w[1..];
        InterleavedMultiset(z[1..], y, w[1..]);
      }
    }
  }

  lemma ProjectionCons(r: FirewallRule, rules: seq<FirewallRule>, v: IPVersion)
    ensures Projection([r] + rules, v) == (if r.AppliesTo(v) then [r.Key()] else []) + Projection(rules, v)
  {
    ProjectionOfOne(r, v);
    ProjectionAppend([r], rules, v);
  }

  lemma InterleavesCons(r: FirewallRule, z: seq<FirewallRule>, y: seq<FirewallRule>, w: seq<FirewallRule>)
    requires Interleaves(z, y, w)
    ensures Interleaves([r] + z, [r] + y, w) && Interleaves([r] + z, y, [r] + w)
  {
    assert ([r] + z)[1..] == z && ([r] + y)[1..] == y && ([r] + w)[1..] == w;
  }

  lemma {:induction false} InterleavedProjection(z: seq<FirewallRule>, y: seq<FirewallRule>, w: seq<FirewallRule>, v: IPVersion)
    requires Interleaves(z, y, w)
    ensures Interleaves(Projection(z, v), Projection(y, v), Projection(w, v))
  {
    if z != [] {
      var r := z[0];
      assert z == [r] + z[1..];
      ProjectionCons(r, z[1..], v);
      if y != [] && r == y[0] && Interleaves(z[1..], y[1..], w) {
        assert y == [r] + y[1..];
        InterleavedProjection(z[1..], y[1..], w, v);
        ProjectionCons(r, y[1..], v);
        InterleavesCons(r.Key(), Projection(z[1..], v), Projection(y[1..], v), Projection(w, v));
        assert [] + Projection(z[1..], v) == Projection(z[1..], v) && [] + Projection(y[1..], v) == Projection(y[1..], v);
      } else {
        assert w == [r] + w[1..];
        InterleavedProjection(z[1..], y, w[1..], v);
        ProjectionCons(r, w[1..], v);
        InterleavesCons(r.Key(), Projection(z[1..], v), Projection(y, v), Projection(w[1..], v));
        assert [] + Projection(z[1..], v) == Projection(z[1..], v) && [] + Projection(w[1..], v) == Projection(w[1..], v);
      }
    }
  }

  lemma {:induction false} InterleavesFrontAndBack(a: seq<FirewallRule>, w: seq<FirewallRule>, b: seq<FirewallRule>)
    ensures Interleaves(a + w + b, a + b, w)
    decreases |a| + |w| + |b|
  {
    var z := a + w + b;
    if a != [] {
      assert z[1..] == a[1..] + w + b && (a + b)[1..] == a[1..] + b;
      InterleavesFrontAndBack(a[1..], w, b);
    } else if w != [] {
      assert z[1..] == [] + w[1..] + b && a + b == [] + b;
      InterleavesFrontAndBack([], w[1..], b);
    } else if b != [] {
      assert z[1..] == [] + [] + b[1..] && (a + b)[1..] == [] + b[1..];
      InterleavesFrontAndBack([], [], b[1..]);
    }
  }

  // ---- Stripping, seen from the front and by version

  lemma {:induction false} StrippedByCounts(rules: seq<FirewallRule>, remove: seq<FirewallRule>, remove': seq<FirewallRule>)
    requires multiset(remove) == multiset(remove')
    ensures Stripped(rules, remove) == Stripped(rules, remove')
  {
    if rules != [] {
      StrippedByCounts(rules[..|rules| - 1], remove, remove');
    }
  }

  lemma {:induction false} StrippedCons(r: FirewallRule, rules: seq<FirewallRule>, remove: seq<FirewallRule>)
    ensures Stripped([r] + rules, [r] + remove) == Stripped(rules, remove)
    ensures r !in remove ==> Stripped([r] + rules, remove) == [r] + Stripped(rules, remove)
  {
    if rules == [] {
      assert [r] + rules == [] + [r];
      StrippedSnoc([], r, [r] + remove);
      StrippedSnoc([], r, remove);
    } else {
      var before, last := rules[..|rules| - 1], rules[|rules| - 1];
      assert rules == before + [last] && [r] + rules == ([r] + before) + [last];
      StrippedCons(r, before, remove);
      StrippedSnoc([r] + before, last, [r] + remove);
      StrippedSnoc([r] + before, last, remove);
      StrippedSnoc(before, last, remove);
    }
  }

  lemma StrippedProjectionSame(before: seq<FirewallRule>, r: FirewallRule, remove: seq<FirewallRule>, v: IPVersion)
    requires Versioned(before) && Versioned(remove) && Filtered(v) && r.ipVersion == v
    ensures Stripped(Projection(before + [r], v), Projection(remove, v)) ==
            Stripped(Projection(before, v), Projection(remove, v))
            + if multiset(before)[r] < multiset(remove)[r] then [] else [r.Key()]
  {
    VersionedCopies(before, r);
    VersionedCopies(remove, r);
    ProjectionSnoc(before, r, v);
    StrippedSnoc(Projection(before, v), r.Key(), Projection(remove, v));
  }

  lemma ProjectionOfStripped(before: seq<FirewallRule>, r: FirewallRule, remove: seq<FirewallRule>, v: IPVersion)
    ensures Projection(Stripped(before + [r], remove), v) ==
            Projection(Stripped(before, remove), v)
            + if r.AppliesTo(v) && multiset(before)[r] >= multiset(remove)[r] then [r.Key()] else []
  {
    var kept := Stripped(before, remove);
    StrippedSnoc(before, r, remove);
    if multiset(before)[r] < multiset(remove)[r] {
      assert Stripped(before + [r], remove) == kept;
      assert Projection(kept, v) + [] == Projection(kept, v);
    } else {
      ProjectionSnoc(kept, r, v);
    }
  }

  lemma StrippedProjectionStep(before: seq<FirewallRule>, r: FirewallRule, remove: seq<FirewallRule>, v: IPVersion)
    requires Versioned(before) && Versioned(remove) && Filtered(v) && Filtered(r.ipVersion)
    requires Projection(Stripped(before, remove), v) == Stripped(Projection(before, v), Projection(remove, v))
    ensures Projection(Stripped(before + [r], remove), v) == Stripped(Projection(before + [r], v), Projection(remove, v))
  {
    VersionsDiffer();
    ProjectionOfStripped(before, r, remove, v);
    if r.ipVersion == v {
      StrippedProjectionSame(before, r, remove, v);
    } else {
      ProjectionSnoc(before, r, v);
      assert Projection(before + [r], v) == Projection(before, v);
    }
  }

  /** With versions on all rules, stripping the list strips each version's projection. */
  lemma {:induction false} StrippedProjection(rules: seq<FirewallRule>, remove: seq<FirewallRule>, v: IPVersion)
    requires Versioned(rules) && Versioned(remove) && Filtered(v)
    ensures Projection(Stripped(rules, remove), v) == Stripped(Projection(rules, v), Projection(remove, v))
  {
    if rules != [] {
      var before, last := rules[..|rules| - 1], rules[|rules| - 1];
      assert rules == before + [last] && last in rules;
      StrippedProjection(before, remove, v);
      StrippedProjectionStep(before, last, remove, v);
    }
  }

  lemma VersionedCopies(rules: seq<FirewallRule>, r: FirewallRule)
    requires Versioned(rules) && Filtered(r.ipVersion)
    ensures multiset(Projection(rules, r.ipVersion))[r.Key()] == multiset(rules)[r]
  {
    VersionsDiffer();
    CopiesAreRules(rules, r.ipVersion, r.Key());
    VersionedHasNoVersionless(rules, r.Key());
    assert r.Key().(ipVersion := r.ipVersion) == r;
  }

  // ---- What is reported

  lemma AnywhereReported(desired: seq<FirewallRule>, internal: seq<FirewallRule>, a: seq<FirewallRule>, applied: seq<FirewallRule>)
    requires Versioned(internal) && VersionedForm(desired, a) && Placed(applied, internal, a)
    ensures multiset(Injected(desired, applied)) == multiset(internal)
    ensures Versioned(applied)
  {
    VersionsDiffer();
    var theirs :| multiset(theirs) == multiset(internal) && Interleaves(applied, theirs, a);
    InterleavedMultiset(applied, theirs, a);
    var injected := Injected(desired, applied);
    InjectedIsReturned(desired, applied);
    forall r
      ensures r in applied <==> r in internal || r in a
      ensures r in injected ==> r in applied
    {
      assert multiset(applied)[r] == multiset(internal)[r] + multiset(a)[r];
    }
    forall r
      ensures multiset(injected)[r] == multiset(internal)[r]
    {
      if Filtered(r.ipVersion) {
        ReportedCopies(desired, internal, a, applied, r);
      } else {
        assert r !in injected && r !in internal;
      }
    }
  }

  lemma VersionedNoneHalf(posted: seq<FirewallRule>, returned: seq<FirewallRule>)
    requires Versioned(returned)
    ensures NoneHalfAccounted(posted, returned)
  {
    VersionsDiffer();
    assert forall i | 0 <= i < |returned| :: returned[i] in returned;
  }

  lemma ReportedCopies(desired: seq<FirewallRule>, internal: seq<FirewallRule>, a: seq<FirewallRule>, applied: seq<FirewallRule>,
                       r: FirewallRule)
    requires Versioned(internal) && VersionedForm(desired, a) && Versioned(applied) && Filtered(r.ipVersion)
    requires Versioned(Injected(desired, applied))
    requires multiset(applied)[r] == multiset(internal)[r] + multiset(a)[r]
    ensures multiset(Injected(desired, applied))[r] == multiset(internal)[r]
  {
    var v, k := r.ipVersion, r.Key();
    VersionedNoneHalf(desired, applied);
    SurplusIsReported(desired, applied, v, k);
    HalfMissedNever(desired, applied, v, k);
    VersionedCopies(applied, r);
    VersionedCopies(internal, r);
    VersionedCopies(a, r);
    VersionedCopies(Injected(desired, applied), r);
  }

  // ---- When the order is kept

  lemma {:induction false} OnlyCopies(s: seq<FirewallRule>, k: FirewallRule)
    requires multiset(s)[k] == |s|
    ensures forall i | 0 <= i < |s| :: s[i] == k
  {
    if s != [] {
      var n := |s| - 1;
      assert s == s[..n] + [s[n]];
      CountWithin(s[..n], k);
      OnlyCopies(s[..n], k);
    }
  }

  lemma CountWithin(s: seq<FirewallRule>, k: FirewallRule)
    ensures multiset(s)[k] <= |s|
  {
    assert |multiset(s)| == |s|;
    assert multiset(s)[k] <= |multiset(s)|;
  }

  /** Stripping leaves the caller's list when each shared key stands only at its end. */
  lemma {:induction false} KeepsOrder(z: seq<FirewallRule>, y: seq<FirewallRule>, w: seq<FirewallRule>)
    requires Interleaves(z, y, w) && forall k <- y :: OnlyAtEnd(w, k)
    ensures Stripped(z, y) == w
  {
    if z != [] {
      var e := z[0];
      assert z == [e] + z[1..];
      if y != [] && e == y[0] && Interleaves(z[1..], y[1..], w) {
        assert y == [e] + y[1..] && forall k <- y[1..] :: k in y;
        KeepsOrder(z[1..], y[1..], w);
        StrippedCons(e, z[1..], y[1..]);
      } else if e in y {
        StripsToCopies(z, y, w, e);
      } else {
        assert w == [e] + w[1..];
        forall k <- y
          ensures OnlyAtEnd(w[1..], k)
        {
          assert OnlyAtEnd(w, k);
          assert forall i | 0 <= i < |w| - 1 :: w[1..][i] == w[i + 1];
        }
        KeepsOrder(z[1..], y, w[1..]);
        StrippedCons(e, z[1..], y);
      }
    }
  }

  /** A list of the same copies of one rule is determined by its length. */
  lemma SameCopies(s: seq<FirewallRule>, w: seq<FirewallRule>, e: FirewallRule)
    requires multiset(s) == multiset(w) && forall i | 0 <= i < |w| :: w[i] == e
    ensures s == w
  {
    assert |s| == |multiset(s)| == |multiset(w)| == |w|;
    AllCopies(w, e);
    OnlyCopies(s, e);
  }

  lemma StripsToCopies(z: seq<FirewallRule>, y: seq<FirewallRule>, w: seq<FirewallRule>, e: FirewallRule)
    requires Interleaves(z, y, w) && w != [] && w[0] == e && OnlyAtEnd(w, e)
    ensures Stripped(z, y) == w
  {
    assert multiset(Stripped(z, y)) == multiset(w) by {
      InterleavedMultiset(z, y, w);
      StrippedMultiset(z, y);
    }
    assert forall i | 0 < i < |w| :: w[0] == e && w[i] == e;
    SameCopies(Stripped(z, y), w, e);
  }

  lemma {:induction false} AllCopies(s: seq<FirewallRule>, k: FirewallRule)
    requires forall i | 0 <= i < |s| :: s[i] == k
    ensures multiset(s)[k] == |s|
  {
    if s != [] {
      var n := |s| - 1;
      assert s == s[..n] + [s[n]];
      AllCopies(s[..n], k);
    }
  }

  lemma {:induction false} StrippedFront(front: seq<FirewallRule>, rules: seq<FirewallRule>, remove: seq<FirewallRule>)
    ensures Stripped(front + rules, front + remove) == Stripped(rules, remove)
  {
    if front == [] {
      assert front + rules == rules && front + remove == remove;
    } else {
      assert front + rules == [front[0]] + (front[1..] + rules);
      assert front + remove == [front[0]] + (front[1..] + remove);
      StrippedCons(front[0], front[1..] + rules, front[1..] + remove);
      StrippedFront(front[1..], rules, remove);
    }
  }

  lemma {:induction false} ShiftIsConstant(w: seq<FirewallRule>, k: FirewallRule, i: nat)
    requires [k] + w == w + [k] && i < |w|
    ensures w[i] == k
  {
    assert ([k] + w)[i] == (w + [k])[i];
    if i > 0 {
      ShiftIsConstant(w, k, i - 1);
    }
  }

  lemma RotatedCons(e: FirewallRule, rest: seq<FirewallRule>, k: FirewallRule)
    ensures e != k ==> Stripped([e] + rest + [k], [k]) == [e] + Stripped(rest + [k], [k])
    ensures e == k ==> Stripped([e] + rest + [k], [k]) == rest + [k]
  {
    assert [e] + rest + [k] == [e] + (rest + [k]) && [k] + [] == [k];
    if e == k {
      StrippedCons(k, rest + [k], []);
      StrippedNothing(rest + [k]);
    } else {
      StrippedCons(e, rest + [k], [k]);
    }
  }

  lemma OnlyAtEndCons(e: FirewallRule, rest: seq<FirewallRule>, k: FirewallRule)
    requires OnlyAtEnd(rest, k) && (e == k ==> forall i | 0 <= i < |rest| :: rest[i] == k)
    ensures OnlyAtEnd([e] + rest, k)
  {
    var w := [e] + rest;
    forall i, j | 0 <= i < j < |w| && w[i] == k
      ensures w[j] == k
    {
      assert w[j] == rest[j - 1];
      if i > 0 {
        assert w[i] == rest[i - 1];
      }
    }
  }

  /** Taking the first copy of k and putting one at the end changes nothing only if the copies stand at the end. */
  lemma {:induction false} RotationMoves(w: seq<FirewallRule>, k: FirewallRule)
    requires Stripped(w + [k], [k]) == w
    ensures OnlyAtEnd(w, k)
  {
    if w != [] {
      var e, rest := w[0], w[1..];
      assert w == [e] + rest;
      RotatedCons(e, rest, k);
      if e == k {
        forall i | 0 <= i < |rest|
          ensures rest[i] == k
        {
          ShiftIsConstant(rest, k, i);
        }
      } else {
        assert ([e] + Stripped(rest + [k], [k]))[1..] == Stripped(rest + [k], [k]);
        RotationMoves(rest, k);
      }
      OnlyAtEndCons(e, rest, k);
    }
  }

  /** The internal rules but for one. */
  ghost function AllBut(internal: seq<FirewallRule>, i: nat): (rest: seq<FirewallRule>)
    requires i < |internal|
    ensures multiset(rest + [internal[i]]) == multiset(internal)
  {
    assert internal == internal[..i] + [internal[i]] + internal[i + 1..];
    internal[..i] + internal[i + 1..]
  }

  /** One internal rule may stand behind the caller's rules and the others before them. */
  lemma LastBehind(rest: seq<FirewallRule>, r: FirewallRule, internal: seq<FirewallRule>, form: seq<FirewallRule>)
    requires multiset(rest + [r]) == multiset(internal)
    ensures Placed(rest + form + [r], internal, form)
    ensures Stripped(rest + form + [r], internal) == Stripped(form + [r], [r])
  {
    InterleavesFrontAndBack(rest, form, [r]);
    StrippedByCounts(rest + form + [r], internal, rest + [r]);
    StrippedFront(rest, form + [r], [r]);
    assert rest + form + [r] == rest + (form + [r]);
  }

  lemma PlacedInFront(internal: seq<FirewallRule>, form: seq<FirewallRule>)
    ensures Placed(internal + form, internal, form)
  {
    InterleavesFrontAndBack(internal, form, []);
    assert internal + form + [] == internal + form && internal + [] == internal;
  }

  lemma SplitIsVersionedForm(desired: seq<FirewallRule>) returns (form: seq<FirewallRule>)
    ensures VersionedForm(desired, form)
  {
    ProjectionIsKeys(desired, IPv4);
    ProjectionIsKeys(desired, IPv6);
    form := Split(Projection(desired, IPv4), Projection(desired, IPv6));
    ProjectionOfSplit(Projection(desired, IPv4), Projection(desired, IPv6));
  }

  lemma RotatedForm(desired: seq<FirewallRule>, form: seq<FirewallRule>, r: FirewallRule)
    requires VersionedForm(desired, form) && Filtered(r.ipVersion)
    requires ListEquivalent(Stripped(form + [r], [r]), desired)
    ensures OnlyAtEnd(Projection(desired, r.ipVersion), r.Key())
  {
    StrippedProjection(form + [r], [r], r.ipVersion);
    ProjectionSnoc(form, r, r.ipVersion);
    ProjectionOfOne(r, r.ipVersion);
    RotationMoves(Projection(desired, r.ipVersion), r.Key());
  }

  lemma StripsInternal(desired: seq<FirewallRule>, internal: seq<FirewallRule>, form: seq<FirewallRule>, current: seq<FirewallRule>)
    requires Versioned(internal) && ConvergesAnywhere(desired, internal)
    requires VersionedForm(desired, form) && Placed(current, internal, form)
    ensures ListEquivalent(Stripped(current, internal), desired)
  {
    var applied := internal + form;
    PlacedInFront(internal, form);
    AnywhereReported(desired, internal, form, applied);
    assert ListEquivalent(Stripped(current, Injected(desired, applied)), desired);
    StrippedByCounts(current, Injected(desired, applied), internal);
  }

  lemma SharedKeyAtEnd(desired: seq<FirewallRule>, internal: seq<FirewallRule>, i: nat)
    requires Versioned(internal) && ConvergesAnywhere(desired, internal) && i < |internal|
    ensures OnlyAtEnd(Projection(desired, internal[i].ipVersion), internal[i].Key())
  {
    var r := internal[i];
    assert r in internal;
    var form := SplitIsVersionedForm(desired);
    var rest := AllBut(internal, i);
    LastBehind(rest, r, internal, form);
    StripsInternal(desired, internal, form, rest + form + [r]);
    RotatedForm(desired, form, r);
  }

  lemma PlacedProjection(desired: seq<FirewallRule>, internal: seq<FirewallRule>, c: seq<FirewallRule>, current: seq<FirewallRule>,
                         theirs: seq<FirewallRule>, v: IPVersion)
    requires Versioned(internal) && VersionedForm(desired, c) && Versioned(current) && Filtered(v)
    requires multiset(theirs) == multiset(internal) && Interleaves(current, theirs, c)
    requires forall r <- internal :: OnlyAtEnd(Projection(desired, r.ipVersion), r.Key())
    ensures Projection(Stripped(current, theirs), v) == Projection(desired, v)
  {
    VersionsDiffer();
    assert forall r :: r in theirs <==> r in multiset(theirs);
    assert Versioned(theirs);
    StrippedProjection(current, theirs, v);
    InterleavedProjection(current, theirs, c, v);
    forall k <- Projection(theirs, v)
      ensures OnlyAtEnd(Projection(c, v), k)
    {
      var i := CopyStandsSomewhere(theirs, v, k);
      assert theirs[i] in theirs && theirs[i] in internal;
    }
    KeepsOrder(Projection(current, v), Projection(theirs, v), Projection(c, v));
  }

  /**
   Wherever the API puts its internal rules, the loop converges if and only if,
   in each version, every key the desired rules share with the internal ones
   stands only at the end of the desired rules.
   */
  lemma ConvergesAnywhereIff(desired: seq<FirewallRule>, internal: seq<FirewallRule>)
    requires Versioned(internal)
    ensures ConvergesAnywhere(desired, internal) <==>
            forall r <- internal :: OnlyAtEnd(Projection(desired, r.ipVersion), r.Key())
  {
    if forall r <- internal :: OnlyAtEnd(Projection(desired, r.ipVersion), r.Key()) {
      forall a, c, applied, current |
        && VersionedForm(desired, a) && Placed(applied, internal, a)
        && VersionedForm(desired, c) && Placed(current, internal, c)
        ensures ListEquivalent(Stripped(current, Injected(desired, applied)), desired)
      {
        AnywhereReported(desired, internal, a, applied);
        AnywhereReported(desired, internal, c, current);
        var theirs :| multiset(theirs) == multiset(internal) && Interleaves(current, theirs, c);
        StrippedByCounts(current, Injected(desired, applied), theirs);
        PlacedProjection(desired, internal, c, current, theirs, IPv4);
        PlacedProjection(desired, internal, c, current, theirs, IPv6);
      }
    }
    if ConvergesAnywhere(desired, internal) {
      forall r <- internal
        ensures OnlyAtEnd(Projection(desired, r.ipVersion), r.Key())
      {
        var i :| 0 <= i < |internal| && internal[i] == r;
        SharedKeyAtEnd(desired, internal, i);
      }
    }
  }
}
