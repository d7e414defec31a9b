/** The history digest: which accepted packages have the same one (app/hwpx_saved_proof.py). */
module HistoryDigest {
  import opened Text
  import opened UtcSeconds
  import opened SavedPackage

  // ------------------------------------------------------------ canonical trees, node by node

  lemma {:induction false} CanonicalEach(ns: seq<Node>)
    ensures |CanonicalAll(ns)| == |ns|
    ensures forall i :: 0 <= i < |ns| ==> CanonicalAll(ns)[i] == Canonical(ns[i])
  {
    if ns != [] { CanonicalEach(ns[1..]); }
  }

  lemma {:induction false} ChildrenAgree(xs: seq<Node>, ys: seq<Node>)
    ensures CanonicalAll(xs) == CanonicalAll(ys)
            <==> |xs| == |ys| && forall i :: 0 <= i < |xs| ==> Canonical(xs[i]) == Canonical(ys[i])
  {
    CanonicalEach(xs);
    CanonicalEach(ys);
    hide Canonical;
    var us, vs := CanonicalAll(xs), CanonicalAll(ys);
    assert |us| == |xs| && |vs| == |ys|;
    if |xs| == |ys| {
      if forall i :: 0 <= i < |xs| ==> Canonical(xs[i]) == Canonical(ys[i]) {
        forall i | 0 <= i < |us| ensures us[i] == vs[i] { assert us[i] == Canonical(xs[i]); }
      }
      forall i | us == vs && 0 <= i < |xs| ensures Canonical(xs[i]) == Canonical(ys[i]) { assert us[i] == vs[i]; }
    }
  }

  predicate OwnEqual(a: Node, b: Node) {
    a.tag == b.tag && a.attrib == b.attrib && OrNone(a.text) == OrNone(b.text) && OrNone(a.tail) == OrNone(b.tail)
  }

  /** Equal canonical trees: equal own content and equal children. */
  lemma Unfolded(a: Node, b: Node)
    requires Plain(a) && Plain(b)
    ensures Canonical(a) == Canonical(b)
            <==> OwnEqual(a, b) && |a.children| == |b.children|
                 && forall i :: 0 <= i < |a.children| ==> Canonical(a.children[i]) == Canonical(b.children[i])
  {
    OwnAgrees(a, b);
    ChildrenAgree(a.children, b.children);
  }

  lemma {:induction false} SetFieldEach(ns: seq<Node>, s: Spec, value: Option<string>)
    ensures |SetFieldAll(ns, s, value)| == |ns|
    ensures forall i :: 0 <= i < |ns| ==> SetFieldAll(ns, s, value)[i] == SetField(ns[i], s, value)
  {
    if ns != [] { SetFieldEach(ns[1..], s, value); }
  }

  lemma {:induction false} ErasedEach(ns: seq<Node>, specs: seq<Spec>)
    ensures |ErasedAll(ns, specs)| == |ns|
    ensures forall i :: 0 <= i < |ns| ==> ErasedAll(ns, specs)[i] == Erased(ns[i], specs)
  {
    if ns != [] { ErasedEach(ns[1..], specs); }
  }

  // ------------------------------------------------------------ what the update leaves alone

  predicate FieldFilled(n: Node, field: Field) {
    match field
    case TextField => OrNone(n.text).Some?
    case AttrField(key) => key in n.attrib && n.attrib[key] != ""
  }

  /** Every value the specs name in the tree is there and not empty. */
  predicate Filled(n: Node, specs: seq<Spec>) {
    && (forall s :: s in specs && Matches(n, s) ==> FieldFilled(n, s.field))
    && forall c :: c in n.children ==> Filled(c, specs)
  }

  lemma {:induction false} FilledFrom(n: Node, specs: seq<Spec>)
    requires forall s, m :: s in specs && m in Selected(n, s) ==> FieldFilled(m, s.field)
    ensures Filled(n, specs)
    decreases n, 1
  {
    forall s | s in specs && Matches(n, s) ensures FieldFilled(n, s.field) { assert Selected(n, s)[0] == n; }
    forall s, m | s in specs && m in SelectedAll(n.children, s) ensures FieldFilled(m, s.field) {
      assert m in Selected(n, s);
    }
    FilledAllFrom(n.children, specs);
  }

  lemma {:induction false} FilledAllFrom(ns: seq<Node>, specs: seq<Spec>)
    requires forall s, m :: s in specs && m in SelectedAll(ns, s) ==> FieldFilled(m, s.field)
    ensures forall c :: c in ns ==> Filled(c, specs)
    decreases ns, 0
  {
    if ns != [] {
      forall s, m | s in specs && m in Selected(ns[0], s) ensures FieldFilled(m, s.field) {
        assert m in SelectedAll(ns, s);
      }
      forall s, m | s in specs && m in SelectedAll(ns[1..], s) ensures FieldFilled(m, s.field) {
        assert m in SelectedAll(ns, s);
      }
      FilledFrom(ns[0], specs);
      FilledAllFrom(ns[1..], specs);
      forall c | c in ns ensures Filled(c, specs) { assert c == ns[0] || c in ns[1..]; }
    }
  }

  /** One node: what no spec names is unchanged, and what one names is filled. */
  predicate OwnWritten(b: Node, e: Node, specs: seq<Spec>) {
    && e.tag == b.tag && e.tail == b.tail && e.attrib.Keys == b.attrib.Keys
    && (forall k :: k in b.attrib ==> if ErasesKey(b, specs, k) then e.attrib[k] != "" else e.attrib[k] == b.attrib[k])
    && if ErasesText(b, specs) then OrNone(e.text).Some? else e.text == b.text
  }

  predicate Written(b: Node, e: Node, specs: seq<Spec>)
    decreases b
  {
    && OwnWritten(b, e, specs) && |e.children| == |b.children|
    && forall i :: 0 <= i < |b.children| ==> Written(b.children[i], e.children[i], specs)
  }

  lemma {:induction false} NothingWritten(b: Node)
    ensures Written(b, b, [])
    decreases b
  {
    forall i | 0 <= i < |b.children|
        ensures Written(b.children[i], b.children[i], []) { NothingWritten(b.children[i]); }
  }

  /** One spec more in front. */
  lemma OwnWrittenMore(b: Node, s: Spec, value: string, rest: seq<Spec>, e: Node)
    requires LeavesAll(s, rest, Some(value)) && value != ""
    requires OwnWritten(SetField(b, s, Some(value)), e, rest)
    ensures OwnWritten(b, e, [s] + rest)
  {
    var m := SetField(b, s, Some(value));
    forall t | t in rest ensures Matches(m, t) <==> Matches(b, t) {
      if Matches(b, s) { SetOwnMatches(b, t, s, Some(value)); }
    }
    ErasesAlike(b, m, rest);
    ErasesCons(b, s, rest);
  }

  lemma {:induction false} WrittenMore(b: Node, s: Spec, value: string, rest: seq<Spec>, e: Node)
    requires LeavesAll(s, rest, Some(value)) && value != ""
    requires Written(SetField(b, s, Some(value)), e, rest)
    ensures Written(b, e, [s] + rest)
    decreases b
  {
    OwnWrittenMore(b, s, value, rest, e);
    SetFieldEach(b.children, s, Some(value));
    forall i | 0 <= i < |b.children| ensures Written(b.children[i], e.children[i], [s] + rest) {
      WrittenMore(b.children[i], s, value, rest, e.children[i]);
    }
  }

  /** The value each spec names in the actual tree is there and not empty. */
  predicate AllValued(actual: Node, specs: seq<Spec>) {
    forall s :: s in specs ==> ValueOf(actual, s).Some? && ValueOf(actual, s).value != ""
  }

  /** The update changes only what the specs name in the expected tree, and fills that. */
  lemma {:induction false} ApplyWrites(expected: Node, actual: Node, specs: seq<Spec>)
    requires Undisturbed(specs) && AllValued(actual, specs) && Apply(expected, actual, specs).Some?
    ensures Written(expected, Apply(expected, actual, specs).value, specs)
    decreases |specs|
  {
    if specs == [] {
      NothingWritten(expected);
    } else {
      var s, rest := specs[0], specs[1..];
      assert specs == [s] + rest;
      assert forall i :: 0 <= i < |rest| ==> rest[i] == specs[i + 1];
      TakenLeaves(actual, s, rest);
      assert s in specs && Taken(actual, s) == ValueOf(actual, s);
      ApplyWrites(SetField(expected, s, Taken(actual, s)), actual, rest);
      WrittenMore(expected, s, Taken(actual, s).value, rest, Apply(expected, actual, specs).value);
    }
  }

  // ------------------------------------------------------------ when the digests agree

  /** One node of both trees: the specs name the same fields of it. */
  predicate OwnSamePlaces(b: Node, a: Node, specs: seq<Spec>) {
    && (forall k :: k in b.attrib ==> (ErasesKey(b, specs, k) <==> ErasesKey(a, specs, k)))
    && (ErasesText(b, specs) <==> ErasesText(a, specs))
  }

  /** What can be checked of two trees: the specs name the same fields of the same nodes in both. */
  predicate SamePlaces(b: Node, a: Node, specs: seq<Spec>)
    decreases b
  {
    && OwnSamePlaces(b, a, specs) && |b.children| == |a.children|
    && forall i :: 0 <= i < |b.children| ==> SamePlaces(b.children[i], a.children[i], specs)
  }

  /** The caret's attributes as specs: every element of one name, which no volatile value is declared for. */
  predicate CaretApart(caret: seq<Spec>, specs: seq<Spec>) {
    forall c :: c in caret ==>
      c.where == map[] && c.field.AttrField? && forall s :: s in specs ==> s.element != c.element
  }

  function Digested(n: Node, specs: seq<Spec>, caret: seq<Spec>): Node {
    Erased(Erased(n, specs), caret)
  }

  lemma DigestedShape(n: Node, specs: seq<Spec>, caret: seq<Spec>)
    ensures var d, own := Digested(n, specs, caret), ErasedOwn(ErasedOwn(n, specs), caret);
            && d == own.(children := d.children) && |d.children| == |n.children|
            && forall i :: 0 <= i < |n.children| ==> d.children[i] == Digested(n.children[i], specs, caret)
  {
    var once := Erased(n, specs);
    ErasedOwnChildren(ErasedOwn(n, specs), caret, once.children);
    ErasedEach(n.children, specs);
    ErasedEach(once.children, caret);
  }

  /** Elsewhere than on the caret's element the caret's specs erase nothing, and there the others erase nothing. */
  lemma EitherErases(n: Node, specs: seq<Spec>, caret: seq<Spec>)
    requires CaretApart(caret, specs)
    ensures (exists k :: ErasesKey(n, caret, k)) ==> !ErasesText(n, specs) && forall k :: !ErasesKey(n, specs, k)
    ensures !ErasesText(n, caret)
  {
  }

  lemma CaretByTag(n: Node, m: Node, specs: seq<Spec>, caret: seq<Spec>)
    requires CaretApart(caret, specs) && n.tag == m.tag
    ensures forall k :: ErasesKey(n, caret, k) <==> ErasesKey(m, caret, k)
  {
    assert forall c :: c in caret ==> (Matches(n, c) <==> Matches(m, c));
    ErasesAlike(n, m, caret);
  }

  /** Without the caret: after the update, own content is erased alike exactly when the same fields are named. */
  lemma OwnErasedAgree(b: Node, e: Node, a: Node, specs: seq<Spec>)
    requires OwnWritten(b, e, specs) && OwnEqual(e, a)
    requires forall s :: s in specs && Matches(a, s) ==> FieldFilled(a, s.field)
    ensures var p, q := ErasedOwn(b, specs), ErasedOwn(a, specs);
            p.attrib == q.attrib && OrNone(p.text) == OrNone(q.text) <==> OwnSamePlaces(b, a, specs)
  {
    var p, q := ErasedOwn(b, specs), ErasedOwn(a, specs);
    assert p.attrib.Keys == b.attrib.Keys == q.attrib.Keys;
    forall k | k in b.attrib
      ensures p.attrib[k] == q.attrib[k] <==> (ErasesKey(b, specs, k) <==> ErasesKey(a, specs, k))
    {
    }
    if OwnSamePlaces(b, a, specs) { assert p.attrib == q.attrib; }
  }

  /** On the caret's element the specs erase nothing, elsewhere the caret does. */
  lemma EitherErasure(n: Node, specs: seq<Spec>, caret: seq<Spec>)
    requires CaretApart(caret, specs)
    ensures var once := ErasedOwn(n, specs);
            && ErasedOwn(once, caret).text == once.text
            && if exists k :: ErasesKey(n, caret, k)
               then once == n && ErasedOwn(once, caret) == ErasedOwn(n, caret)
               else ErasedOwn(once, caret) == once
  {
    var once := ErasedOwn(n, specs);
    EitherErases(n, specs, caret);
    EitherErases(once, specs, caret);
    CaretByTag(n, once, specs, caret);
    hide Matches, ErasesKey, ErasesText;
    if exists k :: ErasesKey(n, caret, k) {
      assert once.attrib == n.attrib;
    } else {
      assert ErasedOwn(once, caret).attrib == once.attrib;
    }
  }

  lemma OwnDigestsAgree(b: Node, e: Node, a: Node, specs: seq<Spec>, caret: seq<Spec>)
    requires OwnWritten(b, e, specs) && OwnEqual(e, a) && CaretApart(caret, specs)
    requires forall s :: s in specs && Matches(a, s) ==> FieldFilled(a, s.field)
    ensures OwnEqual(ErasedOwn(ErasedOwn(b, specs), caret), ErasedOwn(ErasedOwn(a, specs), caret))
            <==> OwnSamePlaces(b, a, specs)
  {
    EitherErasure(b, specs, caret);
    EitherErasure(a, specs, caret);
    EitherErases(b, specs, caret);
    EitherErases(a, specs, caret);
    CaretByTag(b, a, specs, caret);
    OwnErasedAgree(b, e, a, specs);
    hide Matches, ErasesKey, ErasesText;
    if exists k :: ErasesKey(b, caret, k) {
      assert b.attrib == e.attrib == a.attrib;
      assert ErasedOwn(b, caret).attrib == ErasedOwn(a, caret).attrib;
    }
  }

  /** The digests of the two trees of an accepted member agree exactly when the specs name the same places in both. */
  lemma {:induction false} DigestsAgree(b: Node, e: Node, a: Node, specs: seq<Spec>, caret: seq<Spec>)
    requires Written(b, e, specs) && Canonical(e) == Canonical(a) && Filled(a, specs) && CaretApart(caret, specs)
    requires Plain(b) && Plain(e) && Plain(a)
    ensures Canonical(Digested(b, specs, caret)) == Canonical(Digested(a, specs, caret)) <==> SamePlaces(b, a, specs)
    decreases b
  {
    Unfolded(e, a);
    OwnDigestsAgree(b, e, a, specs, caret);
    DigestedShape(b, specs, caret);
    DigestedShape(a, specs, caret);
    DigestedPlain(b, specs, caret);
    DigestedPlain(a, specs, caret);
    var x, y := Digested(b, specs, caret), Digested(a, specs, caret);
    Unfolded(x, y);
    forall i | 0 <= i < |b.children|
      ensures Canonical(x.children[i]) == Canonical(y.children[i]) <==> SamePlaces(b.children[i], a.children[i], specs)
    {
      assert Written(b.children[i], e.children[i], specs) && Canonical(e.children[i]) == Canonical(a.children[i]);
      assert a.children[i] in a.children;
      DigestsAgree(b.children[i], e.children[i], a.children[i], specs, caret);
    }
  }

  /** Erasing leaves a plain tree plain. */
  lemma {:induction false} ErasedPlain(n: Node, specs: seq<Spec>)
    requires Plain(n)
    ensures Plain(Erased(n, specs))
    decreases n
  {
    ErasedEach(n.children, specs);
    forall c | c in Erased(n, specs).children ensures Plain(c) {
      var i :| 0 <= i < |n.children| && c == Erased(n.children[i], specs);
      ErasedPlain(n.children[i], specs);
    }
  }

  lemma DigestedPlain(n: Node, specs: seq<Spec>, caret: seq<Spec>)
    requires Plain(n)
    ensures Plain(Digested(n, specs, caret))
  {
    ErasedPlain(n, specs);
    ErasedPlain(Erased(n, specs), caret);
  }

  /** The update leaves a plain tree plain. */
  lemma {:induction false} WrittenPlain(b: Node, e: Node, specs: seq<Spec>)
    requires Written(b, e, specs) && Plain(b)
    ensures Plain(e)
    decreases b
  {
    forall c | c in e.children ensures Plain(c) {
      var i :| 0 <= i < |e.children| && c == e.children[i];
      WrittenPlain(b.children[i], e.children[i], specs);
    }
  }

  // ------------------------------------------------------------ one writer cannot move a selection

  /** The trees differ in what s selects at most where the specs could disturb it. */
  predicate Stirred(b: Node, specs: seq<Spec>, s: Spec) {
    exists t :: t in specs && Disturbs(t, s) && Matches(b, t)
  }

  predicate Moved(b: Node, e: Node, specs: seq<Spec>, s: Spec)
    decreases b
  {
    && ((Matches(e, s) <==> Matches(b, s)) || Stirred(b, specs, s)) && |e.children| == |b.children|
    && forall i :: 0 <= i < |b.children| ==> Moved(b.children[i], e.children[i], specs, s)
  }

  /** s selects the same places in both trees. */
  predicate Steady(b: Node, e: Node, s: Spec)
    decreases b
  {
    && (Matches(e, s) <==> Matches(b, s)) && |e.children| == |b.children|
    && forall i :: 0 <= i < |b.children| ==> Steady(b.children[i], e.children[i], s)
  }

  lemma {:induction false} SteadyItself(b: Node, s: Spec)
    ensures Steady(b, b, s)
    decreases b
  {
    forall i | 0 <= i < |b.children| ensures Steady(b.children[i], b.children[i], s) { SteadyItself(b.children[i], s); }
  }

  lemma {:induction false} SteadyMoved(b: Node, e: Node, s: Spec)
    requires Steady(b, e, s)
    ensures Moved(b, e, [], s)
    decreases b
  {
    forall i | 0 <= i < |b.children| ensures Moved(b.children[i], e.children[i], [], s) {
      SteadyMoved(b.children[i], e.children[i], s);
    }
  }

  lemma OwnMovedMore(b: Node, u: Spec, value: Option<string>, rest: seq<Spec>, e: Node, s: Spec)
    requires LeavesAll(u, rest, value) && (Disturbs(u, s) || Leaves(u, s, value))
    requires var m := SetField(b, u, value); (Matches(e, s) <==> Matches(m, s)) || Stirred(m, rest, s)
    ensures (Matches(e, s) <==> Matches(b, s)) || Stirred(b, [u] + rest, s)
  {
    var m := SetField(b, u, value);
    if Stirred(m, rest, s) {
      var t :| t in rest && Disturbs(t, s) && Matches(m, t);
      if Matches(b, u) { SetOwnMatches(b, t, u, value); }
      assert t in [u] + rest && Matches(b, t);
    } else if Disturbs(u, s) && Matches(b, u) {
      assert u in [u] + rest;
    } else if Matches(b, u) {
      SetOwnMatches(b, s, u, value);
    }
  }

  lemma {:induction false} MovedMore(b: Node, u: Spec, value: Option<string>, rest: seq<Spec>, e: Node, s: Spec)
    requires LeavesAll(u, rest, value) && (Disturbs(u, s) || Leaves(u, s, value))
    requires Moved(SetField(b, u, value), e, rest, s)
    ensures Moved(b, e, [u] + rest, s)
    decreases b
  {
    OwnMovedMore(b, u, value, rest, e, s);
    SetFieldEach(b.children, u, value);
    forall i | 0 <= i < |b.children| ensures Moved(b.children[i], e.children[i], [u] + rest, s) {
      MovedMore(b.children[i], u, value, rest, e.children[i], s);
    }
  }

  lemma {:induction false} ApplyMoves(expected: Node, actual: Node, specs: seq<Spec>, s: Spec)
    requires Undisturbed(specs) && Apply(expected, actual, specs).Some?
    ensures Moved(expected, Apply(expected, actual, specs).value, specs, s)
    decreases |specs|
  {
    if specs == [] {
      SteadyItself(expected, s);
      SteadyMoved(expected, expected, s);
    } else {
      var u, rest := specs[0], specs[1..];
      assert specs == [u] + rest;
      assert forall i :: 0 <= i < |rest| ==> rest[i] == specs[i + 1];
      TakenLeaves(actual, u, rest);
      if !Disturbs(u, s) { TakenLeaves(actual, u, [s]); assert s in [s]; }
      ApplyMoves(SetField(expected, u, Taken(actual, u)), actual, rest, s);
      MovedMore(expected, u, Taken(actual, u), rest, Apply(expected, actual, specs).value, s);
    }
  }

  /** What a profile's author can check: each selector is disturbed by one spec at most. */
  predicate OneWriter(specs: seq<Spec>) {
    forall s, t, u :: s in specs && t in specs && u in specs && Disturbs(t, s) && Disturbs(u, s) ==> t == u
  }

  function Count(n: Node, s: Spec): nat {
    |Selected(n, s)|
  }

  /** How many nodes of a list a spec selects. */
  function CountAll(ns: seq<Node>, s: Spec): nat {
    |SelectedAll(ns, s)|
  }

  ghost predicate SteadyAll(bs: seq<Node>, es: seq<Node>, s: Spec) {
    |es| == |bs| && forall i :: 0 <= i < |bs| ==> Steady(bs[i], es[i], s)
  }

  lemma {:induction false} SteadyCounts(b: Node, e: Node, s: Spec)
    requires Steady(b, e, s)
    ensures Count(e, s) == Count(b, s)
    decreases b, 1
  {
    SteadyCountsAll(b.children, e.children, s);
  }

  lemma {:induction false} SteadyCountsAll(bs: seq<Node>, es: seq<Node>, s: Spec)
    requires SteadyAll(bs, es, s)
    ensures CountAll(es, s) == CountAll(bs, s)
    decreases bs, 0
  {
    if bs != [] {
      SteadyCounts(bs[0], es[0], s);
      SteadyCountsAll(bs[1..], es[1..], s);
    }
  }

  /** Where the only disturber of s selects nothing, s selects the same places; where it selects one node, s selects
      the same places or another number of them. */
  lemma {:induction false} MovedCounts(b: Node, e: Node, specs: seq<Spec>, s: Spec, t: Spec)
    requires Moved(b, e, specs, s) && (forall u :: u in specs && Disturbs(u, s) ==> u == t) && Count(b, t) <= 1
    ensures Count(b, t) == 0 ==> Steady(b, e, s)
    ensures Steady(b, e, s) || Count(e, s) != Count(b, s)
    decreases b, 1
  {
    MovedCountsAll(b.children, e.children, specs, s, t);
    if SteadyAll(b.children, e.children, s) { SteadyCountsAll(b.children, e.children, s); }
  }

  lemma {:induction false} MovedCountsAll(bs: seq<Node>, es: seq<Node>, specs: seq<Spec>, s: Spec, t: Spec)
    requires |es| == |bs| && (forall i :: 0 <= i < |bs| ==> Moved(bs[i], es[i], specs, s))
    requires (forall u :: u in specs && Disturbs(u, s) ==> u == t) && CountAll(bs, t) <= 1
    ensures CountAll(bs, t) == 0 ==> SteadyAll(bs, es, s)
    ensures SteadyAll(bs, es, s) || CountAll(es, s) != CountAll(bs, s)
    decreases bs, 0
  {
    if bs != [] {
      MovedCounts(bs[0], es[0], specs, s, t);
      MovedCountsAll(bs[1..], es[1..], specs, s, t);
      assert SteadyAll(bs, es, s) <==> Steady(bs[0], es[0], s) && SteadyAll(bs[1..], es[1..], s);
      if Steady(bs[0], es[0], s) { SteadyCounts(bs[0], es[0], s); }
      if SteadyAll(bs[1..], es[1..], s) { SteadyCountsAll(bs[1..], es[1..], s); }
    }
  }

  /** Equal canonical trees are selected from alike. */
  lemma {:induction false} EqualSteady(e: Node, a: Node, s: Spec)
    requires Plain(e) && Plain(a) && Canonical(e) == Canonical(a)
    ensures Steady(e, a, s)
    decreases e
  {
    Unfolded(e, a);
    forall i | 0 <= i < |e.children| ensures Steady(e.children[i], a.children[i], s) {
      assert e.children[i] in e.children && a.children[i] in a.children;
      EqualSteady(e.children[i], a.children[i], s);
    }
  }

  lemma {:induction false} SteadyThrough(b: Node, e: Node, a: Node, s: Spec)
    requires Steady(b, e, s) && Steady(e, a, s)
    ensures Steady(b, a, s)
    decreases b
  {
    forall i | 0 <= i < |b.children| ensures Steady(b.children[i], a.children[i], s) {
      SteadyThrough(b.children[i], e.children[i], a.children[i], s);
    }
  }

  lemma {:induction false} AllSteady(b: Node, a: Node, specs: seq<Spec>)
    requires specs != [] && forall s :: s in specs ==> Steady(b, a, s)
    ensures SamePlaces(b, a, specs)
    decreases b
  {
    assert Steady(b, a, specs[0]);
    assert forall s :: s in specs ==> (Matches(a, s) <==> Matches(b, s));
    ErasesAlike(b, a, specs);
    forall i | 0 <= i < |b.children| ensures SamePlaces(b.children[i], a.children[i], specs) {
      forall s | s in specs ensures Steady(b.children[i], a.children[i], s) { assert Steady(b, a, s); }
      AllSteady(b.children[i], a.children[i], specs);
    }
  }

  /** With one writer at most for each selector, the specs name the same places in both trees of an accepted member. */
  lemma OneWriterSteady(b: Node, a: Node, specs: seq<Spec>, s: Spec)
    requires Plain(a) && Undisturbed(specs) && OneWriter(specs) && s in specs
    requires AllExact(b, specs) && AllExact(a, specs) && Apply(b, a, specs).Some?
    requires Plain(Apply(b, a, specs).value) && Canonical(Apply(b, a, specs).value) == Canonical(a)
    ensures Steady(b, a, s)
  {
    var e := Apply(b, a, specs).value;
    var t := if exists t :: t in specs && Disturbs(t, s) then var t :| t in specs && Disturbs(t, s); t else s;
    assert t in specs && Exact(b, t) && Exact(b, s) && Exact(a, s);
    ApplyMoves(b, a, specs, s);
    MovedCounts(b, e, specs, s, t);
    EqualSteady(e, a, s);
    SteadyCounts(e, a, s);
    SteadyThrough(b, e, a, s);
  }

  // ------------------------------------------------------------ what typed values give

  /** A typed value is there, exactly once, and not empty. */
  lemma TypedIsExact(s: Spec, b: Node, a: Node, wrote: Window, writes: Window)
    requires Typed(s, b, a, wrote, writes)
    ensures Exact(b, s) && Exact(a, s) && ValueOf(a, s).Some? && ValueOf(a, s).value != ""
    ensures forall m :: m in Selected(a, s) ==> FieldFilled(m, s.field)
  {
    assert forall m :: m in Selected(a, s) ==> m == Selected(a, s)[0];
  }

  /** Typed values can all be taken over, one spec after another, when no spec disturbs a later one. */
  lemma TypedUpdate(b: Node, a: Node, specs: seq<Spec>, wrote: Window, writes: Window)
    requires (forall s :: s in specs ==> Typed(s, b, a, wrote, writes)) && Undisturbed(specs)
    ensures Apply(b, a, specs).Some?
  {
    forall s | s in specs ensures Exact(b, s) && Exact(a, s) { TypedIsExact(s, b, a, wrote, writes); }
    ApplySucceeds(b, a, specs);
  }

  /** Where s selects the same places, it selects nodes with the same attribute names. */
  lemma {:induction false} SteadyKeys(b: Node, t: Spec, value: Option<string>, s: Spec)
    requires Steady(b, SetField(b, t, value), s)
    ensures KeysAlike(Selected(SetField(b, t, value), s), Selected(b, s))
    decreases b, 1
  {
    var e := SetField(b, t, value);
    SetFieldEach(b.children, t, value);
    SteadyKeysAll(b.children, t, value, s);
    KeysAlikeConcat(if Matches(b, s) then [e] else [], if Matches(b, s) then [b] else [],
                    SelectedAll(e.children, s), SelectedAll(b.children, s));
  }

  lemma {:induction false} SteadyKeysAll(bs: seq<Node>, t: Spec, value: Option<string>, s: Spec)
    requires SteadyAll(bs, SetFieldAll(bs, t, value), s)
    ensures KeysAlike(SelectedAll(SetFieldAll(bs, t, value), s), SelectedAll(bs, s))
    decreases bs, 0
  {
    if bs != [] {
      var es := SetFieldAll(bs, t, value);
      assert es[0] == SetField(bs[0], t, value) && es[1..] == SetFieldAll(bs[1..], t, value);
      SteadyKeys(bs[0], t, value, s);
      SteadyKeysAll(bs[1..], t, value, s);
      KeysAlikeConcat(Selected(es[0], s), Selected(bs[0], s), SelectedAll(es[1..], s), SelectedAll(bs[1..], s));
    }
  }

  lemma ApplyOne(n: Node, actual: Node, s: Spec)
    ensures Apply(n, actual, [s])
            == if Exact(n, s) && Exact(actual, s) then Some(SetField(n, s, Taken(actual, s))) else None
  {
    assert [s][1..] == [];
  }

  /** Typed values of any two specs: they can be taken over exactly when the first one leaves the second one where it
      was. */
  lemma TypedUpdateOfTwo(b: Node, a: Node, t: Spec, s: Spec, wrote: Window, writes: Window)
    requires Typed(t, b, a, wrote, writes) && Typed(s, b, a, wrote, writes)
    ensures Exact(a, t)
    ensures Apply(b, a, [t, s]).Some? <==> Steady(b, SetField(b, t, Taken(a, t)), s)
  {
    TypedIsExact(t, b, a, wrote, writes);
    TypedIsExact(s, b, a, wrote, writes);
    var e := SetField(b, t, Taken(a, t));
    ApplyOne(e, a, s);
    assert [t, s][1..] == [s];
    assert Apply(b, a, [t]) == Some(e) by { ApplyOne(b, a, t); }
    assert Undisturbed([t]);
    ApplyMoves(b, a, [t], s);
    assert t in [t] && Count(b, t) == 1;
    MovedCounts(b, e, [t], s, t);
    if Steady(b, e, s) {
      SteadyCounts(b, e, s);
      SteadyKeys(b, t, Taken(a, t), s);
    }
  }

  lemma BlankedUndisturbed(specs: seq<Spec>)
    requires BlankedApart(specs)
    ensures Undisturbed(specs)
  {
  }

  /** Two accepted trees: the specs are exact and filled, and the digests agree exactly when they name the same
      places. */
  lemma ComparedDigests(b: Node, a: Node, specs: seq<Spec>, caret: seq<Spec>, wrote: Window, writes: Window)
    requires Plain(b) && Plain(a) && BlankedApart(specs) && CaretApart(caret, specs)
    requires forall s :: s in specs ==> Typed(s, b, a, wrote, writes)
    requires Apply(b, a, specs).Some? && Difference(Apply(b, a, specs).value, a).None?
    ensures Blank(b, specs) == Some(Erased(b, specs)) && Blank(a, specs) == Some(Erased(a, specs))
    ensures Canonical(Digested(b, specs, caret)) == Canonical(Digested(a, specs, caret)) <==> SamePlaces(b, a, specs)
    ensures specs != [] && OneWriter(specs) ==> SamePlaces(b, a, specs)
  {
    forall s | s in specs
      ensures Exact(b, s) && Exact(a, s) && ValueOf(a, s).Some? && ValueOf(a, s).value != ""
      ensures forall m :: m in Selected(a, s) ==> FieldFilled(m, s.field)
    {
      TypedIsExact(s, b, a, wrote, writes);
    }
    BlankedUndisturbed(specs);
    BlankIsErased(b, specs);
    BlankIsErased(a, specs);
    FilledFrom(a, specs);
    hide Typed, Exact, ValueOf, FieldFilled, BlankedApart, Undisturbed, Disturbs;
    ApplyWrites(b, a, specs);
    var e := Apply(b, a, specs).value;
    WrittenPlain(b, e, specs);
    DifferenceIsCanonical(e, a);
    DigestsAgree(b, e, a, specs, caret);
    if specs != [] && OneWriter(specs) {
      forall s | s in specs ensures Steady(b, a, s) { OneWriterSteady(b, a, specs, s); }
      AllSteady(b, a, specs);
    }
  }

  // ------------------------------------------------------------ the history digest

  datatype Body = Bytes(data: string) | Tree(outer: (string, string), namespaces: seq<(string, string)>, row: Row)

  /** The attributes the caret blanking erases, written as specs. */
  function CaretSpecs(member: string, element: string, keys: seq<string>): seq<Spec> {
    if keys == [] then []
    else [Spec(member, element, map[], AttrField(keys[0]))] + CaretSpecs(member, element, keys[1..])
  }

  predicate CaretMember(rules: Rules, name: string) {
    rules.caret.Some? && rules.caret.value.member == name
  }

  function CaretOf(rules: Rules, name: string): seq<Spec> {
    if CaretMember(rules, name) then CaretSpecs(name, rules.caret.value.element, SortedKeys(rules.caret.value.attrs))
    else []
  }

  /** validate_profile: the caret's element holds no volatile value. */
  predicate CaretHoldsNone(rules: Rules) {
    forall s :: s in rules.specs && CaretMember(rules, s.member) ==> s.element != rules.caret.value.element
  }

  /** One member's row of state_digest, or None when the digest cannot be taken. */
  function DigestBody(data: string, rules: Rules, name: string): Option<Body> {
    var specs := SpecsOf(rules.specs, name);
    if specs == [] && !CaretMember(rules, name) then Some(Bytes(data))
    else
      match rules.parse(data)
      case None => None
      case Some(doc) =>
        match Blank(doc.root, specs)
        case None => None
        case Some(blank) => Some(Tree(doc.outer, doc.namespaces, Canonical(Erased(blank, CaretOf(rules, name)))))
  }

  datatype DigestRow = DigestRow(name: string, meta: map<string, string>, body: Option<Body>)

  /** One row of what state_digest hashes. */
  function RowOf(p: Package, rules: Rules, name: string): DigestRow
    requires name in p.members && name in p.container
  {
    DigestRow(name, p.container[name] - rules.volatileKeys, DigestBody(p.members[name], rules, name))
  }

  /** What state_digest hashes. */
  function StateDigest(p: Package, rules: Rules): (seq<string>, string, seq<DigestRow>)
    requires Complete(p)
  {
    (p.order, p.comment, seq(|p.order|, i requires 0 <= i < |p.order| => RowOf(p, rules, p.order[i])))
  }

  const UNCHANGED := Expectation(map[], None, false)

  ghost predicate PlainDocument(data: string, rules: Rules) {
    rules.parse(data).Some? ==> Plain(rules.parse(data).value.root)
  }

  /** What can be checked of a member of both packages: its specs name the same places before and after. */
  predicate PlacesKept(before: Package, after: Package, rules: Rules, name: string) {
    var specs := SpecsOf(rules.specs, name);
    specs != [] ==>
      && name in before.members && rules.parse(before.members[name]).Some?
      && name in after.members && rules.parse(after.members[name]).Some?
      && SamePlaces(rules.parse(before.members[name]).value.root, rules.parse(after.members[name]).value.root, specs)
  }

  lemma {:induction false} SpecsOfMember(specs: seq<Spec>, member: string)
    ensures forall s :: s in SpecsOf(specs, member) ==> s in specs && s.member == member
  {
    if specs != [] { SpecsOfMember(specs[1..], member); }
  }

  lemma {:induction false} CaretSpecsAre(member: string, element: string, keys: seq<string>)
    ensures forall c :: c in CaretSpecs(member, element, keys) ==>
              c.element == element && c.where == map[] && c.field.AttrField?
  {
    if keys != [] { CaretSpecsAre(member, element, keys[1..]); }
  }

  lemma CaretIsApart(rules: Rules, name: string)
    requires CaretHoldsNone(rules)
    ensures CaretApart(CaretOf(rules, name), SpecsOf(rules.specs, name))
  {
    SpecsOfMember(rules.specs, name);
    if CaretMember(rules, name) { CaretSpecsAre(name, rules.caret.value.element, SortedKeys(rules.caret.value.attrs)); }
  }

  /** A member with volatile values that is let pass: its digest can be taken on both sides. */
  lemma MemberDigests(before: Package, after: Package, rules: Rules, name: string)
    requires Held(before, after, name) && MemberVerdict(before, after, UNCHANGED, rules, name) != Refused
    requires BlankedApart(SpecsOf(rules.specs, name)) && CaretHoldsNone(rules)
    requires PlainDocument(before.members[name], rules) && PlainDocument(after.members[name], rules)
    ensures DigestBody(before.members[name], rules, name) == DigestBody(after.members[name], rules, name)
            <==> PlacesKept(before, after, rules, name)
    ensures SpecsOf(rules.specs, name) != [] ==>
              DigestBody(before.members[name], rules, name).Some? && DigestBody(after.members[name], rules, name).Some?
    ensures OneWriter(SpecsOf(rules.specs, name)) ==> PlacesKept(before, after, rules, name)
  {
    var specs := SpecsOf(rules.specs, name);
    if specs != [] {
      var b, a := rules.parse(before.members[name]).value.root, rules.parse(after.members[name]).value.root;
      CaretIsApart(rules, name);
      hide SamePlaces, BlankedApart, CaretApart, Plain, OneWriter, Typed;
      ComparedDigests(b, a, specs, CaretOf(rules, name), before.window, after.window);
    }
  }

  lemma MetaAlike(before: Package, after: Package, rules: Rules, name: string)
    requires Held(before, after, name) && MemberVerdict(before, after, UNCHANGED, rules, name) != Refused
    requires before.container[name].Keys == after.container[name].Keys
    ensures before.container[name] - rules.volatileKeys == after.container[name] - rules.volatileKeys
  {
  }

  lemma OtherAll(order: seq<string>)
    ensures Other(order, None) == order
  {
  }

  /** Packages the saved proof accepts have equal digests exactly when every member's specs name the same places in
      both; and they do when each selector is disturbed by one spec at most. */
  lemma AcceptedDigests(before: Package, after: Package, rules: Rules)
    requires Complete(before) && Complete(after) && Accepted(before, after, UNCHANGED, rules) && CaretHoldsNone(rules)
    requires forall n :: n in before.order ==> before.container[n].Keys == after.container[n].Keys
    requires forall n :: n in before.order ==> BlankedApart(SpecsOf(rules.specs, n))
    requires forall n :: n in before.order ==>
              PlainDocument(before.members[n], rules) && PlainDocument(after.members[n], rules)
    ensures StateDigest(before, rules) == StateDigest(after, rules)
            <==> forall n :: n in before.order ==> PlacesKept(before, after, rules, n)
    ensures (forall n :: n in before.order ==> OneWriter(SpecsOf(rules.specs, n))) ==>
              StateDigest(before, rules) == StateDigest(after, rules)
  {
    OtherAll(after.order);
    var p, q := StateDigest(before, rules).2, StateDigest(after, rules).2;
    hide MemberVerdict, BlankedApart, OneWriter, PlacesKept, DigestBody, CaretHoldsNone, PlainDocument;
    forall i | 0 <= i < |before.order|
      ensures p[i] == q[i] <==> PlacesKept(before, after, rules, before.order[i])
      ensures OneWriter(SpecsOf(rules.specs, before.order[i])) ==> PlacesKept(before, after, rules, before.order[i])
    {
      var n := before.order[i];
      assert n in before.order && Held(before, after, n);
      MemberDigests(before, after, rules, n);
      MetaAlike(before, after, rules, n);
    }
    if forall n :: n in before.order ==> PlacesKept(before, after, rules, n) {
      assert p == q;
    }
    if p == q {
      forall n | n in before.order ensures PlacesKept(before, after, rules, n) {
        var i :| 0 <= i < |before.order| && before.order[i] == n;
        assert p[i] == q[i];
      }
    }
  }
}
