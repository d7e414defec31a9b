/** The saved-package proof: comparison under declared allowances, and the coarser digest it must refine
    (app/hwpx_saved_proof.py). */
module SavedPackage {
  import opened Text
  import opened UtcSeconds

  /** An XML node: named element, comment or processing instruction. */
  datatype Tag = Name(name: string) | Comment | Pi

  datatype Node = Node(tag: Tag, attrib: map<string, string>, text: Option<string>, tail: Option<string>,
      children: seq<Node>)

  /** text or None */
  function OrNone(t: Option<string>): Option<string> {
    if t == Some("") then None else t
  }

  // ------------------------------------------------------------ two notions of equality

  datatype Where = TagAt | AttribAt | TextAt | TailAt | ChildrenAt | Inside(index: nat, where: Where)

  /** _difference: the first place where two trees differ. */
  function Difference(expected: Node, actual: Node): Option<Where>
    decreases expected, 1
  {
    if expected.tag != actual.tag then Some(TagAt)
    else if expected.attrib != actual.attrib then Some(AttribAt)
    else if OrNone(expected.text) != OrNone(actual.text) then Some(TextAt)
    else if OrNone(expected.tail) != OrNone(actual.tail) then Some(TailAt)
    else if |expected.children| != |actual.children| then Some(ChildrenAt)
    else ChildDifference(expected.children, actual.children, 0)
  }

  function ChildDifference(expected: seq<Node>, actual: seq<Node>, index: nat): Option<Where>
    requires |expected| == |actual|
    decreases expected, 0
  {
    if expected == [] then None
    else
      match Difference(expected[0], actual[0])
      case Some(where) => Some(Inside(index, where))
      case None => ChildDifference(expected[1..], actual[1..], index + 1)
  }

  /** One row of _canonical_tree: printed tag, sorted attribute items, text, tail, children. */
  datatype Row = Row(tag: string, items: seq<(string, string)>, text: Option<string>, tail: Option<string>,
      children: seq<Row>)

  function TagText(tag: Tag): string {
    match tag
    case Name(n) => n
    case Comment => "#comment"
    case Pi => "#pi"
  }

  function Items(m: map<string, string>, keys: seq<string>): seq<(string, string)>
    requires forall k :: k in keys ==> k in m
  {
    if keys == [] then [] else [(keys[0], m[keys[0]])] + Items(m, keys[1..])
  }

  function Canonical(n: Node): Row {
    Row(TagText(n.tag), Items(n.attrib, SortedKeys(n.attrib.Keys)), OrNone(n.text), OrNone(n.tail),
        CanonicalAll(n.children))
  }

  function CanonicalAll(ns: seq<Node>): seq<Row> {
    if ns == [] then [] else [Canonical(ns[0])] + CanonicalAll(ns[1..])
  }

  /** No element is named like the printed form of a comment or instruction; XML names never are. */
  predicate Plain(n: Node) {
    n.tag != Name("#comment") && n.tag != Name("#pi") && forall c :: c in n.children ==> Plain(c)
  }

  lemma {:induction false} ItemsDetermine(m: map<string, string>, ks: seq<string>, n: map<string, string>,
        ls: seq<string>)
    requires (forall k :: k in ks ==> k in m) && (forall l :: l in ls ==> l in n)
    requires Items(m, ks) == Items(n, ls)
    ensures ks == ls && forall k :: k in ks ==> m[k] == n[k]
    decreases |ks|
  {
    if ks != [] && ls != [] {
      assert Items(m, ks)[0] == (ks[0], m[ks[0]]) && Items(n, ls)[0] == (ls[0], n[ls[0]]);
      assert Items(m, ks)[1..] == Items(m, ks[1..]) && Items(n, ls)[1..] == Items(n, ls[1..]);
      ItemsDetermine(m, ks[1..], n, ls[1..]);
      assert ks == [ks[0]] + ks[1..] && ls == [ls[0]] + ls[1..];
    }
  }

  lemma SortedItems(m: map<string, string>, n: map<string, string>)
    ensures Items(m, SortedKeys(m.Keys)) == Items(n, SortedKeys(n.Keys)) <==> m == n
  {
    if Items(m, SortedKeys(m.Keys)) == Items(n, SortedKeys(n.Keys)) {
      ItemsDetermine(m, SortedKeys(m.Keys), n, SortedKeys(n.Keys));
      SameKeys(m, SortedKeys(m.Keys), n, SortedKeys(n.Keys));
    }
  }

  lemma SameKeys(m: map<string, string>, ks: seq<string>, n: map<string, string>, ls: seq<string>)
    requires (forall k :: k in m <==> k in ks) && (forall k :: k in n <==> k in ls)
    requires ks == ls && forall k :: k in ks ==> k in m && k in n && m[k] == n[k]
    ensures m == n
  {
  }

  /** Own content of two nodes agrees exactly when their rows do. */
  lemma OwnAgrees(a: Node, b: Node)
    requires a.tag != Name("#comment") && a.tag != Name("#pi") && b.tag != Name("#comment") && b.tag != Name("#pi")
    ensures (TagText(a.tag) == TagText(b.tag)
             && Items(a.attrib, SortedKeys(a.attrib.Keys)) == Items(b.attrib, SortedKeys(b.attrib.Keys)))
       <==> a.tag == b.tag && a.attrib == b.attrib
  {
    SortedItems(a.attrib, b.attrib);
  }

  lemma {:induction false} CanonicalLength(ns: seq<Node>)
    ensures |CanonicalAll(ns)| == |ns|
  {
    if ns != [] { CanonicalLength(ns[1..]); }
  }

  /** The comparison finds nothing exactly when the canonical trees agree. */
  lemma {:induction false} DifferenceIsCanonical(a: Node, b: Node)
    requires Plain(a) && Plain(b)
    ensures Difference(a, b).None? <==> Canonical(a) == Canonical(b)
    decreases a, 1
  {
    OwnAgrees(a, b);
    CanonicalLength(a.children);
    CanonicalLength(b.children);
    if |a.children| == |b.children| { ChildDifferenceIsCanonical(a.children, b.children, 0); }
  }

  lemma {:induction false} ChildDifferenceIsCanonical(xs: seq<Node>, ys: seq<Node>, index: nat)
    requires |xs| == |ys| && (forall c :: c in xs ==> Plain(c)) && (forall c :: c in ys ==> Plain(c))
    ensures ChildDifference(xs, ys, index).None? <==> CanonicalAll(xs) == CanonicalAll(ys)
    decreases xs, 0
  {
    if xs != [] {
      DifferenceIsCanonical(xs[0], ys[0]);
      ChildDifferenceIsCanonical(xs[1..], ys[1..], index + 1);
      assert CanonicalAll(xs)[0] == Canonical(xs[0]) && CanonicalAll(ys)[0] == Canonical(ys[0]);
      assert CanonicalAll(xs)[1..] == CanonicalAll(xs[1..]) && CanonicalAll(ys)[1..] == CanonicalAll(ys[1..]);
    }
  }

  // ------------------------------------------------------------ volatile values

  datatype Field = TextField | AttrField(key: string)

  /** A declared volatile value: one element of one member, selected by tag and attribute values. */
  datatype Spec = Spec(member: string, element: string, where: map<string, string>, field: Field)

  predicate Matches(n: Node, s: Spec) {
    n.tag == Name(s.element) && forall k :: k in s.where ==> k in n.attrib && n.attrib[k] == s.where[k]
  }

  /** Elements a spec selects, in document order. */
  function Selected(n: Node, s: Spec): seq<Node> {
    (if Matches(n, s) then [n] else []) + SelectedAll(n.children, s)
  }

  function SelectedAll(ns: seq<Node>, s: Spec): seq<Node> {
    if ns == [] then [] else Selected(ns[0], s) + SelectedAll(ns[1..], s)
  }

  /** Assigning one field of one node; an absent attribute is never created. */
  function SetOwn(n: Node, field: Field, value: Option<string>): Node {
    match field
    case TextField => n.(text := value)
    case AttrField(key) => if key in n.attrib && value.Some? then n.(attrib := n.attrib[key := value.value]) else n
  }

  /** Assigning a field of every selected node. */
  function SetField(n: Node, s: Spec, value: Option<string>): Node {
    var own := if Matches(n, s) then SetOwn(n, s.field, value) else n;
    own.(children := SetFieldAll(n.children, s, value))
  }

  function SetFieldAll(ns: seq<Node>, s: Spec, value: Option<string>): seq<Node> {
    if ns == [] then [] else [SetField(ns[0], s, value)] + SetFieldAll(ns[1..], s, value)
  }

  function BlankValue(field: Field): Option<string> {
    if field.TextField? then None else Some("")
  }

  /** The spec selects exactly one element, which has the field. */
  predicate Exact(n: Node, s: Spec) {
    |Selected(n, s)| == 1 && (s.field.AttrField? ==> s.field.key in Selected(n, s)[0].attrib)
  }

  function Taken(actual: Node, s: Spec): Option<string>
    requires Exact(actual, s)
  {
    match s.field
    case TextField => Selected(actual, s)[0].text
    case AttrField(key) => Some(Selected(actual, s)[0].attrib[key])
  }

  /** The value a spec names, where it selects exactly one element. */
  function ValueOf(n: Node, s: Spec): Option<string> {
    var found := Selected(n, s);
    if |found| != 1 then None
    else
      match s.field
      case TextField => found[0].text
      case AttrField(key) => if key in found[0].attrib then Some(found[0].attrib[key]) else None
  }

  function MomentOf(n: Node, s: Spec): Option<int> {
    var value := ValueOf(n, s);
    if value.Some? then UtcSecond(value.value) else None
  }

  /** _typed_volatile finds nothing: a UTC second on both sides, each in its own window, not going back. */
  predicate Typed(s: Spec, before: Node, after: Node, wrote: Window, writes: Window) {
    var prior, now := MomentOf(before, s), MomentOf(after, s);
    prior.Some? && now.Some? && InWindow(prior.value, wrote) && InWindow(now.value, writes) && prior.value <= now.value
  }

  /** _apply_volatile: the expected tree takes the actual values; None stands for its mismatch error. */
  function Apply(expected: Node, actual: Node, specs: seq<Spec>): Option<Node>
    decreases |specs|
  {
    if specs == [] then Some(expected)
    else if !Exact(expected, specs[0]) || !Exact(actual, specs[0]) then None
    else Apply(SetField(expected, specs[0], Taken(actual, specs[0])), actual, specs[1..])
  }

  /** _apply_volatile with blank=True on two copies of one tree. */
  function Blank(n: Node, specs: seq<Spec>): Option<Node>
    decreases |specs|
  {
    if specs == [] then Some(n)
    else if !Exact(n, specs[0]) then None
    else Blank(SetField(n, specs[0], BlankValue(specs[0].field)), specs[1..])
  }

  // ------------------------------------------------------------ selectors that read what another spec assigns

  /** s reads the attribute t assigns, on an element both can select. */
  predicate Reads(t: Spec, s: Spec) {
    && t.field.AttrField? && t.element == s.element && t.field.key in s.where
    && forall k :: k in t.where && k in s.where && k != t.field.key ==> t.where[k] == s.where[k]
  }

  /** Assigning t's field this value on a node t selects never changes whether s selects it. */
  predicate Leaves(t: Spec, s: Spec, value: Option<string>) {
    value.Some? && Reads(t, s) ==>
      t.field.key in t.where && (t.where[t.field.key] == s.where[t.field.key] <==> value.value == s.where[t.field.key])
  }

  /** A value taken from an element t selects. */
  predicate Fits(t: Spec, value: Option<string>) {
    t.field.AttrField? && t.field.key in t.where ==> value == Some(t.where[t.field.key])
  }

  /** Taking the actual value can change what s selects. */
  predicate Disturbs(t: Spec, s: Spec) {
    Reads(t, s) && t.field.key !in t.where
  }

  /** What a profile's author can check for the update: no spec disturbs a later one. */
  predicate Undisturbed(specs: seq<Spec>) {
    forall i, j :: 0 <= i < j < |specs| ==> !Disturbs(specs[i], specs[j])
  }

  /** ... for blanking: emptying a field never changes what a later spec selects. */
  predicate BlankedApart(specs: seq<Spec>) {
    forall i, j :: 0 <= i < j < |specs| ==> Leaves(specs[i], specs[j], BlankValue(specs[i].field))
  }

  predicate LeavesAll(t: Spec, specs: seq<Spec>, value: Option<string>) {
    forall s :: s in specs ==> Leaves(t, s, value)
  }

  lemma SetOwnMatches(n: Node, s: Spec, t: Spec, value: Option<string>)
    requires Matches(n, t) && Leaves(t, s, value)
    ensures Matches(SetOwn(n, t.field, value), s) <==> Matches(n, s)
  {
    var m := SetOwn(n, t.field, value);
    if m != n && t.field.AttrField? && t.element == s.element && t.field.key in s.where {
      if Reads(t, s) {
        assert n.attrib[t.field.key] == t.where[t.field.key];
        assert forall k :: k in s.where && k != t.field.key ==> (k in m.attrib <==> k in n.attrib);
      } else {
        var k :| k in t.where && k in s.where && k != t.field.key && t.where[k] != s.where[k];
        assert m.attrib[k] == n.attrib[k] == t.where[k];
      }
    }
  }

  lemma {:induction false} SelectedMatch(n: Node, s: Spec)
    ensures forall m :: m in Selected(n, s) ==> Matches(m, s)
    decreases n, 1
  {
    SelectedAllMatch(n.children, s);
  }

  lemma {:induction false} SelectedAllMatch(ns: seq<Node>, s: Spec)
    ensures forall m :: m in SelectedAll(ns, s) ==> Matches(m, s)
    decreases ns, 0
  {
    if ns != [] {
      SelectedMatch(ns[0], s);
      SelectedAllMatch(ns[1..], s);
    }
  }

  /** The value taken fits, so a spec that does not disturb another one leaves it alone. */
  lemma TakenLeaves(actual: Node, t: Spec, specs: seq<Spec>)
    requires Exact(actual, t) && forall s :: s in specs ==> !Disturbs(t, s)
    ensures Fits(t, Taken(actual, t)) && LeavesAll(t, specs, Taken(actual, t))
  {
    SelectedMatch(actual, t);
    assert Matches(Selected(actual, t)[0], t);
  }

  /** One node's own content after a full blanking. */
  function ErasedOwn(n: Node, specs: seq<Spec>): Node {
    n.(attrib := map k | k in n.attrib :: if ErasesKey(n, specs, k) then "" else n.attrib[k],
       text := if ErasesText(n, specs) then None else n.text)
  }

  /** Node by node, the content a full blanking leaves. */
  function Erased(n: Node, specs: seq<Spec>): Node {
    ErasedOwn(n, specs).(children := ErasedAll(n.children, specs))
  }

  function ErasedAll(ns: seq<Node>, specs: seq<Spec>): seq<Node> {
    if ns == [] then [] else [Erased(ns[0], specs)] + ErasedAll(ns[1..], specs)
  }

  predicate ErasesKey(n: Node, specs: seq<Spec>, key: string) {
    exists s :: s in specs && Matches(n, s) && s.field == AttrField(key)
  }

  predicate ErasesText(n: Node, specs: seq<Spec>) {
    exists s :: s in specs && Matches(n, s) && s.field == TextField
  }

  /** What is erased depends only on the tag and on which specs match. */
  lemma ErasesAlike(n: Node, m: Node, specs: seq<Spec>)
    requires forall s :: s in specs ==> (Matches(m, s) <==> Matches(n, s))
    ensures forall k :: ErasesKey(m, specs, k) <==> ErasesKey(n, specs, k)
    ensures ErasesText(m, specs) <==> ErasesText(n, specs)
  {
    forall k ensures ErasesKey(m, specs, k) <==> ErasesKey(n, specs, k) { }
  }

  lemma ErasedOwnChildren(n: Node, specs: seq<Spec>, children: seq<Node>)
    ensures ErasedOwn(n.(children := children), specs) == ErasedOwn(n, specs).(children := children)
  {
    var m := n.(children := children);
    ErasesAlike(n, m, specs);
    assert ErasedOwn(m, specs).attrib == ErasedOwn(n, specs).attrib;
  }

  // ------------------------------------------------------------ blanking one spec at a time

  /** Corresponding nodes carry the same attribute names. */
  ghost predicate KeysAlike(p: seq<Node>, q: seq<Node>) {
    |p| == |q| && forall i :: 0 <= i < |p| ==> p[i].attrib.Keys == q[i].attrib.Keys
  }

  lemma KeysAlikeConcat(p: seq<Node>, q: seq<Node>, x: seq<Node>, y: seq<Node>)
    requires KeysAlike(p, q) && KeysAlike(x, y)
    ensures KeysAlike(p + x, q + y)
  {
  }

  /** A spec keeps selecting the same elements whatever another one assigns. */
  lemma {:induction false} SelectedAfterSet(n: Node, s: Spec, t: Spec, value: Option<string>)
    requires Leaves(t, s, value)
    ensures KeysAlike(Selected(SetField(n, t, value), s), Selected(n, s))
    decreases n, 1
  {
    var m := SetField(n, t, value);
    SelectedAllAfterSet(n.children, s, t, value);
    if Matches(n, t) { SetOwnMatches(n, s, t, value); }
    assert Matches(m, s) <==> Matches(n, s);
    KeysAlikeConcat(if Matches(n, s) then [m] else [], if Matches(n, s) then [n] else [],
                    SelectedAll(m.children, s), SelectedAll(n.children, s));
  }

  lemma {:induction false} SelectedAllAfterSet(ns: seq<Node>, s: Spec, t: Spec, value: Option<string>)
    requires Leaves(t, s, value)
    ensures KeysAlike(SelectedAll(SetFieldAll(ns, t, value), s), SelectedAll(ns, s))
    decreases ns, 0
  {
    if ns != [] {
      SelectedAfterSet(ns[0], s, t, value);
      SelectedAllAfterSet(ns[1..], s, t, value);
      var ms := SetFieldAll(ns, t, value);
      assert ms[0] == SetField(ns[0], t, value) && ms[1..] == SetFieldAll(ns[1..], t, value);
      KeysAlikeConcat(Selected(ms[0], s), Selected(ns[0], s), SelectedAll(ms[1..], s), SelectedAll(ns[1..], s));
    }
  }

  lemma ExactAfterSet(n: Node, s: Spec, t: Spec, value: Option<string>)
    requires Leaves(t, s, value)
    ensures Exact(SetField(n, t, value), s) <==> Exact(n, s)
  {
    SelectedAfterSet(n, s, t, value);
  }

  predicate AllExact(n: Node, specs: seq<Spec>) {
    forall s :: s in specs ==> Exact(n, s)
  }

  lemma AllExactAfterSet(n: Node, specs: seq<Spec>, t: Spec, value: Option<string>)
    requires LeavesAll(t, specs, value)
    ensures AllExact(SetField(n, t, value), specs) <==> AllExact(n, specs)
  {
    forall s | s in specs ensures Exact(SetField(n, t, value), s) <==> Exact(n, s) {
      ExactAfterSet(n, s, t, value);
    }
  }

  /** The sequential volatile update succeeds exactly when every spec is exact in both trees. */
  lemma {:induction false} ApplySucceeds(expected: Node, actual: Node, specs: seq<Spec>)
    requires Undisturbed(specs)
    ensures Apply(expected, actual, specs).Some? <==> AllExact(expected, specs) && AllExact(actual, specs)
    decreases |specs|
  {
    if specs != [] {
      var t, rest := specs[0], specs[1..];
      assert specs == [t] + rest;
      if Exact(expected, t) && Exact(actual, t) {
        assert forall i :: 0 <= i < |rest| ==> rest[i] == specs[i + 1];
        TakenLeaves(actual, t, rest);
        ApplySucceeds(SetField(expected, t, Taken(actual, t)), actual, rest);
        AllExactAfterSet(expected, rest, t, Taken(actual, t));
      }
    }
  }

  lemma ErasesCons(n: Node, s: Spec, specs: seq<Spec>)
    ensures forall k :: ErasesKey(n, [s] + specs, k) <==>
              (Matches(n, s) && s.field == AttrField(k)) || ErasesKey(n, specs, k)
    ensures ErasesText(n, [s] + specs) <==> (Matches(n, s) && s.field == TextField) || ErasesText(n, specs)
  {
    assert s in [s] + specs && forall t :: t in specs ==> t in [s] + specs;
  }

  lemma MatchesAfterOwn(n: Node, s: Spec, specs: seq<Spec>)
    requires LeavesAll(s, specs, BlankValue(s.field)) && Matches(n, s)
    ensures forall t :: t in specs ==> (Matches(SetOwn(n, s.field, BlankValue(s.field)), t) <==> Matches(n, t))
  {
    forall t | t in specs ensures Matches(SetOwn(n, s.field, BlankValue(s.field)), t) <==> Matches(n, t) {
      SetOwnMatches(n, t, s, BlankValue(s.field));
    }
  }

  lemma ErasedOwnCons(n: Node, s: Spec, specs: seq<Spec>)
    requires LeavesAll(s, specs, BlankValue(s.field))
    ensures ErasedOwn(if Matches(n, s) then SetOwn(n, s.field, BlankValue(s.field))
              else n, specs) == ErasedOwn(n, [s] + specs)
  {
    ErasesCons(n, s, specs);
    if Matches(n, s) {
      ErasedOwnMatched(n, s, specs);
    } else {
      SameErasure(n, [s] + specs, specs);
    }
  }

  lemma SameErasure(n: Node, specs: seq<Spec>, others: seq<Spec>)
    requires (forall k :: ErasesKey(n, specs, k) <==> ErasesKey(n, others, k))
            && (ErasesText(n, specs) <==> ErasesText(n, others))
    ensures ErasedOwn(n, specs) == ErasedOwn(n, others)
  {
    assert ErasedOwn(n, specs).attrib == ErasedOwn(n, others).attrib;
  }

  lemma BlankedOwn(n: Node, field: Field)
    ensures var m := SetOwn(n, field, BlankValue(field));
            && m == n.(attrib := m.attrib, text := if field.TextField? then None else n.text)
            && m.attrib.Keys == n.attrib.Keys
            && forall k :: k in n.attrib ==> m.attrib[k] == if field == AttrField(k) then "" else n.attrib[k]
  {
  }

  lemma ErasedOwnMatched(n: Node, s: Spec, specs: seq<Spec>)
    requires LeavesAll(s, specs, BlankValue(s.field)) && Matches(n, s)
    requires forall k :: ErasesKey(n, [s] + specs, k) <==> s.field == AttrField(k) || ErasesKey(n, specs, k)
    requires ErasesText(n, [s] + specs) <==> s.field == TextField || ErasesText(n, specs)
    ensures ErasedOwn(SetOwn(n, s.field, BlankValue(s.field)), specs) == ErasedOwn(n, [s] + specs)
  {
    var m := SetOwn(n, s.field, BlankValue(s.field));
    MatchesAfterOwn(n, s, specs);
    ErasesAlike(n, m, specs);
    BlankedOwn(n, s.field);
    hide LeavesAll, Leaves, Matches, ErasesKey, ErasesText, SetOwn, BlankValue;
    assert ErasedOwn(m, specs).attrib == ErasedOwn(n, [s] + specs).attrib;
  }

  lemma {:induction false} ErasedCons(n: Node, s: Spec, specs: seq<Spec>)
    requires LeavesAll(s, specs, BlankValue(s.field))
    ensures Erased(SetField(n, s, BlankValue(s.field)), specs) == Erased(n, [s] + specs)
    decreases n, 1
  {
    ErasedAllCons(n.children, s, specs);
    var own := if Matches(n, s) then SetOwn(n, s.field, BlankValue(s.field)) else n;
    ErasedOwnCons(n, s, specs);
    ErasedOwnChildren(own, specs, SetFieldAll(n.children, s, BlankValue(s.field)));
  }

  lemma {:induction false} ErasedAllCons(ns: seq<Node>, s: Spec, specs: seq<Spec>)
    requires LeavesAll(s, specs, BlankValue(s.field))
    ensures ErasedAll(SetFieldAll(ns, s, BlankValue(s.field)), specs) == ErasedAll(ns, [s] + specs)
    decreases ns, 0
  {
    if ns != [] {
      ErasedCons(ns[0], s, specs);
      ErasedAllCons(ns[1..], s, specs);
      var ms := SetFieldAll(ns, s, BlankValue(s.field));
      assert ms[0] == SetField(ns[0], s, BlankValue(s.field))
          && ms[1..] == SetFieldAll(ns[1..], s, BlankValue(s.field));
    }
  }

  lemma {:induction false} ErasedNothing(n: Node)
    ensures Erased(n, []) == n
    decreases n, 1
  {
    ErasedAllNothing(n.children);
    assert ErasedOwn(n, []).attrib == n.attrib;
  }

  lemma {:induction false} ErasedAllNothing(ns: seq<Node>)
    ensures ErasedAll(ns, []) == ns
    decreases ns, 0
  {
    if ns != [] {
      ErasedNothing(ns[0]);
      ErasedAllNothing(ns[1..]);
    }
  }

  /** Blanking spec after spec succeeds exactly when each is exact, and leaves the erased tree. */
  lemma {:induction false} BlankIsErased(n: Node, specs: seq<Spec>)
    requires BlankedApart(specs)
    ensures Blank(n, specs) == if AllExact(n, specs) then Some(Erased(n, specs)) else None
    decreases |specs|
  {
    if specs == [] {
      ErasedNothing(n);
    } else {
      var s, rest := specs[0], specs[1..];
      assert specs == [s] + rest;
      if Exact(n, s) {
        assert forall i :: 0 <= i < |rest| ==> rest[i] == specs[i + 1];
        BlankIsErased(SetField(n, s, BlankValue(s.field)), rest);
        AllExactAfterSet(n, rest, s, BlankValue(s.field));
        ErasedCons(n, s, rest);
      }
    }
  }

  // ------------------------------------------------------------ neither condition can be dropped

  ghost predicate ApplyMeets(specs: seq<Spec>) {
    forall expected, actual ::
      Apply(expected, actual, specs).Some? <==> AllExact(expected, specs) && AllExact(actual, specs)
  }

  ghost predicate BlankMeets(specs: seq<Spec>) {
    forall n :: Blank(n, specs) == if AllExact(n, specs) then Some(Erased(n, specs)) else None
  }

  function Keyed(s: Spec): map<string, string> {
    if s.field.AttrField? then map[s.field.key := ""] else map[]
  }

  /** An element both specs could select, with a given value in the field t assigns. */
  function Both(t: Spec, s: Spec, value: string): Node
    requires t.field.AttrField?
  {
    Node(Name(t.element), (Keyed(s) + t.where + s.where)[t.field.key := value], None, None, [])
  }

  lemma BothSelected(t: Spec, s: Spec, value: string)
    requires Reads(t, s)
    ensures var n := Both(t, s, value);
            && Selected(n, t) == (if t.field.key in t.where && t.where[t.field.key] != value then [] else [n])
            && Selected(n, s) == (if s.where[t.field.key] != value then [] else [n])
    ensures SelectedAll([], s) == []
  {
    var n := Both(t, s, value);
    assert n.children == [];
    assert forall k :: k in t.where && k != t.field.key ==> n.attrib[k] == t.where[k];
    assert forall k :: k in s.where && k != t.field.key ==> n.attrib[k] == s.where[k];
  }

  lemma BothSet(t: Spec, s: Spec, was: string, value: string)
    requires Reads(t, s) && (t.field.key in t.where ==> t.where[t.field.key] == was)
    ensures SetField(Both(t, s, was), t, Some(value)) == Both(t, s, value)
  {
    BothSelected(t, s, was);
    assert Matches(Both(t, s, was), t);
  }

  /** The update of two specs meets its promise exactly when the first does not disturb the second. */
  lemma ApplyPair(t: Spec, s: Spec)
    ensures ApplyMeets([t, s]) <==> !Disturbs(t, s)
  {
    if Disturbs(t, s) {
      var w := s.where[t.field.key];
      var e, a := Both(t, s, w + "x"), Both(t, s, w);
      BothSelected(t, s, w + "x");
      BothSelected(t, s, w);
      BothSet(t, s, w + "x", w);
      assert Taken(a, t) == Some(w);
      assert Apply(a, a, [s]).Some?;
      assert [t, s][1..] == [s];
      assert Apply(e, a, [t, s]).Some? && s in [t, s] && !Exact(e, s);
    } else {
      forall e, a ensures Apply(e, a, [t, s]).Some? <==> AllExact(e, [t, s]) && AllExact(a, [t, s]) {
        ApplySucceeds(e, a, [t, s]);
      }
    }
  }

  lemma BlankTwo(n: Node, t: Spec, s: Spec)
    ensures Blank(n, [t, s]).Some? <==> Exact(n, t) && Exact(SetField(n, t, BlankValue(t.field)), s)
  {
    var m := SetField(n, t, BlankValue(t.field));
    assert Blank(m, [s]).Some? <==> Exact(m, s) by { assert [s][1..] == []; }
    assert [t, s][1..] == [s];
  }

  lemma BlankSpoils(t: Spec, s: Spec)
    requires !Leaves(t, s, BlankValue(t.field))
    ensures !BlankMeets([t, s])
  {
    var w := s.where[t.field.key];
    var v := if t.field.key in t.where then t.where[t.field.key] else if w == "" then "x" else w;
    var n := Both(t, s, v);
    BothSelected(t, s, v);
    BothSelected(t, s, "");
    BothSet(t, s, v, "");
    hide Selected, SetField, Leaves, Reads;
    BlankTwo(n, t, s);
    assert Exact(n, t) && t in [t, s] && s in [t, s];
    assert Exact(n, s) <==> !Exact(Both(t, s, ""), s);
    assert AllExact(n, [t, s]) <==> Exact(n, s);
  }

  /** Blanking two specs leaves what it promises exactly when emptying the first field leaves the second selection
      alone. */
  lemma BlankPair(t: Spec, s: Spec)
    ensures BlankMeets([t, s]) <==> Leaves(t, s, BlankValue(t.field))
  {
    if Leaves(t, s, BlankValue(t.field)) {
      forall n ensures Blank(n, [t, s]) == if AllExact(n, [t, s]) then Some(Erased(n, [t, s])) else None {
        BlankIsErased(n, [t, s]);
      }
    } else {
      BlankSpoils(t, s);
    }
  }

  /** Over a whole profile: undisturbed selectors give the update its promise, and no weaker condition does for every
      two of them taken in order. */
  lemma ApplyExact(specs: seq<Spec>)
    ensures Undisturbed(specs) ==> ApplyMeets(specs)
    ensures Undisturbed(specs) <==> forall i, j | 0 <= i < j < |specs| :: ApplyMeets([specs[i], specs[j]])
  {
    forall i, j | 0 <= i < j < |specs| ensures ApplyMeets([specs[i], specs[j]]) <==> !Disturbs(specs[i], specs[j]) {
      ApplyPair(specs[i], specs[j]);
    }
    if Undisturbed(specs) {
      forall e, a ensures Apply(e, a, specs).Some? <==> AllExact(e, specs) && AllExact(a, specs) {
        ApplySucceeds(e, a, specs);
      }
    }
  }

  lemma BlankExact(specs: seq<Spec>)
    ensures BlankedApart(specs) ==> BlankMeets(specs)
    ensures BlankedApart(specs) <==> forall i, j | 0 <= i < j < |specs| :: BlankMeets([specs[i], specs[j]])
  {
    forall i, j | 0 <= i < j < |specs|
      ensures BlankMeets([specs[i], specs[j]]) <==> Leaves(specs[i], specs[j], BlankValue(specs[i].field))
    {
      BlankPair(specs[i], specs[j]);
    }
    if BlankedApart(specs) {
      forall n ensures Blank(n, specs) == if AllExact(n, specs) then Some(Erased(n, specs)) else None {
        BlankIsErased(n, specs);
      }
    }
  }

  // ------------------------------------------------------------ packages

  /** A parsed XML member: declaration, bytes around the root, namespace declarations, root element. */
  datatype Document = Document(prolog: string, outer: (string, string), namespaces: seq<(string, string)>, root: Node)

  datatype Package = Package(order: seq<string>, comment: string, members: map<string, string>,
                             container: map<string, map<string, string>>, window: Window)

  datatype CaretSpec = CaretSpec(member: string, element: string, attrs: set<string>)

  /** The rule of a preview member that may be regenerated. */
  datatype Preview = Png(samePixelSize: bool) | TextIn(encoding: string)

  /** The profile's allowances, with XML parsing, the image library and the text codecs as given functions. */
  datatype Rules = Rules(volatileKeys: set<string>, specs: seq<Spec>, caret: Option<CaretSpec>,
                         regenerated: map<string, Preview>, parse: string -> Option<Document>,
                         pngSize: string -> Option<(nat, nat)>, decodes: (string, string) -> bool)

  datatype Expectation = Expectation(trees: map<string, Node>, added: Option<string>, rendering: bool)

  predicate Complete(p: Package) {
    forall n :: n in p.order ==> n in p.members && n in p.container
  }

  function SpecsOf(specs: seq<Spec>, member: string): seq<Spec> {
    if specs == [] then [] else (if specs[0].member == member then [specs[0]] else []) + SpecsOf(specs[1..], member)
  }

  function Other(order: seq<string>, added: Option<string>): seq<string> {
    if order == [] then [] else (if added == Some(order[0]) then [] else [order[0]]) + Other(order[1..], added)
  }

  datatype Verdict = Identical | InfosetEqual | Regenerated | Refused

  const MAX_PREVIEW_TEXT := 1000000

  /** _regenerated_valid */
  predicate PreviewValid(rules: Rules, rule: Preview, data: string) {
    match rule
    case Png(_) => rules.pngSize(data).Some?
    case TextIn(encoding) => |data| <= MAX_PREVIEW_TEXT && rules.decodes(encoding, data)
  }

  predicate Remade(rules: Rules, rule: Preview, b: string, a: string) {
    && PreviewValid(rules, rule, b) && PreviewValid(rules, rule, a)
    && (rule.Png? && rule.samePixelSize ==> rules.pngSize(b) == rules.pngSize(a))
  }

  /** The XML comparison of one member. */
  function InfosetVerdict(b: string, a: string, tree: Option<Node>, specs: seq<Spec>, rules: Rules,
                          wrote: Window, writes: Window): Verdict
  {
    match (rules.parse(b), rules.parse(a))
    case (Some(prior), Some(now)) =>
      if now.prolog != prior.prolog || now.outer != prior.outer || now.namespaces != prior.namespaces then Refused
      else if exists s :: s in specs && !Typed(s, prior.root, now.root, wrote, writes) then Refused
      else
        (match Apply(if tree.Some? then tree.value else prior.root, now.root, specs)
         case None => Refused
         case Some(expected) => if Difference(expected, now.root).None? then InfosetEqual else Refused)
    case _ => Refused
  }

  /** What compare() makes of one member. */
  function MemberVerdict(before: Package, after: Package, e: Expectation, rules: Rules, name: string): Verdict
    requires name in before.members && name in before.container && name in after.members && name in after.container
  {
    var b, a := before.members[name], after.members[name];
    if exists k :: k in before.container[name] && k !in rules.volatileKeys
                   && !(k in after.container[name] && after.container[name][k] == before.container[name][k])
                      then Refused
    else if name in rules.regenerated && e.rendering && a != b then
      (if Remade(rules, rules.regenerated[name], b, a) then Regenerated else Refused)
    else
      var specs := SpecsOf(rules.specs, name);
      if name in e.trees || specs != [] then
        var tree := if name in e.trees then Some(e.trees[name]) else None;
        InfosetVerdict(b, a, tree, specs, rules, before.window, after.window)
      else if a == b then Identical
      else Refused
  }

  datatype Counts = Counts(identical: nat, infoset: nat, regenerated: nat, added: nat)

  predicate SameMembers(before: Package, after: Package, e: Expectation) {
    Other(after.order, e.added) == before.order && after.comment == before.comment
  }

  ghost predicate Accepted(before: Package, after: Package, e: Expectation, rules: Rules)
    requires Complete(before) && Complete(after)
  {
    && SameMembers(before, after, e)
    && forall i :: 0 <= i < |before.order| ==>
         Held(before, after, before.order[i]) && MemberVerdict(before, after, e, rules, before.order[i]) != Refused
  }

  predicate Held(before: Package, after: Package, name: string) {
    name in before.members && name in before.container && name in after.members && name in after.container
  }

  lemma OtherMembers(order: seq<string>, added: Option<string>)
    ensures forall n :: n in Other(order, added) ==> n in order
  {
  }

  /** How many of the first n members get a verdict; a member that is missing somewhere is refused. */
  function Tally(before: Package, after: Package, e: Expectation, rules: Rules, n: nat, verdict: Verdict): nat
    requires n <= |before.order|
  {
    if n == 0 then 0
    else
      var last := if VerdictOf(before, after, e, rules, before.order[n - 1]) == verdict then 1 else 0;
      Tally(before, after, e, rules, n - 1, verdict) + last
  }

  function VerdictOf(before: Package, after: Package, e: Expectation, rules: Rules, name: string): Verdict {
    if Held(before, after, name) then MemberVerdict(before, after, e, rules, name) else Refused
  }

  /** Nothing refused so far. */
  lemma {:induction false} NoneRefused(before: Package, after: Package, e: Expectation, rules: Rules, n: nat)
    requires n <= |before.order|
    ensures Tally(before, after, e, rules, n, Refused) == 0
            <==> forall i :: 0 <= i < n ==>
                Held(before, after, before.order[i])
                    && MemberVerdict(before, after, e, rules, before.order[i]) != Refused
  {
    hide MemberVerdict, Held;
    if n > 0 { NoneRefused(before, after, e, rules, n - 1); }
  }

  /** Without a rendering request nothing is regenerated. */
  lemma {:induction false} NoneRemade(before: Package, after: Package, e: Expectation, rules: Rules, n: nat)
    requires n <= |before.order| && !e.rendering
    ensures Tally(before, after, e, rules, n, Regenerated) == 0
  {
    if n > 0 { NoneRemade(before, after, e, rules, n - 1); }
  }

  /** compare(): accepts exactly when no member is refused; each count is the number of members with that verdict. */
  method Compare(before: Package, after: Package, e: Expectation, rules: Rules) returns (counts: Option<Counts>)
    requires Complete(before) && Complete(after)
    ensures counts.Some? <==> Accepted(before, after, e, rules)
    ensures counts.Some? ==>
              && counts.value.identical == Tally(before, after, e, rules, |before.order|, Identical)
              && counts.value.infoset == Tally(before, after, e, rules, |before.order|, InfosetEqual)
              && counts.value.regenerated == Tally(before, after, e, rules, |before.order|, Regenerated)
              && counts.value.identical + counts.value.infoset + counts.value.regenerated == |before.order|
              && (!e.rendering ==> counts.value.regenerated == 0)
              && counts.value.added == (if e.added.Some? then 1 else 0)
  {
    hide MemberVerdict, Tally;
    if !SameMembers(before, after, e) { return None; }
    OtherMembers(after.order, e.added);
    NoTally(before, after, e, rules);
    var deltas := 0;
    var identical, infoset, remade := 0, 0, 0;
    for i := 0 to |before.order|
      invariant deltas == Tally(before, after, e, rules, i, Refused)
              && identical == Tally(before, after, e, rules, i, Identical)
      invariant infoset == Tally(before, after, e, rules, i, InfosetEqual)
          && remade == Tally(before, after, e, rules, i, Regenerated)
    {
      var name := before.order[i];
      OneTally(before, after, e, rules, i);
      match MemberVerdict(before, after, e, rules, name)
      case Refused => deltas := deltas + 1;
      case Identical => identical := identical + 1;
      case InfosetEqual => infoset := infoset + 1;
      case Regenerated => remade := remade + 1;
    }
    NoneRefused(before, after, e, rules, |before.order|);
    if deltas > 0 { return None; }
    TallyPartition(before, after, e, rules, |before.order|);
    if !e.rendering { NoneRemade(before, after, e, rules, |before.order|); }
    counts := Some(Counts(identical, infoset, remade, if e.added.Some? then 1 else 0));
  }

  lemma NoTally(before: Package, after: Package, e: Expectation, rules: Rules)
    ensures forall v :: Tally(before, after, e, rules, 0, v) == 0
  {
  }

  lemma OneTally(before: Package, after: Package, e: Expectation, rules: Rules, n: nat)
    requires n < |before.order| && Held(before, after, before.order[n])
    ensures forall v :: Tally(before, after, e, rules, n + 1, v)
              == Tally(before, after, e, rules, n, v) + if MemberVerdict(before, after, e, rules, before.order[n]) == v
                  then 1 else 0
  {
    hide MemberVerdict;
  }

  /** The counts partition the members. */
  lemma {:induction false} TallyPartition(before: Package, after: Package, e: Expectation, rules: Rules, n: nat)
    requires n <= |before.order|
    ensures Tally(before, after, e, rules, n, Identical) + Tally(before, after, e, rules, n, InfosetEqual)
            + Tally(before, after, e, rules, n, Regenerated) + Tally(before, after, e, rules, n, Refused) == n
  {
    hide MemberVerdict;
    if n > 0 { TallyPartition(before, after, e, rules, n - 1); }
  }
}
