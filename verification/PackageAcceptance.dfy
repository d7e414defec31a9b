/** What the saved-package comparison accepts, read off the two packages (app/hwpx_saved_proof.py). */
module PackageAcceptance {
  import opened Text
  import opened UtcSeconds
  import opened SavedPackage

  // ------------------------------------------------------------ the elements a volatile value selects

  /** root.iter() */
  function Nodes(n: Node): seq<Node> {
    [n] + NodesAll(n.children)
  }

  function NodesAll(ns: seq<Node>): seq<Node> {
    if ns == [] then [] else Nodes(ns[0]) + NodesAll(ns[1..])
  }

  /** The element has that tag and, among its attributes, those values. */
  predicate Picks(n: Node, s: Spec) {
    n.tag == Name(s.element) && forall key :: key in s.where ==> key in n.attrib && n.attrib[key] == s.where[key]
  }

  function FieldOf(n: Node, field: Field): Option<string> {
    match field
    case TextField => n.text
    case AttrField(key) => if key in n.attrib then Some(n.attrib[key]) else None
  }

  /** The element at place i is the only one selected. */
  ghost predicate OnlyPick(n: Node, s: Spec, i: nat) {
    && i < |Nodes(n)| && Picks(Nodes(n)[i], s)
    && forall j :: 0 <= j < |Nodes(n)| && j != i ==> !Picks(Nodes(n)[j], s)
  }

  function Filter(ns: seq<Node>, s: Spec): seq<Node> {
    if ns == [] then [] else (if Picks(ns[0], s) then [ns[0]] else []) + Filter(ns[1..], s)
  }

  lemma {:induction false} FilterConcat(xs: seq<Node>, ys: seq<Node>, s: Spec)
    ensures Filter(xs + ys, s) == Filter(xs, s) + Filter(ys, s)
  {
    if xs == [] {
      assert xs + ys == ys;
    } else {
      assert (xs + ys)[1..] == xs[1..] + ys;
      FilterConcat(xs[1..], ys, s);
    }
  }

  lemma {:induction false} SelectedIsFilter(n: Node, s: Spec)
    ensures Selected(n, s) == Filter(Nodes(n), s)
    decreases n, 1
  {
    SelectedAllIsFilter(n.children, s);
    assert Nodes(n)[1..] == NodesAll(n.children);
    assert Picks(n, s) <==> Matches(n, s);
  }

  lemma {:induction false} SelectedAllIsFilter(ns: seq<Node>, s: Spec)
    ensures SelectedAll(ns, s) == Filter(NodesAll(ns), s)
    decreases ns, 0
  {
    if ns != [] {
      SelectedIsFilter(ns[0], s);
      SelectedAllIsFilter(ns[1..], s);
      FilterConcat(Nodes(ns[0]), NodesAll(ns[1..]), s);
    }
  }

  lemma {:induction false} FilterNone(ns: seq<Node>, s: Spec)
    ensures Filter(ns, s) == [] <==> forall j :: 0 <= j < |ns| ==> !Picks(ns[j], s)
  {
    if ns != [] {
      FilterNone(ns[1..], s);
      assert forall j :: 1 <= j < |ns| ==> ns[j] == ns[1..][j - 1];
      if forall j :: 0 <= j < |ns| ==> !Picks(ns[j], s) {
        assert forall j :: 0 <= j < |ns| - 1 ==> ns[1..][j] == ns[j + 1];
      }
    }
  }

  lemma {:induction false} FilterOne(ns: seq<Node>, s: Spec) returns (i: nat)
    requires |Filter(ns, s)| == 1
    ensures i < |ns| && Filter(ns, s) == [ns[i]] && Picks(ns[i], s)
    ensures forall j :: 0 <= j < |ns| && j != i ==> !Picks(ns[j], s)
  {
    if Picks(ns[0], s) {
      i := 0;
      FilterNone(ns[1..], s);
      assert forall j :: 1 <= j < |ns| ==> ns[j] == ns[1..][j - 1];
    } else {
      i := FilterOne(ns[1..], s);
      i := i + 1;
      assert forall j :: 1 <= j < |ns| ==> ns[j] == ns[1..][j - 1];
    }
  }

  lemma {:induction false} FilterAt(ns: seq<Node>, s: Spec, i: nat)
    requires i < |ns| && Picks(ns[i], s) && forall j :: 0 <= j < |ns| && j != i ==> !Picks(ns[j], s)
    ensures Filter(ns, s) == [ns[i]]
  {
    assert forall j :: 0 <= j < |ns| - 1 ==> ns[1..][j] == ns[j + 1];
    if i == 0 { FilterNone(ns[1..], s); } else { FilterAt(ns[1..], s, i - 1); }
  }

  /** A volatile value is the field of the one element that has the tag and the attribute values; there is none when no
      element or more than one has them. */
  lemma ValueExactly(n: Node, s: Spec, v: string)
    ensures ValueOf(n, s) == Some(v) <==>
              exists i: nat :: OnlyPick(n, s, i) && FieldOf(Nodes(n)[i], s.field) == Some(v)
  {
    SelectedIsFilter(n, s);
    var ns := Nodes(n);
    if |Filter(ns, s)| == 1 {
      var i := FilterOne(ns, s);
      assert OnlyPick(n, s, i);
      assert forall j: nat :: OnlyPick(n, s, j) ==> j == i;
    } else {
      forall i: nat | OnlyPick(n, s, i) ensures false { FilterAt(ns, s, i); }
    }
  }

  // ------------------------------------------------------------ typed values

  /** The moment lies between the start of the call, its second begun, and its end, its second completed. */
  predicate Within(moment: int, window: Window) {
    match window
    case None => false
    case Some((start, end)) => start < (moment + 1) * 1000000 && (moment - 1) * 1000000 < end
  }

  predicate IsMoment(value: Option<string>, moment: int) {
    value.Some? && UtcSecond(value.value) == Some(moment)
  }

  /** That field holds that moment. */
  ghost predicate HoldsMoment(n: Node, s: Spec, moment: int) {
    exists i: nat :: OnlyPick(n, s, i) && IsMoment(FieldOf(Nodes(n)[i], s.field), moment)
  }

  /** Both sides hold a moment, each within the call that wrote its side, and it did not go back. */
  ghost predicate KeepsTime(s: Spec, b: Node, a: Node, wrote: Window, writes: Window) {
    exists was, now :: HoldsMoment(b, s, was) && HoldsMoment(a, s, now)
      && Within(was, wrote) && Within(now, writes) && was <= now
  }

  lemma MomentExactly(n: Node, s: Spec, moment: int)
    ensures MomentOf(n, s) == Some(moment) <==> HoldsMoment(n, s, moment)
  {
    hide UtcSecond, Nodes, Picks;
    if ValueOf(n, s).Some? { ValueExactly(n, s, ValueOf(n, s).value); }
    if i: nat :| OnlyPick(n, s, i) && IsMoment(FieldOf(Nodes(n)[i], s.field), moment) {
      ValueExactly(n, s, FieldOf(Nodes(n)[i], s.field).value);
    }
  }

  lemma WindowExactly(moment: int, window: Window)
    ensures InWindow(moment, window) <==> Within(moment, window)
  {
  }

  lemma TypedExactly(s: Spec, b: Node, a: Node, wrote: Window, writes: Window)
    ensures Typed(s, b, a, wrote, writes) <==> KeepsTime(s, b, a, wrote, writes)
  {
    hide MomentOf, HoldsMoment, InWindow, Within;
    var was, now := MomentOf(b, s), MomentOf(a, s);
    forall m ensures (was == Some(m) <==> HoldsMoment(b, s, m)) && (now == Some(m) <==> HoldsMoment(a, s, m)) {
      MomentExactly(b, s, m);
      MomentExactly(a, s, m);
    }
    forall m ensures (InWindow(m, wrote) <==> Within(m, wrote)) && (InWindow(m, writes) <==> Within(m, writes)) {
      WindowExactly(m, wrote);
      WindowExactly(m, writes);
    }
  }

  // ------------------------------------------------------------ trees that agree but for those fields

  predicate SameText(x: Option<string>, y: Option<string>) {
    x == y || ((x == None || x == Some("")) && (y == None || y == Some("")))
  }

  /** Some volatile value names this field of the element. */
  predicate Free(n: Node, specs: seq<Spec>, field: Field) {
    exists s :: s in specs && Picks(n, s) && s.field == field
  }

  /** The trees agree in shape, tags, attribute names, tails, and in every attribute value and text no volatile value
      names. */
  ghost predicate AgreeBut(x: Node, y: Node, specs: seq<Spec>)
    decreases x
  {
    && x.tag == y.tag && x.attrib.Keys == y.attrib.Keys && SameText(x.tail, y.tail)
    && (forall key :: key in x.attrib && !Free(x, specs, AttrField(key)) ==> x.attrib[key] == y.attrib[key])
    && (!Free(x, specs, TextField) ==> SameText(x.text, y.text))
    && |x.children| == |y.children|
    && forall i :: 0 <= i < |x.children| ==> AgreeBut(x.children[i], y.children[i], specs)
  }

  /** No selector looks at an attribute that a volatile value names. */
  predicate Settled(specs: seq<Spec>) {
    forall s, t :: s in specs && t in specs && t.field.AttrField? && t.element == s.element ==> t.field.key !in s.where
  }

  /** Without volatile values nothing may differ. */
  lemma {:induction false} DifferenceExactly(x: Node, y: Node)
    ensures Difference(x, y).None? <==> AgreeBut(x, y, [])
    decreases x, 1
  {
    if |x.children| == |y.children| { ChildDifferenceExactly(x.children, y.children, 0); }
    assert x.attrib == y.attrib <==>
      && x.attrib.Keys == y.attrib.Keys
      && forall key :: key in x.attrib ==> key in y.attrib && x.attrib[key] == y.attrib[key];
  }

  lemma {:induction false} ChildDifferenceExactly(xs: seq<Node>, ys: seq<Node>, index: nat)
    requires |xs| == |ys|
    ensures ChildDifference(xs, ys, index).None? <==> forall i :: 0 <= i < |xs| ==> AgreeBut(xs[i], ys[i], [])
    decreases xs, 0
  {
    if xs != [] {
      DifferenceExactly(xs[0], ys[0]);
      ChildDifferenceExactly(xs[1..], ys[1..], index + 1);
      assert forall i :: 1 <= i < |xs| ==> xs[i] == xs[1..][i - 1] && ys[i] == ys[1..][i - 1];
      assert forall i :: 0 <= i < |xs| - 1 ==> xs[1..][i] == xs[i + 1] && ys[1..][i] == ys[i + 1];
    }
  }

  // ------------------------------------------------------------ taking the actual values over

  lemma PicksAgree(x: Node, y: Node, specs: seq<Spec>, s: Spec, all: seq<Spec>)
    requires AgreeBut(x, y, specs) && Settled(all) && s in all && forall t :: t in specs ==> t in all
    ensures Picks(x, s) <==> Picks(y, s)
  {
    if x.tag == Name(s.element) {
      forall key | key in s.where && key in x.attrib ensures x.attrib[key] == y.attrib[key] {
        assert !Free(x, specs, AttrField(key));
      }
      assert forall key :: key in x.attrib <==> key in y.attrib;
    }
  }

  /** Assigning one volatile field changes no selection. */
  lemma PicksStay(x: Node, s: Spec, value: Option<string>, specs: seq<Spec>, t: Spec)
    requires Settled(specs) && s in specs && t in specs && Picks(x, s)
    ensures Picks(SetOwn(x, s.field, value), t) <==> Picks(x, t)
  {
  }

  lemma FreeMore(x: Node, s: Spec, rest: seq<Spec>, field: Field)
    ensures Free(x, [s] + rest, field) <==> (Picks(x, s) && s.field == field) || Free(x, rest, field)
  {
    assert s in [s] + rest && forall t :: t in rest ==> t in [s] + rest;
  }

  lemma SetFieldParts(x: Node, s: Spec, value: Option<string>)
    ensures var m := SetField(x, s, value);
            && m.children == SetFieldAll(x.children, s, value)
            && m.(children := x.children) == (if Picks(x, s) then SetOwn(x, s.field, value) else x)
  {
    assert Picks(x, s) <==> Matches(x, s);
  }

  lemma {:induction false} SetFieldChildren(xs: seq<Node>, s: Spec, value: Option<string>)
    ensures |SetFieldAll(xs, s, value)| == |xs|
    ensures forall i :: 0 <= i < |xs| ==> SetFieldAll(xs, s, value)[i] == SetField(xs[i], s, value)
  {
    if xs != [] { SetFieldChildren(xs[1..], s, value); }
  }

  /** The fields that may differ between an element and its counterpart. */
  ghost predicate OwnBut(x: Node, y: Node, specs: seq<Spec>) {
    && x.tag == y.tag && x.attrib.Keys == y.attrib.Keys && SameText(x.tail, y.tail)
    && (forall key :: key in x.attrib && !Free(x, specs, AttrField(key)) ==> x.attrib[key] == y.attrib[key])
    && (!Free(x, specs, TextField) ==> SameText(x.text, y.text))
  }

  lemma AgreeParts(x: Node, y: Node, specs: seq<Spec>)
    ensures AgreeBut(x, y, specs) <==>
        && OwnBut(x, y, specs) && |x.children| == |y.children|
        && forall i :: 0 <= i < |x.children| ==> AgreeBut(x.children[i], y.children[i], specs)
  {
  }

  lemma OwnTaken(x: Node, y: Node, s: Spec, rest: seq<Spec>, value: Option<string>)
    requires Settled([s] + rest) && (s.field.AttrField? ==> value.Some?)
    requires Picks(y, s) ==> FieldOf(y, s.field) == value
    requires Picks(x, s) <==> Picks(y, s)
    ensures var m := if Picks(x, s) then SetOwn(x, s.field, value) else x;
            OwnBut(x, y, [s] + rest) <==> OwnBut(m, y, rest)
  {
    var m := if Picks(x, s) then SetOwn(x, s.field, value) else x;
    forall field ensures Free(x, [s] + rest, field) <==> (Picks(x, s) && s.field == field) || Free(m, rest, field) {
      FreeMore(x, s, rest, field);
      forall t | t in rest ensures Picks(m, t) <==> Picks(x, t) {
        assert t in [s] + rest && s in [s] + rest;
        if Picks(x, s) { PicksStay(x, s, value, [s] + rest, t); }
      }
    }
    hide Free;
    assert m.attrib.Keys == x.attrib.Keys;
  }

  lemma OwnFree(n: Node, kids: seq<Node>, specs: seq<Spec>)
    ensures forall field :: Free(n.(children := kids), specs, field) <==> Free(n, specs, field)
    ensures forall t :: Picks(n.(children := kids), t) <==> Picks(n, t)
  {
    var m := n.(children := kids);
    assert forall t :: Picks(m, t) <==> Picks(n, t);
    forall field ensures Free(m, specs, field) <==> Free(n, specs, field) { }
  }

  /** Once its field is taken over from the one element it selects, a volatile value frees nothing any more. */
  lemma {:induction false} TakeOver(x: Node, y: Node, s: Spec, rest: seq<Spec>, value: Option<string>)
    requires Settled([s] + rest) && (s.field.AttrField? ==> value.Some?)
    requires forall m :: m in Nodes(y) && Picks(m, s) ==> FieldOf(m, s.field) == value
    requires Same(x, y, s)
    ensures AgreeBut(x, y, [s] + rest) <==> AgreeBut(SetField(x, s, value), y, rest)
    decreases x
  {
    var m := SetField(x, s, value);
    SetFieldParts(x, s, value);
    SetFieldChildren(x.children, s, value);
    AgreeParts(x, y, [s] + rest);
    AgreeParts(m, y, rest);
    assert Nodes(y)[0] == y;
    OwnTaken(x, y, s, rest, value);
    OwnFree(m, x.children, rest);
    if |x.children| == |y.children| {
      forall i | 0 <= i < |x.children|
        ensures AgreeBut(x.children[i], y.children[i], [s] + rest) <==> AgreeBut(m.children[i], y.children[i], rest)
      {
        ChildNodes(y, i);
        TakeOver(x.children[i], y.children[i], s, rest, value);
      }
    }
  }

  lemma ChildNodes(y: Node, i: nat)
    requires i < |y.children|
    ensures forall m :: m in Nodes(y.children[i]) ==> m in Nodes(y)
  {
    NodesIn(y.children, i);
  }

  lemma {:induction false} NodesIn(ys: seq<Node>, i: nat)
    requires i < |ys|
    ensures forall m :: m in Nodes(ys[i]) ==> m in NodesAll(ys)
  {
    if i > 0 { NodesIn(ys[1..], i - 1); }
  }

  /** Place by place the two trees are selected alike. */
  ghost predicate Same(x: Node, y: Node, s: Spec)
    decreases x
  {
    (Picks(x, s) <==> Picks(y, s))
    && forall i :: 0 <= i < |x.children| && i < |y.children| ==> Same(x.children[i], y.children[i], s)
  }

  lemma {:induction false} AgreeSame(x: Node, y: Node, specs: seq<Spec>, s: Spec, all: seq<Spec>)
    requires AgreeBut(x, y, specs) && Settled(all) && s in all && forall t :: t in specs ==> t in all
    ensures Same(x, y, s)
    decreases x
  {
    PicksAgree(x, y, specs, s, all);
    forall i | 0 <= i < |x.children| ensures Same(x.children[i], y.children[i], s) {
      AgreeSame(x.children[i], y.children[i], specs, s, all);
    }
  }

  lemma {:induction false} SameBefore(x: Node, y: Node, s: Spec, value: Option<string>, all: seq<Spec>)
    requires Settled(all) && s in all && Same(SetField(x, s, value), y, s)
    ensures Same(x, y, s)
    decreases x
  {
    var m := SetField(x, s, value);
    SetFieldParts(x, s, value);
    SetFieldChildren(x.children, s, value);
    OwnFree(m, x.children, []);
    if Picks(x, s) { PicksStay(x, s, value, all, s); }
    forall i | 0 <= i < |x.children| && i < |y.children| ensures Same(x.children[i], y.children[i], s) {
      SameBefore(x.children[i], y.children[i], s, value, all);
    }
  }

  /** The element selected once, and with the field the volatile value names. */
  ghost predicate HasOne(n: Node, s: Spec) {
    exists i: nat :: OnlyPick(n, s, i) && (s.field.AttrField? ==> s.field.key in Nodes(n)[i].attrib)
  }

  lemma ExactExactly(n: Node, s: Spec)
    ensures Exact(n, s) <==> HasOne(n, s)
    ensures Exact(n, s) ==> forall m :: m in Nodes(n) && Picks(m, s) ==> FieldOf(m, s.field) == Taken(n, s)
  {
    SelectedIsFilter(n, s);
    var ns := Nodes(n);
    if |Filter(ns, s)| == 1 {
      var i := FilterOne(ns, s);
      assert OnlyPick(n, s, i);
      assert forall j: nat :: OnlyPick(n, s, j) ==> j == i;
      assert forall m :: m in ns && Picks(m, s) ==> m == ns[i];
    } else {
      forall i: nat | OnlyPick(n, s, i) ensures false { FilterAt(ns, s, i); }
    }
  }

  /** Where no selector looks at a volatile attribute, taking the actual values over succeeds and leaves no difference
      exactly when every volatile value has its one element on both sides and the trees agree but for those fields. */
  lemma {:induction false} ApplyExactly(x: Node, y: Node, specs: seq<Spec>)
    requires Settled(specs)
    ensures Apply(x, y, specs).Some? && AgreeBut(Apply(x, y, specs).value, y, []) <==>
              (forall s :: s in specs ==> HasOne(x, s) && HasOne(y, s)) && AgreeBut(x, y, specs)
    decreases |specs|
  {
    hide HasOne, Exact, AgreeBut;
    if specs != [] {
      var s, rest := specs[0], specs[1..];
      assert specs == [s] + rest;
      ExactExactly(x, s);
      ExactExactly(y, s);
      if Exact(x, s) && Exact(y, s) {
        var value := Taken(y, s);
        ApplyExactly(SetField(x, s, value), y, rest);
        StillOne(x, s, rest, value);
        OneTaken(x, y, s, rest, value);
      }
    }
  }

  lemma OneTaken(x: Node, y: Node, s: Spec, rest: seq<Spec>, value: Option<string>)
    requires Settled([s] + rest) && (s.field.AttrField? ==> value.Some?)
    requires forall m :: m in Nodes(y) && Picks(m, s) ==> FieldOf(m, s.field) == value
    ensures AgreeBut(x, y, [s] + rest) <==> AgreeBut(SetField(x, s, value), y, rest)
  {
    var all := [s] + rest;
    assert s in all && forall t :: t in rest ==> t in all;
    if AgreeBut(x, y, all) { AgreeSame(x, y, all, s, all); }
    if AgreeBut(SetField(x, s, value), y, rest) {
      AgreeSame(SetField(x, s, value), y, rest, s, all);
      SameBefore(x, y, s, value, all);
    }
    if Same(x, y, s) { TakeOver(x, y, s, rest, value); }
  }

  lemma StillOne(x: Node, s: Spec, rest: seq<Spec>, value: Option<string>)
    requires Settled([s] + rest)
    ensures forall t :: t in rest ==> (HasOne(SetField(x, s, value), t) <==> HasOne(x, t))
  {
    hide HasOne, Exact;
    forall t | t in rest ensures HasOne(SetField(x, s, value), t) <==> HasOne(x, t) {
      assert t in [s] + rest && s in [s] + rest;
      assert !Reads(s, t);
      ExactAfterSet(x, t, s, value);
      ExactExactly(x, t);
      ExactExactly(SetField(x, s, value), t);
    }
  }

  // ------------------------------------------------------------ one member

  /** The XML of a member: everything around the root is equal, every volatile value keeps its time, and once the actual
      values are taken over the trees agree. */
  ghost predicate XmlKept(prior: Document, now: Document, tree: Node, specs: seq<Spec>, wrote: Window, writes: Window) {
    && now.prolog == prior.prolog && now.outer == prior.outer && now.namespaces == prior.namespaces
    && (forall s :: s in specs ==> KeepsTime(s, prior.root, now.root, wrote, writes))
    && Apply(tree, now.root, specs).Some? && AgreeBut(Apply(tree, now.root, specs).value, now.root, [])
  }

  /** ... for a profile in which no selector looks at a volatile attribute: the trees agree but for the volatile fields,
      each of which the expected tree has once. */
  ghost predicate XmlAgrees(prior: Document, now: Document, tree: Node, specs: seq<Spec>, wrote: Window, writes: Window)
  {
    && now.prolog == prior.prolog && now.outer == prior.outer && now.namespaces == prior.namespaces
    && (forall s :: s in specs ==> KeepsTime(s, prior.root, now.root, wrote, writes) && HasOne(tree, s))
    && AgreeBut(tree, now.root, specs)
  }

  /** The tree a member is compared with: the one the edit expects, or what was there before. */
  function Expected(tree: Option<Node>, prior: Document): Node {
    if tree.Some? then tree.value else prior.root
  }

  lemma InfosetExactly(b: string, a: string, tree: Option<Node>, specs: seq<Spec>, rules: Rules, wrote: Window,
      writes: Window)
    ensures InfosetVerdict(b, a, tree, specs, rules, wrote, writes) in {InfosetEqual, Refused}
    ensures InfosetVerdict(b, a, tree, specs, rules, wrote, writes) == InfosetEqual <==>
        && rules.parse(b).Some? && rules.parse(a).Some?
        && XmlKept(rules.parse(b).value, rules.parse(a).value, Expected(tree, rules.parse(b).value), specs, wrote,
             writes)
  {
    hide Typed, KeepsTime, AgreeBut, Difference, Apply;
    forall s, x, y ensures Typed(s, x, y, wrote, writes) <==> KeepsTime(s, x, y, wrote, writes) {
      TypedExactly(s, x, y, wrote, writes);
    }
    forall x, y ensures Difference(x, y).None? <==> AgreeBut(x, y, []) { DifferenceExactly(x, y); }
  }

  lemma TimeHasOne(s: Spec, b: Node, a: Node, wrote: Window, writes: Window)
    requires KeepsTime(s, b, a, wrote, writes)
    ensures HasOne(b, s) && HasOne(a, s)
  {
    var was, now :| HoldsMoment(b, s, was) && HoldsMoment(a, s, now);
    hide OnlyPick;
  }

  lemma SettledXml(prior: Document, now: Document, tree: Node, specs: seq<Spec>, wrote: Window, writes: Window)
    requires Settled(specs)
    ensures XmlKept(prior, now, tree, specs, wrote, writes) <==> XmlAgrees(prior, now, tree, specs, wrote, writes)
  {
    hide KeepsTime, HasOne, AgreeBut, Apply, Settled;
    ApplyExactly(tree, now.root, specs);
    forall s | s in specs && KeepsTime(s, prior.root, now.root, wrote, writes) ensures HasOne(now.root, s) {
      TimeHasOne(s, prior.root, now.root, wrote, writes);
    }
  }

  /** The container entry kept every field the profile does not call volatile. */
  predicate EntryKept(before: Package, after: Package, rules: Rules, name: string)
    requires name in before.container && name in after.container
  {
    forall key :: key in before.container[name] && key !in rules.volatileKeys ==>
      key in after.container[name] && after.container[name][key] == before.container[name][key]
  }

  /** A preview that was rendered again: valid on both sides under its own rule. */
  predicate PreviewKept(rules: Rules, rule: Preview, b: string, a: string) {
    match rule
    case Png(sameSize) =>
      rules.pngSize(b).Some? && rules.pngSize(a).Some? && (sameSize ==> rules.pngSize(b) == rules.pngSize(a))
    case TextIn(encoding) =>
      |b| <= 1000000 && |a| <= 1000000 && rules.decodes(encoding, b) && rules.decodes(encoding, a)
  }

  /** A preview may change when the edit asked for a rendering and the profile names the member. */
  predicate Rendered(before: Package, after: Package, e: Expectation, rules: Rules, name: string)
    requires Held(before, after, name)
  {
    e.rendering && name in rules.regenerated && after.members[name] != before.members[name]
  }

  predicate Compared(e: Expectation, rules: Rules, name: string) {
    name in e.trees || exists s :: s in rules.specs && s.member == name
  }

  /** What a member must meet to be accepted; each side's volatile values belong to the call that wrote that side. */
  ghost predicate MemberKept(before: Package, after: Package, e: Expectation, rules: Rules, name: string)
    requires Held(before, after, name)
  {
    var b, a := before.members[name], after.members[name];
    && EntryKept(before, after, rules, name)
    && if Rendered(before, after, e, rules, name) then PreviewKept(rules, rules.regenerated[name], b, a)
       else if Compared(e, rules, name) then
         && rules.parse(b).Some? && rules.parse(a).Some?
         && XmlKept(rules.parse(b).value, rules.parse(a).value,
              if name in e.trees then e.trees[name] else rules.parse(b).value.root, SpecsOf(rules.specs, name),
              before.window, after.window)
       else a == b
  }

  lemma {:induction false} SpecsOfExactly(specs: seq<Spec>, member: string)
    ensures forall s :: s in SpecsOf(specs, member) <==> s in specs && s.member == member
  {
    if specs != [] { SpecsOfExactly(specs[1..], member); }
  }

  lemma ComparedExactly(e: Expectation, rules: Rules, name: string)
    ensures Compared(e, rules, name) <==> name in e.trees || SpecsOf(rules.specs, name) != []
  {
    SpecsOfExactly(rules.specs, name);
    if SpecsOf(rules.specs, name) != [] { assert SpecsOf(rules.specs, name)[0] in SpecsOf(rules.specs, name); }
  }

  lemma PreviewExactly(rules: Rules, rule: Preview, b: string, a: string)
    ensures Remade(rules, rule, b, a) <==> PreviewKept(rules, rule, b, a)
  {
  }

  /** A member is refused exactly when it does not meet that. */
  lemma MemberExactly(before: Package, after: Package, e: Expectation, rules: Rules, name: string)
    requires Held(before, after, name)
    ensures MemberVerdict(before, after, e, rules, name) != Refused <==> MemberKept(before, after, e, rules, name)
  {
    var b, a := before.members[name], after.members[name];
    ComparedExactly(e, rules, name);
    if name in rules.regenerated { PreviewExactly(rules, rules.regenerated[name], b, a); }
    var tree := if name in e.trees then Some(e.trees[name]) else None;
    InfosetExactly(b, a, tree, SpecsOf(rules.specs, name), rules, before.window, after.window);
    hide InfosetVerdict, XmlKept, Remade, PreviewKept, Compared, SpecsOf;
  }

  // ------------------------------------------------------------ whole packages

  /** The after-members are the before-members in order, with the member the edit adds, if any, somewhere among them. */
  predicate MembersKept(was: seq<string>, now: seq<string>, added: Option<string>) {
    match added
    case None => now == was
    case Some(name) =>
      name !in was && (now == was || exists k :: 0 <= k <= |was| && now == was[..k] + [name] + was[k..])
  }

  lemma {:induction false} OtherOf(p: seq<string>, q: seq<string>, added: Option<string>)
    ensures Other(p + q, added) == Other(p, added) + Other(q, added)
  {
    if p == [] { assert p + q == q; } else {
      assert (p + q)[1..] == p[1..] + q;
      OtherOf(p[1..], q, added);
    }
  }

  lemma {:induction false} OtherSame(p: seq<string>, added: Option<string>)
    requires forall i :: 0 <= i < |p| ==> added != Some(p[i])
    ensures Other(p, added) == p
  {
    if p != [] {
      assert forall i :: 0 <= i < |p| - 1 ==> p[1..][i] == p[i + 1];
      OtherSame(p[1..], added);
    }
  }

  lemma {:induction false} NotOther(p: seq<string>, name: string)
    ensures name !in Other(p, Some(name))
  {
    if p != [] { NotOther(p[1..], name); }
  }

  /** Members are listed once each. */
  predicate Listed(names: seq<string>) {
    forall i, j :: 0 <= i < j < |names| ==> names[i] != names[j]
  }

  lemma OtherAround(p: seq<string>, name: string, q: seq<string>)
    requires name !in p && name !in q
    ensures Other(p + [name] + q, Some(name)) == p + q
  {
    hide Other;
    assert p + [name] + q == p + ([name] + q);
    OtherOf(p, [name] + q, Some(name));
    OtherOf([name], q, Some(name));
    OtherSame(p, Some(name));
    OtherSame(q, Some(name));
    OtherSingle(name);
    assert [] + q == q;
  }

  lemma OtherSingle(name: string)
    ensures Other([name], Some(name)) == []
  {
    assert [name][1..] == [];
  }

  lemma OrderExactly(was: seq<string>, now: seq<string>, added: Option<string>)
    requires Listed(now)
    ensures Other(now, added) == was <==> MembersKept(was, now, added)
  {
    if added == None {
      OtherSame(now, None);
    } else if added.value !in now {
      OtherSame(now, added);
      forall m | 0 <= m <= |was| ensures now != was[..m] + [added.value] + was[m..] {
        assert (was[..m] + [added.value] + was[m..])[m] == added.value;
      }
    } else {
      AddedExactly(was, now, added.value);
    }
  }

  lemma AddedExactly(was: seq<string>, now: seq<string>, name: string)
    requires Listed(now) && name in now
    ensures Other(now, Some(name)) == was <==> MembersKept(was, now, Some(name))
  {
    hide Other;
    var k :| 0 <= k < |now| && now[k] == name;
    var p, q := now[..k], now[k + 1..];
    assert now == p + [name] + q;
    OtherAround(p, name, q);
    if was == p + q {
      assert was[..k] == p && was[k..] == q;
    }
    if MembersKept(was, now, Some(name)) {
      var m :| 0 <= m <= |was| && now == was[..m] + [name] + was[m..];
      assert now[m] == name;
      Rejoined(was, now, m, name);
    }
  }

  lemma Rejoined(was: seq<string>, now: seq<string>, m: nat, name: string)
    requires m <= |was| && now == was[..m] + [name] + was[m..]
    ensures was == now[..m] + now[m + 1..]
  {
    assert now[..m] == was[..m] && now[m + 1..] == was[m..];
  }

  /** The comparison accepts exactly when the members are the expected ones in order, the archive comment is the same,
      and each member meets its own condition. */
  lemma AcceptedExactly(before: Package, after: Package, e: Expectation, rules: Rules)
    requires Complete(before) && Complete(after) && Listed(after.order)
    ensures Accepted(before, after, e, rules) <==>
        && MembersKept(before.order, after.order, e.added) && after.comment == before.comment
        && forall i :: 0 <= i < |before.order| ==>
             Held(before, after, before.order[i]) && MemberKept(before, after, e, rules, before.order[i])
  {
    hide MemberVerdict, MemberKept;
    OrderExactly(before.order, after.order, e.added);
    forall i | 0 <= i < |before.order| && Held(before, after, before.order[i])
      ensures MemberVerdict(before, after, e, rules, before.order[i]) != Refused <==>
                MemberKept(before, after, e, rules, before.order[i])
    {
      MemberExactly(before, after, e, rules, before.order[i]);
    }
  }

  /** In an accepted package every volatile value of a compared member is a UTC second on both sides, the before one
      within the call that wrote the before-package, the after one within the call that wrote the after-package, and not
      earlier. */
  lemma AcceptedValues(before: Package, after: Package, e: Expectation, rules: Rules, i: nat, s: Spec)
    requires Complete(before) && Complete(after) && Accepted(before, after, e, rules)
    requires i < |before.order| && s in rules.specs && s.member == before.order[i]
    requires !e.rendering || before.order[i] !in rules.regenerated
    ensures var name := before.order[i];
            && Held(before, after, name)
            && var prior, now := rules.parse(before.members[name]), rules.parse(after.members[name]);
               && prior.Some? && now.Some?
               && exists earlier, later ::
                    HoldsMoment(prior.value.root, s, earlier) && HoldsMoment(now.value.root, s, later)
                    && Within(earlier, before.window) && Within(later, after.window) && earlier <= later
  {
    hide MemberVerdict, AgreeBut, Apply, HoldsMoment, Within, EntryKept;
    var name := before.order[i];
    MemberExactly(before, after, e, rules, name);
    SpecsOfExactly(rules.specs, name);
    var prior, now := rules.parse(before.members[name]), rules.parse(after.members[name]);
    assert KeepsTime(s, prior.value.root, now.value.root, before.window, after.window);
  }

  // ------------------------------------------------------------ two calls that ran at different times

  const SETTINGS := "settings.xml"
  const STAMP := Spec(SETTINGS, "{urn:settings}stamp", map["name" := "modified"], AttrField("at"))

  function Stamp(at: string): Node {
    Node(Name("{urn:settings}stamp"), map["name" := "modified", "at" := at], None, None, [])
  }

  /** Each package holds the moment its own call wrote; the calls took one second each. */
  function Written(at: string, second: int): Package {
    Package([SETTINGS], "", map[SETTINGS := at], map[SETTINGS := map[]],
            Some((second * 1000000, (second + 1) * 1000000)))
  }

  const STAMPED := Rules({}, [STAMP], None, map[],
                         data => Some(Document("", ("", ""), [], Stamp(data))), _ => None, (_, _) => false)

  lemma StampHolds(at: string, second: int)
    requires UtcSecond(at) == Some(second)
    ensures HoldsMoment(Stamp(at), STAMP, second)
  {
    var n := Stamp(at);
    assert NodesAll([]) == [] && Nodes(n) == [n];
    assert "name" in STAMP.where && Picks(n, STAMP);
    assert OnlyPick(n, STAMP, 0);
    assert IsMoment(FieldOf(Nodes(n)[0], STAMP.field), second);
  }

  lemma StampsAgree(was: string, now: string)
    ensures AgreeBut(Stamp(was), Stamp(now), [STAMP])
  {
    var x := Stamp(was);
    assert STAMP in [STAMP] && Picks(x, STAMP);
    assert Free(x, [STAMP], AttrField("at"));
  }

  /** A timestamp written by an earlier call and one written by a later call are accepted, whether or not the two calls
      overlap. */
  lemma LaterCallAccepted(was: string, now: string, first: int, second: int)
    requires UtcSecond(was) == Some(first) && UtcSecond(now) == Some(second) && first <= second
    ensures Complete(Written(was, first)) && Complete(Written(now, second))
    ensures Accepted(Written(was, first), Written(now, second), Expectation(map[], None, false), STAMPED)
  {
    hide UtcSecond, Held, Settled, SpecsOf, Picks, Nodes, HoldsMoment, Stamp;
    var before, after, e := Written(was, first), Written(now, second), Expectation(map[], None, false);
    StampHolds(was, first);
    StampHolds(now, second);
    StampsAgree(was, now);
    assert Within(first, before.window) && Within(second, after.window);
    assert KeepsTime(STAMP, Stamp(was), Stamp(now), before.window, after.window);
    hide HoldsMoment, Within;
    TimeHasOne(STAMP, Stamp(was), Stamp(now), before.window, after.window);
    hide KeepsTime, AgreeBut, HasOne;
    OneStamp();
    SettledXml(Document("", ("", ""), [], Stamp(was)), Document("", ("", ""), [], Stamp(now)), Stamp(was), [STAMP],
               before.window, after.window);
    hide XmlKept, XmlAgrees;
    assert MemberKept(before, after, e, STAMPED, SETTINGS);
    hide MemberKept;
    AcceptedExactly(before, after, e, STAMPED);
  }

  lemma OneStamp()
    ensures Settled([STAMP]) && SpecsOf(STAMPED.specs, SETTINGS) == [STAMP]
    ensures STAMP in STAMPED.specs && STAMP.member == SETTINGS
    ensures forall was, now, first, second :: Held(Written(was, first), Written(now, second), SETTINGS)
  {
    assert [STAMP][1..] == [];
  }

  const NEW_YEAR := Date(2026, 1, 1)

  /** Two calls of one second each, 100 seconds apart: both timestamps are good, each in its own call. */
  lemma DisjointCallsAccepted()
    ensures OnCalendar(NEW_YEAR)
    ensures var was, now := Printed(NEW_YEAR, 0, 0, 0), Printed(NEW_YEAR, 0, 1, 40);
            var first := Seconds(NEW_YEAR, 0, 0, 0);
            var before, after := Written(was, first), Written(now, first + 100);
            && before.window.value.1 < after.window.value.0
            && Complete(before) && Complete(after)
            && Accepted(before, after, Expectation(map[], None, false), STAMPED)
  {
    hide Accepted, UtcSecond, Printed, Day, STAMPED;
    PrintedReads(NEW_YEAR, 0, 0, 0);
    PrintedReads(NEW_YEAR, 0, 1, 40);
    LaterCallAccepted(Printed(NEW_YEAR, 0, 0, 0), Printed(NEW_YEAR, 0, 1, 40), Seconds(NEW_YEAR, 0, 0, 0),
                      Seconds(NEW_YEAR, 0, 0, 0) + 100);
  }
}
