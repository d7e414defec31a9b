/** What the growth-only comparison accepts, read off the two trees: attribute by attribute, entry by entry. */
module HeadAcceptance {
  import opened Text
  import opened Hwpml
  import opened BoundLists
  import opened HeadGrowth
  import GrowthRuns

  // ------------------------------------------------------------ own attributes and text

  predicate IsGrowable(tag: string) {
    tag == "CHARSHAPELIST" || tag == "PARASHAPELIST" || tag == "TABDEFLIST" || tag == "BORDERFILLLIST"
  }

  predicate IsBound(tag: string) {
    tag == "NUMBERINGLIST" || tag == "MEMOSHAPELIST"
  }

  /** The attributes that may differ: the volatile ones, those the edit names for this tag, and the Count of a
      growable list that gained entries. */
  predicate MayDiffer(before: Element, after: Element, allow: Allow, key: string) {
    || key == "InstId"
    || (before.tag == "AUTONUM" && key == "Number")
    || (before.tag in allow && key in allow[before.tag])
    || (key == "Count" && IsGrowable(before.tag) && |before.children| < |after.children|)
  }

  /** Every other attribute is unchanged, and so is the text up to whitespace around it; of a CARETPOS only the text
      counts. */
  ghost predicate OwnUnchanged(before: Element, after: Element, allow: Allow) {
    && Strip(before.text) == Strip(after.text)
    && (before.tag != "CARETPOS" ==>
          forall key :: !MayDiffer(before, after, allow, key) ==> before.Get(key) == after.Get(key))
  }

  lemma OwnKeptExactly(before: Element, after: Element, allow: Allow)
    requires before.tag == after.tag
    ensures OwnKept(before, after, allow) <==> OwnUnchanged(before, after, allow)
  {
    var free := FreeAttrs(before, after, allow);
    var x, y := Attrs(before, map[]) - free, Attrs(after, map[]) - free;
    assert forall key :: key in Skip(before.tag, map[]) || key in free <==> MayDiffer(before, after, allow, key);
    forall key
      ensures key in x <==> key in before.attrib && !MayDiffer(before, after, allow, key)
      ensures key in x ==> x[key] == before.attrib[key]
      ensures key in y <==> key in after.attrib && !MayDiffer(before, after, allow, key)
      ensures key in y ==> y[key] == after.attrib[key]
    {
    }
    if x == y {
      forall key | !MayDiffer(before, after, allow, key) ensures before.Get(key) == after.Get(key) {
        assert key in x <==> key in y;
      }
    } else if OwnUnchanged(before, after, allow) && before.tag != "CARETPOS" {
      forall key ensures key in x <==> key in y
                 ensures key in x ==> x[key] == y[key]
      {
        assert !MayDiffer(before, after, allow, key) ==> before.Get(key) == after.Get(key);
      }
      assert false;
    }
  }

  // ------------------------------------------------------------ growable lists

  /** The entry element of a growable list: what its entries agree on, or the schema's one. */
  function OwnKind(list: Element): string {
    if list.children != [] && (forall i :: 0 <= i < |list.children| ==> list.children[i].tag == list.children[0].tag)
    then list.children[0].tag
    else if list.tag == "CHARSHAPELIST" then "CHARSHAPE"
    else if list.tag == "PARASHAPELIST" then "PARASHAPE"
    else if list.tag == "TABDEFLIST" then "TABDEF"
    else "BORDERFILL"
  }

  /** From n entries on, a list's Ids are all missing, or all present, new and different, continuing 0..n-1 when that is
      how the first n are numbered. */
  ghost predicate NewIds(es: seq<Element>, n: nat)
    requires n <= |es|
  {
    || (forall i :: 0 <= i < |es| ==> es[i].Get("Id").None?)
    || (&& (forall i :: n <= i < |es| ==> es[i].Get("Id").Some?)
        && (forall i, j :: 0 <= i < j < |es| && n <= j ==> es[i].Get("Id") != es[j].Get("Id"))
        && ((forall i :: 0 <= i < n ==> es[i].Get("Id") == Some(Decimal(i))) ==>
              forall i :: n <= i < |es| ==> es[i].Get("Id") == Some(Decimal(i))))
  }

  /** Count is missing on both sides, or an integer that rose by the number of new entries. */
  predicate CountRose(before: Element, after: Element, gained: nat) {
    match (before.Get("Count"), after.Get("Count"))
    case (None, None) => true
    case (Some(was), Some(now)) => PyInt(was).Some? && PyInt(now) == Some(PyInt(was).value + gained)
    case _ => false
  }

  lemma NumberedExactly(es: seq<Element>, lo: nat, hi: nat)
    requires lo <= hi <= |es|
    ensures Ids(es[lo..hi]) == Numbered(lo, hi - lo)
       <==> forall i :: lo <= i < hi ==> es[i].Get("Id") == Some(Decimal(i))
  {
    var ids, run := Ids(es[lo..hi]), Numbered(lo, hi - lo);
    assert forall i :: lo <= i < hi ==> ids[i - lo] == es[i].Get("Id") && run[i - lo] == Some(Decimal(i));
    if forall i :: lo <= i < hi ==> es[i].Get("Id") == Some(Decimal(i)) {
      forall k | 0 <= k < hi - lo ensures ids[k] == run[k] { assert es[lo + k].Get("Id") == Some(Decimal(lo + k)); }
    }
  }

  lemma NewIdsExactly(es: seq<Element>, n: nat)
    requires n <= |es|
    ensures IdsFresh(Ids(es[..n]), Ids(es[n..])) <==> NewIds(es, n)
  {
    hide Numbered, Decimal;
    var was, now := Ids(es[..n]), Ids(es[n..]);
    assert es[0..n] == es[..n] && es[n..|es|] == es[n..];
    NumberedExactly(es, 0, n);
    NumberedExactly(es, n, |es|);
    AllMissing(es, n, was, now);
    AllDifferent(es, n, was, now);
  }

  lemma AllMissing(es: seq<Element>, n: nat, was: seq<Option<string>>, now: seq<Option<string>>)
    requires |was| == n && |es| == n + |now|
    requires forall i :: 0 <= i < n ==> was[i] == es[i].Get("Id")
    requires forall i :: n <= i < |es| ==> es[i].Get("Id") == now[i - n]
    ensures (forall x :: x in was ==> x.None?) && (forall x :: x in now ==> x.None?)
       <==> forall i :: 0 <= i < |es| ==> es[i].Get("Id").None?
    ensures None !in now <==> forall i :: n <= i < |es| ==> es[i].Get("Id").Some?
  {
    assert forall i :: 0 <= i < |now| ==> now[i] == es[n + i].Get("Id");
    if forall i :: 0 <= i < |es| ==> es[i].Get("Id").None? {
      forall x | x in now ensures x.None? { var i :| 0 <= i < |now| && now[i] == x; assert es[n + i].Get("Id") == x; }
    }
    if (forall x :: x in was ==> x.None?) && (forall x :: x in now ==> x.None?) {
      forall i | 0 <= i < |es| ensures es[i].Get("Id").None? {
        if i < n { assert was[i] in was; } else { assert now[i - n] in now; }
      }
    }
    if None !in now {
      forall i | n <= i < |es| ensures es[i].Get("Id").Some? { assert now[i - n] in now; }
    }
  }

  lemma AllDifferent(es: seq<Element>, n: nat, was: seq<Option<string>>, now: seq<Option<string>>)
    requires |was| == n && |es| == n + |now|
    requires forall i :: 0 <= i < n ==> was[i] == es[i].Get("Id")
    requires forall i :: n <= i < |es| ==> es[i].Get("Id") == now[i - n]
    ensures (forall i, j :: 0 <= i < j < |now| ==> now[i] != now[j]) && (forall i :: 0 <= i < |now| ==> now[i] !in was)
       <==> forall i, j :: 0 <= i < j < |es| && n <= j ==> es[i].Get("Id") != es[j].Get("Id")
  {
    if (forall i, j :: 0 <= i < j < |now| ==> now[i] != now[j]) && (forall i :: 0 <= i < |now| ==> now[i] !in was) {
      forall i, j | 0 <= i < j < |es| && n <= j ensures es[i].Get("Id") != es[j].Get("Id") {
        assert now[j - n] !in was;
        if i < n { assert was[i] in was; } else { assert now[i - n] != now[j - n]; }
      }
    }
    if forall i, j :: 0 <= i < j < |es| && n <= j ==> es[i].Get("Id") != es[j].Get("Id") {
      forall i, j | 0 <= i < j < |now| ensures now[i] != now[j] {
        assert es[n + i].Get("Id") != es[n + j].Get("Id");
      }
      forall j | 0 <= j < |now| ensures now[j] !in was {
        forall i | 0 <= i < n ensures was[i] != now[j] { assert es[i].Get("Id") != es[n + j].Get("Id"); }
      }
    }
  }

  /** A growable list is accepted exactly when it kept its entries in front, gained only entries of its own kind with
      new Ids, and its Count rose by their number; nothing else about it changed. */
  lemma GrowableExactly(before: Element, after: Element, allow: Allow, delta: DefinitionDelta)
    requires IsGrowable(before.tag)
    ensures Grown(before, after, allow, delta) <==>
        && after.tag == before.tag && OwnUnchanged(before, after, allow)
        && |before.children| <= |after.children|
        && (forall i :: 0 <= i < |before.children| ==> Same(before.children[i], after.children[i]))
        && (forall i :: |before.children| <= i < |after.children| ==> after.children[i].tag == OwnKind(before))
        && (|before.children| < |after.children| ==>
              && CountRose(before, after, |after.children| - |before.children|)
              && NewIds(after.children, |before.children|))
  {
    hide OwnKept, OwnUnchanged, IdsFresh, NewIds, Same, Follows, CountRose;
    if after.tag == before.tag { OwnKeptExactly(before, after, allow); }
    OwnKindExactly(before);
    if |before.children| <= |after.children| {
      AppendedExactly(before, after);
      CountExactly(before, after, |after.children| - |before.children|);
      NewIdsExactly(after.children, |before.children|);
    }
  }

  lemma OwnKindExactly(list: Element)
    requires IsGrowable(list.tag)
    ensures EntryTag(list) == OwnKind(list)
  {
    if list.children != [] {
      assert (forall i :: 0 <= i < |list.children| ==> list.children[i].tag == list.children[0].tag)
        <==> (forall c :: c in list.children ==> c.tag == list.children[0].tag);
    }
  }

  lemma AppendedExactly(before: Element, after: Element)
    requires IsGrowable(before.tag) && |before.children| <= |after.children|
    ensures Appended(before, after) == after.children[|before.children|..]
    ensures (forall c :: c in Appended(before, after) ==> c.tag == EntryTag(before))
       <==> forall i :: |before.children| <= i < |after.children| ==> after.children[i].tag == EntryTag(before)
  {
    var n, more := |before.children|, after.children[|before.children|..];
    assert forall i :: n <= i < |after.children| ==> after.children[i] == more[i - n] && more[i - n] in more;
  }

  lemma CountExactly(before: Element, after: Element, gained: nat)
    ensures CountFollows(before.Get("Count"), after.Get("Count"), gained) <==> CountRose(before, after, gained)
  {
    hide PyInt;
  }

  /** An ordinary append: entries of the list's kind with new Ids, and Count raised by their number when the list has
      one. */
  ghost predicate OrdinaryAppend(list: Element, entries: seq<Element>, count: nat) {
    && IsGrowable(list.tag)
    && (forall i :: 0 <= i < |entries| ==> entries[i].tag == OwnKind(list))
    && NewIds(list.children + entries, |list.children|)
    && list.Get("Count") == Some(Decimal(count))
  }

  function AppendEntries(list: Element, entries: seq<Element>, count: nat): Element {
    list.(children := list.children + entries, attrib := list.attrib["Count" := Decimal(count + |entries|)])
  }

  lemma AppendAccepted(list: Element, entries: seq<Element>, count: nat, allow: Allow, delta: DefinitionDelta)
    requires OrdinaryAppend(list, entries, count)
    ensures Grown(list, AppendEntries(list, entries, count), allow, delta)
  {
    hide NewIds, OwnKind, PyInt, Grown;
    var after := AppendEntries(list, entries, count);
    GrowableExactly(list, after, allow, delta);
    IntReads("", count, "");
    IntReads("", count + |entries|, "");
    assert "" + Decimal(count) + "" == Decimal(count);
    assert "" + Decimal(count + |entries|) + "" == Decimal(count + |entries|);
    forall key | !MayDiffer(list, after, allow, key) ensures list.Get(key) == after.Get(key) {
      if key == "Count" { assert entries == []; }
    }
  }

  // ------------------------------------------------------------ other elements

  predicate HasChild(es: seq<Element>, tag: string) {
    exists i :: 0 <= i < |es| && es[i].tag == tag
  }

  lemma {:induction false} CountNone(es: seq<Element>, tag: string)
    ensures CountTag(es, tag) == 0 <==> !HasChild(es, tag)
  {
    if es != [] {
      CountNone(es[1..], tag);
      assert forall i :: 0 <= i < |es| - 1 ==> es[1..][i] == es[i + 1];
      if HasChild(es[1..], tag) { var i :| 0 <= i < |es| - 1 && es[1..][i].tag == tag; assert es[i + 1].tag == tag; }
      if HasChild(es, tag) && es[0].tag != tag {
        var i :| 0 <= i < |es| && es[i].tag == tag;
        assert es[1..][i - 1].tag == tag;
      }
    }
  }

  lemma {:induction false} CountAppend(xs: seq<Element>, ys: seq<Element>, tag: string)
    ensures CountTag(xs + ys, tag) == CountTag(xs, tag) + CountTag(ys, tag)
  {
    if xs == [] { assert xs + ys == ys; } else {
      assert (xs + ys)[1..] == xs[1..] + ys;
      CountAppend(xs[1..], ys, tag);
    }
  }

  /** The child at place k is the only one of its kind. */
  predicate OnlyChild(es: seq<Element>, k: nat) {
    k < |es| && forall i :: 0 <= i < |es| && i != k ==> es[i].tag != es[k].tag
  }

  lemma CountOne(es: seq<Element>, k: nat)
    requires OnlyChild(es, k)
    ensures CountTag(es, es[k].tag) == 1
  {
    var t := es[k].tag;
    assert es == es[..k] + ([es[k]] + es[k + 1..]);
    CountAppend(es[..k], [es[k]] + es[k + 1..], t);
    CountAppend([es[k]], es[k + 1..], t);
    CountNone(es[..k], t);
    CountNone(es[k + 1..], t);
  }

  lemma {:induction false} WithoutNone(es: seq<Element>, drop: set<string>)
    requires forall i :: 0 <= i < |es| ==> es[i].tag !in drop
    ensures Without(es, drop) == es
  {
    if es != [] {
      forall i | 0 <= i < |es| - 1 ensures es[1..][i].tag !in drop { assert es[i + 1].tag !in drop; }
      WithoutNone(es[1..], drop);
    }
  }

  lemma {:induction false} WithoutAppend(xs: seq<Element>, ys: seq<Element>, drop: set<string>)
    ensures Without(xs + ys, drop) == Without(xs, drop) + Without(ys, drop)
  {
    if xs == [] { assert xs + ys == ys; } else {
      assert (xs + ys)[1..] == xs[1..] + ys;
      WithoutAppend(xs[1..], ys, drop);
    }
  }

  lemma WithoutOnly(es: seq<Element>, k: nat)
    requires OnlyChild(es, k)
    ensures Without(es, {es[k].tag}) == es[..k] + es[k + 1..]
  {
    var drop := {es[k].tag};
    assert es == es[..k] + ([es[k]] + es[k + 1..]);
    WithoutAppend(es[..k], [es[k]] + es[k + 1..], drop);
    WithoutNone(es[..k], drop);
    WithoutNone(es[k + 1..], drop);
  }

  predicate IsPlain(tag: string) {
    !IsGrowable(tag) && !IsBound(tag)
  }

  /** Both sides hold the same kinds of definition lists, apart from one. */
  ghost predicate SameLists(was: seq<Element>, now: seq<Element>, except: string) {
    forall t :: IsBound(t) && t != except ==> (HasChild(was, t) <==> HasChild(now, t))
  }

  lemma OnlyInNone(xs: seq<Element>, ys: seq<Element>, except: string)
    requires SameLists(xs, ys, except) || SameLists(ys, xs, except)
    ensures forall t :: t in OnlyIn(xs, ys) ==> t == except
  {
    forall t | t in OnlyIn(xs, ys) ensures t == except {
      CountNone(xs, t);
      CountNone(ys, t);
    }
  }

  /** Any other element, where no definition list comes or goes, keeps its children in number and order; each grew. */
  lemma PlainExactly(before: Element, after: Element, allow: Allow, delta: DefinitionDelta)
    requires IsPlain(before.tag) && SameLists(before.children, after.children, "")
    ensures Grown(before, after, allow, delta) <==>
        && after.tag == before.tag && OwnUnchanged(before, after, allow)
        && |before.children| == |after.children|
        && forall i :: 0 <= i < |before.children| ==> Grown(before.children[i], after.children[i], allow, delta)
  {
    hide OwnKept, OwnUnchanged, OnlyIn, SameLists;
    if after.tag == before.tag { PlainParts(before, after, allow, delta); }
    OnlyInNone(before.children, after.children, "");
    OnlyInNone(after.children, before.children, "");
    assert OnlyIn(before.children, after.children) == {} && OnlyIn(after.children, before.children) == {} by {
      OnlyInBound(before.children, after.children);
      OnlyInBound(after.children, before.children);
    }
    WithoutNone(before.children, {});
    WithoutNone(after.children, {});
  }

  lemma PlainParts(before: Element, after: Element, allow: Allow, delta: DefinitionDelta)
    requires IsPlain(before.tag) && after.tag == before.tag
    ensures Grown(before, after, allow, delta) <==>
              OwnUnchanged(before, after, allow) && ChildrenGrown(before, after, allow, delta)
  {
    hide OwnKept, OwnUnchanged, ListsAccounted;
    OwnKeptExactly(before, after, allow);
  }

  lemma OnlyInBound(xs: seq<Element>, ys: seq<Element>)
    ensures forall t :: t in OnlyIn(xs, ys) ==> IsBound(t)
  {
  }

  // ------------------------------------------------------------ definition lists

  /** A definition list the comparison can read: entries of its kind with numeric, distinct Ids, and their number as
      Count. */
  ghost predicate ExactList(list: Element) {
    && (forall i :: 0 <= i < |list.children| ==>
          && list.children[i].tag == (if list.tag == "NUMBERINGLIST" then "NUMBERING" else "MEMO")
          && Digits(IdOf(list.children[i])))
    && (forall i, j :: 0 <= i < j < |list.children| ==> IdOf(list.children[i]) != IdOf(list.children[j]))
    && list.Get("Count").Some? && Strip(list.Get("Count").value) == Decimal(|list.children|)
  }

  function IdOf(e: Element): string {
    match e.Get("Id") case None => "" case Some(v) => Strip(v)
  }

  lemma ExactListExactly(list: Element)
    requires IsBound(list.tag)
    ensures WellFormedList(list) <==> ExactList(list)
  {
    DecimalRoundTrip(|list.children|);
  }

  predicate Lists(ids: map<string, set<string>>, tag: string, id: string) {
    tag in ids && id in ids[tag]
  }

  /** A definition list present on both sides is accepted exactly when nothing compared changed, or it can be read on
      both sides, kept its attributes but Count, and is the old list, content and order kept, without entries the edit
      may remove, followed by entries the edit creates under Ids the old list did not hold. */
  lemma BoundListExactly(before: Element, after: Element, allow: Allow, delta: DefinitionDelta)
    requires IsBound(before.tag)
    ensures Grown(before, after, allow, delta) <==>
        && after.tag == before.tag
        && (|| Same(before, after)
            || (&& ExactList(before) && ExactList(after)
                && AttributesAgree(before, after, {"Count"})
                && exists kept: seq<nat> :: KeptAnd(kept, before, after, delta)))
  {
    if after.tag == before.tag {
      ExactListExactly(before);
      ExactListExactly(after);
      ListAttrs(before, after);
      var v, w := View(before.children), View(after.children);
      forall kept: seq<nat>
        ensures EditBy(kept, v, w, delta.Removable(before.tag), delta.Created(before.tag)) <==>
                  KeptAnd(kept, before, after, delta)
      {
        EditExactly(kept, before, after, delta);
      }
    }
  }

  lemma ListAttrs(before: Element, after: Element)
    requires IsBound(before.tag) && after.tag == before.tag
    ensures Attrs(before, map[]) - {"Count"} == Attrs(after, map[]) - {"Count"} <==>
              AttributesAgree(before, after, {"Count"})
  {
    var ignore := map[before.tag := {"Count"}];
    AttrsAgree(before, after, ignore);
    assert Attrs(before, map[]) - {"Count"} == Attrs(before, ignore);
    assert Attrs(after, map[]) - {"Count"} == Attrs(after, ignore);
  }

  /** kept gives the places in the old list of the entries the new one starts with. */
  ghost predicate KeptAnd(kept: seq<nat>, before: Element, after: Element, delta: DefinitionDelta) {
    var was, now := before.children, after.children;
    && |kept| <= |now|
    && (forall k :: 0 <= k < |kept| ==> kept[k] < |was| && Same(was[kept[k]], now[k]))
    && (forall k, l :: 0 <= k < l < |kept| ==> kept[k] < kept[l])
    && (forall i :: 0 <= i < |was| && i !in kept ==> Lists(delta.removable, before.tag, IdOf(was[i])))
    && (forall k :: |kept| <= k < |now| ==> Lists(delta.created, before.tag, IdOf(now[k])))
    && (forall k, i :: |kept| <= k < |now| && 0 <= i < |was| ==> IdOf(was[i]) != IdOf(now[k]))
  }

  lemma EditExactly(kept: seq<nat>, before: Element, after: Element, delta: DefinitionDelta)
    requires before.tag == after.tag
    ensures EditBy(kept, View(before.children), View(after.children), delta.Removable(before.tag),
              delta.Created(before.tag))
        <==> KeptAnd(kept, before, after, delta)
  {
    hide Selects, Same, View, IdOf, Strip;
    var was, now := before.children, after.children;
    SamePairs(kept, was, now);
    DropsExactly(kept, was, delta.removable, before.tag);
    AppendsExactly(|kept|, was, now, delta.created, before.tag);
  }

  lemma DropsExactly(kept: seq<nat>, was: seq<Element>, ids: map<string, set<string>>, tag: string)
    ensures DropsOnly(kept, View(was), if tag in ids then ids[tag] else {}) <==>
              forall i :: 0 <= i < |was| && i !in kept ==> Lists(ids, tag, IdOf(was[i]))
  {
    hide Strip;
    assert forall i :: 0 <= i < |was| ==> View(was)[i].id == IdOf(was[i]);
  }

  lemma AppendsExactly(n: nat, was: seq<Element>, now: seq<Element>, ids: map<string, set<string>>, tag: string)
    ensures AppendsOnly(n, View(was), View(now), if tag in ids then ids[tag] else {}) <==>
        && (forall k :: n <= k < |now| ==> Lists(ids, tag, IdOf(now[k])))
        && (forall k, i :: n <= k < |now| && 0 <= i < |was| ==> IdOf(was[i]) != IdOf(now[k]))
  {
    hide Strip;
    var v, w := View(was), View(now);
    assert forall i :: 0 <= i < |was| ==> v[i].id == IdOf(was[i]);
    assert forall k :: 0 <= k < |now| ==> w[k].id == IdOf(now[k]);
    forall k | 0 <= k < |now|
      ensures UsedId(w[k].id, v) <==> exists i :: 0 <= i < |was| && IdOf(was[i]) == IdOf(now[k])
    {
      if i :| 0 <= i < |was| && IdOf(was[i]) == IdOf(now[k]) { assert v[i].id == w[k].id; }
    }
  }

  lemma SamePairs(kept: seq<nat>, was: seq<Element>, now: seq<Element>)
    ensures Selects(kept, View(was), View(now)) <==>
        && |kept| <= |now|
        && (forall k :: 0 <= k < |kept| ==> kept[k] < |was| && Same(was[kept[k]], now[k]))
        && (forall k, l :: 0 <= k < l < |kept| ==> kept[k] < kept[l])
  {
    var v, w := View(was), View(now);
    forall k | 0 <= k < |kept| <= |now| && kept[k] < |was|
      ensures w[k] == v[kept[k]] <==> Same(was[kept[k]], now[k])
    {
      if Same(was[kept[k]], now[k]) { SameKeeps(was[kept[k]], now[k], "Id"); }
    }
  }

  // ------------------------------------------------------------ a definition list that comes or goes

  lemma {:induction false} RankFinds(tag: string, order: seq<string>, p: nat)
    requires p < |order| && order[p] == tag && forall i :: 0 <= i < p ==> order[i] != tag
    ensures Rank(tag, order) == p
  {
    if p > 0 {
      assert order[0] != tag;
      forall i | 0 <= i < p - 1 ensures order[1..][i] != tag { assert order[i + 1] != tag; }
      RankFinds(tag, order[1..], p - 1);
    }
  }

  /** The children stand in the order of the mapping table's schema, each kind at most once. */
  ghost predicate InSchemaOrder(es: seq<Element>, places: seq<nat>) {
    var schema := ["BINDATALIST", "FACENAMELIST", "BORDERFILLLIST", "CHARSHAPELIST", "TABDEFLIST", "NUMBERINGLIST",
                   "BULLETLIST", "PARASHAPELIST", "STYLELIST", "MEMOSHAPELIST"];
    && |places| == |es|
    && (forall i :: 0 <= i < |es| ==> places[i] < |schema| && es[i].tag == schema[places[i]])
    && (forall i, j :: 0 <= i < j < |es| ==> places[i] < places[j])
  }

  lemma SchemaRank(tag: string) returns (p: nat)
    requires tag in MAPPINGTABLE_ORDER
    ensures p < 10 && tag == MAPPINGTABLE_ORDER[p] && Rank(tag, MAPPINGTABLE_ORDER) == p
  {
    assert |MAPPINGTABLE_ORDER| == 10;
    p :| 0 <= p < |MAPPINGTABLE_ORDER| && MAPPINGTABLE_ORDER[p] == tag;
    SchemaDistinct(p);
    RankFinds(tag, MAPPINGTABLE_ORDER, p);
  }

  lemma SchemaDistinct(p: nat)
    requires p < |MAPPINGTABLE_ORDER|
    ensures forall i :: 0 <= i < p ==> MAPPINGTABLE_ORDER[i] != MAPPINGTABLE_ORDER[p]
  {
    var o := MAPPINGTABLE_ORDER;
    assert |o[0]| == 11 && |o[1]| == 12 && |o[2]| == 14 && |o[3]| == 13 && |o[4]| == 10;
    assert |o[5]| == 13 && |o[6]| == 10 && |o[7]| == 13 && |o[8]| == 9 && |o[9]| == 13;
    assert o[3][0] == 'C' && o[5][0] == 'N' && o[7][0] == 'P' && o[9][0] == 'M';
    assert o[4][0] == 'T' && o[6][0] == 'B';
  }

  lemma OrderExactly(es: seq<Element>)
    ensures (&& (forall s :: s in es ==> s.tag in MAPPINGTABLE_ORDER)
             && forall i, j :: 0 <= i < j < |es| ==>
                  Rank(es[i].tag, MAPPINGTABLE_ORDER) < Rank(es[j].tag, MAPPINGTABLE_ORDER))
       <==> exists places :: InSchemaOrder(es, places)
  {
    var ranks := seq(|es|, i requires 0 <= i < |es| => Rank(es[i].tag, MAPPINGTABLE_ORDER));
    if forall s :: s in es ==> s.tag in MAPPINGTABLE_ORDER {
      forall i | 0 <= i < |es| ensures ranks[i] < 10 && es[i].tag == MAPPINGTABLE_ORDER[ranks[i]] {
        assert es[i] in es;
        var p := SchemaRank(es[i].tag);
      }
      assert (forall i, j :: 0 <= i < j < |es| ==> ranks[i] < ranks[j]) ==> InSchemaOrder(es, ranks);
    }
    if places :| InSchemaOrder(es, places) {
      forall i | 0 <= i < |es| ensures es[i].tag in MAPPINGTABLE_ORDER && ranks[i] == places[i] {
        assert es[i].tag == MAPPINGTABLE_ORDER[places[i]];
        SchemaDistinct(places[i]);
        RankFinds(es[i].tag, MAPPINGTABLE_ORDER, places[i]);
      }
      assert forall i, j :: 0 <= i < j < |es| ==> places[i] < places[j];
    }
  }

  /** A definition list may come only into the mapping table, in schema order, readable, not empty, and holding only
      entries the edit creates. */
  ghost predicate MayCome(parent: string, siblings: seq<Element>, list: Element, delta: DefinitionDelta) {
    && parent == "MAPPINGTABLE" && ExactList(list) && list.children != []
    && (forall i :: 0 <= i < |list.children| ==> Lists(delta.created, list.tag, IdOf(list.children[i])))
    && exists places :: InSchemaOrder(siblings, places)
  }

  /** It may go when it is readable and the edit may remove every entry it holds. */
  ghost predicate MayLeave(list: Element, delta: DefinitionDelta) {
    ExactList(list) && forall i :: 0 <= i < |list.children| ==> Lists(delta.removable, list.tag, IdOf(list.children[i]))
  }

  lemma ComesExactly(parent: Element, siblings: seq<Element>, list: Element, delta: DefinitionDelta)
    requires IsBound(list.tag)
    ensures MayAppear(parent, list, siblings, delta) <==> MayCome(parent.tag, siblings, list, delta)
    ensures MayGo(list, delta) <==> MayLeave(list, delta)
  {
    hide WellFormed, Rank, InSchemaOrder, ExactList;
    ExactListExactly(list);
    OrderExactly(siblings);
    forall i | 0 <= i < |list.children|
      ensures list.children[i] in list.children && EntryId(list.children[i]) == IdOf(list.children[i])
    {
    }
    assert forall c :: c in list.children ==> exists i :: 0 <= i < |list.children| && list.children[i] == c;
  }

  /** The place after the edit of the child at place i, when the child at place k is new. */
  function Shifted(i: nat, k: nat): nat {
    if i < k then i else i + 1
  }

  ghost predicate GrownAround(was: seq<Element>, now: seq<Element>, k: nat, allow: Allow, delta: DefinitionDelta) {
    |now| == |was| + 1 && forall i :: 0 <= i < |was| ==> Grown(was[i], now[Shifted(i, k)], allow, delta)
  }

  /** Where one definition list comes, everything else grew in place around it. */
  lemma ComingExactly(before: Element, after: Element, k: nat, allow: Allow, delta: DefinitionDelta)
    requires IsPlain(before.tag) && OnlyChild(after.children, k) && IsBound(after.children[k].tag)
    requires !HasChild(before.children, after.children[k].tag)
    requires SameLists(before.children, after.children, after.children[k].tag)
    ensures Grown(before, after, allow, delta) <==>
        && after.tag == before.tag && OwnUnchanged(before, after, allow)
        && MayCome(before.tag, after.children, after.children[k], delta)
        && GrownAround(before.children, after.children, k, allow, delta)
  {
    var was, now := before.children, after.children;
    hide OwnUnchanged, OnlyIn, SameLists, MayCome, GrownAround, ChildrenGrown, ListsAccounted, PairsGrown;
    if after.tag == before.tag {
      PlainParts(before, after, allow, delta);
      OneList(was, now, k);
      WithoutNone(was, {});
      WithoutOnly(now, k);
      ComesExactly(before, now, now[k], delta);
      AccountedComing(before, after, k, delta);
      AroundExactly(was, now, k, allow, delta);
      ChildrenParts(before, after, allow, delta);
    }
  }

  lemma ChildrenParts(before: Element, after: Element, allow: Allow, delta: DefinitionDelta)
    ensures ChildrenGrown(before, after, allow, delta) <==>
        && ListsAccounted(before, after, delta) && |KeptOld(before, after)| == |KeptNew(before, after)|
        && PairsGrown(KeptOld(before, after), KeptNew(before, after), |KeptOld(before, after)|, allow, delta)
  {
  }

  lemma AccountedComing(before: Element, after: Element, k: nat, delta: DefinitionDelta)
    requires OnlyChild(after.children, k) && IsBound(after.children[k].tag)
    requires OnlyIn(after.children, before.children) == {after.children[k].tag}
    requires OnlyIn(before.children, after.children) == {}
    ensures ListsAccounted(before, after, delta) <==>
              MayAppear(before, after.children[k], after.children, delta)
  {
    hide OnlyIn, MayAppear, MayGo;
    TheOne(after.children, k);
  }

  lemma AccountedGoing(before: Element, after: Element, k: nat, delta: DefinitionDelta)
    requires OnlyChild(before.children, k) && IsBound(before.children[k].tag)
    requires OnlyIn(before.children, after.children) == {before.children[k].tag}
    requires OnlyIn(after.children, before.children) == {}
    ensures ListsAccounted(before, after, delta) <==> MayGo(before.children[k], delta)
  {
    hide OnlyIn, MayAppear, MayGo;
    TheOne(before.children, k);
  }

  /** And where one goes, everything else grew in place and closed up. */
  lemma GoingExactly(before: Element, after: Element, k: nat, allow: Allow, delta: DefinitionDelta)
    requires IsPlain(before.tag) && OnlyChild(before.children, k) && IsBound(before.children[k].tag)
    requires !HasChild(after.children, before.children[k].tag)
    requires SameLists(after.children, before.children, before.children[k].tag)
    ensures Grown(before, after, allow, delta) <==>
        && after.tag == before.tag && OwnUnchanged(before, after, allow)
        && MayLeave(before.children[k], delta)
        && |before.children| == |after.children| + 1
        && forall i :: 0 <= i < |after.children| ==>
             Grown(before.children[Shifted(i, k)], after.children[i], allow, delta)
  {
    var was, now := before.children, after.children;
    hide OwnUnchanged, OnlyIn, SameLists, MayLeave, ChildrenGrown, ListsAccounted, PairsGrown;
    if after.tag == before.tag {
      PlainParts(before, after, allow, delta);
      OneList(now, was, k);
      WithoutNone(now, {});
      WithoutOnly(was, k);
      ComesExactly(before, now, was[k], delta);
      AccountedGoing(before, after, k, delta);
      ChildrenParts(before, after, allow, delta);
      AroundGone(was, now, k, allow, delta);
    }
  }

  lemma AroundGone(was: seq<Element>, now: seq<Element>, k: nat, allow: Allow, delta: DefinitionDelta)
    requires k < |was|
    ensures (|was[..k] + was[k + 1..]| == |now|
             && PairsGrown(was[..k] + was[k + 1..], now, |was[..k] + was[k + 1..]|, allow, delta))
       <==> (|was| == |now| + 1 && forall i :: 0 <= i < |now| ==> Grown(was[Shifted(i, k)], now[i], allow, delta))
  {
    var rest := was[..k] + was[k + 1..];
    assert forall i :: 0 <= i < |rest| ==> rest[i] == was[Shifted(i, k)];
  }

  lemma TheOne(es: seq<Element>, k: nat)
    requires OnlyChild(es, k)
    ensures es[k] in es && forall c :: c in es && c.tag == es[k].tag ==> c == es[k]
  {
  }

  lemma OneList(xs: seq<Element>, ys: seq<Element>, k: nat)
    requires OnlyChild(ys, k) && IsBound(ys[k].tag) && !HasChild(xs, ys[k].tag) && SameLists(xs, ys, ys[k].tag)
    ensures OnlyIn(ys, xs) == {ys[k].tag} && OnlyIn(xs, ys) == {}
  {
    hide CountTag, SameLists;
    OnlyInNone(xs, ys, ys[k].tag);
    OnlyInNone(ys, xs, ys[k].tag);
    CountOne(ys, k);
    CountNone(xs, ys[k].tag);
  }

  lemma AroundExactly(was: seq<Element>, now: seq<Element>, k: nat, allow: Allow, delta: DefinitionDelta)
    requires k < |now|
    ensures var rest := now[..k] + now[k + 1..];
            |was| == |rest| && PairsGrown(was, rest, |was|, allow, delta) <==> GrownAround(was, now, k, allow, delta)
  {
    var rest := now[..k] + now[k + 1..];
    assert forall i :: 0 <= i < |rest| ==> rest[i] == now[Shifted(i, k)];
  }

  // ------------------------------------------------------------ whole documents

  /** An edit that grows one child in place grows the element around it. */
  lemma ChildGrows(parent: Element, k: nat, child: Element, allow: Allow, delta: DefinitionDelta)
    requires IsPlain(parent.tag) && k < |parent.children| && Grown(parent.children[k], child, allow, delta)
    ensures Grown(parent, parent.(children := parent.children[k := child]), allow, delta)
  {
    var after := parent.(children := parent.children[k := child]);
    assert after.children[k].tag == parent.children[k].tag;
    SameKinds(parent.children, k, child);
    PlainExactly(parent, after, allow, delta);
    forall i | 0 <= i < |parent.children| ensures Grown(parent.children[i], after.children[i], allow, delta) {
      GrowthRuns.GrownReflexive(parent.children[i], allow, delta);
    }
  }

  lemma SameKinds(es: seq<Element>, k: nat, e: Element)
    requires k < |es| && es[k].tag == e.tag
    ensures SameLists(es, es[k := e], "")
  {
    var fs := es[k := e];
    assert forall i :: 0 <= i < |es| ==> es[i].tag == fs[i].tag;
    forall t ensures HasChild(es, t) <==> HasChild(fs, t) {
      if i :| 0 <= i < |es| && es[i].tag == t { assert fs[i].tag == t; }
      if i :| 0 <= i < |fs| && fs[i].tag == t { assert es[i].tag == t; }
    }
  }

  /** A top-level part: the body is not compared, HEAD grew, and of every other part only the Size of a BINDATA may
      differ. */
  ghost predicate TopKept(was: Element, now: Element, allow: Allow, delta: DefinitionDelta) {
    was.tag != "BODY" ==>
      && was.tag == now.tag
      && if was.tag == "HEAD" then Grown(was, now, allow, delta)
         else Canon(was, map["BINDATA" := {"Size"}], {}) == Canon(now, map["BINDATA" := {"Size"}], {})
  }

  /** A document with its body where it was is accepted exactly when each part is. */
  lemma DocumentExactly(before: Element, after: Element, allow: Allow, delta: DefinitionDelta)
    requires |before.children| == |after.children|
    requires forall i :: 0 <= i < |before.children| ==>
               (before.children[i].tag == "BODY" <==> after.children[i].tag == "BODY")
    ensures DocumentGrown(before, after, allow, delta) <==>
              forall i :: 0 <= i < |before.children| ==> TopKept(before.children[i], after.children[i], allow, delta)
  {
    PartsExactly(before.children, after.children, allow, delta);
  }

  lemma {:induction false} PartsExactly(was: seq<Element>, now: seq<Element>, allow: Allow, delta: DefinitionDelta)
    requires |was| == |now|
    requires forall i :: 0 <= i < |was| ==> (was[i].tag == "BODY" <==> now[i].tag == "BODY")
    ensures |Without(was, {BODY_TAG})| == |Without(now, {BODY_TAG})|
    ensures PartsKept(Without(was, {BODY_TAG}), Without(now, {BODY_TAG}), |Without(was, {BODY_TAG})|, allow, delta)
       <==> forall i :: 0 <= i < |was| ==> TopKept(was[i], now[i], allow, delta)
  {
    hide Grown, Canon;
    if was != [] {
      assert forall i :: 0 <= i < |was| - 1 ==> was[1..][i] == was[i + 1] && now[1..][i] == now[i + 1];
      var p, q := Without(was[1..], {BODY_TAG}), Without(now[1..], {BODY_TAG});
      PartsExactly(was[1..], now[1..], allow, delta);
      PartsCons(was[0], now[0], p, q, allow, delta);
      assert PartKept(was[0], now[0], allow, delta) && was[0].tag != "BODY" ==> TopKept(was[0], now[0], allow, delta);
      assert (forall i :: 0 <= i < |was| ==> TopKept(was[i], now[i], allow, delta)) <==>
          && TopKept(was[0], now[0], allow, delta)
          && forall i :: 0 <= i < |was| - 1 ==> TopKept(was[1..][i], now[1..][i], allow, delta) by {
        hide TopKept;
        assert forall i :: 1 <= i < |was| ==> was[i] == was[1..][i - 1] && now[i] == now[1..][i - 1];
      }
    }
  }

  lemma PartsCons(x: Element, y: Element, p: seq<Element>, q: seq<Element>, allow: Allow, delta: DefinitionDelta)
    requires |p| == |q|
    ensures PartsKept([x] + p, [y] + q, |p| + 1, allow, delta) <==>
              PartKept(x, y, allow, delta) && PartsKept(p, q, |p|, allow, delta)
  {
    hide PartKept;
    var xs, ys := [x] + p, [y] + q;
    assert forall i :: 0 <= i < |p| ==> xs[i + 1] == p[i] && ys[i + 1] == q[i];
    assert xs[0] == x && ys[0] == y;
    if PartsKept(xs, ys, |p| + 1, allow, delta) {
      forall i | 0 <= i < |p| ensures PartKept(p[i], q[i], allow, delta) {
        assert PartKept(xs[i + 1], ys[i + 1], allow, delta);
      }
      assert PartKept(xs[0], ys[0], allow, delta);
    }
  }

  /** Where a growable list stands in a document: the children to walk down from the root. */
  datatype Place = Place(head: nat, mapping: nat, list: nat)

  ghost predicate HoldsAt(root: Element, at: Place) {
    && at.head < |root.children| && root.children[at.head].tag == "HEAD"
    && at.mapping < |root.children[at.head].children|
    && root.children[at.head].children[at.mapping].tag == "MAPPINGTABLE"
    && at.list < |root.children[at.head].children[at.mapping].children|
  }

  function ListAt(root: Element, at: Place): Element
    requires HoldsAt(root, at)
  {
    root.children[at.head].children[at.mapping].children[at.list]
  }

  function WithChild(e: Element, k: nat, child: Element): Element
    requires k < |e.children|
  {
    e.(children := e.children[k := child])
  }

  function WithList(root: Element, at: Place, list: Element): Element
    requires HoldsAt(root, at)
  {
    var head := root.children[at.head];
    var mapping := head.children[at.mapping];
    WithChild(root, at.head, WithChild(head, at.mapping, WithChild(mapping, at.list, list)))
  }

  /** A document in which one list of the mapping table gained entries the ordinary way is accepted, with nothing
      allowed and nothing accounted for. */
  lemma DocumentAppendAccepted(root: Element, at: Place, entries: seq<Element>, count: nat)
    requires HoldsAt(root, at) && OrdinaryAppend(ListAt(root, at), entries, count)
    ensures DocumentGrown(root, WithList(root, at, AppendEntries(ListAt(root, at), entries, count)), map[], NO_DELTA)
  {
    hide Grown, DocumentGrown, OrdinaryAppend;
    var head := root.children[at.head];
    var mapping := head.children[at.mapping];
    var list' := AppendEntries(ListAt(root, at), entries, count);
    AppendAccepted(mapping.children[at.list], entries, count, map[], NO_DELTA);
    ChildGrows(mapping, at.list, list', map[], NO_DELTA);
    var mapping' := WithChild(mapping, at.list, list');
    ChildGrows(head, at.mapping, mapping', map[], NO_DELTA);
    var head' := WithChild(head, at.mapping, mapping');
    var root' := WithList(root, at, list');
    assert root' == WithChild(root, at.head, head') && root'.children[at.head] == head';
    forall i | 0 <= i < |root.children| ensures TopKept(root.children[i], root'.children[i], map[], NO_DELTA) {
      assert i != at.head ==> root'.children[i] == root.children[i];
      if root.children[i].tag == "HEAD" { GrowthRuns.GrownReflexive(root.children[i], map[], NO_DELTA); }
    }
    DocumentExactly(root, root', map[], NO_DELTA);
  }
}