/** When a section insert binds a new reference: the exact condition, and the native break that meets it. */
module SectionBinding {
  import opened Text
  import opened Hwpml
  import opened BoundLists
  import opened HeadGrowth
  import opened References
  import opened SectionDefinitions
  import opened HeadAcceptance
  import opened DefinitionUse
  import GrowthRuns

  /** Two definitions are equal up to Id exactly when everything a comparison sees but the Ids agrees. */
  lemma EqualUpToIdExactly(x: Element, y: Element)
    ensures EqualUpToId(x, y) <==>
        && x.tag == y.tag && x.text == y.text && AttributesAgree(x, y, {"Id"})
        && |x.children| == |y.children|
        && forall i :: 0 <= i < |x.children| ==>
             && x.children[i].tail == y.children[i].tail
             && Canon(x.children[i], map[x.tag := {"Id"}], {}) == Canon(y.children[i], map[x.tag := {"Id"}], {})
  {
    CanonExactly(x, y, map[x.tag := {"Id"}]);
  }

  /** The memo shape Hancom gives a section that had none, attribute by attribute. */
  function DefaultValue(key: string): Option<string> {
    match key
    case "ActiveColor" => Some("13103567")
    case "FillColor" => Some("15335408")
    case "LineColor" => Some("11458486")
    case "LineType" => Some("1")
    case "LineWidth" => Some("1")
    case "MemoType" => Some("0")
    case "Width" => Some("15591")
    case _ => None
  }

  ghost predicate DefaultMemo(entry: Element) {
    && entry.children == [] && Strip(entry.text) == ""
    && forall key :: key != "Id" ==> entry.Get(key) == DefaultValue(key)
  }

  lemma DefaultMemoExactly(entry: Element)
    ensures IsDefaultMemo(entry) <==> DefaultMemo(entry)
  {
    hide Strip;
    var own := entry.attrib - {ENTRY_ID_ATTR};
    forall key ensures key in DEFAULT_MEMO_SHAPE <==> DefaultValue(key).Some?
               ensures key in DEFAULT_MEMO_SHAPE ==> DefaultValue(key) == Some(DEFAULT_MEMO_SHAPE[key])
    {
    }
    hide DefaultValue, DEFAULT_MEMO_SHAPE;
    if own == DEFAULT_MEMO_SHAPE {
      forall key | key != "Id" ensures entry.Get(key) == DefaultValue(key) {
        assert key in own <==> key in entry.attrib;
      }
    }
    if DefaultMemo(entry) {
      forall key ensures key in own <==> key in DEFAULT_MEMO_SHAPE
                 ensures key in own ==> own[key] == DEFAULT_MEMO_SHAPE[key]
      {
        assert key != "Id" ==> entry.Get(key) == DefaultValue(key);
      }
    }
  }

  /** Nothing but the SECDEF at place p names the definition. */
  ghost predicate NamedOnlyAt(root: Element, p: nat, listTag: string, id: string)
    requires IsBound(listTag)
  {
    forall q :: 0 <= q < |Iter(root)| && q != p ==>
      !Uses(Iter(root)[q], listTag, id, Resolve(root, listTag, id).Some?)
  }

  /** The definition equals the one the split section uses, or is the default memo shape where that section had none. */
  ghost predicate Stands(before: Element, split: Element, listTag: string, entry: Element)
    requires IsBound(listTag)
  {
    match split.Get(SecDefAttr(listTag))
    case None => listTag == "MEMOSHAPELIST" && DefaultMemo(entry)
    case Some(was) =>
      Resolve(before, listTag, Strip(was)).Some? && EqualUpToId(Resolve(before, listTag, Strip(was)).value, entry)
  }

  /** The edit defined it: both lists can be read, the Id is new, and the SECDEF at place p alone names it. */
  ghost predicate NewHere(before: Element, after: Element, p: nat, listTag: string, id: string)
    requires IsBound(listTag) && p < |Iter(after)|
  {
    && BoundIndex(before, listTag).Some? && BoundIndex(after, listTag).Some?
    && Resolve(before, listTag, id).None? && Resolve(after, listTag, id).Some?
    && Holds(Iter(after)[p], SecDefAttr(listTag), id) && NamedOnlyAt(after, p, listTag, id)
  }

  /** Place p of the after-document holds the new SECDEF; its index counts the SECDEFs in front of it. */
  predicate At(after: Element, added: Element, newIndex: nat, p: nat) {
    && p < |Iter(after)| && Iter(after)[p] == added && added.tag == "SECDEF"
    && newIndex == CountTag(Iter(after)[..p], "SECDEF")
  }

  /** A reference is copied exactly when it is the split section's, and bound to an Id exactly when that Id is new in
      the document, named by the new SECDEF alone, and stands for the split section's definition. */
  lemma BindExactly(before: Element, after: Element, split: Element, added: Element, newIndex: nat, p: nat,
      listTag: string)
    requires Named(before) && Named(after) && IsBound(listTag) && At(after, added, newIndex, p)
    ensures Bind(before, after, split, added, newIndex, listTag).Copied? <==>
              added.Get(SecDefAttr(listTag)) == split.Get(SecDefAttr(listTag))
    ensures forall id :: Bind(before, after, split, added, newIndex, listTag) == BoundTo(id) <==>
        && added.Get(SecDefAttr(listTag)) != split.Get(SecDefAttr(listTag))
        && NewHere(before, after, p, listTag, id)
        && Stands(before, split, listTag, Resolve(after, listTag, id).value)
  {
    hide Referrers, Iter, Uses, IsDefaultMemo, DefaultMemo, EqualUpToId, Named, Strip, CountTag, WithoutId;
    var attr := SecDefAttr(listTag);
    var value := added.Get(attr);
    if value.Some? && value != split.Get(attr) {
      var id := Strip(value.value);
      SoleReferrer(after, listTag, id, p);
      if Resolve(after, listTag, id).Some? {
        var entry := Resolve(after, listTag, id).value;
        DefaultMemoExactly(entry);
        if split.Get(attr).Some? && Resolve(before, listTag, Strip(split.Get(attr).value)).Some? {
          ResolvedEntry(before, listTag, Strip(split.Get(attr).value));
          ResolvedEntry(after, listTag, id);
          EqualWithoutId(Resolve(before, listTag, Strip(split.Get(attr).value)).value, entry);
          EqualSymmetric(Resolve(before, listTag, Strip(split.Get(attr).value)).value, entry);
        }
      }
      BindOther(before, after, split, added, newIndex, listTag);
    }
  }

  lemma EqualSymmetric(x: Element, y: Element)
    ensures EqualUpToId(x, y) <==> EqualUpToId(y, x)
  {
  }

  /** A binding, if any, is to the Id the new SECDEF holds. */
  lemma BindOther(before: Element, after: Element, split: Element, added: Element, newIndex: nat, listTag: string)
    requires IsBound(listTag)
    ensures forall id :: Bind(before, after, split, added, newIndex, listTag) == BoundTo(id) ==>
              Holds(added, SecDefAttr(listTag), id)
  {
    hide Referrers, WithoutId, IsDefaultMemo, BoundIndex, Strip;
  }

  /** A new Id, undefined before and defined after, that the new SECDEF alone refers to is bound exactly when it stands
      for the split section's definition; otherwise the insert is refused. */
  lemma NewReferenceBound(before: Element, after: Element, split: Element, added: Element, newIndex: nat, p: nat,
      listTag: string, id: string)
    requires Named(before) && Named(after) && IsBound(listTag) && At(after, added, newIndex, p)
    requires added.Get(SecDefAttr(listTag)) != split.Get(SecDefAttr(listTag)) && NewHere(before, after, p, listTag, id)
    ensures Stands(before, split, listTag, Resolve(after, listTag, id).value) <==>
              Bind(before, after, split, added, newIndex, listTag) == BoundTo(id)
    ensures Stands(before, split, listTag, Resolve(after, listTag, id).value) <==>
              !Bind(before, after, split, added, newIndex, listTag).Refused?
    ensures Stands(before, split, listTag, Resolve(after, listTag, id).value) <==>
              SecDefAttr(listTag) in BoundRefs(before, after, split, added, newIndex)
  {
    hide Bind, Stands, NamedOnlyAt, Resolve, BoundIndex, Iter, BoundRefs, Named, CountTag, Strip;
    BindExactly(before, after, split, added, newIndex, p, listTag);
    BoundRefsAre(before, after, split, added, newIndex, listTag);
    var b := Bind(before, after, split, added, newIndex, listTag);
    if b.BoundTo? { assert Holds(added, SecDefAttr(listTag), b.id); }
  }

  /** The delta an insert returns holds, for each list, exactly the Id it bound. */
  lemma InsertDeltaExactly(before: Element, after: Element, split: Element, added: Element, newIndex: nat, p: nat,
      listTag: string)
    requires Named(before) && Named(after) && IsBound(listTag) && At(after, added, newIndex, p)
    ensures var delta := InsertDelta(before, after, split, added, newIndex);
            && delta.removable == map[]
            && forall id :: Lists(delta.created, listTag, id) <==>
                 && added.Get(SecDefAttr(listTag)) != split.Get(SecDefAttr(listTag))
                 && NewHere(before, after, p, listTag, id)
                 && Stands(before, split, listTag, Resolve(after, listTag, id).value)
  {
    hide Bind, Stands, NewHere, Resolve, BoundIndex, Iter, Named, CountTag, CreatedFrom;
    BindExactly(before, after, split, added, newIndex, p, listTag);
    InsertDeltaAt(before, after, split, added, newIndex, listTag);
  }

  // ------------------------------------------------------------ the native break

  /** The list with one more entry, and its Count with it. */
  function Longer(list: Element, entry: Element): Element {
    list.(children := list.children + [entry], attrib := list.attrib["Count" := Decimal(|list.children| + 1)])
  }

  /** A numbering under an Id the list does not hold. */
  ghost predicate FreshNumbering(list: Element, entry: Element) {
    && list.tag == "NUMBERINGLIST" && ExactList(list)
    && entry.tag == "NUMBERING" && Digits(IdOf(entry))
    && forall i :: 0 <= i < |list.children| ==> IdOf(list.children[i]) != IdOf(entry)
  }

  lemma LongerExact(list: Element, entry: Element)
    requires FreshNumbering(list, entry)
    ensures ExactList(Longer(list, entry))
  {
    DecimalRoundTrip(|list.children| + 1);
    DigitsStay(Decimal(|list.children| + 1));
    hide Decimal, Strip, IdOf;
    var n, es := |list.children|, Longer(list, entry).children;
    assert forall i :: 0 <= i < n ==> es[i] == list.children[i];
    assert es[n] == entry;
  }

  lemma LongerGrown(list: Element, entry: Element, allow: Allow, delta: DefinitionDelta)
    requires FreshNumbering(list, entry) && Lists(delta.created, "NUMBERINGLIST", IdOf(entry))
    ensures Grown(list, Longer(list, entry), allow, delta)
  {
    LongerExact(list, entry);
    hide Decimal, Strip, IdOf, ExactList;
    var n, after := |list.children|, Longer(list, entry);
    BoundListExactly(list, after, allow, delta);
    var kept: seq<nat> := seq(n, i => i);
    forall i | 0 <= i < n ensures i in kept { assert kept[i] == i; }
    assert forall i :: 0 <= i < n ==> after.children[i] == list.children[i];
    assert after.children[n] == entry;
    assert KeptAnd(kept, list, after, delta);
    assert AttributesAgree(list, after, {"Count"});
  }

  /** A break as read back: HEAD is the old one with the numbering appended, and only the body differs besides. */
  ghost predicate NumberingGained(before: Element, after: Element, at: Place, entry: Element) {
    && HoldsAt(before, at) && FreshNumbering(ListAt(before, at), entry)
    && FirstChild(before.children, at.head, "HEAD")
    && FirstChild(before.children[at.head].children, at.mapping, "MAPPINGTABLE")
    && OnlyChild(before.children[at.head].children[at.mapping].children, at.list)
    && |after.children| == |before.children|
    && (forall i :: 0 <= i < |before.children| ==>
          if before.children[i].tag == "BODY" then after.children[i].tag == "BODY"
          else after.children[i] == WithList(before, at, Longer(ListAt(before, at), entry)).children[i])
  }

  lemma BreakGrown(before: Element, after: Element, at: Place, entry: Element, delta: DefinitionDelta)
    requires NumberingGained(before, after, at, entry) && Lists(delta.created, "NUMBERINGLIST", IdOf(entry))
    ensures DocumentGrown(before, after, map[], delta)
  {
    hide Grown, DocumentGrown, FreshNumbering, FirstChild, OnlyChild;
    var head := before.children[at.head];
    var mapping := head.children[at.mapping];
    var list' := Longer(ListAt(before, at), entry);
    LongerGrown(ListAt(before, at), entry, map[], delta);
    ChildGrows(mapping, at.list, list', map[], delta);
    ChildGrows(head, at.mapping, WithChild(mapping, at.list, list'), map[], delta);
    forall i | 0 <= i < |before.children| ensures TopKept(before.children[i], after.children[i], map[], delta) {
      if before.children[i].tag == "HEAD" && i != at.head {
        GrowthRuns.GrownReflexive(before.children[i], map[], delta);
      }
    }
    DocumentExactly(before, after, map[], delta);
  }

  /** The appended numbering is what its Id now stands for, and every other Id of the list what it stood for. */
  lemma BreakDefines(before: Element, after: Element, at: Place, entry: Element, i: nat)
    requires NumberingGained(before, after, at, entry) && i < |ListAt(before, at).children|
    ensures BoundIndex(before, "NUMBERINGLIST").Some? && BoundIndex(after, "NUMBERINGLIST").Some?
    ensures Resolve(before, "NUMBERINGLIST", IdOf(entry)).None?
    ensures Resolve(after, "NUMBERINGLIST", IdOf(entry)) == Some(entry)
    ensures Resolve(before, "NUMBERINGLIST", IdOf(ListAt(before, at).children[i]))
         == Some(ListAt(before, at).children[i])
  {
    hide BoundIndex, Resolve, IdOf, Decimal, ExactList;
    var list := ListAt(before, at);
    var list' := Longer(list, entry);
    var lists := before.children[at.head].children[at.mapping].children;
    var lists' := after.children[at.head].children[at.mapping].children;
    assert lists' == lists[at.list := list'];
    assert FirstChild(after.children, at.head, "HEAD");
    assert FirstChild(after.children[at.head].children, at.mapping, "MAPPINGTABLE") by {
      assert forall k :: 0 <= k < at.mapping ==>
        after.children[at.head].children[k] == before.children[at.head].children[k];
    }
    LongerExact(list, entry);
    TheList(lists, at.list);
    TheList(lists', at.list);
    ResolveExactly(before, at.head, at.mapping, "NUMBERINGLIST", IdOf(entry));
    ResolveExactly(before, at.head, at.mapping, "NUMBERINGLIST", IdOf(list.children[i]));
    ResolveExactly(after, at.head, at.mapping, "NUMBERINGLIST", IdOf(entry));
    assert DefinedBy(lists, at.list, "NUMBERINGLIST", IdOf(list.children[i]), list.children[i]);
    assert list'.children[|list.children|] == entry;
    assert DefinedBy(lists', at.list, "NUMBERINGLIST", IdOf(entry), entry);
  }

  /** The break Hancom makes is accepted: the new section's outline is bound to the appended numbering, its memo shape
      is copied, and HEAD passes under the delta this returns. */
  lemma NativeBreakAccepted(before: Element, after: Element, at: Place, entry: Element, split: Element, added: Element,
      newIndex: nat, p: nat, i: nat)
    requires Named(before) && Named(after) && At(after, added, newIndex, p)
    requires NumberingGained(before, after, at, entry) && i < |ListAt(before, at).children|
    requires Holds(split, "OutlineShape", IdOf(ListAt(before, at).children[i]))
    requires EqualUpToId(ListAt(before, at).children[i], entry)
    requires Holds(added, "OutlineShape", IdOf(entry)) && NamedOnlyAt(after, p, "NUMBERINGLIST", IdOf(entry))
    requires added.Get("MemoShapeId") == split.Get("MemoShapeId")
    ensures Bind(before, after, split, added, newIndex, "NUMBERINGLIST") == BoundTo(IdOf(entry))
    ensures Bind(before, after, split, added, newIndex, "MEMOSHAPELIST").Copied?
    ensures DocumentGrown(before, after, map[], InsertDelta(before, after, split, added, newIndex))
  {
    BreakDefines(before, after, at, entry, i);
    hide Bind, BoundIndex, Resolve, DocumentGrown, InsertDelta, NamedOnlyAt, EqualUpToId, Iter, Named, CountTag, Strip;
    BreakBinds(before, after, at, entry, split, added, newIndex, p, i);
    BindExactly(before, after, split, added, newIndex, p, "MEMOSHAPELIST");
    BreakGrown(before, after, at, entry, InsertDelta(before, after, split, added, newIndex));
  }

  /** The reference is bound, and the delta accounts for it. */
  lemma BreakBinds(before: Element, after: Element, at: Place, entry: Element, split: Element, added: Element,
      newIndex: nat, p: nat, i: nat)
    requires Named(before) && Named(after) && At(after, added, newIndex, p)
    requires HoldsAt(before, at) && i < |ListAt(before, at).children| && FreshNumbering(ListAt(before, at), entry)
    requires BoundIndex(before, "NUMBERINGLIST").Some? && BoundIndex(after, "NUMBERINGLIST").Some?
    requires Resolve(before, "NUMBERINGLIST", IdOf(entry)).None?
    requires Resolve(after, "NUMBERINGLIST", IdOf(entry)) == Some(entry)
    requires Resolve(before, "NUMBERINGLIST", IdOf(ListAt(before, at).children[i]))
          == Some(ListAt(before, at).children[i])
    requires Holds(split, "OutlineShape", IdOf(ListAt(before, at).children[i]))
    requires EqualUpToId(ListAt(before, at).children[i], entry)
    requires Holds(added, "OutlineShape", IdOf(entry)) && NamedOnlyAt(after, p, "NUMBERINGLIST", IdOf(entry))
    ensures Bind(before, after, split, added, newIndex, "NUMBERINGLIST") == BoundTo(IdOf(entry))
    ensures Lists(InsertDelta(before, after, split, added, newIndex).created, "NUMBERINGLIST", IdOf(entry))
  {
    hide Bind, BoundIndex, Resolve, InsertDelta, NamedOnlyAt, EqualUpToId, Iter, Named, CountTag, Strip, ExactList;
    BindExactly(before, after, split, added, newIndex, p, "NUMBERINGLIST");
    InsertDeltaExactly(before, after, split, added, newIndex, p, "NUMBERINGLIST");
  }
}
