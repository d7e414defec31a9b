/** What a section insert or delete does to the definitions sections refer to. */
module SectionDefinitions {
  import opened Text
  import opened Hwpml
  import opened Signatures
  import opened BoundLists
  import opened HeadGrowth
  import opened References
  import opened CopyForms

  /** SECDEF_REFERENCES: the attribute through which a SECDEF names an entry of a list. */
  function AttrOf(listTag: string): string {
    if listTag == NUMBERINGLIST then OUTLINE_SHAPE else MEMO_SHAPE_ID
  }

  const LISTS: seq<string> := [NUMBERINGLIST, MEMOSHAPELIST]

  // ------------------------------------------------------------ indexes of accepted documents

  lemma {:induction false} IndexAt(es: seq<Element>, i: nat)
    requires i < |es| && DistinctIds(View(es))
    ensures EntryId(es[i]) in IndexOf(es) && IndexOf(es)[EntryId(es[i])] == es[i]
    decreases |es|
  {
    var n := |es| - 1;
    if i < n {
      var front := es[..n];
      assert forall j :: 0 <= j < n ==> View(front)[j] == View(es)[j];
      IndexAt(front, i);
      assert View(es)[i].id != View(es)[n].id;
    }
  }

  lemma {:induction false} IndexFrom(es: seq<Element>, id: string) returns (i: nat)
    requires id in IndexOf(es)
    ensures i < |es| && EntryId(es[i]) == id
    decreases |es|
  {
    var n := |es| - 1;
    if EntryId(es[n]) == id { i := n; } else { i := IndexFrom(es[..n], id); }
  }

  lemma WellFormedDistinct(e: Element, entryTag: string)
    requires WellFormed(e, entryTag)
    ensures DistinctIds(View(e.children))
  {
  }

  /** How an index may move: entries keep their content, go only if removable, come only if created. */
  ghost predicate IndexGrown(p: Option<map<string, Element>>, q: Option<map<string, Element>>, removable: set<string>,
      created: set<string>) {
    && (p.None? <==> q.None?)
    && (p.Some? ==>
          && (forall id :: id in p.value ==> if id in q.value then Same(p.value[id], q.value[id]) else id in removable)
          && (forall id :: id in q.value && id !in p.value ==> id in created))
  }

  lemma IndexEdited(was: seq<Element>, now: seq<Element>, removable: set<string>, created: set<string>)
    requires DistinctIds(View(was)) && DistinctIds(View(now)) && EntriesEdited(View(was), View(now), removable, created)
    ensures IndexGrown(Some(IndexOf(was)), Some(IndexOf(now)), removable, created)
  {
    var v, w := View(was), View(now);
    var kept :| EditBy(kept, v, w, removable, created);
    forall id | id in IndexOf(was) && id in IndexOf(now) ensures Same(IndexOf(was)[id], IndexOf(now)[id]) {
      var i := IndexFrom(was, id);
      var j := IndexFrom(now, id);
      IndexAt(was, i);
      IndexAt(now, j);
      EditedPair(kept, v, w, removable, created, i, j);
    }
    forall k | 0 <= k < |kept| ensures v[kept[k]].id in IndexOf(now) && w[k].id in IndexOf(was) {
      IndexAt(now, k);
      IndexAt(was, kept[k]);
      assert w[k] == v[kept[k]] && v[kept[k]].id == EntryId(was[kept[k]]);
    }
    forall id | id in IndexOf(was) && id !in IndexOf(now) ensures id in removable {
      var i := IndexFrom(was, id);
      assert v[i].id == id;
    }
    forall id | id in IndexOf(now) && id !in IndexOf(was) ensures id in created {
      var j := IndexFrom(now, id);
      assert w[j].id == id;
    }
  }

  lemma EditedPair(kept: seq<nat>, v: seq<Entry>, w: seq<Entry>, removable: set<string>, created: set<string>,
        i: nat, j: nat)
    requires EditBy(kept, v, w, removable, created) && DistinctIds(v) && i < |v| && j < |w| && v[i].id == w[j].id
    ensures v[i] == w[j]
  {
    assert UsedId(w[j].id, v);
    assert j < |kept|;
    assert w[j] == v[kept[j]];
  }

  lemma EditsNothing(v: seq<Entry>, removable: set<string>, created: set<string>)
    ensures EntriesEdited(v, v, removable, created)
  {
    var kept: seq<nat> := seq(|v|, i => i);
    forall i | 0 <= i < |v| ensures i in kept { assert kept[i] == i; }
    assert Selects(kept, v, v) && DropsOnly(kept, v, removable) && AppendsOnly(|v|, v, v, created);
    assert EditBy(kept, v, v, removable, created);
  }

  function EntryIndex(found: Element, listTag: string): Option<map<string, Element>>
    requires listTag in REFERENCE_BOUND_LISTS
  {
    if WellFormed(found, REFERENCE_BOUND_LISTS[listTag]) then Some(IndexOf(found.children)) else None
  }

  lemma ListEdited(b: Element, a: Element, delta: DefinitionDelta)
    requires b.tag == a.tag && b.tag in REFERENCE_BOUND_LISTS && BoundEdited(b, a, delta)
    ensures IndexGrown(EntryIndex(b, b.tag), EntryIndex(a, b.tag), delta.Removable(b.tag), delta.Created(b.tag))
  {
    if Same(b, a) {
      SameView(b, a);
      if WellFormedList(b) { SameWellFormed(b, a); }
      if WellFormedList(a) { SameWellFormed(a, b); }
      EditsNothing(View(b.children), delta.Removable(b.tag), delta.Created(b.tag));
    }
    if WellFormedList(b) && WellFormedList(a) {
      WellFormedDistinct(b, REFERENCE_BOUND_LISTS[b.tag]);
      WellFormedDistinct(a, REFERENCE_BOUND_LISTS[b.tag]);
      IndexEdited(b.children, a.children, delta.Removable(b.tag), delta.Created(b.tag));
    }
  }

  lemma ListGone(b: Element, delta: DefinitionDelta)
    requires b.tag in REFERENCE_BOUND_LISTS && MayGo(b, delta)
    ensures IndexGrown(EntryIndex(b, b.tag), Some(map[]), delta.Removable(b.tag), delta.Created(b.tag))
  {
    forall id | id in IndexOf(b.children) ensures id in delta.Removable(b.tag) {
      var i := IndexFrom(b.children, id);
      assert b.children[i] in b.children;
    }
  }

  lemma ListNew(parent: Element, a: Element, siblings: seq<Element>, delta: DefinitionDelta)
    requires a.tag in REFERENCE_BOUND_LISTS && MayAppear(parent, a, siblings, delta)
    ensures IndexGrown(Some(map[]), EntryIndex(a, a.tag), delta.Removable(a.tag), delta.Created(a.tag))
  {
    forall id | id in IndexOf(a.children) ensures id in delta.Created(a.tag) {
      var i := IndexFrom(a.children, id);
      assert a.children[i] in a.children;
    }
  }

  // ------------------------------------------------------------ finding the lists again after the edit

  lemma FindIn(es: seq<Element>, tag: string)
    ensures Find(es, tag).Some? ==> Find(es, tag).value in es && Find(es, tag).value.tag == tag
    ensures Find(es, tag).None? <==> CountTag(es, tag) == 0
  {
  }

  lemma {:induction false} FindWithout(es: seq<Element>, drop: set<string>, tag: string)
    requires tag !in drop
    ensures Find(Without(es, drop), tag) == Find(es, tag)
  {
    if es != [] && es[0].tag != tag {
      FindWithout(es[1..], drop, tag);
      if es[0].tag !in drop { assert Without(es, drop)[1..] == Without(es[1..], drop); }
    }
  }

  /** Children that line up by tag have their first child of a tag at the same place. */
  lemma {:induction false} FindPaired(xs: seq<Element>, ys: seq<Element>, tag: string) returns (k: nat)
    requires SameTags(xs, ys)
    ensures Find(xs, tag).None? <==> Find(ys, tag).None?
    ensures Find(xs, tag).Some? ==> k < |xs| && Find(xs, tag) == Some(xs[k]) && Find(ys, tag) == Some(ys[k])
  {
    k := 0;
    if xs != [] {
      assert xs[0].tag == ys[0].tag;
      if xs[0].tag != tag {
        forall i | 0 <= i < |xs| - 1 ensures xs[1..][i].tag == ys[1..][i].tag { assert xs[i + 1].tag == ys[i + 1].tag; }
        k := FindPaired(xs[1..], ys[1..], tag);
        k := k + 1;
      }
    }
  }

  lemma GrownTags(xs: seq<Element>, ys: seq<Element>, allow: Allow, delta: DefinitionDelta)
    requires |xs| == |ys| && PairsGrown(xs, ys, |xs|, allow, delta)
    ensures SameTags(xs, ys)
  {
    forall i | 0 <= i < |xs| ensures xs[i].tag == ys[i].tag { assert Grown(xs[i], ys[i], allow, delta); }
  }

  /** A child that is not a definition list is found again, grown. */
  lemma FindGrown(before: Element, after: Element, allow: Allow, delta: DefinitionDelta, tag: string)
    requires ChildrenGrown(before, after, allow, delta) && tag !in REFERENCE_BOUND_LISTS
    ensures Find(before.children, tag).None? <==> Find(after.children, tag).None?
    ensures Find(before.children, tag).Some? ==>
        Grown(Find(before.children, tag).value, Find(after.children, tag).value, allow, delta)
  {
    var xs, ys := KeptOld(before, after), KeptNew(before, after);
    GrownTags(xs, ys, allow, delta);
    FindWithout(before.children, OnlyIn(before.children, after.children), tag);
    FindWithout(after.children, OnlyIn(after.children, before.children), tag);
    var k := FindPaired(xs, ys, tag);
    assert Find(xs, tag).Some? ==> Grown(xs[k], ys[k], allow, delta);
  }

  /** Each definition list of an accepted MAPPINGTABLE moved its index within the delta. */
  lemma ListIndexGrown(before: Element, after: Element, allow: Allow, delta: DefinitionDelta, listTag: string)
    requires ChildrenGrown(before, after, allow, delta) && listTag in REFERENCE_BOUND_LISTS
    ensures IndexGrown(ListIndex(before.children, listTag), ListIndex(after.children, listTag),
              delta.Removable(listTag),
        delta.Created(listTag))
  {
    var was, now := before.children, after.children;
    var gone, come := OnlyIn(was, now), OnlyIn(now, was);
    var xs, ys := KeptOld(before, after), KeptNew(before, after);
    GrownTags(xs, ys, allow, delta);
    FindIn(was, listTag);
    FindIn(now, listTag);
    CountWithout(was, gone, listTag);
    CountWithout(now, come, listTag);
    CountSameTags(xs, ys, listTag);
    if listTag in gone {
      ListGone(Find(was, listTag).value, delta);
    } else if listTag in come {
      ListNew(before, Find(now, listTag).value, now, delta);
    } else if CountTag(was, listTag) == 1 {
      FindWithout(was, gone, listTag);
      FindWithout(now, come, listTag);
      var k := FindPaired(xs, ys, listTag);
      assert Grown(xs[k], ys[k], allow, delta);
      ListEdited(xs[k], ys[k], delta);
    }
  }

  lemma {:induction false} FindPart(es: seq<Element>)
    ensures Find(Without(es, {BODY_TAG}), HEAD_TAG) == Find(es, HEAD_TAG)
  {
    FindWithout(es, {BODY_TAG}, HEAD_TAG);
  }

  lemma PartTags(xs: seq<Element>, ys: seq<Element>, allow: Allow, delta: DefinitionDelta)
    requires |xs| == |ys| && PartsKept(xs, ys, |xs|, allow, delta)
    ensures SameTags(xs, ys)
  {
    forall i | 0 <= i < |xs| ensures xs[i].tag == ys[i].tag { assert PartKept(xs[i], ys[i], allow, delta); }
  }

  /** HEAD among the parts of an accepted document: absent on both sides, or at one place, grown. */
  lemma HeadPart(xs: seq<Element>, ys: seq<Element>, allow: Allow, delta: DefinitionDelta)
    requires |xs| == |ys| && PartsKept(xs, ys, |xs|, allow, delta)
    ensures Find(xs, HEAD_TAG).None? <==> Find(ys, HEAD_TAG).None?
    ensures Find(xs, HEAD_TAG).Some? ==> ChildrenGrown(Find(xs, HEAD_TAG).value, Find(ys, HEAD_TAG).value, allow, delta)
  {
    PartTags(xs, ys, allow, delta);
    var k := FindPaired(xs, ys, HEAD_TAG);
    FindIn(xs, HEAD_TAG);
    if Find(xs, HEAD_TAG).Some? {
      assert PartKept(xs[k], ys[k], allow, delta);
      PlainGrown(xs[k], ys[k], allow, delta);
    }
  }

  /** The HEAD found before and after an accepted edit, related by growth. */
  lemma HeadsGrown(before: Element, after: Element, allow: Allow, delta: DefinitionDelta)
    requires DocumentGrown(before, after, allow, delta)
    ensures Find(before.children, HEAD_TAG).None? <==> Find(after.children, HEAD_TAG).None?
    ensures Find(before.children, HEAD_TAG).Some? ==>
              ChildrenGrown(Find(before.children, HEAD_TAG).value, Find(after.children, HEAD_TAG).value, allow, delta)
  {
    FindPart(before.children);
    FindPart(after.children);
    HeadPart(Parts(before), Parts(after), allow, delta);
  }

  lemma PlainGrown(b: Element, a: Element, allow: Allow, delta: DefinitionDelta)
    requires Grown(b, a, allow, delta) && b.tag !in REFERENCE_BOUND_LISTS && b.tag !in GROWABLE_HEAD_LISTS
    ensures ChildrenGrown(b, a, allow, delta)
  {
  }

  /** MAPPINGTABLE inside a grown HEAD: still absent, or grown. */
  lemma MappingPart(h: Element, k: Element, allow: Allow, delta: DefinitionDelta)
    requires ChildrenGrown(h, k, allow, delta)
    ensures Find(h.children, MAPPINGTABLE_TAG).None? <==> Find(k.children, MAPPINGTABLE_TAG).None?
    ensures Find(h.children, MAPPINGTABLE_TAG).Some? ==>
              ChildrenGrown(Find(h.children, MAPPINGTABLE_TAG).value, Find(k.children, MAPPINGTABLE_TAG).value,
                  allow, delta)
  {
    FindGrown(h, k, allow, delta, MAPPINGTABLE_TAG);
    FindIn(h.children, MAPPINGTABLE_TAG);
    if Find(h.children, MAPPINGTABLE_TAG).Some? {
      PlainGrown(Find(h.children, MAPPINGTABLE_TAG).value, Find(k.children, MAPPINGTABLE_TAG).value, allow, delta);
    }
  }

  /** The MAPPINGTABLE of an accepted document: still absent, or grown. */
  lemma MappingsGrown(before: Element, after: Element, allow: Allow, delta: DefinitionDelta)
      returns (found: bool, p: Element, q: Element)
    requires DocumentGrown(before, after, allow, delta)
    ensures found ==> ChildrenGrown(p, q, allow, delta)
    ensures found ==> MappingChildren(before) == p.children && MappingChildren(after) == q.children
    ensures !found ==> MappingChildren(before) == [] && MappingChildren(after) == []
  {
    HeadsGrown(before, after, allow, delta);
    found, p, q := false, before, after;
    if Find(before.children, HEAD_TAG).Some? {
      var h, k := Find(before.children, HEAD_TAG).value, Find(after.children, HEAD_TAG).value;
      MappingPart(h, k, allow, delta);
      if Find(h.children, MAPPINGTABLE_TAG).Some? {
        found, p, q := true, Find(h.children, MAPPINGTABLE_TAG).value, Find(k.children, MAPPINGTABLE_TAG).value;
      }
    }
  }

  /** Every definition list of an accepted document moved its index within the delta. */
  lemma AcceptedIndex(before: Element, after: Element, allow: Allow, delta: DefinitionDelta, listTag: string)
    requires DocumentGrown(before, after, allow, delta) && listTag in REFERENCE_BOUND_LISTS
    ensures IndexGrown(BoundIndex(before, listTag), BoundIndex(after, listTag), delta.Removable(listTag),
              delta.Created(listTag))
  {
    var found, p, q := MappingsGrown(before, after, allow, delta);
    if found { ListIndexGrown(p, q, allow, delta, listTag); }
  }

  // ------------------------------------------------------------ section insert

  const DEFAULT_MEMO_SHAPE: map<string, string> :=
    map["ActiveColor" := "13103567", "FillColor" := "15335408", "LineColor" := "11458486", "LineType" := "1",
        "LineWidth" := "1", "MemoType" := "0", "Width" := "15591"]

  predicate IsDefaultMemo(entry: Element) {
    entry.attrib - {ENTRY_ID_ATTR} == DEFAULT_MEMO_SHAPE && entry.children == [] && Strip(entry.text) == ""
  }

  /** _without_id(entry) */
  function WithoutId(entry: Element): string {
    Signature(entry, map[entry.tag := {ENTRY_ID_ATTR}], {})
  }

  /** How one reference of the new SECDEF fared. */
  datatype Binding = Copied | BoundTo(id: string) | Refused

  /** The body of section_insert_definitions for one attribute. */
  function Bind(before: Element, after: Element, split: Element, added: Element, newIndex: nat,
        listTag: string): Binding
    requires listTag in REFERENCE_BOUND_LISTS
  {
    var attr := AttrOf(listTag);
    var was, value := split.Get(attr), added.Get(attr);
    if value == was then Copied
    else if value.None? then Refused
    else
      var beforeIndex, afterIndex := BoundIndex(before, listTag), BoundIndex(after, listTag);
      if beforeIndex.None? || afterIndex.None? then Refused
      else
        var ident := Strip(value.value);
        if ident in beforeIndex.value then Refused
        else if ident !in afterIndex.value then Refused
        else if Referrers(after, listTag, ident) != [SecDefRef(newIndex, attr)] then Refused
        else
          var entry := afterIndex.value[ident];
          if was.None? then
            if attr != MEMO_SHAPE_ID then Refused else if !IsDefaultMemo(entry) then Refused else BoundTo(ident)
          else if Strip(was.value) !in beforeIndex.value then Refused
          else if WithoutId(entry) != WithoutId(beforeIndex.value[Strip(was.value)]) then Refused
          else BoundTo(ident)
  }

  /** The entries bound by a run of bindings, in the order of LISTS. */
  function CreatedFrom(bindings: seq<Binding>): map<string, set<string>>
    requires |bindings| <= |LISTS|
  {
    if bindings == [] then map[]
    else
      var n := |bindings| - 1;
      var created := CreatedFrom(bindings[..n]);
      if bindings[n].BoundTo? then created[LISTS[n] := {bindings[n].id}] else created
  }

  function Bindings(before: Element, after: Element, split: Element, added: Element, newIndex: nat): (r: seq<Binding>)
    ensures |r| == |LISTS|
  {
    [Bind(before, after, split, added, newIndex, LISTS[0]), Bind(before, after, split, added, newIndex, LISTS[1])]
  }

  /** The delta section_insert_definitions returns. */
  function InsertDelta(before: Element, after: Element, split: Element, added: Element,
        newIndex: nat): DefinitionDelta {
    DefinitionDelta(CreatedFrom(Bindings(before, after, split, added, newIndex)), map[])
  }

  lemma CreatedBoth(n: Binding, m: Binding)
    ensures var created := DefinitionDelta(CreatedFrom([n, m]), map[]);
            && created.Created(NUMBERINGLIST) == (if n.BoundTo? then {n.id} else {})
            && created.Created(MEMOSHAPELIST) == (if m.BoundTo? then {m.id} else {})
  {
    assert [n, m][..1] == [n] && [n][..0] == [];
    var none: map<string, set<string>> := map[];
    var one := if n.BoundTo? then none[LISTS[0] := {n.id}] else none;
    assert CreatedFrom([n]) == one;
    assert CreatedFrom([n, m]) == if m.BoundTo? then one[LISTS[1] := {m.id}] else one;
  }

  lemma InsertDeltaAt(before: Element, after: Element, split: Element, added: Element, newIndex: nat, listTag: string)
    requires listTag in REFERENCE_BOUND_LISTS
    ensures var delta, binding := InsertDelta(before, after, split, added, newIndex),
        Bind(before, after, split, added, newIndex, listTag);
            delta.Removable(listTag) == {} && delta.Created(listTag) == if binding.BoundTo? then {binding.id} else {}
  {
    CreatedBoth(Bind(before, after, split, added, newIndex, LISTS[0]),
        Bind(before, after, split, added, newIndex, LISTS[1]));
  }

  /** An Id means the same before and after: undefined in both, or the same definition. */
  ghost predicate SameResolution(before: Element, after: Element, listTag: string, id: string)
    requires listTag in REFERENCE_BOUND_LISTS
  {
    match (Resolve(before, listTag, id), Resolve(after, listTag, id))
    case (None, None) => true
    case (Some(x), Some(y)) => Same(x, y)
    case _ => false
  }

  /** The same definition apart from its Id. */
  ghost predicate EqualUpToId(x: Element, y: Element) {
    x.tag == y.tag && Canon(x, map[x.tag := {ENTRY_ID_ATTR}], {}) == Canon(y, map[x.tag := {ENTRY_ID_ATTR}], {})
  }

  /** The new section's reference means what the split section's one meant (or the default memo shape). */
  ghost predicate MeansTheSame(before: Element, after: Element, split: Element, added: Element, listTag: string)
    requires listTag in REFERENCE_BOUND_LISTS
  {
    var was, value := split.Get(AttrOf(listTag)), added.Get(AttrOf(listTag));
    if value == was then value.Some? ==> SameResolution(before, after, listTag, Strip(value.value))
    else
      && value.Some? && Resolve(after, listTag, Strip(value.value)).Some?
      && var entry := Resolve(after, listTag, Strip(value.value)).value;
         if was.None? then listTag == MEMOSHAPELIST && IsDefaultMemo(entry)
         else
           var original := Resolve(before, listTag, Strip(was.value));
           original.Some? && EqualUpToId(original.value, entry)
  }

  lemma IndexNamed(es: seq<Element>, id: string)
    requires (forall e :: e in es ==> Named(e)) && id in IndexOf(es)
    ensures IndexOf(es)[id] in es
  {
  }

  lemma FindNamed(e: Element, tag: string)
    requires Named(e)
    ensures Find(e.children, tag).Some? ==> Named(Find(e.children, tag).value)
  {
    FindIn(e.children, tag);
  }

  lemma MappingNamed(root: Element)
    requires Named(root)
    ensures forall e :: e in MappingChildren(root) ==> Named(e)
  {
    FindNamed(root, HEAD_TAG);
    if Find(root.children, HEAD_TAG).Some? { FindNamed(Find(root.children, HEAD_TAG).value, MAPPINGTABLE_TAG); }
  }

  /** Resolved entries are named and carry their list's entry tag. */
  lemma ResolvedEntry(root: Element, listTag: string, id: string)
    requires Named(root) && listTag in REFERENCE_BOUND_LISTS && Resolve(root, listTag, id).Some?
    ensures Named(Resolve(root, listTag, id).value)
            && Resolve(root, listTag, id).value.tag == REFERENCE_BOUND_LISTS[listTag]
  {
    MappingNamed(root);
    FindIn(MappingChildren(root), listTag);
    var found := Find(MappingChildren(root), listTag).value;
    IndexNamed(found.children, id);
  }

  lemma EqualWithoutId(x: Element, y: Element)
    requires Named(x) && Named(y) && x.tag == y.tag
    ensures WithoutId(x) == WithoutId(y) <==> EqualUpToId(x, y)
  {
    SignatureFaithful(x, y, map[x.tag := {ENTRY_ID_ATTR}], {});
  }

  /** Outside what was created, nothing that an Id means changed when nothing could be removed. */
  lemma UnmovedIds(before: Element, after: Element, listTag: string, created: set<string>)
    requires listTag in REFERENCE_BOUND_LISTS
            && IndexGrown(BoundIndex(before, listTag), BoundIndex(after, listTag), {}, created)
    ensures forall id :: id !in created ==> SameResolution(before, after, listTag, id)
    ensures forall id :: Resolve(after, listTag, id).Some? && Resolve(before, listTag, id).None? ==> id in created
  {
  }

  lemma ResolveIn(root: Element, listTag: string, id: string)
    requires listTag in REFERENCE_BOUND_LISTS && BoundIndex(root, listTag).Some?
            && id in BoundIndex(root, listTag).value
    ensures Resolve(root, listTag, id) == Some(BoundIndex(root, listTag).value[id])
  {
  }

  /** What a binding established. */
  lemma BoundParts(before: Element, after: Element, split: Element, added: Element, newIndex: nat, listTag: string)
    requires listTag in REFERENCE_BOUND_LISTS && Bind(before, after, split, added, newIndex, listTag).BoundTo?
    ensures var was, value := split.Get(AttrOf(listTag)), added.Get(AttrOf(listTag));
            && value != was && value.Some? && Resolve(after, listTag, Strip(value.value)).Some?
            && (was.None? ==>
                  && listTag == MEMOSHAPELIST
                  && IsDefaultMemo(Resolve(after, listTag, Strip(value.value)).value))
            && (was.Some? ==>
                  && Resolve(before, listTag, Strip(was.value)).Some?
                  && WithoutId(Resolve(before, listTag, Strip(was.value)).value)
                     == WithoutId(Resolve(after, listTag, Strip(value.value)).value))
  {
    var was, value := split.Get(AttrOf(listTag)), added.Get(AttrOf(listTag));
    ResolveIn(after, listTag, Strip(value.value));
    if was.Some? { ResolveIn(before, listTag, Strip(was.value)); }
  }

  /** The entry a new reference was bound to means what the split section's entry means. */
  lemma BoundMeans(before: Element, after: Element, split: Element, added: Element, newIndex: nat, listTag: string)
    requires Named(before) && Named(after) && listTag in REFERENCE_BOUND_LISTS
    requires Bind(before, after, split, added, newIndex, listTag).BoundTo?
    ensures MeansTheSame(before, after, split, added, listTag)
  {
    var was, value := split.Get(AttrOf(listTag)), added.Get(AttrOf(listTag));
    BoundParts(before, after, split, added, newIndex, listTag);
    if was.Some? {
      ResolvedEntry(before, listTag, Strip(was.value));
      ResolvedEntry(after, listTag, Strip(value.value));
      EqualWithoutId(Resolve(before, listTag, Strip(was.value)).value,
          Resolve(after, listTag, Strip(value.value)).value);
    }
  }

  lemma ReferenceMeans(before: Element, after: Element, split: Element, added: Element, newIndex: nat, allow: Allow,
      listTag: string)
    requires Named(before) && Named(after) && listTag in REFERENCE_BOUND_LISTS
    requires !Bind(before, after, split, added, newIndex, listTag).Refused?
    requires DocumentGrown(before, after, allow, InsertDelta(before, after, split, added, newIndex))
    ensures MeansTheSame(before, after, split, added, listTag)
    ensures forall id :: Resolve(after, listTag, id).Some? && Resolve(before, listTag, id).None? ==>
              Referrers(after, listTag, id) == [SecDefRef(newIndex, AttrOf(listTag))]
    ensures forall id :: Bind(before, after, split, added, newIndex, listTag) != BoundTo(id) ==>
        SameResolution(before, after, listTag, id)
  {
    hide Bind, SameResolution, MeansTheSame, DocumentGrown, InsertDelta, IndexGrown, Named;
    var binding := Bind(before, after, split, added, newIndex, listTag);
    InsertDeltaAt(before, after, split, added, newIndex, listTag);
    AcceptedIndex(before, after, allow, InsertDelta(before, after, split, added, newIndex), listTag);
    UnmovedIds(before, after, listTag, if binding.BoundTo? then {binding.id} else {});
    if binding.BoundTo? {
      BoundMeans(before, after, split, added, newIndex, listTag);
      BoundAlone(before, after, split, added, newIndex, listTag);
    } else {
      CopiedMeans(before, after, split, added, newIndex, listTag);
    }
  }

  /** A bound entry is referenced by the new SECDEF and nothing else. */
  lemma BoundAlone(before: Element, after: Element, split: Element, added: Element, newIndex: nat, listTag: string)
    requires listTag in REFERENCE_BOUND_LISTS && Bind(before, after, split, added, newIndex, listTag).BoundTo?
    ensures Referrers(after, listTag,
        Bind(before, after, split, added, newIndex, listTag).id) == [SecDefRef(newIndex, AttrOf(listTag))]
  {
    hide Referrers;
  }

  /** A copied reference means the same when every Id does. */
  lemma CopiedMeans(before: Element, after: Element, split: Element, added: Element, newIndex: nat, listTag: string)
    requires listTag in REFERENCE_BOUND_LISTS && Bind(before, after, split, added, newIndex, listTag).Copied?
    requires forall id :: SameResolution(before, after, listTag, id)
    ensures MeansTheSame(before, after, split, added, listTag)
  {
    hide SameResolution, Resolve, Referrers;
  }

  /** An Id someone else refers to was not bound to the new section. */
  lemma SharedNotBound(before: Element, after: Element, split: Element, added: Element, newIndex: nat, listTag: string,
      id: string, who: Referrer)
    requires listTag in REFERENCE_BOUND_LISTS && who in Referrers(after, listTag, id)
            && who != SecDefRef(newIndex, AttrOf(listTag))
    ensures Bind(before, after, split, added, newIndex, listTag) != BoundTo(id)
  {
    hide Referrers;
    if Bind(before, after, split, added, newIndex,
        listTag).BoundTo? { BoundAlone(before, after, split, added, newIndex, listTag); }
  }

  /** An accepted section insert preserves meaning, for the new section and for everything else that refers to a
      definition. */
  lemma {:induction false} InsertPreservesMeaning(before: Element, after: Element, split: Element, added: Element,
      newIndex: nat, allow: Allow)
    requires Named(before) && Named(after)
    requires forall tag :: tag in REFERENCE_BOUND_LISTS ==> !Bind(before, after, split, added, newIndex, tag).Refused?
    requires DocumentGrown(before, after, allow, InsertDelta(before, after, split, added, newIndex))
    ensures forall tag :: tag in REFERENCE_BOUND_LISTS ==> MeansTheSame(before, after, split, added, tag)
    ensures forall tag, id | tag in REFERENCE_BOUND_LISTS ::
              Resolve(after, tag, id).Some? && Resolve(before, tag, id).None? ==>
                Referrers(after, tag, id) == [SecDefRef(newIndex, AttrOf(tag))]
    ensures forall r | r in DocumentRefs(after) && r.listTag in REFERENCE_BOUND_LISTS ::
              r.who == SecDefRef(newIndex, AttrOf(r.listTag)) || SameResolution(before, after, r.listTag, r.id)
  {
    hide Bind, SameResolution, MeansTheSame, DocumentGrown, InsertDelta, Resolve, Referrers, Named, DocumentRefs;
    forall tag | tag in REFERENCE_BOUND_LISTS ensures MeansTheSame(before, after, split, added, tag) {
      ReferenceMeans(before, after, split, added, newIndex, allow, tag);
    }
    forall tag, id | tag in REFERENCE_BOUND_LISTS && Resolve(after, tag, id).Some? && Resolve(before, tag, id).None?
      ensures Referrers(after, tag, id) == [SecDefRef(newIndex, AttrOf(tag))]
    {
      ReferenceMeans(before, after, split, added, newIndex, allow, tag);
    }
    forall r | r in DocumentRefs(after) && r.listTag in REFERENCE_BOUND_LISTS
        && r.who != SecDefRef(newIndex, AttrOf(r.listTag))
      ensures SameResolution(before, after, r.listTag, r.id)
    {
      ReferenceMeans(before, after, split, added, newIndex, allow, r.listTag);
      ReferrerListed(after, r);
      SharedNotBound(before, after, split, added, newIndex, r.listTag, r.id, r.who);
    }
  }

  lemma ReferrerListed(root: Element, r: Ref)
    requires r in DocumentRefs(root)
    ensures r.who in Referrers(root, r.listTag, r.id)
  {
    hide RefsFrom;
    WhoFinds(DocumentRefs(root), r.listTag, r.id, r.who);
  }

  /** The attributes of the new SECDEF that were bound to created entries. */
  function BoundAttrs(bindings: seq<Binding>): set<string>
    requires |bindings| <= |LISTS|
  {
    set i | 0 <= i < |bindings| && bindings[i].BoundTo? :: AttrOf(LISTS[i])
  }

  function BoundRefs(before: Element, after: Element, split: Element, added: Element, newIndex: nat): set<string> {
    BoundAttrs(Bindings(before, after, split, added, newIndex))
  }

  /** What the loop holds after the bindings done so far. */
  ghost predicate Collected(done: seq<Binding>, created: map<string, set<string>>, refused: seq<string>,
        bound: set<string>) {
    && |done| <= |LISTS| && created == CreatedFrom(done) && bound == BoundAttrs(done)
    && (refused == [] <==> Refused !in done)
  }

  lemma CollectedMore(done: seq<Binding>, binding: Binding, created: map<string, set<string>>, refused: seq<string>,
      bound: set<string>)
    requires |done| < |LISTS| && Collected(done, created, refused, bound)
    ensures var tag := LISTS[|done|];
            Collected(done + [binding], if binding.BoundTo? then created[tag := {binding.id}] else created,
                      if binding.Refused? then refused + [AttrOf(tag)] else refused,
                      if binding.BoundTo? then bound + {AttrOf(tag)} else bound)
  {
    var more, tag := done + [binding], LISTS[|done|];
    assert more[..|done|] == done;
    var now := if binding.BoundTo? then bound + {AttrOf(tag)} else bound;
    assert BoundAttrs(more) == now by {
      forall a ensures a in BoundAttrs(more) <==> a in now {
        if a in bound {
          var i :| 0 <= i < |done| && done[i].BoundTo? && AttrOf(LISTS[i]) == a;
          assert more[i] == done[i];
        }
        assert more[|done|] == binding;
      }
    }
    assert binding in more && forall b :: b in done ==> b in more;
  }

  /** section_insert_definitions: binds each reference, collecting the delta, the refusals and the attributes bound. */
  method SectionInsertDefinitions(before: Element, after: Element, split: Element, added: Element, newIndex: nat)
    returns (delta: DefinitionDelta, refused: seq<string>, bound: set<string>)
    ensures delta == InsertDelta(before, after, split, added, newIndex)
    ensures refused == [] <==> forall tag :: tag in REFERENCE_BOUND_LISTS ==>
        !Bind(before, after, split, added, newIndex, tag).Refused?
    ensures bound == BoundRefs(before, after, split, added, newIndex)
  {
    hide Bind, Collected;
    var created: map<string, set<string>> := map[];
    refused, bound := [], {};
    ghost var goal := Bindings(before, after, split, added, newIndex);
    CollectedNone();
    for i := 0 to |LISTS|
      invariant Collected(goal[..i], created, refused, bound)
    {
      var binding := Bind(before, after, split, added, newIndex, LISTS[i]);
      CollectedMore(goal[..i], binding, created, refused, bound);
      assert goal[..i + 1] == goal[..i] + [binding];
      if binding.Refused? { refused := refused + [AttrOf(LISTS[i])]; }
      if binding.BoundTo? { created, bound := created[LISTS[i] := {binding.id}], bound + {AttrOf(LISTS[i])}; }
    }
    assert goal[..|LISTS|] == goal;
    CollectedAll(before, after, split, added, newIndex, created, refused, bound);
    delta := DefinitionDelta(created, map[]);
  }

  lemma CollectedNone()
    ensures Collected([], map[], [], {})
  {
  }

  lemma CollectedAll(before: Element, after: Element, split: Element, added: Element, newIndex: nat,
                     created: map<string, set<string>>, refused: seq<string>, bound: set<string>)
    requires Collected(Bindings(before, after, split, added, newIndex), created, refused, bound)
    ensures DefinitionDelta(created, map[]) == InsertDelta(before, after, split, added, newIndex)
    ensures bound == BoundRefs(before, after, split, added, newIndex)
    ensures refused == [] <==> forall tag :: tag in REFERENCE_BOUND_LISTS ==>
        !Bind(before, after, split, added, newIndex, tag).Refused?
  {
    hide Bind;
    var bs := Bindings(before, after, split, added, newIndex);
    assert bs[0] == Bind(before, after, split, added, newIndex, NUMBERINGLIST)
        && bs[1] == Bind(before, after, split, added, newIndex, MEMOSHAPELIST);
    assert bs[0] in bs && bs[1] in bs;
  }

  /** A reference is bound exactly when its binding is to a created entry. */
  lemma BoundRefsAre(before: Element, after: Element, split: Element, added: Element, newIndex: nat, listTag: string)
    requires listTag in REFERENCE_BOUND_LISTS
    ensures AttrOf(listTag) in BoundRefs(before, after, split, added, newIndex)
            <==> Bind(before, after, split, added, newIndex, listTag).BoundTo?
    ensures BoundRefs(before, after, split, added, newIndex) <= {OUTLINE_SHAPE, MEMO_SHAPE_ID}
  {
    hide Bind;
    var bs := Bindings(before, after, split, added, newIndex);
    assert AttrOf(LISTS[0]) == OUTLINE_SHAPE && AttrOf(LISTS[1]) == MEMO_SHAPE_ID;
    assert bs[0] == Bind(before, after, split, added, newIndex, NUMBERINGLIST)
        && bs[1] == Bind(before, after, split, added, newIndex, MEMOSHAPELIST);
  }

  // ------------------------------------------------------------ bound references name Ids

  lemma {:induction false} TrimLeftIdLike(v: string)
    requires IdLike(TrimLeft(v))
    ensures IdLike(v)
  {
    if v != [] && IsSpace(v[0]) {
      TrimLeftIdLike(v[1..]);
      assert forall i :: 1 <= i < |v| ==> v[i] == v[1..][i - 1];
    }
  }

  lemma {:induction false} TrimRightIdLike(v: string)
    requires IdLike(TrimRight(v))
    ensures IdLike(v)
  {
    if v != [] && IsSpace(v[|v| - 1]) {
      TrimRightIdLike(v[..|v| - 1]);
      assert forall i :: 0 <= i < |v| - 1 ==> v[i] == v[..|v| - 1][i];
    }
  }

  /** A value that strips to digits holds digits and whitespace only. */
  lemma StripIdLike(v: string)
    requires Digits(Strip(v))
    ensures IdLike(v)
  {
    TrimRightIdLike(TrimLeft(v));
    TrimLeftIdLike(v);
  }

  lemma {:induction false} IndexDigits(es: seq<Element>, id: string)
    requires (forall i :: 0 <= i < |es| ==> Digits(EntryId(es[i]))) && id in IndexOf(es)
    ensures Digits(id)
  {
    if id != EntryId(es[|es| - 1]) { IndexDigits(es[..|es| - 1], id); }
  }

  /** Only numeric Ids are defined. */
  lemma DefinedDigits(root: Element, listTag: string, id: string)
    requires listTag in REFERENCE_BOUND_LISTS && Resolve(root, listTag, id).Some?
    ensures Digits(id)
  {
    var lists := MappingChildren(root);
    var found := Find(lists, listTag);
    if found.Some? { IndexDigits(found.value.children, id); }
  }

  /** Where a reference was bound, both definitions hold Ids. */
  lemma BoundNamesIds(before: Element, after: Element, split: Element, added: Element, newIndex: nat)
    ensures var bound := BoundRefs(before, after, split, added, newIndex);
            bound <= REFERENCE_ATTRS && NamesIds(split, bound) && NamesIds(added, bound)
  {
    var bound := BoundRefs(before, after, split, added, newIndex);
    hide Bind, BoundRefs, IdLike;
    forall listTag | listTag in REFERENCE_BOUND_LISTS && AttrOf(listTag) in bound
      ensures AttrOf(listTag) in split.attrib ==> IdLike(split.attrib[AttrOf(listTag)])
      ensures AttrOf(listTag) in added.attrib ==> IdLike(added.attrib[AttrOf(listTag)])
    {
      BoundRefsAre(before, after, split, added, newIndex, listTag);
      BoundParts(before, after, split, added, newIndex, listTag);
      DefinedDigits(after, listTag, Strip(added.attrib[AttrOf(listTag)]));
      StripIdLike(added.attrib[AttrOf(listTag)]);
      if AttrOf(listTag) in split.attrib {
        DefinedDigits(before, listTag, Strip(split.attrib[AttrOf(listTag)]));
        StripIdLike(split.attrib[AttrOf(listTag)]);
      }
    }
    BoundRefsAre(before, after, split, added, newIndex, NUMBERINGLIST);
    assert AttrOf(NUMBERINGLIST) == OUTLINE_SHAPE && AttrOf(MEMOSHAPELIST) == MEMO_SHAPE_ID;
  }

  // ------------------------------------------------------------ section delete

  /** The Id section_delete_definitions frees in one list, if any. */
  function Freed(before: Element, after: Element, removed: Element, removedIndex: nat,
        listTag: string): Option<string> {
    var attr := AttrOf(listTag);
    if attr !in removed.attrib || (listTag == MEMOSHAPELIST && (MemoProblems(before) || MemoProblems(after))) then None
    else
      var ident := Strip(removed.attrib[attr]);
      if Referrers(before, listTag, ident) == [SecDefRef(removedIndex, attr)] && Referrers(after, listTag, ident) == []
          then Some(ident) else None
  }

  function DeleteDelta(before: Element, after: Element, removed: Element, removedIndex: nat): DefinitionDelta {
    var numbering, memo := Freed(before, after, removed, removedIndex, NUMBERINGLIST),
        Freed(before, after, removed, removedIndex, MEMOSHAPELIST);
    var n: map<string, set<string>> := if numbering.Some? then map[NUMBERINGLIST := {numbering.value}] else map[];
    var m: map<string, set<string>> := if memo.Some? then map[MEMOSHAPELIST := {memo.value}] else map[];
    DefinitionDelta(map[], n + m)
  }

  lemma DeleteDeltaAt(before: Element, after: Element, removed: Element, removedIndex: nat, listTag: string)
    requires listTag in REFERENCE_BOUND_LISTS
    ensures var delta, freed := DeleteDelta(before, after, removed, removedIndex),
        Freed(before, after, removed, removedIndex, listTag);
            delta.Created(listTag) == {} && delta.Removable(listTag) == if freed.Some? then {freed.value} else {}
  {
  }

  /** The memo shape a memo field of the document asks for, whether or not it can still be read. */
  ghost predicate AsksForMemoShape(e: Element, id: string) {
    IsMemoField(e) && "Command" in e.attrib && MemoValue(e.attrib["Command"]) == Some(id) && id != MEMO_SHAPE_NONE
  }

  /** Still defined, and the same definition. */
  ghost predicate StillDefined(before: Element, after: Element, listTag: string, id: string)
    requires listTag in REFERENCE_BOUND_LISTS
  {
    Resolve(before, listTag, id).Some? ==>
      Resolve(after, listTag, id).Some? && Same(Resolve(before, listTag, id).value, Resolve(after, listTag, id).value)
  }

  lemma DeleteMovesIndex(before: Element, after: Element, removed: Element, removedIndex: nat, allow: Allow,
        listTag: string)
    requires DocumentGrown(before, after, allow, DeleteDelta(before, after, removed, removedIndex))
        && listTag in REFERENCE_BOUND_LISTS
    ensures forall id :: Freed(before, after, removed, removedIndex, listTag) != Some(id) ==>
        StillDefined(before, after, listTag, id)
    ensures forall id :: Resolve(before, listTag, id).None? ==> Resolve(after, listTag, id).None?
  {
    DeleteDeltaAt(before, after, removed, removedIndex, listTag);
    AcceptedIndex(before, after, allow, DeleteDelta(before, after, removed, removedIndex), listTag);
  }

  /** A dropped shape leaves no memo field behind that asks for it, even one that becomes unreadable by the drop. */
  lemma MemoFieldsKept(before: Element, after: Element, removed: Element, removedIndex: nat, allow: Allow,
        e: Element, id: string)
    requires DocumentGrown(before, after, allow, DeleteDelta(before, after, removed, removedIndex))
    requires e in Iter(after) && AsksForMemoShape(e, id)
    ensures StillDefined(before, after, MEMOSHAPELIST, id)
  {
    DeleteMovesIndex(before, after, removed, removedIndex, allow, MEMOSHAPELIST);
    AcceptedIndex(before, after, allow, DeleteDelta(before, after, removed, removedIndex), MEMOSHAPELIST);
    if Freed(before, after, removed, removedIndex, MEMOSHAPELIST) == Some(id) {
      assert !ReadMemo(e, MemoIds(after)).Unreadable?;
      AcceptedKnown(before, after, id);
    }
  }

  lemma AcceptedKnown(before: Element, after: Element, id: string)
    requires IndexGrown(BoundIndex(before, MEMOSHAPELIST), BoundIndex(after, MEMOSHAPELIST), {id}, {})
          || IndexGrown(BoundIndex(before, MEMOSHAPELIST), BoundIndex(after, MEMOSHAPELIST), {}, {})
    ensures MemoIds(after).Some? && id in MemoIds(after).value ==> StillDefined(before, after, MEMOSHAPELIST, id)
  {
  }

  lemma NamedKept(before: Element, after: Element, removed: Element, removedIndex: nat, allow: Allow,
        tag: string, id: string)
    requires DocumentGrown(before, after, allow, DeleteDelta(before, after, removed, removedIndex))
            && tag in REFERENCE_BOUND_LISTS
    requires AnyNames(Iter(after), tag, id, MemoIds(after))
    ensures StillDefined(before, after, tag, id)
  {
    DeleteMovesIndex(before, after, removed, removedIndex, allow, tag);
    ReferencedMeansNamed(after, tag, id);
  }

  lemma DroppedWasAlone(before: Element, after: Element, removed: Element, removedIndex: nat, allow: Allow,
        tag: string, id: string)
    requires DocumentGrown(before, after, allow, DeleteDelta(before, after, removed, removedIndex))
            && tag in REFERENCE_BOUND_LISTS
    requires !StillDefined(before, after, tag, id)
    ensures Referrers(before, tag, id) == [SecDefRef(removedIndex, AttrOf(tag))]
  {
    DeleteMovesIndex(before, after, removed, removedIndex, allow, tag);
  }

  /** Reference integrity: after an accepted section delete everything still asked for is still the same definition,
      and what went was referenced by the removed section alone. */
  lemma DeleteKeepsReferenced(before: Element, after: Element, removed: Element, removedIndex: nat, allow: Allow)
    requires DocumentGrown(before, after, allow, DeleteDelta(before, after, removed, removedIndex))
    ensures forall tag, id :: tag in REFERENCE_BOUND_LISTS && AnyNames(Iter(after), tag, id, MemoIds(after)) ==>
        StillDefined(before, after, tag, id)
    ensures forall e, id :: e in Iter(after) && AsksForMemoShape(e, id) ==>
              StillDefined(before, after, MEMOSHAPELIST, id)
    ensures forall tag, id :: tag in REFERENCE_BOUND_LISTS && !StillDefined(before, after, tag, id) ==>
              Referrers(before, tag, id) == [SecDefRef(removedIndex, AttrOf(tag))]
    ensures forall tag, id :: tag in REFERENCE_BOUND_LISTS && Resolve(before, tag, id).None? ==>
              Resolve(after, tag, id).None?
  {
    forall tag, id | tag in REFERENCE_BOUND_LISTS && AnyNames(Iter(after), tag, id, MemoIds(after))
        ensures StillDefined(before, after, tag, id) {
      NamedKept(before, after, removed, removedIndex, allow, tag, id);
    }
    forall e, id | e in Iter(after) && AsksForMemoShape(e, id) ensures StillDefined(before, after, MEMOSHAPELIST, id) {
      MemoFieldsKept(before, after, removed, removedIndex, allow, e, id);
    }
    forall tag, id | tag in REFERENCE_BOUND_LISTS && !StillDefined(before, after, tag, id)
      ensures Referrers(before, tag, id) == [SecDefRef(removedIndex, AttrOf(tag))]
    {
      DroppedWasAlone(before, after, removed, removedIndex, allow, tag, id);
    }
    forall tag, id | tag in REFERENCE_BOUND_LISTS && Resolve(before, tag, id).None?
        ensures Resolve(after, tag, id).None? {
      DeleteMovesIndex(before, after, removed, removedIndex, allow, tag);
    }
  }
}
