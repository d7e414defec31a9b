/** Who refers to a NUMBERINGLIST or MEMOSHAPELIST entry, and what a reference resolves to. */
module References {
  import opened Text
  import opened Hwpml
  import opened BoundLists
  import opened HeadGrowth

  const NUMBERINGLIST := "NUMBERINGLIST"
  const MEMOSHAPELIST := "MEMOSHAPELIST"
  const MEMO_SHAPE_NONE := "65535"

  // ------------------------------------------------------------ document order

  /** root.iter() */
  function Iter(e: Element): seq<Element> {
    [e] + IterAll(e.children)
  }

  function IterAll(es: seq<Element>): seq<Element> {
    if es == [] then [] else Iter(es[0]) + IterAll(es[1..])
  }

  /** element.find(tag): the first child with that tag. */
  function Find(es: seq<Element>, tag: string): Option<Element> {
    if es == [] then None else if es[0].tag == tag then Some(es[0]) else Find(es[1..], tag)
  }

  // ------------------------------------------------------------ resolution

  function IndexOf(es: seq<Element>): map<string, Element> {
    if es == [] then map[] else IndexOf(es[..|es| - 1])[EntryId(es[|es| - 1]) := es[|es| - 1]]
  }

  /** The children of HEAD's MAPPINGTABLE; empty when the document has none. */
  function MappingChildren(root: Element): seq<Element> {
    match Find(root.children, HEAD_TAG)
    case None => []
    case Some(head) =>
      match Find(head.children, MAPPINGTABLE_TAG)
      case None => []
      case Some(mapping) => mapping.children
  }

  /** _bound_index over the definition lists: Id -> entry, or None when the list is not exact. */
  function ListIndex(lists: seq<Element>, listTag: string): Option<map<string, Element>>
    requires listTag in REFERENCE_BOUND_LISTS
  {
    if CountTag(lists, listTag) > 1 then None
    else
      match Find(lists, listTag)
      case None => Some(map[])
      case Some(found) => if WellFormed(found, REFERENCE_BOUND_LISTS[listTag])
          then Some(IndexOf(found.children)) else None
  }

  function BoundIndex(root: Element, listTag: string): Option<map<string, Element>>
    requires listTag in REFERENCE_BOUND_LISTS
  {
    ListIndex(MappingChildren(root), listTag)
  }

  /** The definition an Id names in a document, if any. */
  function Resolve(root: Element, listTag: string, id: string): Option<Element>
    requires listTag in REFERENCE_BOUND_LISTS
  {
    match BoundIndex(root, listTag)
    case None => None
    case Some(index) => if id in index then Some(index[id]) else None
  }

  // ------------------------------------------------------------ memo fields

  function LowerChar(c: char): char {
    if 'A' <= c <= 'Z' then (c as int + 32) as char else c
  }

  function Lower(s: string): string {
    seq(|s|, i requires 0 <= i < |s| => LowerChar(s[i]))
  }

  predicate StartsWith(s: string, prefix: string) {
    |prefix| <= |s| && s[..|prefix|] == prefix
  }

  predicate Contains(s: string, part: string) {
    StartsWith(s, part) || (s != [] && Contains(s[1..], part))
  }

  function DigitRun(s: string): (r: string)
    ensures forall i :: 0 <= i < |r| ==> IsDigit(r[i])
    ensures |r| <= |s| && r == s[..|r|]
  {
    if s != [] && IsDigit(s[0]) then [s[0]] + DigitRun(s[1..]) else []
  }

  /** The memo shape value of MEMO/<digits>/... */
  function MemoValue(command: string): (r: Option<string>)
    ensures r.Some? ==> Digits(r.value)
  {
    if !StartsWith(command, "MEMO/") then None
    else
      var rest := command[5..];
      var run := DigitRun(rest);
      if run != [] && |run| < |rest| && rest[|run|] == '/' then Some(run) else None
  }

  predicate IsMemoField(e: Element) {
    e.tag == "FIELDBEGIN"
    && ((e.Get("Type").Some? && Lower(e.attrib["Type"]) == "memo")
        || (e.Get("Command").Some? && StartsWith(e.attrib["Command"], "MEMO/")))
  }

  datatype MemoReference = NamesShape(id: string) | NamesNone | Unreadable

  /** _memo_field_reference, given the Ids of the memo shape list. */
  function ReadMemo(e: Element, memoIds: Option<set<string>>): MemoReference {
    if e.Get("Type") != Some("Memo") || e.Get("Command").None? then Unreadable
    else
      match MemoValue(e.attrib["Command"])
      case None => Unreadable
      case Some(value) =>
        if value == MEMO_SHAPE_NONE then NamesNone
        else if memoIds.Some? && value in memoIds.value then NamesShape(value)
        else Unreadable
  }

  function MemoIds(root: Element): Option<set<string>> {
    match BoundIndex(root, MEMOSHAPELIST)
    case None => None
    case Some(index) => Some(index.Keys)
  }

  /** memo_field_problems(root) is not empty. */
  predicate MemoProblems(root: Element) {
    exists e :: e in Iter(root) && IsMemoField(e) && ReadMemo(e, MemoIds(root)).Unreadable?
  }

  // ------------------------------------------------------------ references

  datatype Referrer =
    | SecDefRef(index: nat, attr: string)
    | ParaShapeRef(id: Option<string>)
    | MemoFieldRef(index: nat)
    | AttrRef(tag: string, attr: string)

  datatype Ref = Ref(listTag: string, id: string, who: Referrer)

  function AttrRefs(e: Element, listTag: string, attr: string, who: Referrer): seq<Ref> {
    if attr in e.attrib then [Ref(listTag, Strip(e.attrib[attr]), who)] else []
  }

  predicate NumberedHeading(e: Element) {
    var heading := Lower(e.Stripped("HeadingType"));
    heading != "none" && heading != "bullet" && heading != "0" && heading != "3"
  }

  predicate MemoShapeAttr(attr: string) {
    Contains(Lower(attr), "memoshape")
  }

  function MemoShapeRefs(e: Element, keys: seq<string>): seq<Ref> {
    if keys == [] then []
    else
      var here := if MemoShapeAttr(keys[0]) then AttrRefs(e, MEMOSHAPELIST, keys[0], AttrRef(e.tag, keys[0])) else [];
      here + MemoShapeRefs(e, keys[1..])
  }

  function MemoRefs(e: Element, index: nat, memoIds: Option<set<string>>): seq<Ref> {
    if IsMemoField(e) && ReadMemo(e, memoIds).NamesShape?
        then [Ref(MEMOSHAPELIST, Strip(ReadMemo(e, memoIds).id), MemoFieldRef(index))] else []
  }

  /** What one element refers to, given how many SECDEFs and memo fields came before it. */
  function ElementRefs(e: Element, secdefs: nat, memos: nat, memoIds: Option<set<string>>): seq<Ref> {
    MemoRefs(e, memos, memoIds)
    + if e.tag == "SECDEF" then
        AttrRefs(e, NUMBERINGLIST, OUTLINE_SHAPE, SecDefRef(secdefs, OUTLINE_SHAPE))
        + AttrRefs(e, MEMOSHAPELIST, MEMO_SHAPE_ID, SecDefRef(secdefs, MEMO_SHAPE_ID))
      else
        (if e.tag == "PARASHAPE" && NumberedHeading(e)
         then AttrRefs(e, NUMBERINGLIST, "Heading", ParaShapeRef(e.Get(ENTRY_ID_ATTR))) else [])
        + MemoShapeRefs(e, SortedKeys(e.attrib.Keys))
  }

  function RefsFrom(es: seq<Element>, secdefs: nat, memos: nat, memoIds: Option<set<string>>): seq<Ref> {
    if es == [] then []
    else ElementRefs(es[0], secdefs, memos, memoIds)
         + RefsFrom(es[1..], secdefs + (if es[0].tag == "SECDEF" then 1 else 0), memos
             + (if IsMemoField(es[0]) then 1 else 0), memoIds)
  }

  /** Every readable reference of a document, in document order. */
  function DocumentRefs(root: Element): seq<Ref> {
    RefsFrom(Iter(root), 0, 0, MemoIds(root))
  }

  /** The referrers of one entry, in document order. */
  function Who(refs: seq<Ref>, listTag: string, id: string): seq<Referrer> {
    if refs == [] then []
    else
      var last := refs[|refs| - 1];
      Who(refs[..|refs| - 1], listTag, id) + if last.listTag == listTag && last.id == id then [last.who] else []
  }

  function Referrers(root: Element, listTag: string, id: string): seq<Referrer> {
    Who(DocumentRefs(root), listTag, id)
  }

  lemma {:induction false} WhoConcat(p: seq<Ref>, q: seq<Ref>, listTag: string, id: string)
    ensures Who(p + q, listTag, id) == Who(p, listTag, id) + Who(q, listTag, id)
  {
    if q == [] {
      assert p + q == p;
    } else {
      assert (p + q)[..|p + q| - 1] == p + q[..|q| - 1];
      WhoConcat(p, q[..|q| - 1], listTag, id);
    }
  }

  lemma {:induction false} WhoFinds(refs: seq<Ref>, listTag: string, id: string, who: Referrer)
    ensures who in Who(refs, listTag, id) <==> Ref(listTag, id, who) in refs
  {
    if refs != [] {
      var p, last := refs[..|refs| - 1], refs[|refs| - 1];
      WhoFinds(p, listTag, id, who);
      assert refs == p + [last];
    }
  }

  // ------------------------------------------------------------ the loop of definition_references

  type RefTable = map<string, seq<Referrer>>

  function Get(table: RefTable, id: string): seq<Referrer> {
    if id in table then table[id] else []
  }

  ghost predicate Tabulates(table: RefTable, refs: seq<Ref>, listTag: string) {
    forall id :: Get(table, id) == Who(refs, listTag, id)
  }

  function Add(table: RefTable, ref: Ref): RefTable {
    table[ref.id := Get(table, ref.id) + [ref.who]]
  }

  ghost predicate BothTabulate(numbering: RefTable, memo: RefTable, refs: seq<Ref>) {
    Tabulates(numbering, refs, NUMBERINGLIST) && Tabulates(memo, refs, MEMOSHAPELIST)
  }

  lemma WhoSnoc(refs: seq<Ref>, ref: Ref, listTag: string, id: string)
    ensures Who(refs + [ref], listTag, id)
         == if ref.listTag == listTag && ref.id == id then Who(refs, listTag, id) + [ref.who]
             else Who(refs, listTag, id)
  {
    assert (refs + [ref])[..|refs|] == refs && (refs + [ref])[|refs|] == ref;
    assert Who(refs, listTag, id) + [] == Who(refs, listTag, id);
  }

  /** One add(): the referrer joins its entry's list and no other. */
  lemma Tabulated(table: RefTable, refs: seq<Ref>, listTag: string, ref: Ref)
    requires Tabulates(table, refs, listTag)
    ensures Tabulates(if ref.listTag == listTag then Add(table, ref) else table, refs + [ref], listTag)
  {
    var next := if ref.listTag == listTag then Add(table, ref) else table;
    forall id ensures Get(next, id) == Who(refs + [ref], listTag, id) { WhoSnoc(refs, ref, listTag, id); }
  }

  method AddOne(numbering: RefTable, memo: RefTable, ref: Ref, ghost before: seq<Ref>)
      returns (numbering': RefTable, memo': RefTable)
    requires BothTabulate(numbering, memo, before) && (ref.listTag == NUMBERINGLIST || ref.listTag == MEMOSHAPELIST)
    ensures BothTabulate(numbering', memo', before + [ref])
  {
    Tabulated(numbering, before, NUMBERINGLIST, ref);
    Tabulated(memo, before, MEMOSHAPELIST, ref);
    numbering', memo' := numbering, memo;
    if ref.listTag == NUMBERINGLIST { numbering' := Add(numbering, ref); } else { memo' := Add(memo, ref); }
  }

  method AddAll(numbering: RefTable, memo: RefTable, refs: seq<Ref>, ghost before: seq<Ref>)
      returns (numbering': RefTable, memo': RefTable)
    requires BothTabulate(numbering, memo, before)
    requires forall r :: r in refs ==> r.listTag == NUMBERINGLIST || r.listTag == MEMOSHAPELIST
    ensures BothTabulate(numbering', memo', before + refs)
  {
    numbering', memo' := numbering, memo;
    ghost var done := before;
    assert before + refs[..0] == before;
    for i := 0 to |refs|
      invariant done == before + refs[..i] && BothTabulate(numbering', memo', done)
    {
      numbering', memo' := AddOne(numbering', memo', refs[i], done);
      assert before + refs[..i + 1] == done + [refs[i]];
      done := done + [refs[i]];
    }
    assert refs[..|refs|] == refs;
  }

  lemma RefLists(e: Element, secdefs: nat, memos: nat, memoIds: Option<set<string>>)
    ensures forall r :: r in ElementRefs(e, secdefs, memos, memoIds) ==>
              r.listTag == NUMBERINGLIST || r.listTag == MEMOSHAPELIST
  {
    MemoShapeRefsList(e, SortedKeys(e.attrib.Keys));
  }

  lemma MemoShapeRefsList(e: Element, keys: seq<string>)
    ensures forall r :: r in MemoShapeRefs(e, keys) ==> r.listTag == MEMOSHAPELIST
  {
  }

  /** definition_references: one pass in document order, grouping referrers by list and Id. */
  method DefinitionReferences(root: Element) returns (numbering: RefTable, memo: RefTable)
    ensures forall id :: Get(numbering, id) == Referrers(root, NUMBERINGLIST, id)
    ensures forall id :: Get(memo, id) == Referrers(root, MEMOSHAPELIST, id)
  {
    var es, memoIds := Iter(root), MemoIds(root);
    numbering, memo := map[], map[];
    var secdefs, memos := 0, 0;
    ghost var done: seq<Ref> := [];
    assert es[0..] == es && done + RefsFrom(es, 0, 0, memoIds) == RefsFrom(es, 0, 0, memoIds);
    for i := 0 to |es|
      invariant done + RefsFrom(es[i..], secdefs, memos, memoIds) == DocumentRefs(root)
      invariant BothTabulate(numbering, memo, done)
    {
      var found := ElementRefs(es[i], secdefs, memos, memoIds);
      RefLists(es[i], secdefs, memos, memoIds);
      RefsStep(done, es, i, secdefs, memos, memoIds);
      numbering, memo := AddAll(numbering, memo, found, done);
      done := done + found;
      if es[i].tag == "SECDEF" { secdefs := secdefs + 1; }
      if IsMemoField(es[i]) { memos := memos + 1; }
    }
    assert es[|es|..] == [] && done + [] == done;
  }

  lemma RefsStep(done: seq<Ref>, es: seq<Element>, i: nat, secdefs: nat, memos: nat, memoIds: Option<set<string>>)
    requires i < |es|
    ensures done + RefsFrom(es[i..], secdefs, memos, memoIds)
         == (done + ElementRefs(es[i], secdefs, memos, memoIds))
            + RefsFrom(es[i + 1..], secdefs + (if es[i].tag == "SECDEF" then 1 else 0), memos
                + (if IsMemoField(es[i]) then 1 else 0), memoIds)
  {
    assert es[i..][0] == es[i] && es[i..][1..] == es[i + 1..];
    CatRefs(done, ElementRefs(es[i], secdefs, memos, memoIds),
            RefsFrom(es[i + 1..], secdefs + (if es[i].tag == "SECDEF" then 1 else 0), memos
                + (if IsMemoField(es[i]) then 1 else 0), memoIds));
  }

  lemma CatRefs(p: seq<Ref>, q: seq<Ref>, r: seq<Ref>)
    ensures p + (q + r) == (p + q) + r
  {
  }

  // ------------------------------------------------------------ what being referenced means

  /** The element itself names the entry, whatever its place in the document. */
  ghost predicate Names(e: Element, listTag: string, id: string, memoIds: Option<set<string>>) {
    || (e.tag == "SECDEF" && listTag == NUMBERINGLIST && OUTLINE_SHAPE in e.attrib
       && Strip(e.attrib[OUTLINE_SHAPE]) == id)
    || (e.tag == "SECDEF" && listTag == MEMOSHAPELIST && MEMO_SHAPE_ID in e.attrib
       && Strip(e.attrib[MEMO_SHAPE_ID]) == id)
    || (e.tag == "PARASHAPE" && listTag == NUMBERINGLIST && NumberedHeading(e) && "Heading" in e.attrib
        && Strip(e.attrib["Heading"]) == id)
    || (IsMemoField(e) && listTag == MEMOSHAPELIST && ReadMemo(e, memoIds).NamesShape?
       && Strip(ReadMemo(e, memoIds).id) == id)
    || (e.tag != "SECDEF" && listTag == MEMOSHAPELIST
        && exists a :: a in e.attrib && MemoShapeAttr(a) && Strip(e.attrib[a]) == id)
  }

  lemma MemoShapeRefsName(e: Element, keys: seq<string>, id: string)
    requires forall k :: k in keys ==> k in e.attrib
    ensures (exists r :: r in MemoShapeRefs(e, keys) && r.id == id) <==>
        exists k :: k in keys && MemoShapeAttr(k) && Strip(e.attrib[k]) == id
  {
    if keys != [] {
      MemoShapeRefsName(e, keys[1..], id);
      var k, rest := keys[0], MemoShapeRefs(e, keys[1..]);
      var first := if MemoShapeAttr(k) then AttrRefs(e, MEMOSHAPELIST, k, AttrRef(e.tag, k)) else [];
      assert MemoShapeRefs(e, keys) == first + rest;
      assert MemoShapeAttr(k) ==> first[0].id == Strip(e.attrib[k]) && first[0] in first + rest;
      if r :| r in rest && r.id == id { assert r in first + rest; }
      if j :| j in keys[1..] && MemoShapeAttr(j) && Strip(e.attrib[j]) == id { assert j in keys; }
    }
  }

  ghost predicate Refers(refs: seq<Ref>, listTag: string, id: string) {
    exists r :: r in refs && r.listTag == listTag && r.id == id
  }

  lemma RefersConcat(p: seq<Ref>, q: seq<Ref>, listTag: string, id: string)
    ensures Refers(p + q, listTag, id) <==> Refers(p, listTag, id) || Refers(q, listTag, id)
  {
    if Refers(p, listTag, id) { var r :| r in p && r.listTag == listTag && r.id == id; assert r in p + q; }
    if Refers(q, listTag, id) { var r :| r in q && r.listTag == listTag && r.id == id; assert r in p + q; }
  }

  lemma RefersOne(e: Element, list: string, attr: string, who: Referrer, listTag: string, id: string)
    ensures Refers(AttrRefs(e, list, attr, who), listTag, id) <==>
        attr in e.attrib && list == listTag && Strip(e.attrib[attr]) == id
  {
    if attr in e.attrib { assert AttrRefs(e, list, attr, who)[0] in AttrRefs(e, list, attr, who); }
  }

  lemma RefersMemo(e: Element, index: nat, memoIds: Option<set<string>>, listTag: string, id: string)
    ensures Refers(MemoRefs(e, index, memoIds), listTag, id)
            <==> (&& IsMemoField(e) && listTag == MEMOSHAPELIST
                  && ReadMemo(e, memoIds).NamesShape? && Strip(ReadMemo(e, memoIds).id) == id)
  {
    if MemoRefs(e, index, memoIds) != [] { assert MemoRefs(e, index, memoIds)[0] in MemoRefs(e, index, memoIds); }
  }

  lemma RefersShapes(e: Element, listTag: string, id: string)
    ensures Refers(MemoShapeRefs(e, SortedKeys(e.attrib.Keys)), listTag, id)
       <==> listTag == MEMOSHAPELIST && exists a :: a in e.attrib && MemoShapeAttr(a) && Strip(e.attrib[a]) == id
  {
    var keys := SortedKeys(e.attrib.Keys);
    MemoShapeRefsList(e, keys);
    MemoShapeRefsName(e, keys, id);
    assert forall k :: k in e.attrib <==> k in keys;
  }

  lemma ElementRefsName(e: Element, secdefs: nat, memos: nat, memoIds: Option<set<string>>, listTag: string, id: string)
    ensures Refers(ElementRefs(e, secdefs, memos, memoIds), listTag, id) <==> Names(e, listTag, id, memoIds)
  {
    var memo := MemoRefs(e, memos, memoIds);
    RefersMemo(e, memos, memoIds, listTag, id);
    var outline := AttrRefs(e, NUMBERINGLIST, OUTLINE_SHAPE, SecDefRef(secdefs, OUTLINE_SHAPE));
    var shape := AttrRefs(e, MEMOSHAPELIST, MEMO_SHAPE_ID, SecDefRef(secdefs, MEMO_SHAPE_ID));
    RefersOne(e, NUMBERINGLIST, OUTLINE_SHAPE, SecDefRef(secdefs, OUTLINE_SHAPE), listTag, id);
    RefersOne(e, MEMOSHAPELIST, MEMO_SHAPE_ID, SecDefRef(secdefs, MEMO_SHAPE_ID), listTag, id);
    RefersConcat(outline, shape, listTag, id);
    var para := if e.tag == "PARASHAPE" && NumberedHeading(e)
                then AttrRefs(e, NUMBERINGLIST, "Heading", ParaShapeRef(e.Get(ENTRY_ID_ATTR))) else [];
    RefersOne(e, NUMBERINGLIST, "Heading", ParaShapeRef(e.Get(ENTRY_ID_ATTR)), listTag, id);
    var shapes := MemoShapeRefs(e, SortedKeys(e.attrib.Keys));
    RefersShapes(e, listTag, id);
    RefersConcat(para, shapes, listTag, id);
    RefersConcat(memo, if e.tag == "SECDEF" then outline + shape else para + shapes, listTag, id);
  }

  ghost predicate AnyNames(es: seq<Element>, listTag: string, id: string, memoIds: Option<set<string>>) {
    exists e :: e in es && Names(e, listTag, id, memoIds)
  }

  lemma AnyNamesSplit(es: seq<Element>, listTag: string, id: string, memoIds: Option<set<string>>)
    requires es != []
    ensures AnyNames(es, listTag, id, memoIds) <==>
              Names(es[0], listTag, id, memoIds) || AnyNames(es[1..], listTag, id, memoIds)
  {
    if e :| e in es[1..] && Names(e, listTag, id, memoIds) { assert e in es; }
  }

  lemma {:induction false} RefsFromName(es: seq<Element>, secdefs: nat, memos: nat, memoIds: Option<set<string>>,
      listTag: string, id: string)
    ensures Refers(RefsFrom(es, secdefs, memos, memoIds), listTag, id) <==> AnyNames(es, listTag, id, memoIds)
  {
    if es != [] {
      var s, m := secdefs + (if es[0].tag == "SECDEF" then 1 else 0), memos + (if IsMemoField(es[0]) then 1 else 0);
      ElementRefsName(es[0], secdefs, memos, memoIds, listTag, id);
      RefsFromName(es[1..], s, m, memoIds, listTag, id);
      RefersConcat(ElementRefs(es[0], secdefs, memos, memoIds), RefsFrom(es[1..], s, m, memoIds), listTag, id);
      AnyNamesSplit(es, listTag, id, memoIds);
    }
  }

  /** An entry has referrers exactly when some element of the document names it. */
  lemma ReferencedMeansNamed(root: Element, listTag: string, id: string)
    ensures Referrers(root, listTag, id) != [] <==> AnyNames(Iter(root), listTag, id, MemoIds(root))
  {
    RefsFromName(Iter(root), 0, 0, MemoIds(root), listTag, id);
    var refs := DocumentRefs(root);
    if Refers(refs, listTag, id) {
      var r :| r in refs && r.listTag == listTag && r.id == id;
      WhoFinds(refs, listTag, id, r.who);
    }
    if Referrers(root, listTag, id) != [] {
      var who := Referrers(root, listTag, id)[0];
      WhoFinds(refs, listTag, id, who);
      assert Ref(listTag, id, who) in refs;
    }
  }
}
