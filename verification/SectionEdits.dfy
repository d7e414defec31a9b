/** Accepted section edits seen from the sections: body tokens and HEAD definitions together. */
module SectionEdits {
  import opened Text
  import opened Hwpml
  import opened Signatures
  import opened BoundLists
  import opened HeadGrowth
  import opened References
  import opened SectionDefinitions
  import opened BodyTokens
  import opened BodyLinear
  import opened CopyForms

  lemma {:induction false} SectionsNamed(es: seq<Element>)
    requires forall e :: e in es ==> Named(e)
    ensures forall s :: s in SecDefElements(es) ==> Named(s) && s.tag == "SECDEF"
  {
    if es != [] { SectionsNamed(es[1..]); }
  }

  lemma {:induction false} IterNamed(e: Element)
    requires Named(e)
    ensures forall x :: x in Iter(e) ==> Named(x)
    decreases e, 1
  {
    IterAllNamed(e.children);
  }

  lemma {:induction false} IterAllNamed(es: seq<Element>)
    requires forall e :: e in es ==> Named(e)
    ensures forall x :: x in IterAll(es) ==> Named(x)
    decreases es, 0
  {
    if es != [] {
      IterNamed(es[0]);
      IterAllNamed(es[1..]);
    }
  }

  lemma InEither(r: Ref, p: seq<Ref>, q: seq<Ref>)
    requires r in p || r in q
    ensures r in p + q
  {
  }

  ghost predicate NamesId(s: Element, listTag: string, id: string) {
    AttrOf(listTag) in s.attrib && Strip(s.attrib[AttrOf(listTag)]) == id
  }

  lemma OwnRefListed(e: Element, secdefs: nat, memos: nat, memoIds: Option<set<string>>, listTag: string, id: string)
    requires e.tag == "SECDEF" && listTag in REFERENCE_BOUND_LISTS && NamesId(e, listTag, id)
    ensures Ref(listTag, id, SecDefRef(secdefs, AttrOf(listTag))) in ElementRefs(e, secdefs, memos, memoIds)
  {
    var memo := MemoRefs(e, memos, memoIds);
    var outline := AttrRefs(e, NUMBERINGLIST, OUTLINE_SHAPE, SecDefRef(secdefs, OUTLINE_SHAPE));
    var shape := AttrRefs(e, MEMOSHAPELIST, MEMO_SHAPE_ID, SecDefRef(secdefs, MEMO_SHAPE_ID));
    var r := Ref(listTag, id, SecDefRef(secdefs, AttrOf(listTag)));
    if listTag == NUMBERINGLIST { assert outline[0] == r; } else { assert shape[0] == r; }
    InEither(r, outline, shape);
    InEither(r, memo, outline + shape);
  }

  lemma RefsHead(es: seq<Element>, secdefs: nat, memos: nat, memoIds: Option<set<string>>, r: Ref)
    requires es != [] && r in ElementRefs(es[0], secdefs, memos, memoIds)
    ensures r in RefsFrom(es, secdefs, memos, memoIds)
  {
  }

  lemma RefsTail(es: seq<Element>, secdefs: nat, memos: nat, memoIds: Option<set<string>>, s: nat, m: nat, r: Ref)
    requires es != [] && s == secdefs + (if es[0].tag == "SECDEF" then 1 else 0) && m == memos
        + (if IsMemoField(es[0]) then 1 else 0)
    requires r in RefsFrom(es[1..], s, m, memoIds)
    ensures r in RefsFrom(es, secdefs, memos, memoIds)
  {
    InEither(r, ElementRefs(es[0], secdefs, memos, memoIds), RefsFrom(es[1..], s, m, memoIds));
  }

  /** The k-th SECDEF's reference is listed under its own index. */
  lemma {:induction false} SectionRefListed(es: seq<Element>, secdefs: nat, memos: nat,
        memoIds: Option<set<string>>, k: nat,
                                            listTag: string, id: string)
    requires k < |SecDefElements(es)| && listTag in REFERENCE_BOUND_LISTS && NamesId(SecDefElements(es)[k], listTag, id)
    ensures Ref(listTag, id, SecDefRef(secdefs + k, AttrOf(listTag))) in RefsFrom(es, secdefs, memos, memoIds)
  {
    hide RefsFrom, ElementRefs;
    var r := Ref(listTag, id, SecDefRef(secdefs + k, AttrOf(listTag)));
    var m := memos + (if IsMemoField(es[0]) then 1 else 0);
    if es[0].tag != "SECDEF" {
      assert SecDefElements(es) == SecDefElements(es[1..]);
      SectionRefListed(es[1..], secdefs, m, memoIds, k, listTag, id);
      RefsTail(es, secdefs, memos, memoIds, secdefs, m, r);
    } else if k == 0 {
      OwnRefListed(es[0], secdefs, memos, memoIds, listTag, id);
      RefsHead(es, secdefs, memos, memoIds, r);
    } else {
      assert SecDefElements(es)[k] == SecDefElements(es[1..])[k - 1];
      SectionRefListed(es[1..], secdefs + 1, m, memoIds, k - 1, listTag, id);
      assert r == Ref(listTag, id, SecDefRef(secdefs + 1 + (k - 1), AttrOf(listTag)));
      RefsTail(es, secdefs, memos, memoIds, secdefs + 1, m, r);
    }
  }

  /** Two sections with equal signatures name the same Ids. */
  lemma {:induction false} EqualSectionsNameAlike(s: Element, t: Element, listTag: string)
    requires Named(s) && Named(t) && s.tag == "SECDEF" && Signature(s, map[], {}) == Signature(t, map[], {})
    ensures t.tag == s.tag && s.Get(AttrOf(listTag)) == t.Get(AttrOf(listTag))
  {
    SameBySignature(s, t);
    SameParts(s, t);
    AttrAgrees(s, t, AttrOf(listTag));
  }

  lemma SameBySignature(a: Element, b: Element)
    requires Named(a) && Named(b) && Signature(a, map[], {}) == Signature(b, map[], {})
    ensures Same(a, b)
  {
    SignatureFaithful(a, b, map[], {});
  }

  /** A section keeps naming what it named, and it still means the same definition (or nothing, as before). */
  ghost predicate SectionUnmoved(before: Element, s: Element, after: Element, t: Element, listTag: string)
    requires listTag in REFERENCE_BOUND_LISTS
  {
    && s.Get(AttrOf(listTag)) == t.Get(AttrOf(listTag))
    && (s.Get(AttrOf(listTag)).Some? ==> SameResolution(before, after, listTag, Strip(s.Get(AttrOf(listTag)).value)))
  }

  /** Where the section that was the i-th is once another one stands at index. */
  function Shifted(i: nat, index: nat): nat {
    if i < index then i else i + 1
  }

  lemma ShiftedEqual(p: Tokens, q: Tokens, index: nat, i: nat)
    requires index <= |p| && |q| == |p| + 1 && q == p[..index] + [q[index]] + p[index..] && i < |p|
    ensures q[Shifted(i, index)] == p[i]
  {
  }

  lemma SectionNamed(root: Element, i: nat)
    requires Named(root) && i < |Sections(root)|
    ensures Named(Sections(root)[i]) && Sections(root)[i].tag == "SECDEF"
  {
    IterNamed(root);
    SectionsNamed(Iter(root));
    assert Sections(root)[i] in Sections(root);
  }

  /** Sections of two documents whose SECDEF tokens differ by one entry, aligned around it. */
  lemma {:induction false} AlignedSections(ts: Tokens, root: Element, us: Tokens, grown: Element, index: nat, i: nat)
    requires Lists(ts, Sections(root)) && Lists(us, Sections(grown)) && Named(root) && Named(grown)
    requires index <= |Select(ts, SecDefs)| && |Select(us, SecDefs)| == |Select(ts, SecDefs)| + 1
    requires Select(us, SecDefs)
          == Select(ts, SecDefs)[..index] + [Select(us, SecDefs)[index]] + Select(ts, SecDefs)[index..]
    requires i < |Sections(root)|
    ensures Shifted(i, index) < |Sections(grown)| && Shifted(i, index) != index
    ensures Named(Sections(root)[i]) && Named(Sections(grown)[Shifted(i, index)]) && Sections(root)[i].tag == "SECDEF"
    ensures Signature(Sections(root)[i], map[], {}) == Signature(Sections(grown)[Shifted(i, index)], map[], {})
  {
    hide Select, Sections, Signature;
    var p, q := Select(ts, SecDefs), Select(us, SecDefs);
    ShiftedEqual(p, q, index, i);
    SectionNamed(root, i);
    SectionNamed(grown, Shifted(i, index));
    assert p[i] == SecToken(Sections(root)[i]) && q[Shifted(i, index)] == SecToken(Sections(grown)[Shifted(i, index)]);
  }

  /** The section at j names its Id, so the Id has the section among its referrers. */
  lemma SectionReferrer(root: Element, j: nat, listTag: string)
    requires j < |Sections(root)| && listTag in REFERENCE_BOUND_LISTS && AttrOf(listTag) in Sections(root)[j].attrib
    ensures SecDefRef(j, AttrOf(listTag)) in Referrers(root, listTag, Strip(Sections(root)[j].attrib[AttrOf(listTag)]))
  {
    hide RefsFrom;
    var id := Strip(Sections(root)[j].attrib[AttrOf(listTag)]);
    SectionRefListed(Iter(root), 0, 0, MemoIds(root), j, listTag, id);
    WhoFinds(DocumentRefs(root), listTag, id, SecDefRef(j, AttrOf(listTag)));
  }

  /** HEAD's part of the insert: a section other than the new one resolves as it did. */
  lemma UnmovedByInsert(before: Element, after: Element, split: Element, added: Element, index: nat, allow: Allow,
      s: Element, j: nat, listTag: string)
    requires Named(before) && Named(after) && listTag in REFERENCE_BOUND_LISTS && j < |Sections(after)| && j != index
    requires !Bind(before, after, split, added, index, listTag).Refused?
    requires DocumentGrown(before, after, allow, InsertDelta(before, after, split, added, index))
    requires s.Get(AttrOf(listTag)) == Sections(after)[j].Get(AttrOf(listTag))
    ensures SectionUnmoved(before, s, after, Sections(after)[j], listTag)
  {
    if AttrOf(listTag) in Sections(after)[j].attrib {
      var id := Strip(Sections(after)[j].attrib[AttrOf(listTag)]);
      SectionReferrer(after, j, listTag);
      SharedNotBound(before, after, split, added, index, listTag, id, SecDefRef(j, AttrOf(listTag)));
      ReferenceMeans(before, after, split, added, index, allow, listTag);
    }
  }

  // ------------------------------------------------------------ accepted section edits

  /** Documents whose parts the body and HEAD checks can be read together on. */
  predicate Readable(root: Element) {
    Named(root) && SectionsInBody(root)
  }

  /** verify_section_insert: its body tokens, the bound references and HEAD. */
  ghost predicate InsertVerified(before: Element, after: Element, caret: Caret, allow: Allow)
    requires Readable(before) && Readable(after)
  {
    var ts, us, olds, news := BodyTokensOf(before), BodyTokensOf(after), Sections(before), Sections(after);
    var index := InsertedIndex(ts, us);
    if 0 < index < |news| && index <= |olds| then
      && (forall tag :: tag in REFERENCE_BOUND_LISTS ==>
         !Bind(before, after, olds[index - 1], news[index], index, tag).Refused?)
      && InsertAccepted(ts, us, caret, BoundRefs(before, after, olds[index - 1], news[index], index))
      && DocumentGrown(before, after, allow, InsertDelta(before, after, olds[index - 1], news[index], index))
    else
      InsertAccepted(ts, us, caret, {}) && DocumentGrown(before, after, allow, NO_DELTA)
  }

  /** Where an accepted insert put its section. */
  lemma InsertedPlace(before: Element, after: Element, caret: Caret, allow: Allow)
      returns (index: nat, bound: set<string>)
    requires Readable(before) && Readable(after) && InsertVerified(before, after, caret, allow)
    ensures index == InsertedIndex(BodyTokensOf(before), BodyTokensOf(after)) && 0 < index <= |Sections(before)|
        && index < |Sections(after)|
    ensures bound == BoundRefs(before, after, Sections(before)[index - 1], Sections(after)[index], index)
    ensures InsertAccepted(BodyTokensOf(before), BodyTokensOf(after), caret, bound)
    ensures var ts, us := Select(BodyTokensOf(before), SecDefs), Select(BodyTokensOf(after), SecDefs);
            && |ts| == |Sections(before)| && |us| == |Sections(after)| == |ts| + 1
            && us == ts[..index] + [us[index]] + ts[index..] && CopiedSig(us[index], ts[index - 1], bound)
            && us[index] == SecToken(Sections(after)[index]) && ts[index - 1] == SecToken(Sections(before)[index - 1])
  {
    var ts, us := BodyTokensOf(before), BodyTokensOf(after);
    DocumentLists(before);
    DocumentLists(after);
    hide Select, Sections, DocumentGrown, BoundRefs, InsertDelta, Bind, InsertAccepted, CopiedSig, Signature,
        Lists, SecToken;
    index := InsertedIndex(ts, us);
    bound := {};
    if 0 < index < |Sections(after)| && index <= |Sections(before)| {
      bound := BoundRefs(before, after, Sections(before)[index - 1], Sections(after)[index], index);
    }
    ListedPlace(ts, Sections(before), us, Sections(after), caret, bound);
  }

  /** Where an accepted insert put its section, among the listed ones. */
  lemma ListedPlace(ts: Tokens, olds: seq<Element>, us: Tokens, news: seq<Element>, caret: Caret, bound: set<string>)
    requires Lists(ts, olds) && Lists(us, news) && InsertAccepted(ts, us, caret, bound)
    ensures var p, q, index := Select(ts, SecDefs), Select(us, SecDefs), InsertedIndex(ts, us);
            && 0 < index <= |olds| && |p| == |olds| && |q| == |news| == |p| + 1
            && q == p[..index] + [q[index]] + p[index..] && CopiedSig(q[index], p[index - 1], bound)
            && q[index] == SecToken(news[index]) && p[index - 1] == SecToken(olds[index - 1])
  {
    hide Select, InsertAccepted, CopiedSig, Signature, SecToken;
    InsertedSecDef(ts, us, caret, bound);
  }

  /** After an accepted section insert every other section names what it named and it means the same. */
  lemma InsertLeavesSectionsAlone(before: Element, after: Element, caret: Caret, allow: Allow, i: nat, listTag: string)
    requires Readable(before) && Readable(after) && InsertVerified(before, after, caret, allow)
    requires i < |Sections(before)| && listTag in REFERENCE_BOUND_LISTS
    ensures var j := Shifted(i, InsertedIndex(BodyTokensOf(before), BodyTokensOf(after)));
            j < |Sections(after)| && SectionUnmoved(before, Sections(before)[i], after, Sections(after)[j], listTag)
  {
    var ts, us := BodyTokensOf(before), BodyTokensOf(after);
    var index, bound := InsertedPlace(before, after, caret, allow);
    DocumentLists(before);
    DocumentLists(after);
    hide Select, Sections, DocumentGrown, BoundRefs, InsertDelta, Bind, InsertAccepted, SectionUnmoved, Signature;
    AlignedSections(ts, before, us, after, index, i);
    var j := Shifted(i, index);
    EqualSectionsNameAlike(Sections(before)[i], Sections(after)[j], listTag);
    UnmovedByInsert(before, after, Sections(before)[index - 1], Sections(after)[index], index, allow,
        Sections(before)[i],
        j, listTag);
  }

  /** The new section of an accepted insert means what the section it was split from means, reference by reference;
      when one of the two definitions is clean, it is a copy apart from the bound references exactly when both are. */
  lemma InsertedSectionCopies(before: Element, after: Element, caret: Caret, allow: Allow)
    requires Readable(before) && Readable(after) && InsertVerified(before, after, caret, allow)
    ensures var index := InsertedIndex(BodyTokensOf(before), BodyTokensOf(after));
            && 0 < index <= |Sections(before)| && index < |Sections(after)|
            && var split, added := Sections(before)[index - 1], Sections(after)[index];
               var bound := BoundRefs(before, after, split, added, index);
               && (forall tag :: tag in REFERENCE_BOUND_LISTS ==> MeansTheSame(before, after, split, added, tag))
               && (Clean(split, bound) || Clean(added, bound) ==>
                     (Same(WithoutRefs(split, bound), WithoutRefs(added, bound))
                      <==> Clean(split, bound) && Clean(added, bound)))
  {
    var index, bound := InsertedPlace(before, after, caret, allow);
    hide Select, Sections, DocumentGrown, BoundRefs, InsertDelta, Bind, InsertAccepted, Signature, Clean,
        WithoutRefs, Same,
        MeansTheSame;
    var split, added := Sections(before)[index - 1], Sections(after)[index];
    SectionNamed(before, index - 1);
    SectionNamed(after, index);
    BoundNamesIds(before, after, split, added, index);
    InsertPreservesMeaning(before, after, split, added, index, allow);
    CopyIsExact(split, added, bound);
  }

  /** HEAD's part of the delete: a surviving section resolves as it did. */
  lemma UnmovedByDelete(before: Element, after: Element, removed: Element, index: nat, allow: Allow, s: Element, i: nat,
      listTag: string)
    requires listTag in REFERENCE_BOUND_LISTS && i < |Sections(after)|
    requires DocumentGrown(before, after, allow, DeleteDelta(before, after, removed, index))
    requires s.Get(AttrOf(listTag)) == Sections(after)[i].Get(AttrOf(listTag))
    ensures SectionUnmoved(before, s, after, Sections(after)[i], listTag)
  {
    if AttrOf(listTag) in Sections(after)[i].attrib {
      var id := Strip(Sections(after)[i].attrib[AttrOf(listTag)]);
      SectionReferrer(after, i, listTag);
      DeleteMovesIndex(before, after, removed, index, allow, listTag);
      assert Freed(before, after, removed, index, listTag) != Some(id);
      assert StillDefined(before, after, listTag, id);
    }
  }

  /** The delta of verify_section_delete: nothing may go with the first section. */
  function UsedDelta(before: Element, after: Element, sectionIndex: nat): DefinitionDelta {
    if 1 < sectionIndex <= |Sections(before)|
        then DeleteDelta(before, after, Sections(before)[sectionIndex - 1], sectionIndex - 1)
    else NO_DELTA
  }

  /** verify_section_delete: its body tokens and HEAD. */
  ghost predicate DeleteVerified(before: Element, after: Element, sectionIndex: nat, allow: Allow)
    requires Readable(before) && Readable(after)
  {
    && DeleteAccepted(BodyTokensOf(before), BodyTokensOf(after), sectionIndex)
    && DocumentGrown(before, after, allow, UsedDelta(before, after, sectionIndex))
  }

  /** Under the empty delta everything resolves as it did. */
  lemma UnmovedByNothing(before: Element, after: Element, allow: Allow, s: Element, t: Element, listTag: string)
    requires listTag in REFERENCE_BOUND_LISTS && DocumentGrown(before, after, allow, NO_DELTA)
    requires s.Get(AttrOf(listTag)) == t.Get(AttrOf(listTag))
    ensures SectionUnmoved(before, s, after, t, listTag)
  {
    AcceptedIndex(before, after, allow, NO_DELTA, listTag);
    UnmovedIds(before, after, listTag, {});
  }

  /** After an accepted section delete every surviving section names what it named and it means the same. */
  lemma DeleteLeavesSectionsAlone(before: Element, after: Element, sectionIndex: nat, allow: Allow, i: nat,
        listTag: string)
    requires Readable(before) && Readable(after) && DeleteVerified(before, after, sectionIndex, allow)
    requires i < |Sections(after)| && listTag in REFERENCE_BOUND_LISTS
    ensures sectionIndex > 0
    ensures var j := Shifted(i, sectionIndex - 1);
            j < |Sections(before)| && SectionUnmoved(before, Sections(before)[j], after, Sections(after)[i], listTag)
  {
    var ts, us := BodyTokensOf(before), BodyTokensOf(after);
    DocumentLists(before);
    DocumentLists(after);
    DeletedSecDef(ts, us, sectionIndex);
    hide Select, Sections, DocumentGrown, DeleteDelta, DeleteAccepted, SectionUnmoved, Signature;
    var index := sectionIndex - 1;
    AlignedSections(us, after, ts, before, index, i);
    var j := Shifted(i, index);
    EqualSectionsNameAlike(Sections(after)[i], Sections(before)[j], listTag);
    if 1 < sectionIndex <= |Sections(before)| {
      UnmovedByDelete(before, after, Sections(before)[index], index, allow, Sections(before)[j], i, listTag);
    } else {
      UnmovedByNothing(before, after, allow, Sections(before)[j], Sections(after)[i], listTag);
    }
  }

  /** Where the deleted SECDEF stood. */
  lemma {:induction false} DeletedSecDef(before: Tokens, after: Tokens, sectionIndex: nat)
    requires DeleteAccepted(before, after, sectionIndex)
    ensures sectionIndex > 0
    ensures var index, olds, news := sectionIndex - 1, Select(before, SecDefs), Select(after, SecDefs);
            index <= |news| && |olds| == |news| + 1 && olds == news[..index] + [olds[index]] + news[index..]
  {
    var prefix := CommonPrefix(after, before);
    BreakConserves(after, before, prefix);
    Around(Select(after, SecDefs), Select(Block(after, before, prefix), SecDefs), Select(before, SecDefs),
        sectionIndex - 1);
  }

  // ------------------------------------------------------------ whole runs of section edits

  datatype SectionEdit = Inserted(caret: Caret, allow: Allow) | Deleted(sectionIndex: nat, allow: Allow)

  ghost predicate EditVerified(before: Element, edit: SectionEdit, after: Element)
    requires Readable(before) && Readable(after)
  {
    match edit
    case Inserted(caret, allow) => InsertVerified(before, after, caret, allow)
    case Deleted(sectionIndex, allow) => DeleteVerified(before, after, sectionIndex, allow)
  }

  /** The section at place i before the edit is the one at place j after it. */
  ghost predicate Follows(before: Element, edit: SectionEdit, after: Element, i: nat, j: nat)
    requires Readable(before) && Readable(after)
  {
    match edit
    case Inserted(_, _) => j == Shifted(i, InsertedIndex(BodyTokensOf(before), BodyTokensOf(after)))
    case Deleted(sectionIndex, _) => sectionIndex > 0 && i == Shifted(j, sectionIndex - 1)
  }

  ghost predicate Run(docs: seq<Element>, edits: seq<SectionEdit>) {
    && |docs| == |edits| + 1 && (forall k :: 0 <= k < |docs| ==> Readable(docs[k]))
    && forall k :: 0 <= k < |edits| ==> EditVerified(docs[k], edits[k], docs[k + 1])
  }

  /** places names where one section stands in each document of a run. */
  ghost predicate Traced(docs: seq<Element>, edits: seq<SectionEdit>, places: seq<nat>)
    requires Run(docs, edits)
  {
    && |places| == |docs| && (forall k :: 0 <= k < |docs| ==> places[k] < |Sections(docs[k])|)
    && forall k :: 0 <= k < |edits| ==> Follows(docs[k], edits[k], docs[k + 1], places[k], places[k + 1])
  }

  lemma EditLeavesAlone(before: Element, edit: SectionEdit, after: Element, i: nat, j: nat, listTag: string)
    requires Readable(before) && Readable(after) && EditVerified(before, edit, after)
            && Follows(before, edit, after, i, j)
    requires i < |Sections(before)| && j < |Sections(after)| && listTag in REFERENCE_BOUND_LISTS
    ensures SectionUnmoved(before, Sections(before)[i], after, Sections(after)[j], listTag)
  {
    hide Sections, SectionUnmoved, Readable, InsertVerified, DeleteVerified;
    match edit
    case Inserted(caret, allow) => InsertLeavesSectionsAlone(before, after, caret, allow, i, listTag);
    case Deleted(sectionIndex, allow) => DeleteLeavesSectionsAlone(before, after, sectionIndex, allow, j, listTag);
  }

  lemma UnmovedTransitive(a: Element, s: Element, b: Element, t: Element, c: Element, u: Element, listTag: string)
    requires listTag in REFERENCE_BOUND_LISTS && SectionUnmoved(a, s, b, t, listTag)
            && SectionUnmoved(b, t, c, u, listTag)
    ensures SectionUnmoved(a, s, c, u, listTag)
  {
  }

  /** In any run of accepted section inserts and deletes a section that is never deleted names at the end what it
      named at the start, and it still means the same definition. */
  lemma {:induction false} SectionSurvivesRun(docs: seq<Element>, edits: seq<SectionEdit>, places: seq<nat>,
        listTag: string)
    requires Run(docs, edits) && Traced(docs, edits, places) && listTag in REFERENCE_BOUND_LISTS
    ensures var n := |edits|;
            SectionUnmoved(docs[0], Sections(docs[0])[places[0]], docs[n], Sections(docs[n])[places[n]], listTag)
    decreases |edits|
  {
    hide SectionUnmoved, Readable, EditVerified, Follows, Sections;
    var n := |edits|;
    if n == 0 {
      UnmovedItself(docs[0], Sections(docs[0])[places[0]], listTag);
    } else {
      var m := n - 1;
      var ds, es, ps := docs[..n], edits[..m], places[..n];
      ShorterRun(docs, edits, places);
      SectionSurvivesRun(ds, es, ps, listTag);
      assert ds[0] == docs[0] && ds[m] == docs[m] && ps[0] == places[0] && ps[m] == places[m];
      LastEdit(docs, edits, places);
      EditLeavesAlone(docs[m], edits[m], docs[n], places[m], places[n], listTag);
      UnmovedTransitive(docs[0], Sections(docs[0])[places[0]], docs[m], Sections(docs[m])[places[m]], docs[n],
          Sections(docs[n])[places[n]], listTag);
    }
  }

  lemma UnmovedItself(a: Element, s: Element, listTag: string)
    requires listTag in REFERENCE_BOUND_LISTS
    ensures SectionUnmoved(a, s, a, s, listTag)
  {
  }

  lemma LastEdit(docs: seq<Element>, edits: seq<SectionEdit>, places: seq<nat>)
    requires Run(docs, edits) && Traced(docs, edits, places) && edits != []
    ensures var m, n := |edits| - 1, |edits|;
            EditVerified(docs[m], edits[m], docs[m + 1])
                && Follows(docs[m], edits[m], docs[m + 1], places[m], places[m + 1])
  {
  }

  lemma ShorterRun(docs: seq<Element>, edits: seq<SectionEdit>, places: seq<nat>)
    requires Run(docs, edits) && Traced(docs, edits, places) && edits != []
    ensures var m, n := |edits| - 1, |edits|;
            Run(docs[..n], edits[..m]) && Traced(docs[..n], edits[..m], places[..n])
  {
    hide Readable, EditVerified, Follows, Sections;
    var m, n := |edits| - 1, |edits|;
    var ds, es, ps := docs[..n], edits[..m], places[..n];
    forall k | 0 <= k < |es| ensures EditVerified(ds[k], es[k], ds[k + 1]) { assert ds[k + 1] == docs[k + 1]; }
    forall k | 0 <= k < |es| ensures Follows(ds[k], es[k], ds[k + 1], ps[k], ps[k + 1]) {
      assert ds[k + 1] == docs[k + 1] && ps[k + 1] == places[k + 1];
    }
  }
}
