/** Lists a section owns through its SECDEF: how one may change, and the greedy matcher that decides it. */
module BoundLists {
  import opened Text
  import opened Hwpml
  import opened Signatures

  /** What a verifier reports; only whether any was reported matters to the edit. */
  datatype Reason =
    | Became | AttributesChanged | TextChanged | LostEntries | ForeignEntries | CountMismatch | IdsNotFresh
    | EntryChanged(index: nat) | Malformed | NotRemovable | NotCreated | NewList | GoneList | ChildrenChanged
    | PartsChanged | PartChanged

  function EntryId(e: Element): string {
    e.Stripped(ENTRY_ID_ATTR)
  }

  /** No problem in _bound_entries_problem: entry tags, numeric distinct Ids, exact Count. */
  predicate WellFormed(e: Element, entryTag: string) {
    && (forall i :: 0 <= i < |e.children| ==> e.children[i].tag == entryTag && Digits(EntryId(e.children[i])))
    && (forall i, j :: 0 <= i < j < |e.children| ==> EntryId(e.children[i]) != EntryId(e.children[j]))
    && e.Stripped(LIST_COUNT_ATTR) == Decimal(|e.children|)
  }

  predicate WellFormedList(e: Element)
    requires e.tag in REFERENCE_BOUND_LISTS
  {
    WellFormed(e, REFERENCE_BOUND_LISTS[e.tag])
  }

  // ------------------------------------------------------------ what an accepted change is

  /** An entry as the comparison sees it: its Id and its content. */
  datatype Entry = Entry(id: string, content: Element)

  function ViewOf(e: Element): Entry {
    Entry(EntryId(e), Canon(e, map[], {}))
  }

  function View(es: seq<Element>): (r: seq<Entry>)
    ensures |r| == |es|
  {
    seq(|es|, i requires 0 <= i < |es| => ViewOf(es[i]))
  }

  /** kept names, in order, the old entries that make up the start of the new list. */
  ghost predicate Selects(kept: seq<nat>, was: seq<Entry>, now: seq<Entry>) {
    && |kept| <= |now|
    && (forall k :: 0 <= k < |kept| ==> kept[k] < |was| && now[k] == was[kept[k]])
    && (forall k, l :: 0 <= k < l < |kept| ==> kept[k] < kept[l])
  }

  ghost predicate UsedId(id: string, es: seq<Entry>) {
    exists i :: 0 <= i < |es| && es[i].id == id
  }

  ghost predicate DropsOnly(kept: seq<nat>, was: seq<Entry>, removable: set<string>) {
    forall i :: 0 <= i < |was| && i !in kept ==> was[i].id in removable
  }

  ghost predicate AppendsOnly(n: nat, was: seq<Entry>, now: seq<Entry>, created: set<string>) {
    forall k :: n <= k < |now| ==> now[k].id in created && !UsedId(now[k].id, was)
  }

  ghost predicate EditBy(kept: seq<nat>, was: seq<Entry>, now: seq<Entry>, removable: set<string>,
        created: set<string>) {
    Selects(kept, was, now) && DropsOnly(kept, was, removable) && AppendsOnly(|kept|, was, now, created)
  }

  /** The new list is the old one minus some removable entries, followed by created entries with fresh Ids. */
  ghost predicate EntriesEdited(was: seq<Entry>, now: seq<Entry>, removable: set<string>, created: set<string>) {
    exists kept :: EditBy(kept, was, now, removable, created)
  }

  ghost predicate BoundEdited(before: Element, after: Element, delta: DefinitionDelta)
    requires before.tag == after.tag && before.tag in REFERENCE_BOUND_LISTS
  {
    || Same(before, after)
    || (&& WellFormedList(before) && WellFormedList(after)
        && Attrs(before, map[]) - {LIST_COUNT_ATTR} == Attrs(after, map[]) - {LIST_COUNT_ATTR}
        && EntriesEdited(View(before.children), View(after.children), delta.Removable(before.tag),
           delta.Created(before.tag)))
  }

  lemma SameView(a: Element, b: Element)
    requires Same(a, b)
    ensures a.tag == b.tag && Attrs(a, map[]) == Attrs(b, map[]) && View(a.children) == View(b.children)
  {
    SameParts(a, b);
    forall i | 0 <= i < |a.children| ensures View(a.children)[i] == View(b.children)[i] {
      SameKeeps(a.children[i], b.children[i], ENTRY_ID_ATTR);
    }
  }

  lemma SameWellFormed(a: Element, b: Element)
    requires Same(a, b) && a.tag in REFERENCE_BOUND_LISTS && WellFormedList(a)
    ensures a.tag == b.tag && WellFormedList(b)
  {
    SameView(a, b);
    SameParts(a, b);
    SameKeeps(a, b, LIST_COUNT_ATTR);
    assert |View(a.children)| == |View(b.children)|;
    forall i | 0 <= i < |b.children| ensures EntryId(b.children[i]) == EntryId(a.children[i]) {
      assert View(a.children)[i] == View(b.children)[i];
    }
  }

  /** A whole list may go only when every entry it held may go. */
  predicate MayGo(e: Element, delta: DefinitionDelta)
    requires e.tag in REFERENCE_BOUND_LISTS
  {
    WellFormedList(e) && forall c :: c in e.children ==> EntryId(c) in delta.Removable(e.tag)
  }

  function Rank(tag: string, order: seq<string>): nat {
    if order == [] || order[0] == tag then 0 else 1 + Rank(tag, order[1..])
  }

  /** A list may appear only in MAPPINGTABLE, in schema order, non-empty, holding only created entries. */
  predicate MayAppear(parent: Element, e: Element, siblings: seq<Element>, delta: DefinitionDelta)
    requires e.tag in REFERENCE_BOUND_LISTS
  {
    && parent.tag == MAPPINGTABLE_TAG && WellFormedList(e)
    && e.children != [] && (forall c :: c in e.children ==> EntryId(c) in delta.Created(e.tag))
    && (forall s :: s in siblings ==> s.tag in MAPPINGTABLE_ORDER)
    && (forall i, j :: 0 <= i < j < |siblings| ==>
        Rank(siblings[i].tag, MAPPINGTABLE_ORDER) < Rank(siblings[j].tag, MAPPINGTABLE_ORDER))
  }

  // ------------------------------------------------------------ the greedy walk

  /** Old entries from i on that the walk pairs with new entries from j on. */
  function Match(was: seq<Entry>, now: seq<Entry>, i: nat, j: nat): (kept: seq<nat>)
    requires i <= |was| && j <= |now|
    ensures |kept| <= |now| - j
    decreases |was| - i
  {
    if i == |was| then []
    else if j < |now| && now[j].id == was[i].id then [i] + Match(was, now, i + 1, j + 1)
    else Match(was, now, i + 1, j)
  }

  lemma {:induction false} MatchOrdered(was: seq<Entry>, now: seq<Entry>, i: nat, j: nat)
    requires i <= |was| && j <= |now|
    ensures forall k :: 0 <= k < |Match(was, now, i, j)| ==> i <= Match(was, now, i, j)[k] < |was|
    ensures forall k, l :: 0 <= k < l < |Match(was, now, i, j)| ==> Match(was, now, i, j)[k] < Match(was, now, i, j)[l]
    decreases |was| - i
  {
    if i < |was| {
      if j < |now| && now[j].id == was[i].id { MatchOrdered(was, now, i + 1, j + 1); }
      else { MatchOrdered(was, now, i + 1, j); }
    }
  }

  ghost predicate DistinctIds(es: seq<Entry>) {
    forall i, j :: 0 <= i < j < |es| ==> es[i].id != es[j].id
  }

  /** An old entry that is not the next kept one does not have the Id of the entry that follows in the new list. */
  lemma NotNext(kept: seq<nat>, was: seq<Entry>, now: seq<Entry>, i: nat, j: nat)
    requires Selects(kept, was, now) && DistinctIds(was)
    requires forall k :: |kept| <= k < |now| ==> !UsedId(now[k].id, was)
    requires i < |was| && j <= |kept| && (j < |kept| ==> i < kept[j])
    ensures j < |now| ==> now[j].id != was[i].id
  {
    if j < |kept| {
      assert now[j] == was[kept[j]];
    } else if j < |now| {
      assert !UsedId(now[j].id, was) && was[i] in was;
    }
  }

  /** Any way to explain the change is the greedy one. */
  lemma {:induction false} MatchIsForced(kept: seq<nat>, was: seq<Entry>, now: seq<Entry>, i: nat, j: nat)
    requires Selects(kept, was, now) && DistinctIds(was)
    requires forall k :: |kept| <= k < |now| ==> !UsedId(now[k].id, was)
    requires i <= |was| && j <= |kept|
    requires j > 0 ==> kept[j - 1] < i
    requires j < |kept| ==> i <= kept[j]
    ensures Match(was, now, i, j) == kept[j..]
    decreases |was| - i
  {
    if i < |was| {
      if j < |kept| && kept[j] == i {
        MatchIsForced(kept, was, now, i + 1, j + 1);
        assert kept[j..] == [i] + kept[j + 1..];
      } else {
        NotNext(kept, was, now, i, j);
        MatchIsForced(kept, was, now, i + 1, j);
      }
    }
  }

  /** The greedy walk is complete: some explanation exists exactly when its own one works. */
  lemma MatchDecides(was: seq<Entry>, now: seq<Entry>, removable: set<string>, created: set<string>)
    requires DistinctIds(was)
    ensures EntriesEdited(was, now, removable, created) <==> EditBy(Match(was, now, 0, 0), was, now, removable, created)
  {
    if EntriesEdited(was, now, removable, created) {
      var kept :| EditBy(kept, was, now, removable, created);
      MatchIsForced(kept, was, now, 0, 0);
      assert kept[0..] == kept;
    }
  }

  /** signature(a) == signature(b) */
  method Equal(a: Element, b: Element) returns (r: bool)
    requires Named(a) && Named(b)
    ensures r <==> Same(a, b)
  {
    SignatureFaithful(a, b, map[], {});
    r := Signature(a, map[], {}) == Signature(b, map[], {});
  }

  ghost predicate IsView(v: seq<Entry>, es: seq<Element>) {
    |v| == |es| && forall i :: 0 <= i < |es| ==> v[i] == ViewOf(es[i])
  }

  /** Every kept pair has equal content. */
  ghost predicate AllEqual(kept: seq<nat>, was: seq<Entry>, now: seq<Entry>)
    requires |kept| <= |now|
  {
    forall k :: 0 <= k < |kept| ==> kept[k] < |was| && now[k] == was[kept[k]]
  }

  /** One comparison of the walk: equal Ids, then equal signatures. */
  method ComparePair(a: Element, b: Element) returns (paired: bool, same: bool)
    requires Named(a) && Named(b)
    ensures paired <==> ViewOf(a).id == ViewOf(b).id
    ensures same <==> ViewOf(a) == ViewOf(b)
  {
    paired := EntryId(a) == EntryId(b);
    same := Equal(a, b);
    if same { SameKeeps(a, b, ENTRY_ID_ATTR); }
  }

  /** Where the walk stands after i old entries: the pairs found, the Ids passed over, and whether any pair differs. */
  ghost predicate Walked(i: nat, kept: seq<nat>, lost: seq<string>, clean: bool, was: seq<Entry>, now: seq<Entry>) {
    && i <= |was| && |kept| <= |now|
    && kept + Match(was, now, i, |kept|) == Match(was, now, 0, 0)
    && (forall k :: 0 <= k < |kept| ==> kept[k] < i)
    && LostAre(lost, kept, was, i)
    && (clean <==> AllEqual(kept, was, now))
  }

  lemma WalkPair(i: nat, kept: seq<nat>, lost: seq<string>, clean: bool, was: seq<Entry>, now: seq<Entry>)
    requires Walked(i, kept, lost, clean, was, now) && i < |was| && |kept| < |now| && now[|kept|].id == was[i].id
    ensures Walked(i + 1, kept + [i], lost, clean && now[|kept|] == was[i], was, now)
  {
    MatchStep(kept, was, now, i, |kept|);
    AllEqualStep(kept, was, now, i);
    LostSame(lost, kept, was, i);
  }

  lemma WalkPast(i: nat, kept: seq<nat>, lost: seq<string>, clean: bool, was: seq<Entry>, now: seq<Entry>)
    requires Walked(i, kept, lost, clean, was, now) && i < |was| && (|kept| == |now| || now[|kept|].id != was[i].id)
    ensures Walked(i + 1, kept, lost + [was[i].id], clean, was, now)
  {
    MatchStep(kept, was, now, i, |kept|);
    LostOneMore(lost, kept, was, i);
  }

  /** The loop of _bound_list_reasons: walks the old entries with one index into the new ones. */
  method MatchEntries(was: seq<Element>, now: seq<Element>, ghost v: seq<Entry>, ghost w: seq<Entry>)
    returns (index: nat, lost: seq<string>, changed: seq<Reason>, ghost kept: seq<nat>)
    requires (forall e :: e in was ==> Named(e)) && (forall e :: e in now ==> Named(e)) && IsView(v, was)
            && IsView(w, now)
    ensures kept == Match(v, w, 0, 0) && index == |kept| <= |now|
    ensures LostAre(lost, kept, v, |v|)
    ensures changed == [] <==> AllEqual(kept, v, w)
  {
    hide Walked, Match, AllEqual, LostAre, Named;
    index, lost, changed, kept := 0, [], [], [];
    var i := 0;
    WalkStart(v, w);
    while i < |was|
      invariant i <= |was| && index == |kept| <= |now| && Walked(i, kept, lost, changed == [], v, w)
    {
      var paired, same := false, false;
      if index < |now| { paired, same := ComparePair(now[index], was[i]); }
      if paired {
        WalkPair(i, kept, lost, changed == [], v, w);
        if !same { changed := changed + [EntryChanged(index)]; }
        kept, index := kept + [i], index + 1;
      } else {
        WalkPast(i, kept, lost, changed == [], v, w);
        lost := lost + [EntryId(was[i])];
      }
      i := i + 1;
    }
    WalkEnd(kept, lost, changed == [], v, w);
  }

  lemma WalkStart(v: seq<Entry>, w: seq<Entry>)
    ensures Walked(0, [], [], true, v, w)
  {
    assert [] + Match(v, w, 0, 0) == Match(v, w, 0, 0);
  }

  lemma WalkEnd(kept: seq<nat>, lost: seq<string>, clean: bool, v: seq<Entry>, w: seq<Entry>)
    requires Walked(|v|, kept, lost, clean, v, w)
    ensures kept == Match(v, w, 0, 0) && LostAre(lost, kept, v, |v|) && (clean <==> AllEqual(kept, v, w))
  {
    assert kept + [] == kept;
  }

  /** One step of the walk, with the pairs found so far in front. */
  lemma MatchStep(kept: seq<nat>, was: seq<Entry>, now: seq<Entry>, i: nat, j: nat)
    requires i < |was| && j <= |now|
    ensures kept + Match(was, now, i, j)
         == if j < |now| && now[j].id == was[i].id then (kept + [i]) + Match(was, now, i + 1, j + 1)
            else kept + Match(was, now, i + 1, j)
  {
    if j < |now| && now[j].id == was[i].id {
      assert kept + ([i] + Match(was, now, i + 1, j + 1)) == (kept + [i]) + Match(was, now, i + 1, j + 1);
    }
  }

  lemma AllEqualStep(kept: seq<nat>, was: seq<Entry>, now: seq<Entry>, i: nat)
    requires |kept| < |now| && i < |was|
    ensures AllEqual(kept + [i], was, now) <==> AllEqual(kept, was, now) && now[|kept|] == was[i]
  {
    var more := kept + [i];
    if AllEqual(more, was, now) {
      assert more[|kept|] == i;
      forall k | 0 <= k < |kept| ensures kept[k] < |was| && now[k] == was[kept[k]] { assert more[k] == kept[k]; }
    }
  }

  /** lost lists the Ids of the first i old entries that were not kept. */
  ghost predicate LostAre(lost: seq<string>, kept: seq<nat>, was: seq<Entry>, i: nat)
    requires i <= |was|
  {
    && (forall l :: 0 <= l < i && l !in kept ==> was[l].id in lost)
    && (forall id :: id in lost ==> exists l :: 0 <= l < i && l !in kept && was[l].id == id)
  }

  lemma LostSame(lost: seq<string>, kept: seq<nat>, was: seq<Entry>, i: nat)
    requires i < |was| && LostAre(lost, kept, was, i)
    ensures LostAre(lost, kept + [i], was, i + 1)
  {
    forall id | id in lost ensures exists l :: 0 <= l < i + 1 && l !in kept + [i] && was[l].id == id {
      var l :| 0 <= l < i && l !in kept && was[l].id == id;
      assert l !in kept + [i];
    }
  }

  lemma LostOneMore(lost: seq<string>, kept: seq<nat>, was: seq<Entry>, i: nat)
    requires i < |was| && LostAre(lost, kept, was, i) && forall k :: 0 <= k < |kept| ==> kept[k] < i
    ensures LostAre(lost + [was[i].id], kept, was, i + 1)
  {
    forall id | id in lost + [was[i].id] ensures exists l :: 0 <= l < i + 1 && l !in kept && was[l].id == id {
      if id in lost {
        var l :| 0 <= l < i && l !in kept && was[l].id == id;
      } else {
        assert i !in kept;
      }
    }
  }

  /** _bound_list_reasons: silent exactly on the accepted changes. */
  method BoundListReasons(before: Element, after: Element, delta: DefinitionDelta) returns (reasons: seq<Reason>)
    requires before.tag == after.tag && before.tag in REFERENCE_BOUND_LISTS && Named(before) && Named(after)
    ensures reasons == [] <==> BoundEdited(before, after, delta)
  {
    var same := Equal(before, after);
    if same { return []; }
    if !WellFormedList(before) || !WellFormedList(after) { return [Malformed]; }
    reasons := [];
    if Attrs(before, map[]) - {LIST_COUNT_ATTR} != Attrs(after, map[]) - {LIST_COUNT_ATTR} {
      reasons := reasons + [AttributesChanged];
    }
    var more := EntryReasons(before.children, after.children, delta.Removable(before.tag), delta.Created(before.tag));
    reasons := reasons + more;
  }

  /** The entry part of _bound_list_reasons, after both lists proved well formed. */
  method EntryReasons(was: seq<Element>, now: seq<Element>, removable: set<string>, created: set<string>)
      returns (reasons: seq<Reason>)
    requires (forall e :: e in was ==> Named(e)) && (forall e :: e in now ==> Named(e)) && DistinctIds(View(was))
    ensures reasons == [] <==> EntriesEdited(View(was), View(now), removable, created)
  {
    ghost var v, w := View(was), View(now);
    var index, lost, changed, kept := MatchEntries(was, now, v, w);
    reasons := changed;
    if exists id :: id in lost && id !in removable {
      reasons := reasons + [NotRemovable];
    }
    assert (forall id :: id in lost ==> id in removable) <==> DropsOnly(kept, v, removable);
    var ok := AppendedCreated(was, now, index, created, v, w);
    if !ok {
      reasons := reasons + [NotCreated];
    }
    MatchDecides(v, w, removable, created);
    MatchOrdered(v, w, 0, 0);
  }

  /** The last check: every entry past the matched ones is created here and has a fresh Id. */
  method AppendedCreated(was: seq<Element>, now: seq<Element>, index: nat, created: set<string>, ghost v: seq<Entry>,
      ghost w: seq<Entry>)
    returns (ok: bool)
    requires index <= |now| && IsView(v, was) && IsView(w, now)
    ensures ok <==> AppendsOnly(index, v, w, created)
  {
    var oldIds := set e | e in was :: EntryId(e);
    UsedIds(was, oldIds, v);
    ok := true;
    for k := index to |now|
      invariant ok <==> forall m :: index <= m < k ==> w[m].id in created && !UsedId(w[m].id, v)
    {
      var ident := EntryId(now[k]);
      assert ident == w[k].id;
      ok := ok && ident in created && ident !in oldIds;
    }
  }

  lemma UsedIds(es: seq<Element>, ids: set<string>, v: seq<Entry>)
    requires ids == (set e | e in es :: EntryId(e)) && IsView(v, es)
    ensures forall id :: id in ids <==> UsedId(id, v)
  {
    forall id | id in ids ensures UsedId(id, v) {
      var e :| e in es && EntryId(e) == id;
      var i :| 0 <= i < |es| && es[i] == e;
      assert v[i].id == id;
    }
  }
}
