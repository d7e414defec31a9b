/** HEAD may only grow: the relation an accepted edit keeps, and the recursive comparison that decides it. */
module HeadGrowth {
  import opened Text
  import opened Hwpml
  import opened Signatures
  import opened BoundLists

  type Allow = map<string, set<string>>

  function Allowed(allow: Allow, tag: string): set<string> {
    if tag in allow then allow[tag] else {}
  }

  // ------------------------------------------------------------ children in order

  /** The elements whose tag is not in drop, in order. */
  function Without(es: seq<Element>, drop: set<string>): seq<Element> {
    if es == [] then [] else if es[0].tag in drop then Without(es[1..], drop) else [es[0]] + Without(es[1..], drop)
  }

  lemma {:induction false} WithoutMembers(es: seq<Element>, drop: set<string>)
    ensures forall e :: e in Without(es, drop) <==> e in es && e.tag !in drop
  {
    if es != [] { WithoutMembers(es[1..], drop); }
  }

  function CountTag(es: seq<Element>, tag: string): nat {
    if es == [] then 0 else (if es[0].tag == tag then 1 else 0) + CountTag(es[1..], tag)
  }

  /** Reference-bound lists held once by es and not at all by others. */
  function OnlyIn(es: seq<Element>, others: seq<Element>): set<string> {
    set t | t in REFERENCE_BOUND_LISTS && CountTag(es, t) == 1 && CountTag(others, t) == 0
  }

  ghost predicate SameTags(xs: seq<Element>, ys: seq<Element>) {
    |xs| == |ys| && forall i :: 0 <= i < |xs| ==> xs[i].tag == ys[i].tag
  }

  lemma CountWithout(es: seq<Element>, drop: set<string>, t: string)
    ensures CountTag(Without(es, drop), t) == if t in drop then 0 else CountTag(es, t)
  {
  }

  lemma {:induction false} CountSameTags(xs: seq<Element>, ys: seq<Element>, t: string)
    requires SameTags(xs, ys)
    ensures CountTag(xs, t) == CountTag(ys, t)
  {
    if xs != [] {
      forall i | 0 <= i < |xs| - 1 ensures xs[1..][i].tag == ys[1..][i].tag { assert xs[i + 1].tag == ys[i + 1].tag; }
      CountSameTags(xs[1..], ys[1..], t);
    }
  }

  lemma {:induction false} CountFinds(es: seq<Element>, t: string)
    requires CountTag(es, t) > 0
    ensures exists e :: e in es && e.tag == t
  {
    if es[0].tag != t {
      CountFinds(es[1..], t);
      var e :| e in es[1..] && e.tag == t;
      assert e in es;
    } else {
      assert es[0] in es;
    }
  }

  // ------------------------------------------------------------ the relation

  function EntryTag(e: Element): string
    requires e.tag in GROWABLE_HEAD_LISTS
  {
    if e.children != [] && (forall c :: c in e.children ==> c.tag == e.children[0].tag) then e.children[0].tag
    else GROWABLE_HEAD_LISTS[e.tag]
  }

  function Appended(before: Element, after: Element): seq<Element> {
    if before.tag in GROWABLE_HEAD_LISTS && |before.children| <= |after.children|
        then after.children[|before.children|..] else []
  }

  function FreeAttrs(before: Element, after: Element, allow: Allow): set<string> {
    Allowed(allow, before.tag) + (if Appended(before, after) != [] then {LIST_COUNT_ATTR} else {})
  }

  /** Own attributes and text: unchanged, up to what the edit and the appended entries free; view state is not
      compared. */
  predicate OwnKept(before: Element, after: Element, allow: Allow) {
    && (before.tag in VIEW_STATE_HEAD_TAGS
        || Attrs(before, map[]) - FreeAttrs(before, after, allow) == Attrs(after, map[]) - FreeAttrs(before,
           after, allow))
    && Strip(before.text) == Strip(after.text)
  }

  /** What int() reads from an optional attribute; None when absent or not a number. */
  function Read(value: Option<string>): Option<int> {
    if value.Some? then PyInt(value.value) else None
  }

  /** Count moves by exactly the number of appended entries, or is absent on both sides. */
  predicate Follows(oldPresent: bool, was: Option<int>, newPresent: bool, now: Option<int>, appended: nat) {
    || (!oldPresent && !newPresent)
    || (oldPresent && newPresent && was.Some? && now.Some? && now.value == was.value + appended)
  }

  predicate CountFollows(was: Option<string>, now: Option<string>, appended: nat) {
    Follows(was.Some?, Read(was), now.Some?, Read(now), appended)
  }

  function Ids(es: seq<Element>): (r: seq<Option<string>>)
    ensures |r| == |es|
  {
    seq(|es|, i requires 0 <= i < |es| => es[i].Get(ENTRY_ID_ATTR))
  }

  function Numbered(start: nat, n: nat): (r: seq<Option<string>>)
    ensures |r| == n
  {
    seq(n, i requires 0 <= i < n => Some(Decimal(start + i)))
  }

  /** New Ids are present, distinct and unused, and continue 0..n-1 numbering; or no entry carries an Id. */
  predicate IdsFresh(was: seq<Option<string>>, now: seq<Option<string>>) {
    || ((forall x :: x in was ==> x.None?) && (forall x :: x in now ==> x.None?))
    || (&& None !in now
        && (forall i, j :: 0 <= i < j < |now| ==> now[i] != now[j])
        && (forall i :: 0 <= i < |now| ==> now[i] !in was)
        && (was == Numbered(0, |was|) ==> now == Numbered(|was|, |now|)))
  }

  /** Existing entries are an unchanged prefix; appended ones are of the list's own kind. */
  predicate EntriesGrown(before: Element, after: Element)
    requires before.tag in GROWABLE_HEAD_LISTS
  {
    && |before.children| <= |after.children|
    && (forall i :: 0 <= i < |before.children| ==> Same(before.children[i], after.children[i]))
    && (forall c :: c in Appended(before, after) ==> c.tag == EntryTag(before))
  }

  predicate FreshIn(before: Element, after: Element)
    requires |before.children| <= |after.children|
  {
    IdsFresh(Ids(after.children[..|before.children|]), Ids(Appended(before, after)))
  }

  /** A growable list keeps its entries, appends only its own kind, and stays self-consistent when it grows. */
  predicate ListGrown(before: Element, after: Element)
    requires before.tag in GROWABLE_HEAD_LISTS
  {
    && EntriesGrown(before, after)
    && (Appended(before, after) != [] ==>
          && CountFollows(before.Get(LIST_COUNT_ATTR), after.Get(LIST_COUNT_ATTR), |Appended(before, after)|)
          && FreshIn(before, after))
  }

  /** Whole reference-bound lists that come or go are ones the edit accounts for. */
  predicate ListsAccounted(before: Element, after: Element, delta: DefinitionDelta) {
    && (forall c :: c in after.children && c.tag in OnlyIn(after.children, before.children) ==>
          MayAppear(before, c, after.children, delta))
    && (forall c :: c in before.children && c.tag in OnlyIn(before.children, after.children) ==> MayGo(c, delta))
  }

  function KeptOld(before: Element, after: Element): (r: seq<Element>)
    ensures forall e :: e in r ==> e in before.children
  {
    WithoutMembers(before.children, OnlyIn(before.children, after.children));
    Without(before.children, OnlyIn(before.children, after.children))
  }

  function KeptNew(before: Element, after: Element): (r: seq<Element>)
    ensures forall e :: e in r ==> e in after.children
  {
    WithoutMembers(after.children, OnlyIn(after.children, before.children));
    Without(after.children, OnlyIn(after.children, before.children))
  }

  /** The growth relation: no child is lost, added or reordered except list entries and accounted definition lists. */
  ghost predicate Grown(before: Element, after: Element, allow: Allow, delta: DefinitionDelta) {
    && before.tag == after.tag
    && if before.tag in REFERENCE_BOUND_LISTS then BoundEdited(before, after, delta)
       else
         && OwnKept(before, after, allow)
         && if before.tag in GROWABLE_HEAD_LISTS then ListGrown(before, after)
            else
              && ListsAccounted(before, after, delta)
              && var was, now := KeptOld(before, after), KeptNew(before, after);
                 && |was| == |now|
                 && forall i :: 0 <= i < |was| ==>
                     assert was[i] in was && was[i] in before.children; Grown(was[i], now[i], allow, delta)
  }

  // ------------------------------------------------------------ the comparison

  /** The Count half of _list_growth_reasons, after int() read both values. */
  method CountReasons(oldPresent: bool, was: Option<int>, newPresent: bool, now: Option<int>, appended: nat)
      returns (reasons: seq<Reason>)
    requires (!oldPresent ==> was.None?) && (!newPresent ==> now.None?)
    ensures reasons == [] <==> Follows(oldPresent, was, newPresent, now, appended)
  {
    reasons := [];
    if oldPresent || newPresent {
      var expected := if was.Some? then Some(was.value + appended) else None;
      var malformed := (oldPresent && was.None?) || (newPresent && now.None?);
      if malformed || now != expected { reasons := [CountMismatch]; }
    }
  }

  /** The Id half of _list_growth_reasons. */
  method IdReasons(oldIds: seq<Option<string>>, newIds: seq<Option<string>>) returns (reasons: seq<Reason>)
    ensures reasons == [] <==> IdsFresh(oldIds, newIds)
  {
    reasons := [];
    if (exists x: Option<string> :: x in oldIds && x.Some?) || (exists x: Option<string> :: x in newIds && x.Some?) {
      if None in newIds || (exists i, j :: 0 <= i < j < |newIds| && newIds[i] == newIds[j])
         || (exists i :: 0 <= i < |newIds| && newIds[i] in oldIds) {
        reasons := [IdsNotFresh];
      } else if oldIds == Numbered(0, |oldIds|) && newIds != Numbered(|oldIds|, |newIds|) {
        reasons := [IdsNotFresh];
      }
    }
  }

  /** Existing entries, compared one by one by signature. */
  method EntriesUnchanged(was: seq<Element>, now: seq<Element>) returns (reasons: seq<Reason>)
    requires |was| <= |now| && (forall e :: e in was ==> Named(e)) && (forall e :: e in now ==> Named(e))
    ensures reasons == [] <==> forall i :: 0 <= i < |was| ==> Same(was[i], now[i])
  {
    reasons := [];
    for i := 0 to |was|
      invariant reasons == [] <==> forall k :: 0 <= k < i ==> Same(was[k], now[k])
    {
      var same := Equal(was[i], now[i]);
      if !same { reasons := reasons + [EntryChanged(i)]; }
    }
  }

  /** The growable-list branch of _head_growth_reasons. */
  method ListReasons(before: Element, after: Element) returns (reasons: seq<Reason>)
    requires before.tag in GROWABLE_HEAD_LISTS && Named(before) && Named(after)
    ensures reasons == [] <==> ListGrown(before, after)
  {
    var was, now, entryTag := before.children, after.children, EntryTag(before);
    if |now| < |was| { return [LostEntries]; }
    var appended := now[|was|..];
    reasons := [];
    if exists c :: c in appended && c.tag != entryTag { reasons := reasons + [ForeignEntries]; }
    if appended != [] {
      var oldCount, newCount := before.Get(LIST_COUNT_ATTR), after.Get(LIST_COUNT_ATTR);
      var counts := CountReasons(oldCount.Some?, Read(oldCount), newCount.Some?, Read(newCount), |appended|);
      var ids := IdReasons(Ids(now[..|was|]), Ids(appended));
      reasons := reasons + counts + ids;
    }
    var changed := EntriesUnchanged(was, now);
    reasons := reasons + changed;
  }

  lemma CountPositive(es: seq<Element>, e: Element)
    requires e in es
    ensures CountTag(es, e.tag) > 0
  {
  }

  /** What one side of the merge loop has kept of the first i children. */
  ghost predicate Through(done: seq<Element>, es: seq<Element>, i: nat, drop: set<string>) {
    i <= |es| && done + Without(es[i..], drop) == Without(es, drop)
  }

  lemma ThroughStart(es: seq<Element>, drop: set<string>)
    ensures Through([], es, 0, drop)
  {
    assert es[0..] == es && [] + Without(es, drop) == Without(es, drop);
  }

  lemma ThroughStep(done: seq<Element>, es: seq<Element>, i: nat, drop: set<string>)
    requires Through(done, es, i, drop) && i < |es|
    ensures Through(if es[i].tag in drop then done else done + [es[i]], es, i + 1, drop)
  {
    assert es[i..][0] == es[i] && es[i..][1..] == es[i + 1..];
    if es[i].tag !in drop {
      assert done + ([es[i]] + Without(es[i + 1..], drop)) == (done + [es[i]]) + Without(es[i + 1..], drop);
    }
  }

  /** What comes next on one side: the next kept child, or nothing. */
  lemma ThroughNext(done: seq<Element>, es: seq<Element>, i: nat, drop: set<string>)
    requires Through(done, es, i, drop) && (i < |es| ==> es[i].tag !in drop)
    ensures if i < |es| then |done| < |Without(es, drop)| && Without(es, drop)[|done|] == es[i]
              else Without(es, drop) == done
  {
    if i < |es| {
      assert es[i..][0] == es[i];
      assert (done + Without(es[i..], drop))[|done|] == es[i];
    } else {
      assert es[i..] == [] && done + [] == done;
    }
  }

  /** The verdict on the first i old and first j new children: every list among them that came or went is accounted
      for. */
  ghost predicate Judged(before: Element, after: Element, delta: DefinitionDelta, gone: set<string>, come: set<string>,
      i: nat, j: nat)
    requires gone <= REFERENCE_BOUND_LISTS.Keys && come <= REFERENCE_BOUND_LISTS.Keys
    requires i <= |before.children| && j <= |after.children|
  {
    && (forall k :: 0 <= k < j && after.children[k].tag in come ==>
       MayAppear(before, after.children[k], after.children, delta))
    && (forall k :: 0 <= k < i && before.children[k].tag in gone ==> MayGo(before.children[k], delta))
  }

  lemma JudgedStart(before: Element, after: Element, delta: DefinitionDelta, gone: set<string>, come: set<string>)
    requires gone <= REFERENCE_BOUND_LISTS.Keys && come <= REFERENCE_BOUND_LISTS.Keys
    ensures Judged(before, after, delta, gone, come, 0, 0)
  {
  }

  lemma JudgedStep(before: Element, after: Element, delta: DefinitionDelta, gone: set<string>,
        come: set<string>, i: nat, j: nat)
    requires gone <= REFERENCE_BOUND_LISTS.Keys && come <= REFERENCE_BOUND_LISTS.Keys
    requires i <= |before.children| && j <= |after.children|
    ensures i < |before.children| ==>
      (Judged(before, after, delta, gone, come, i + 1, j) <==>
         Judged(before, after, delta, gone, come, i, j)
             && (before.children[i].tag in gone ==> MayGo(before.children[i], delta)))
    ensures j < |after.children| ==>
      (Judged(before, after, delta, gone, come, i, j + 1) <==>
         Judged(before, after, delta, gone, come, i, j)
         && (after.children[j].tag in come ==> MayAppear(before, after.children[j], after.children, delta)))
  {
  }

  lemma JudgedAll(before: Element, after: Element, delta: DefinitionDelta)
    ensures Judged(before, after, delta, OnlyIn(before.children, after.children),
              OnlyIn(after.children, before.children),
                   |before.children|, |after.children|)
       <==> ListsAccounted(before, after, delta)
  {
  }

  /** A tag held by both sides neither came nor went. */
  lemma SharedTag(was: seq<Element>, now: seq<Element>, i: nat, j: nat)
    requires i < |was| && j < |now| && was[i].tag == now[j].tag
    ensures was[i].tag !in OnlyIn(was, now) && now[j].tag !in OnlyIn(now, was)
  {
    CountPositive(was, was[i]);
    CountPositive(now, now[j]);
  }

  /** No step applies: the kept children do not line up. */
  lemma {:induction false} MergeStuck(was: seq<Element>, now: seq<Element>, gone: set<string>,
        come: set<string>, i: nat, j: nat,
                   olds: seq<Element>, news: seq<Element>)
    requires Through(olds, was, i, gone) && Through(news, now, j, come) && |olds| == |news| && (i < |was| || j < |now|)
    requires (i < |was| ==> was[i].tag !in gone) && (j < |now| ==> now[j].tag !in come)
    requires i < |was| && j < |now| ==> was[i].tag != now[j].tag
    ensures !SameTags(Without(was, gone), Without(now, come))
  {
    ThroughNext(olds, was, i, gone);
    ThroughNext(news, now, j, come);
  }

  /** The merge loop: pairs kept children, judges lists that come or go, or finds the child orders irreconcilable. */
  method PairChildren(before: Element, after: Element, delta: DefinitionDelta)
    returns (olds: seq<Element>, news: seq<Element>, reasons: seq<Reason>, aligned: bool)
    requires Named(before) && Named(after)
    ensures aligned ==> olds == KeptOld(before, after) && news == KeptNew(before, after) && |olds| == |news|
    ensures aligned ==> (reasons == [] <==> ListsAccounted(before, after, delta))
    ensures !aligned ==> reasons != [] && !SameTags(KeptOld(before, after), KeptNew(before, after))
  {
    hide Through, Judged, ListsAccounted, CountTag, SameTags, MayAppear, MayGo, Named;
    var was, now := before.children, after.children;
    var gone, come := OnlyIn(was, now), OnlyIn(now, was);
    olds, news, reasons := [], [], [];
    var i, j := 0, 0;
    ThroughStart(was, gone);
    ThroughStart(now, come);
    JudgedStart(before, after, delta, gone, come);
    while i < |was| || j < |now|
      invariant i <= |was| && j <= |now| && Through(olds, was, i, gone) && Through(news, now, j, come)
              && |olds| == |news|
      invariant reasons == [] <==> Judged(before, after, delta, gone, come, i, j)
      decreases |was| - i + |now| - j
    {
      if i < |was| { ThroughStep(olds, was, i, gone); }
      if j < |now| { ThroughStep(news, now, j, come); }
      JudgedStep(before, after, delta, gone, come, i, j);
      if i < |was| && j < |now| && was[i].tag == now[j].tag {
        SharedTag(was, now, i, j);
        JudgedStep(before, after, delta, gone, come, i + 1, j);
        olds, news, i, j := olds + [was[i]], news + [now[j]], i + 1, j + 1;
      } else if j < |now| && now[j].tag in come {
        if !MayAppear(before, now[j], now, delta) { reasons := reasons + [NewList]; }
        j := j + 1;
      } else if i < |was| && was[i].tag in gone {
        if !MayGo(was[i], delta) { reasons := reasons + [GoneList]; }
        i := i + 1;
      } else {
        MergeStuck(was, now, gone, come, i, j, olds, news);
        return olds, news, reasons + [ChildrenChanged], false;
      }
    }
    ThroughNext(olds, was, i, gone);
    ThroughNext(news, now, j, come);
    JudgedAll(before, after, delta);
    aligned := true;
  }

  /** The attribute and text checks of _head_growth_reasons. */
  method OwnReasons(before: Element, after: Element, allow: Allow) returns (reasons: seq<Reason>)
    ensures reasons == [] <==> OwnKept(before, after, allow)
  {
    reasons := [];
    if before.tag !in VIEW_STATE_HEAD_TAGS
       && Attrs(before, map[]) - FreeAttrs(before, after, allow) != Attrs(after, map[]) - FreeAttrs(before,
          after, allow) {
      reasons := reasons + [AttributesChanged];
    }
    if Strip(before.text) != Strip(after.text) { reasons := reasons + [TextChanged]; }
  }

  /** _head_growth_reasons: appends to out; despite the early stop it stays silent exactly on growth. */
  method HeadGrowthReasons(before: Element, after: Element, allow: Allow, delta: DefinitionDelta, out: seq<Reason>)
      returns (out': seq<Reason>)
    requires Named(before) && Named(after)
    ensures |out| >= MAX_REASONS ==> out' == out
    ensures |out| < MAX_REASONS ==> (out' == out <==> Grown(before, after, allow, delta))
    ensures out <= out'
    decreases before, 1
  {
    out' := out;
    if |out| >= MAX_REASONS { return; }
    if after.tag != before.tag { return out + [Became]; }
    if before.tag in REFERENCE_BOUND_LISTS {
      var found := BoundListReasons(before, after, delta);
      return out + found;
    }
    var own := OwnReasons(before, after, allow);
    out' := out' + own;
    if before.tag in GROWABLE_HEAD_LISTS {
      var found := ListReasons(before, after);
      return out' + found;
    }
    out' := ChildrenReasons(before, after, allow, delta, out, out');
  }

  ghost predicate ChildrenGrown(before: Element, after: Element, allow: Allow, delta: DefinitionDelta) {
    ListsAccounted(before, after, delta)
    && |KeptOld(before, after)| == |KeptNew(before, after)|
    && PairsGrown(KeptOld(before, after), KeptNew(before, after), |KeptOld(before, after)|, allow, delta)
  }

  /** The children branch of _head_growth_reasons: start is the list before this element, out what it holds by now. */
  method ChildrenReasons(before: Element, after: Element, allow: Allow, delta: DefinitionDelta,
        ghost start: seq<Reason>,
      out: seq<Reason>)
    returns (out': seq<Reason>)
    requires Named(before) && Named(after) && start <= out && |start| < MAX_REASONS
    ensures out <= out'
    ensures out' == start <==> out == start && ChildrenGrown(before, after, allow, delta)
    decreases before, 0
  {
    var olds, news, found, aligned := PairChildren(before, after, delta);
    out' := out + found;
    if !aligned {
      NotPaired(KeptOld(before, after), KeptNew(before, after), allow, delta);
      return;
    }
    ghost var clean := out == start && found == [];
    KeptAreChildren(before, after);
    for k := 0 to |olds|
      invariant out <= out' && (out' == start <==> clean && PairsGrown(olds, news, k, allow, delta))
    {
      PairsGrownStep(olds, news, k, allow, delta);
      out' := HeadGrowthReasons(olds[k], news[k], allow, delta, out');
    }
  }

  lemma KeptAreChildren(before: Element, after: Element)
    requires Named(before) && Named(after)
    ensures forall k :: 0 <= k < |KeptOld(before, after)| ==>
        KeptOld(before, after)[k] in before.children && Named(KeptOld(before, after)[k])
    ensures forall k :: 0 <= k < |KeptNew(before, after)| ==> Named(KeptNew(before, after)[k])
  {
  }

  lemma PairsGrownStep(olds: seq<Element>, news: seq<Element>, n: nat, allow: Allow, delta: DefinitionDelta)
    requires n < |olds| == |news|
    ensures PairsGrown(olds, news, n + 1, allow, delta) <==>
        PairsGrown(olds, news, n, allow, delta) && Grown(olds[n], news[n], allow, delta)
  {
  }

  lemma NotPaired(olds: seq<Element>, news: seq<Element>, allow: Allow, delta: DefinitionDelta)
    requires !SameTags(olds, news)
    ensures |olds| == |news| ==> !PairsGrown(olds, news, |olds|, allow, delta)
  {
  }

  ghost predicate PairsGrown(olds: seq<Element>, news: seq<Element>, n: nat, allow: Allow, delta: DefinitionDelta)
    requires n <= |olds| == |news|
  {
    forall k :: 0 <= k < n ==> Grown(olds[k], news[k], allow, delta)
  }

  // ------------------------------------------------------------ the document outside BODY

  const TAIL_IGNORE: Ignore := map["BINDATA" := {"Size"}]

  function Parts(root: Element): (r: seq<Element>)
    ensures forall p :: p in r ==> p in root.children
  {
    WithoutMembers(root.children, {BODY_TAG});
    Without(root.children, {BODY_TAG})
  }

  /** One top-level part: HEAD grows, every other part is unchanged except BINDATA Size. */
  ghost predicate PartKept(was: Element, now: Element, allow: Allow, delta: DefinitionDelta) {
    was.tag == now.tag
    && if was.tag == HEAD_TAG then Grown(was, now, allow, delta)
       else Canon(was, TAIL_IGNORE, {}) == Canon(now, TAIL_IGNORE, {})
  }

  ghost predicate DocumentGrown(before: Element, after: Element, allow: Allow, delta: DefinitionDelta) {
    |Parts(before)| == |Parts(after)| && PartsKept(Parts(before), Parts(after), |Parts(before)|, allow, delta)
  }

  ghost predicate PartsKept(was: seq<Element>, now: seq<Element>, n: nat, allow: Allow, delta: DefinitionDelta)
    requires n <= |was| == |now|
  {
    forall i :: 0 <= i < n ==> PartKept(was[i], now[i], allow, delta)
  }

  method PartReasons(was: Element, now: Element, allow: Allow, delta: DefinitionDelta) returns (reasons: seq<Reason>)
    requires was.tag == now.tag && Named(was) && Named(now)
    ensures reasons == [] <==> PartKept(was, now, allow, delta)
  {
    if was.tag == HEAD_TAG {
      reasons := HeadGrowthReasons(was, now, allow, delta, []);
    } else {
      SignatureFaithful(was, now, TAIL_IGNORE, {});
      reasons := if Signature(was, TAIL_IGNORE, {}) != Signature(now, TAIL_IGNORE, {}) then [PartChanged] else [];
    }
  }

  /** head_tail_reasons: silent exactly when HEAD grew and every other part outside BODY is unchanged. */
  method HeadTailReasons(before: Element, after: Element, allow: Allow, delta: DefinitionDelta)
      returns (reasons: seq<Reason>)
    requires Named(before) && Named(after)
    ensures reasons == [] <==> DocumentGrown(before, after, allow, delta)
    ensures |reasons| <= MAX_REASONS
  {
    reasons := AllPartReasons(Parts(before), Parts(after), allow, delta);
    if |reasons| > MAX_REASONS { reasons := reasons[..MAX_REASONS]; }
  }

  method AllPartReasons(olds: seq<Element>, news: seq<Element>, allow: Allow, delta: DefinitionDelta)
      returns (reasons: seq<Reason>)
    requires (forall e :: e in olds ==> Named(e)) && (forall e :: e in news ==> Named(e))
    ensures reasons == [] <==> |olds| == |news| && PartsKept(olds, news, |olds|, allow, delta)
  {
    if |olds| != |news| { return [PartsChanged]; }
    if i :| 0 <= i < |olds| && olds[i].tag != news[i].tag {
      assert !PartKept(olds[i], news[i], allow, delta);
      return [PartsChanged];
    }
    reasons := [];
    for i := 0 to |olds|
      invariant reasons == [] <==> PartsKept(olds, news, i, allow, delta)
    {
      PartsKeptStep(olds, news, i, allow, delta);
      var found := PartReasons(olds[i], news[i], allow, delta);
      reasons := reasons + found;
    }
  }

  lemma PartsKeptStep(was: seq<Element>, now: seq<Element>, n: nat, allow: Allow, delta: DefinitionDelta)
    requires n < |was| == |now|
    ensures PartsKept(was, now, n + 1, allow, delta) <==>
        PartsKept(was, now, n, allow, delta) && PartKept(was[n], now[n], allow, delta)
  {
  }
}
