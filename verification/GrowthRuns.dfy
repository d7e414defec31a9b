/** Whole runs of accepted edits: growth composes, so the first and the last document are themselves related. */
module GrowthRuns {
  import opened Text
  import opened Hwpml
  import opened BoundLists
  import opened HeadGrowth

  /** Every entry of every growable list under e carries an Id. */
  predicate IdsCarried(e: Element) {
    e.tag in REFERENCE_BOUND_LISTS
    || if e.tag in GROWABLE_HEAD_LISTS then forall c :: c in e.children ==> ENTRY_ID_ATTR in c.attrib
       else forall c :: c in e.children ==> IdsCarried(c)
  }

  /** The edit frees no list's Count (the source frees only HEAD's SecCnt). */
  predicate CountBound(allow: Allow) {
    forall t :: t in GROWABLE_HEAD_LISTS ==> LIST_COUNT_ATTR !in Allowed(allow, t)
  }

  // ------------------------------------------------------------ reference-bound lists under an empty delta

  lemma {:induction false} IncreasingFrom(kept: seq<nat>, k: nat)
    requires k < |kept| && forall i, j :: 0 <= i < j < |kept| ==> kept[i] < kept[j]
    ensures kept[k] >= k
  {
    if k > 0 { IncreasingFrom(kept, k - 1); }
  }

  lemma {:induction false} KeptIsIdentity(kept: seq<nat>, n: nat, i: nat)
    requires forall k :: 0 <= k < |kept| ==> kept[k] < n
    requires forall k, l :: 0 <= k < l < |kept| ==> kept[k] < kept[l]
    requires forall k :: 0 <= k < n ==> k in kept
    requires i <= n
    ensures i <= |kept| && forall k :: 0 <= k < i ==> kept[k] == k
  {
    if i > 0 {
      KeptIsIdentity(kept, n, i - 1);
      assert (i - 1) in kept;
      var k :| 0 <= k < |kept| && kept[k] == i - 1;
      IncreasingFrom(kept, k);
      IncreasingFrom(kept, i - 1);
    }
  }

  /** With nothing to remove and nothing created, an edited list keeps its entries. */
  lemma EditedByNothing(was: seq<Entry>, now: seq<Entry>)
    ensures EntriesEdited(was, now, {}, {}) <==> was == now
  {
    if EntriesEdited(was, now, {}, {}) {
      var kept :| EditBy(kept, was, now, {}, {});
      OnlyKept(kept, was, now);
    }
    if was == now {
      var kept: seq<nat> := seq(|was|, i => i);
      forall i | 0 <= i < |was| ensures i in kept { assert kept[i] == i; }
      assert Selects(kept, was, now);
      assert EditBy(kept, was, now, {}, {});
    }
  }

  lemma OnlyKept(kept: seq<nat>, was: seq<Entry>, now: seq<Entry>)
    requires EditBy(kept, was, now, {}, {})
    ensures was == now
  {
    KeptIsIdentity(kept, |was|, |was|);
    if kept != [] { IncreasingFrom(kept, |kept| - 1); }
    assert |kept| == |was|;
    SomethingAppended(|kept|, was, now);
  }

  lemma SomethingAppended(n: nat, was: seq<Entry>, now: seq<Entry>)
    ensures |now| > n ==> !AppendsOnly(n, was, now, {})
  {
    if |now| > n { assert now[n].id !in {}; }
  }

  /** What BoundEdited comes to under the empty delta. */
  ghost predicate BoundKept(a: Element, b: Element)
    requires a.tag == b.tag && a.tag in REFERENCE_BOUND_LISTS
  {
    || Same(a, b)
    || (&& WellFormedList(a) && WellFormedList(b)
        && Attrs(a, map[]) - {LIST_COUNT_ATTR} == Attrs(b, map[]) - {LIST_COUNT_ATTR}
        && View(a.children) == View(b.children))
  }

  lemma BoundEditedByNothing(a: Element, b: Element)
    requires a.tag == b.tag && a.tag in REFERENCE_BOUND_LISTS
    ensures BoundEdited(a, b, NO_DELTA) <==> BoundKept(a, b)
  {
    EditedByNothing(View(a.children), View(b.children));
  }

  lemma BoundKeptTransitive(a: Element, b: Element, c: Element)
    requires a.tag == b.tag == c.tag && a.tag in REFERENCE_BOUND_LISTS
    requires BoundKept(a, b) && BoundKept(b, c)
    ensures BoundKept(a, c)
  {
    if Same(a, b) {
      SameView(a, b);
      if !Same(b, c) { SameWellFormed(b, a); }
    } else if Same(b, c) {
      SameView(b, c);
      SameWellFormed(b, c);
    }
  }

  lemma GoneIsEmpty(e: Element)
    requires e.tag in REFERENCE_BOUND_LISTS
    ensures e.children != [] ==> !MayGo(e, NO_DELTA)
  {
    if e.children != [] { assert e.children[0] in e.children; }
  }

  /** A list that may vanish could have vanished before an edit that kept it. */
  lemma MayGoBefore(a: Element, b: Element)
    requires a.tag == b.tag && a.tag in REFERENCE_BOUND_LISTS && BoundKept(a, b) && MayGo(b, NO_DELTA)
    ensures MayGo(a, NO_DELTA)
  {
    GoneIsEmpty(b);
    if Same(a, b) { SameView(a, b); SameWellFormed(b, a); }
    assert |View(a.children)| == |View(b.children)|;
  }

  // ------------------------------------------------------------ growable lists

  /** Ids of a list grown twice are fresh over the whole growth unless absent Ids were mixed with present ones. */
  lemma IdsFreshCompose(p: seq<Option<string>>, q: seq<Option<string>>, r: seq<Option<string>>)
    requires q != [] ==> IdsFresh(p, q)
    requires r != [] ==> IdsFresh(p + q, r)
    requires q + r != []
    ensures IdsFresh(p, q + r) <==> (forall x :: x in p + q + r ==> x.None?) || None !in q + r
  {
    assert (q + r)[0] in q + r;
    if None !in q + r {
      FreshPresent(p, q, r);
    }
  }

  lemma FreshPresent(p: seq<Option<string>>, q: seq<Option<string>>, r: seq<Option<string>>)
    requires q != [] ==> IdsFresh(p, q)
    requires r != [] ==> IdsFresh(p + q, r)
    requires None !in q + r
    ensures IdsFresh(p, q + r)
  {
    var s := q + r;
    assert q != [] ==> q[0] in q && q[0] in s;
    assert r != [] ==> r[0] in r && r[0] in s;
    forall i, j | 0 <= i < j < |s| ensures s[i] != s[j] {
      if i < |q| <= j { assert s[i] in p + q && s[j] == r[j - |q|]; }
    }
    forall i | 0 <= i < |s| ensures s[i] !in p {
      if |q| <= i { assert s[i] == r[i - |q|] && s[i] !in p + q; }
    }
    if p == Numbered(0, |p|) {
      assert p + q == Numbered(0, |p + q|);
      assert s == Numbered(|p|, |s|);
    }
  }

  lemma IdsOf(es: seq<Element>, fs: seq<Element>)
    requires |es| == |fs| && forall i :: 0 <= i < |es| ==> Same(es[i], fs[i])
    ensures Ids(es) == Ids(fs)
  {
    forall i | 0 <= i < |es| ensures Ids(es)[i] == Ids(fs)[i] { SameKeeps(es[i], fs[i], ENTRY_ID_ATTR); }
  }

  lemma TagOf(a: Element, b: Element)
    requires Same(a, b)
    ensures a.tag == b.tag
  {
    SameParts(a, b);
  }

  lemma EntryTagKept(a: Element, b: Element)
    requires a.tag == b.tag && a.tag in GROWABLE_HEAD_LISTS && ListGrown(a, b)
    ensures EntryTag(a) == EntryTag(b)
  {
    var n := |a.children|;
    forall i | 0 <= i < n ensures b.children[i].tag == a.children[i].tag { TagOf(a.children[i], b.children[i]); }
    forall i | n <= i < |b.children|
        ensures b.children[i].tag == EntryTag(a) { assert Appended(a, b)[i - n] == b.children[i]; }
    if n > 0 {
      if forall c :: c in a.children ==> c.tag == a.children[0].tag {
        forall i | 0 <= i < |b.children| ensures b.children[i].tag == a.children[0].tag {
          if i < n { assert a.children[i] in a.children; }
        }
      } else {
        var c :| c in a.children && c.tag != a.children[0].tag;
        var i :| 0 <= i < n && a.children[i] == c;
        assert b.children[i] in b.children && b.children[i].tag != b.children[0].tag;
      }
    }
  }

  lemma OwnCount(a: Element, b: Element, allow: Allow)
    requires a.tag == b.tag && a.tag in GROWABLE_HEAD_LISTS && OwnKept(a, b, allow) && CountBound(allow)
            && Appended(a, b) == []
    ensures a.Get(LIST_COUNT_ATTR) == b.Get(LIST_COUNT_ATTR)
  {
    var f := FreeAttrs(a, b, allow);
    assert LIST_COUNT_ATTR !in f;
    assert Attrs(a, map[]) - f == Attrs(b, map[]) - f;
    assert LIST_COUNT_ATTR in a.attrib <==> LIST_COUNT_ATTR in Attrs(a, map[]) - f;
    assert LIST_COUNT_ATTR in b.attrib <==> LIST_COUNT_ATTR in Attrs(b, map[]) - f;
  }

  lemma OwnKeptTransitive(a: Element, b: Element, c: Element, allow: Allow)
    requires a.tag == b.tag == c.tag && OwnKept(a, b, allow) && OwnKept(b, c, allow)
    requires a.tag in GROWABLE_HEAD_LISTS ==> |a.children| <= |b.children| <= |c.children|
    ensures OwnKept(a, c, allow)
  {
    if a.tag !in VIEW_STATE_HEAD_TAGS {
      var f, g, h := FreeAttrs(a, b, allow), FreeAttrs(b, c, allow), FreeAttrs(a, c, allow);
      if a.tag in GROWABLE_HEAD_LISTS && |a.children| < |c.children| {
        assert Appended(a, c) == c.children[|a.children|..];
      }
      assert f <= h && g <= h;
      assert Attrs(a, map[]) - h == (Attrs(a, map[]) - f) - h && Attrs(b, map[]) - h == (Attrs(b, map[]) - f) - h;
      assert Attrs(b, map[]) - h == (Attrs(b, map[]) - g) - h && Attrs(c, map[]) - h == (Attrs(c, map[]) - g) - h;
    }
  }

  lemma EntriesCompose(a: Element, b: Element, c: Element)
    requires a.tag == b.tag == c.tag && a.tag in GROWABLE_HEAD_LISTS && ListGrown(a, b) && ListGrown(b, c)
    ensures EntriesGrown(a, c)
  {
    EntryTagKept(a, b);
    SamePrefixes(a.children, b.children, c.children);
    AppendedTags(a, b);
    AppendedTags(b, c);
    forall i | |a.children| <= i < |c.children| ensures c.children[i].tag == EntryTag(a) { }
  }

  lemma AppendedTags(a: Element, b: Element)
    requires a.tag in GROWABLE_HEAD_LISTS && EntriesGrown(a, b)
    ensures forall i :: |a.children| <= i < |b.children| ==> b.children[i].tag == EntryTag(a)
  {
    forall i | |a.children| <= i < |b.children| ensures b.children[i].tag == EntryTag(a) {
      assert Appended(a, b)[i - |a.children|] == b.children[i];
    }
  }

  lemma SamePrefixes(p: seq<Element>, q: seq<Element>, r: seq<Element>)
    requires |p| <= |q| <= |r|
    requires forall i :: 0 <= i < |p| ==> Same(p[i], q[i])
    requires forall i :: 0 <= i < |q| ==> Same(q[i], r[i])
    ensures forall i :: 0 <= i < |p| ==> Same(p[i], r[i])
    ensures forall i :: 0 <= i < |q| ==> r[i].tag == q[i].tag
  {
    forall i | 0 <= i < |p| ensures Same(p[i], r[i]) { assert Same(p[i], q[i]) && Same(q[i], r[i]); }
    forall i | 0 <= i < |q| ensures r[i].tag == q[i].tag { TagOf(q[i], r[i]); }
  }

  lemma CountsCompose(a: Element, b: Element, c: Element, allow: Allow)
    requires a.tag == b.tag == c.tag && a.tag in GROWABLE_HEAD_LISTS && CountBound(allow)
    requires ListGrown(a, b) && ListGrown(b, c) && OwnKept(a, b, allow) && OwnKept(b, c, allow)
    requires |a.children| < |c.children|
    ensures CountFollows(a.Get(LIST_COUNT_ATTR), c.Get(LIST_COUNT_ATTR), |Appended(a, c)|)
  {
    if |a.children| == |b.children| { OwnCount(a, b, allow); }
    if |b.children| == |c.children| { OwnCount(b, c, allow); }
    assert |a.children| < |b.children| ==> Appended(a, b) != [];
    assert |b.children| < |c.children| ==> Appended(b, c) != [];
  }

  /** Ids of a sequence cut in two. */
  lemma IdsCut(es: seq<Element>, n: nat)
    requires n <= |es|
    ensures Ids(es) == Ids(es[..n]) + Ids(es[n..])
  {
  }

  /** The Ids of a list grown twice: the original ones, those of the first growth, those of the second. */
  lemma IdsSliced(b: seq<Element>, c: seq<Element>, n: nat)
    requires n <= |b| <= |c| && forall k :: 0 <= k < |b| ==> Same(b[k], c[k])
    ensures Ids(c[..n]) == Ids(b[..n])
    ensures Ids(c[..|b|]) == Ids(b[..n]) + Ids(b[n..])
    ensures Ids(c[n..]) == Ids(b[n..]) + Ids(c[|b|..])
    ensures Ids(c) == Ids(b[..n]) + Ids(b[n..]) + Ids(c[|b|..])
  {
    var m := |b|;
    SliceSame(b, c, 0, n);
    SliceSame(b, c, n, m);
    assert b[0..n] == b[..n] && c[0..n] == c[..n] && b[n..m] == b[n..];
    IdsCut(c, m);
    IdsCut(c[..m], n);
    assert c[..m][..n] == c[..n] && c[..m][n..] == c[n..m];
    IdsCut(c[n..], m - n);
    assert c[n..][..m - n] == c[n..m] && c[n..][m - n..] == c[m..];
  }

  lemma SliceSame(p: seq<Element>, q: seq<Element>, i: nat, j: nat)
    requires i <= j <= |p| <= |q| && forall k :: 0 <= k < |p| ==> Same(p[k], q[k])
    ensures Ids(p[i..j]) == Ids(q[i..j])
  {
    assert forall k :: 0 <= k < j - i ==> p[i..j][k] == p[i + k] && q[i..j][k] == q[i + k];
    IdsOf(p[i..j], q[i..j]);
  }

  /** Absent and present Ids are not mixed in what a list gained. */
  predicate IdsUniform(a: Element, c: Element)
  {
    |a.children| == |c.children| || (forall x :: x in Ids(c.children) ==> x.None?) || None !in Ids(Appended(a, c))
  }

  lemma IdsCompose(a: Element, b: Element, c: Element)
    requires a.tag == b.tag == c.tag && a.tag in GROWABLE_HEAD_LISTS && ListGrown(a, b) && ListGrown(b, c)
    requires |a.children| < |c.children|
    ensures FreshIn(a, c) <==> IdsUniform(a, c)
  {
    IdsSliced(b.children, c.children, |a.children|);
    assert Appended(a, b) == b.children[|a.children|..] && Appended(b, c) == c.children[|b.children|..];
    IdsFreshCompose(Ids(b.children[..|a.children|]), Ids(Appended(a, b)), Ids(Appended(b, c)));
  }

  lemma ListsCompose(a: Element, b: Element, c: Element, allow: Allow)
    requires a.tag == b.tag == c.tag && a.tag in GROWABLE_HEAD_LISTS && CountBound(allow)
    requires ListGrown(a, b) && ListGrown(b, c) && OwnKept(a, b, allow) && OwnKept(b, c, allow)
    ensures |a.children| <= |c.children| && (ListGrown(a, c) <==> IdsUniform(a, c))
  {
    EntriesCompose(a, b, c);
    if |a.children| < |c.children| {
      CountsCompose(a, b, c, allow);
      IdsCompose(a, b, c);
    } else {
      assert Appended(a, c) == [];
    }
  }

  lemma GrownList(a: Element, b: Element, allow: Allow)
    requires a.tag in GROWABLE_HEAD_LISTS
    ensures Grown(a, b, allow, NO_DELTA) <==> a.tag == b.tag && OwnKept(a, b, allow) && ListGrown(a, b)
  {
  }

  /** Two growths of one list make one growth exactly when the appended entries do not mix absent and present Ids. */
  lemma {:induction false} ListGrowthComposes(a: Element, b: Element, c: Element, allow: Allow)
    requires a.tag in GROWABLE_HEAD_LISTS && CountBound(allow)
    requires Grown(a, b, allow, NO_DELTA) && Grown(b, c, allow, NO_DELTA)
    ensures |a.children| <= |c.children| && (Grown(a, c, allow, NO_DELTA) <==> IdsUniform(a, c))
  {
    GrownList(a, b, allow);
    GrownList(b, c, allow);
    GrownList(a, c, allow);
    ListsCompose(a, b, c, allow);
    OwnKeptTransitive(a, b, c, allow);
  }

  // ------------------------------------------------------------ children in order

  lemma WithoutNothing(es: seq<Element>)
    ensures Without(es, {}) == es
  {
  }

  lemma WithoutTwice(es: seq<Element>, g: set<string>, h: set<string>)
    ensures Without(Without(es, g), h) == Without(es, g + h)
  {
  }

  /** A list that holds only entries the edit creates cannot appear when it creates none. */
  lemma NoneMayAppear(parent: Element, e: Element, siblings: seq<Element>)
    requires e.tag in REFERENCE_BOUND_LISTS
    ensures !MayAppear(parent, e, siblings, NO_DELTA)
  {
    assert e.children != [] ==> e.children[0] in e.children;
  }

  /** Under the empty delta no list appears. */
  lemma NothingAppears(a: Element, b: Element)
    requires ListsAccounted(a, b, NO_DELTA)
    ensures OnlyIn(b.children, a.children) == {} && KeptNew(a, b) == b.children
  {
    forall t ensures t !in OnlyIn(b.children, a.children) {
      if t in OnlyIn(b.children, a.children) {
        CountFinds(b.children, t);
        var e :| e in b.children && e.tag == t;
        NoneMayAppear(a, e, b.children);
        assert false;
      }
    }
    WithoutNothing(b.children);
  }

  /** Filtering two lists that agree on tags keeps corresponding elements together. */
  lemma {:induction false} FilterTogether(xs: seq<Element>, ys: seq<Element>, drop: set<string>)
    requires SameTags(xs, ys)
    ensures |Without(xs, drop)| == |Without(ys, drop)|
    ensures forall i :: 0 <= i < |Without(xs, drop)| ==>
              exists k :: 0 <= k < |xs| && Without(xs, drop)[i] == xs[k] && Without(ys, drop)[i] == ys[k]
  {
    if xs != [] {
      forall i | 0 <= i < |xs| - 1 ensures xs[1..][i].tag == ys[1..][i].tag { assert xs[i + 1].tag == ys[i + 1].tag; }
      FilterTogether(xs[1..], ys[1..], drop);
      var n := if xs[0].tag in drop then 0 else 1;
      assert xs[0].tag == ys[0].tag;
      forall i | 0 <= i < |Without(xs, drop)|
        ensures exists k :: 0 <= k < |xs| && Without(xs, drop)[i] == xs[k] && Without(ys, drop)[i] == ys[k]
      {
        if i >= n {
          var k :| 0 <= k < |xs[1..]| && Without(xs[1..], drop)[i - n] == xs[1..][k]
              && Without(ys[1..], drop)[i - n] == ys[1..][k];
          assert xs[1..][k] == xs[k + 1] && ys[1..][k] == ys[k + 1];
        }
      }
    }
  }

  /** What an edit leaves of an element's children: lists go only where they may, the kept children keep their tags in
      order. */
  ghost predicate Shaped(a: Element, b: Element) {
    ListsAccounted(a, b, NO_DELTA) && SameTags(KeptOld(a, b), KeptNew(a, b))
  }

  lemma GrownShaped(a: Element, b: Element, allow: Allow)
    requires ChildrenGrown(a, b, allow, NO_DELTA)
    ensures Shaped(a, b) && KeptNew(a, b) == b.children
  {
    NothingAppears(a, b);
    forall i | 0 <= i < |b.children| ensures KeptOld(a, b)[i].tag == b.children[i].tag {
      assert Grown(KeptOld(a, b)[i], b.children[i], allow, NO_DELTA);
    }
  }

  lemma PairedTags(a: Element, b: Element)
    requires Shaped(a, b)
    ensures SameTags(KeptOld(a, b), b.children) && OnlyIn(b.children, a.children) == {} && KeptNew(a, b) == b.children
    ensures forall t :: CountTag(b.children, t) == if t in OnlyIn(a.children, b.children) then 0
              else CountTag(a.children, t)
  {
    NothingAppears(a, b);
    var gone := OnlyIn(a.children, b.children);
    forall t ensures CountTag(b.children, t) == if t in gone then 0 else CountTag(a.children, t) {
      CountSameTags(KeptOld(a, b), b.children, t);
      CountWithout(a.children, gone, t);
    }
  }

  /** What went over two edits is what went in either. */
  lemma GoneOverTwo(a: Element, b: Element, c: Element)
    requires Shaped(a, b) && Shaped(b, c)
    ensures OnlyIn(a.children, c.children) == OnlyIn(a.children, b.children) + OnlyIn(b.children, c.children)
    ensures OnlyIn(c.children, a.children) == {}
  {
    PairedTags(a, b);
    PairedTags(b, c);
    forall t ensures t in OnlyIn(a.children, c.children) <==>
        t in OnlyIn(a.children, b.children) + OnlyIn(b.children, c.children) {
      assert CountTag(b.children, t) == if t in OnlyIn(a.children, b.children) then 0 else CountTag(a.children, t);
      assert CountTag(c.children, t) == if t in OnlyIn(b.children, c.children) then 0 else CountTag(b.children, t);
    }
    forall t ensures t !in OnlyIn(c.children, a.children) {
      assert CountTag(b.children, t) == if t in OnlyIn(a.children, b.children) then 0 else CountTag(a.children, t);
      assert CountTag(c.children, t) == if t in OnlyIn(b.children, c.children) then 0 else CountTag(b.children, t);
    }
  }

  /** The children still there after two edits, each with the one it became in between. */
  lemma Between(a: Element, b: Element, c: Element, allow: Allow, i: nat) returns (x: Element, y: Element)
    requires ChildrenGrown(a, b, allow, NO_DELTA) && Shaped(b, c) && i < |c.children|
    ensures |KeptOld(a, c)| == |c.children| && x == KeptOld(a, c)[i] && x in a.children
    ensures Grown(x, y, allow, NO_DELTA) && |KeptOld(b, c)| == |c.children| && y == KeptOld(b, c)[i]
  {
    GrownShaped(a, b, allow);
    PairedTags(a, b);
    PairedTags(b, c);
    GoneOverTwo(a, b, c);
    NothingAppears(a, b);
    NothingAppears(b, c);
    var g, h := OnlyIn(a.children, b.children), OnlyIn(b.children, c.children);
    WithoutTwice(a.children, g, h);
    FilterTogether(KeptOld(a, b), b.children, h);
    var k :| 0 <= k < |b.children| && Without(KeptOld(a, b), h)[i] == KeptOld(a, b)[k]
        && Without(b.children, h)[i] == b.children[k];
    x, y := KeptOld(a, b)[k], b.children[k];
    assert KeptOld(b, c)[i] == y;
  }

  lemma AccountedOverTwo(a: Element, b: Element, c: Element, allow: Allow)
    requires ChildrenGrown(a, b, allow, NO_DELTA) && Shaped(b, c)
    ensures ListsAccounted(a, c, NO_DELTA)
  {
    GrownShaped(a, b, allow);
    PairedTags(a, b);
    GoneOverTwo(a, b, c);
    NothingAppears(a, b);
    forall x | x in a.children && x.tag in OnlyIn(a.children, c.children) ensures MayGo(x, NO_DELTA) {
      if x.tag !in OnlyIn(a.children, b.children) {
        WithoutMembers(a.children, OnlyIn(a.children, b.children));
        assert x in KeptOld(a, b);
        var k :| 0 <= k < |KeptOld(a, b)| && KeptOld(a, b)[k] == x;
        var y := b.children[k];
        assert Grown(x, y, allow, NO_DELTA) && y in b.children && y.tag in OnlyIn(b.children, c.children);
        BoundEditedByNothing(x, y);
        MayGoBefore(x, y);
      }
    }
  }

  /** Over two edits no growable list mixes absent and present Ids among the entries it gained. */
  ghost predicate GrowthUniform(a: Element, c: Element)
    decreases a
  {
    a.tag in REFERENCE_BOUND_LISTS
    || if a.tag in GROWABLE_HEAD_LISTS then IdsUniform(a, c)
       else
         var was, now := KeptOld(a, c), KeptNew(a, c);
         && |was| == |now|
         && forall i :: 0 <= i < |was| ==> assert was[i] in was && was[i] in a.children; GrowthUniform(was[i], now[i])
  }

  lemma NothingLeft(a: Element, b: Element, c: Element, allow: Allow)
    requires ChildrenGrown(a, b, allow, NO_DELTA) && Shaped(b, c) && c.children == []
    ensures KeptOld(a, c) == []
  {
    GrownShaped(a, b, allow);
    PairedTags(a, b);
    PairedTags(b, c);
    GoneOverTwo(a, b, c);
    WithoutTwice(a.children, OnlyIn(a.children, b.children), OnlyIn(b.children, c.children));
    FilterTogether(KeptOld(a, b), b.children, OnlyIn(b.children, c.children));
  }

  /** What two edits of an element that is no list agree on whatever its children did. */
  lemma ComposedShape(a: Element, b: Element, c: Element, allow: Allow)
    requires ChildrenGrown(a, b, allow, NO_DELTA) && Shaped(b, c)
    ensures Shaped(a, c) && KeptNew(a, c) == c.children && |KeptOld(a, c)| == |c.children|
  {
    AccountedOverTwo(a, b, c, allow);
    NothingAppears(a, c);
    PairedTags(b, c);
    if c.children != [] { var x, y := Between(a, b, c, allow, 0); }
    else { NothingLeft(a, b, c, allow); }
    forall i | 0 <= i < |c.children| ensures KeptOld(a, c)[i].tag == c.children[i].tag {
      var x, y := Between(a, b, c, allow, i);
    }
  }

  /** Growth of whole trees composes exactly when no growable list mixes absent and present Ids over the two edits. */
  lemma {:induction false} GrownComposes(a: Element, b: Element, c: Element, allow: Allow)
    requires Grown(a, b, allow, NO_DELTA) && Grown(b, c, allow, NO_DELTA) && CountBound(allow)
    ensures Grown(a, c, allow, NO_DELTA) <==> GrowthUniform(a, c)
    decreases a
  {
    if a.tag in REFERENCE_BOUND_LISTS {
      BoundEditedByNothing(a, b);
      BoundEditedByNothing(b, c);
      BoundKeptTransitive(a, b, c);
      BoundEditedByNothing(a, c);
    } else if a.tag in GROWABLE_HEAD_LISTS {
      ListGrowthComposes(a, b, c, allow);
    } else {
      assert ChildrenGrown(a, b, allow, NO_DELTA) && ChildrenGrown(b, c, allow, NO_DELTA);
      OwnKeptTransitive(a, b, c, allow);
      GrownShaped(b, c, allow);
      ComposedShape(a, b, c, allow);
      var was := KeptOld(a, c);
      forall i | 0 <= i < |was| ensures was[i] in a.children
          && (Grown(was[i], c.children[i], allow, NO_DELTA) <==> GrowthUniform(was[i], c.children[i])) {
        var x, y := Between(a, b, c, allow, i);
        assert Grown(y, c.children[i], allow, NO_DELTA);
        GrownComposes(x, y, c.children[i], allow);
      }
    }
  }

  /** In particular when the last tree's growable lists carry Ids on every entry. */
  lemma {:induction false} CarriedUniform(a: Element, b: Element, c: Element, allow: Allow)
    requires Grown(a, b, allow, NO_DELTA) && Grown(b, c, allow, NO_DELTA)
    requires IdsCarried(c)
    ensures GrowthUniform(a, c)
    decreases a
  {
    if a.tag in REFERENCE_BOUND_LISTS {
    } else if a.tag in GROWABLE_HEAD_LISTS {
      forall i | 0 <= i < |Appended(a, c)|
          ensures Ids(Appended(a, c))[i] != None { assert Appended(a, c)[i] in c.children; }
    } else {
      assert ChildrenGrown(a, b, allow, NO_DELTA) && ChildrenGrown(b, c, allow, NO_DELTA);
      GrownShaped(b, c, allow);
      ComposedShape(a, b, c, allow);
      var was := KeptOld(a, c);
      forall i | 0 <= i < |was| ensures was[i] in a.children && GrowthUniform(was[i], c.children[i]) {
        var x, y := Between(a, b, c, allow, i);
        assert Grown(y, c.children[i], allow, NO_DELTA);
        assert IdsCarried(c.children[i]) by { assert c.children[i] in c.children; }
        CarriedUniform(x, y, c.children[i], allow);
      }
    }
  }

  lemma {:induction false} GrownTransitive(a: Element, b: Element, c: Element, allow: Allow)
    requires Grown(a, b, allow, NO_DELTA) && Grown(b, c, allow, NO_DELTA)
    requires IdsCarried(c) && CountBound(allow)
    ensures Grown(a, c, allow, NO_DELTA)
  {
    CarriedUniform(a, b, c, allow);
    GrownComposes(a, b, c, allow);
  }

  /** An edit accepted under some allowance is accepted under a larger one. */
  lemma {:induction false} GrownMonotone(a: Element, b: Element, allow: Allow, more: Allow, delta: DefinitionDelta)
    requires Grown(a, b, allow, delta) && forall t :: Allowed(allow, t) <= Allowed(more, t)
    ensures Grown(a, b, more, delta)
    decreases a
  {
    if a.tag !in REFERENCE_BOUND_LISTS {
      OwnKeptMonotone(a, b, allow, more);
      if a.tag !in GROWABLE_HEAD_LISTS {
        var was, now := KeptOld(a, b), KeptNew(a, b);
        forall i | 0 <= i < |was| ensures was[i] in a.children && Grown(was[i], now[i], more, delta) {
          assert was[i] in was;
          GrownMonotone(was[i], now[i], allow, more, delta);
        }
      }
    }
  }

  lemma OwnKeptMonotone(a: Element, b: Element, allow: Allow, more: Allow)
    requires OwnKept(a, b, allow) && Allowed(allow, a.tag) <= Allowed(more, a.tag)
    ensures OwnKept(a, b, more)
  {
    if a.tag !in VIEW_STATE_HEAD_TAGS {
      var m, n, f, g := Attrs(a, map[]), Attrs(b, map[]), FreeAttrs(a, b, allow), FreeAttrs(a, b, more);
      assert m - f == n - f && f <= g;
      assert m - g == (m - f) - g && n - g == (n - f) - g;
    }
  }

  // ------------------------------------------------------------ documents and runs

  /** An edit may always leave a tree as it is. */
  lemma {:induction false} GrownReflexive(a: Element, allow: Allow, delta: DefinitionDelta)
    ensures Grown(a, a, allow, delta)
    decreases a
  {
    if a.tag in GROWABLE_HEAD_LISTS {
      assert Appended(a, a) == [];
    } else if a.tag !in REFERENCE_BOUND_LISTS {
      assert OnlyIn(a.children, a.children) == {};
      WithoutNothing(a.children);
      forall i | 0 <= i < |a.children| ensures Grown(a.children[i], a.children[i], allow, delta) {
        GrownReflexive(a.children[i], allow, delta);
      }
    }
  }

  /** Acceptance never refuses an unchanged document. */
  lemma UnchangedAccepted(root: Element, allow: Allow, delta: DefinitionDelta)
    ensures DocumentGrown(root, root, allow, delta)
  {
    var p := Parts(root);
    forall i | 0 <= i < |p| ensures PartKept(p[i], p[i], allow, delta) { GrownReflexive(p[i], allow, delta); }
  }

  predicate DocumentIdsCarried(root: Element) {
    forall p :: p in Parts(root) && p.tag == HEAD_TAG ==> IdsCarried(p)
  }

  lemma DocumentGrownTransitive(a: Element, b: Element, c: Element, allow: Allow)
    requires DocumentGrown(a, b, allow, NO_DELTA) && DocumentGrown(b, c, allow, NO_DELTA)
    requires DocumentIdsCarried(c) && CountBound(allow)
    ensures DocumentGrown(a, c, allow, NO_DELTA)
  {
    var p, q, r := Parts(a), Parts(b), Parts(c);
    forall i | 0 <= i < |p| ensures PartKept(p[i], r[i], allow, NO_DELTA) {
      assert PartKept(p[i], q[i], allow, NO_DELTA) && PartKept(q[i], r[i], allow, NO_DELTA);
      if p[i].tag == HEAD_TAG {
        assert r[i] in Parts(c);
        GrownTransitive(p[i], q[i], r[i], allow);
      }
    }
  }

  lemma DocumentGrownMonotone(a: Element, b: Element, allow: Allow, more: Allow)
    requires DocumentGrown(a, b, allow, NO_DELTA) && forall t :: Allowed(allow, t) <= Allowed(more, t)
    ensures DocumentGrown(a, b, more, NO_DELTA)
  {
    var p, q := Parts(a), Parts(b);
    forall i | 0 <= i < |p| ensures PartKept(p[i], q[i], more, NO_DELTA) {
      assert PartKept(p[i], q[i], allow, NO_DELTA);
      if p[i].tag == HEAD_TAG { GrownMonotone(p[i], q[i], allow, more, NO_DELTA); }
    }
  }

  /** Any number of individually accepted edits, each under its own allowance, is one change accepted under any common
      one. */
  lemma {:induction false} RunGrown(docs: seq<Element>, allows: seq<Allow>, allow: Allow)
    requires |docs| >= 2 && |allows| == |docs| - 1 && CountBound(allow) && DocumentIdsCarried(docs[|docs| - 1])
    requires forall i, t :: 0 <= i < |allows| ==> Allowed(allows[i], t) <= Allowed(allow, t)
    requires forall i :: 0 <= i < |docs| - 1 ==> DocumentGrown(docs[i], docs[i + 1], allows[i], NO_DELTA)
    ensures DocumentGrown(docs[0], docs[|docs| - 1], allow, NO_DELTA)
  {
    assert DocumentGrown(docs[0], docs[0 + 1], allows[0], NO_DELTA);
    DocumentGrownMonotone(docs[0], docs[1], allows[0], allow);
    if |docs| > 2 {
      var rest, others := docs[1..], allows[1..];
      forall i, t | 0 <= i < |others| ensures Allowed(others[i], t) <= Allowed(allow, t) {
        assert others[i] == allows[i + 1];
      }
      forall i | 0 <= i < |rest| - 1 ensures DocumentGrown(rest[i], rest[i + 1], others[i], NO_DELTA) {
        assert rest[i] == docs[i + 1] && rest[i + 1] == docs[(i + 1) + 1] && others[i] == allows[i + 1];
      }
      RunGrown(rest, others, allow);
      DocumentGrownTransitive(docs[0], docs[1], docs[|docs| - 1], allow);
    }
  }

  // ------------------------------------------------------------ exactly when a run is one growth

  /** Every edit of a run is a growth under one allowance. */
  ghost predicate GrowthRun(docs: seq<Element>, allow: Allow) {
    docs != [] && forall i :: 0 <= i < |docs| - 1 ==> Grown(docs[i], docs[i + 1], allow, NO_DELTA)
  }

  lemma RunRest(docs: seq<Element>, allow: Allow)
    requires GrowthRun(docs, allow) && |docs| > 1
    ensures Grown(docs[0], docs[1], allow, NO_DELTA) && GrowthRun(docs[1..], allow)
    ensures Grown(docs[|docs| - 2], docs[|docs| - 1], allow, NO_DELTA) && GrowthRun(docs[..|docs| - 1], allow)
  {
    var rest := docs[1..];
    assert Grown(docs[0], docs[0 + 1], allow, NO_DELTA)
        && Grown(docs[|docs| - 2], docs[|docs| - 2 + 1], allow, NO_DELTA);
    forall i | 0 <= i < |rest| - 1 ensures Grown(rest[i], rest[i + 1], allow, NO_DELTA) {
      assert rest[i] == docs[i + 1] && rest[i + 1] == docs[(i + 1) + 1];
    }
  }

  lemma {:induction false} RunTag(docs: seq<Element>, allow: Allow)
    requires GrowthRun(docs, allow)
    ensures docs[0].tag == docs[|docs| - 1].tag
    decreases |docs|
  {
    if |docs| > 1 {
      RunRest(docs, allow);
      RunTag(docs[1..], allow);
    }
  }

  /** A reference-bound list is kept over the whole run. */
  lemma {:induction false} BoundRun(docs: seq<Element>, allow: Allow)
    requires GrowthRun(docs, allow) && docs[0].tag in REFERENCE_BOUND_LISTS
    ensures Grown(docs[0], docs[|docs| - 1], allow, NO_DELTA)
    decreases |docs|
  {
    var a, c := docs[0], docs[|docs| - 1];
    if |docs| == 1 {
      GrownReflexive(a, allow, NO_DELTA);
    } else {
      RunRest(docs, allow);
      BoundRun(docs[1..], allow);
      BoundEditedByNothing(a, docs[1]);
      BoundEditedByNothing(docs[1], c);
      BoundKeptTransitive(a, docs[1], c);
      BoundEditedByNothing(a, c);
    }
  }

  /** What a list gained up to some edit it has gained up to a later one. */
  lemma UniformEarlier(a: Element, b: Element, c: Element)
    requires a.tag == b.tag == c.tag && b.tag in GROWABLE_HEAD_LISTS && ListGrown(b, c) && |a.children| <= |b.children|
    requires IdsUniform(a, c)
    ensures IdsUniform(a, b)
  {
    var n := |a.children|;
    IdsSliced(b.children, c.children, n);
    IdsCut(b.children, n);
    IdsCut(c.children, |b.children|);
    assert Appended(a, b) == b.children[n..] && Appended(a, c) == c.children[n..];
    assert Ids(c.children) == Ids(b.children) + Ids(c.children[|b.children|..]);
    forall x | x in Ids(b.children) ensures x in Ids(c.children) { }
    forall x | x in Ids(b.children[n..]) ensures x in Ids(c.children[n..]) { }
  }

  lemma FreshUniform(a: Element, c: Element)
    requires a.tag in GROWABLE_HEAD_LISTS && ListGrown(a, c)
    ensures IdsUniform(a, c)
  {
    if |a.children| < |c.children| {
      IdsCut(c.children, |a.children|);
      assert Appended(a, c) == c.children[|a.children|..] && FreshIn(a, c);
    }
  }

  /** A growable list over the whole run: its own attributes are kept, and it is one growth exactly when the Ids are
      uniform. */
  lemma {:induction false} ListRun(docs: seq<Element>, allow: Allow)
    requires GrowthRun(docs, allow) && docs[0].tag in GROWABLE_HEAD_LISTS && CountBound(allow)
    ensures var a, c := docs[0], docs[|docs| - 1];
            && |a.children| <= |c.children| && OwnKept(a, c, allow)
            && (Grown(a, c, allow, NO_DELTA) <==> IdsUniform(a, c))
    decreases |docs|
  {
    var a, c := docs[0], docs[|docs| - 1];
    RunTag(docs, allow);
    if |docs| == 1 {
      GrownReflexive(a, allow, NO_DELTA);
      GrownList(a, a, allow);
    } else {
      var init := docs[..|docs| - 1];
      var b := init[|init| - 1];
      RunRest(docs, allow);
      RunTag(init, allow);
      ListRun(init, allow);
      GrownList(a, b, allow);
      GrownList(b, c, allow);
      GrownList(a, c, allow);
      OwnKeptTransitive(a, b, c, allow);
      if IdsUniform(a, c) {
        UniformEarlier(a, b, c);
        ListsCompose(a, b, c, allow);
      } else if ListGrown(a, c) {
        FreshUniform(a, c);
      }
    }
  }

  lemma {:induction false} OwnRun(docs: seq<Element>, allow: Allow)
    requires GrowthRun(docs, allow) && docs[0].tag !in GROWABLE_HEAD_LISTS && docs[0].tag !in REFERENCE_BOUND_LISTS
    ensures OwnKept(docs[0], docs[|docs| - 1], allow)
    decreases |docs|
  {
    if |docs| == 1 {
      GrownReflexive(docs[0], allow, NO_DELTA);
    } else {
      RunRest(docs, allow);
      RunTag(docs[1..], allow);
      OwnRun(docs[1..], allow);
      OwnKeptTransitive(docs[0], docs[1], docs[|docs| - 1], allow);
    }
  }

  /** The children left over the whole run. */
  lemma {:induction false} ShapedRun(docs: seq<Element>, allow: Allow)
    requires GrowthRun(docs, allow) && docs[0].tag !in GROWABLE_HEAD_LISTS && docs[0].tag !in REFERENCE_BOUND_LISTS
    ensures var a, c := docs[0], docs[|docs| - 1];
            Shaped(a, c) && KeptNew(a, c) == c.children && |KeptOld(a, c)| == |c.children|
    decreases |docs|
  {
    var a, c := docs[0], docs[|docs| - 1];
    if |docs| == 1 {
      GrownReflexive(a, allow, NO_DELTA);
      GrownShaped(a, a, allow);
    } else {
      RunRest(docs, allow);
      ShapedRun(docs[1..], allow);
      ComposedShape(a, docs[1], c, allow);
    }
  }

  lemma KeptItself(a: Element)
    ensures KeptOld(a, a) == a.children
  {
    WithoutNothing(a.children);
    assert OnlyIn(a.children, a.children) == {};
  }

  lemma GrownChildren(a: Element, b: Element, allow: Allow)
    requires Grown(a, b, allow, NO_DELTA) && a.tag !in GROWABLE_HEAD_LISTS && a.tag !in REFERENCE_BOUND_LISTS
    ensures ChildrenGrown(a, b, allow, NO_DELTA) && b.tag == a.tag
  {
  }

  lemma RunInFront(x: Element, rest: seq<Element>, allow: Allow)
    requires GrowthRun(rest, allow) && Grown(x, rest[0], allow, NO_DELTA)
    ensures GrowthRun([x] + rest, allow)
  {
    var run := [x] + rest;
    forall j | 0 <= j < |run| - 1 ensures Grown(run[j], run[j + 1], allow, NO_DELTA) {
      if j > 0 { assert run[j] == rest[j - 1] && run[j + 1] == rest[(j - 1) + 1]; }
    }
  }

  /** The run of edits that made one of the children left. */
  lemma {:induction false} ChildRun(docs: seq<Element>, allow: Allow, i: nat) returns (run: seq<Element>)
    requires GrowthRun(docs, allow) && docs[0].tag !in GROWABLE_HEAD_LISTS && docs[0].tag !in REFERENCE_BOUND_LISTS
    requires i < |docs[|docs| - 1].children|
    ensures var a, c := docs[0], docs[|docs| - 1];
            && GrowthRun(run, allow) && run[|run| - 1] == c.children[i]
            && |KeptOld(a, c)| == |c.children| && run[0] == KeptOld(a, c)[i]
    decreases |docs|
  {
    hide Shaped, Grown, ChildrenGrown, KeptOld, KeptNew;
    var a, c := docs[0], docs[|docs| - 1];
    ShapedRun(docs, allow);
    if |docs| == 1 {
      KeptItself(a);
      run := [a.children[i]];
    } else {
      RunRest(docs, allow);
      ShapedRun(docs[1..], allow);
      GrownChildren(a, docs[1], allow);
      var rest := ChildRun(docs[1..], allow, i);
      var x, y := Between(a, docs[1], c, allow, i);
      RunInFront(x, rest, allow);
      run := [x] + rest;
    }
  }

  /** Any number of growths make one growth exactly when no growable list mixes absent and present Ids among all it
      gained. */
  lemma {:induction false} RunComposes(docs: seq<Element>, allow: Allow)
    requires GrowthRun(docs, allow) && CountBound(allow)
    ensures Grown(docs[0], docs[|docs| - 1], allow, NO_DELTA) <==> GrowthUniform(docs[0], docs[|docs| - 1])
    decreases docs[0]
  {
    var a, c := docs[0], docs[|docs| - 1];
    RunTag(docs, allow);
    if a.tag in REFERENCE_BOUND_LISTS {
      BoundRun(docs, allow);
    } else if a.tag in GROWABLE_HEAD_LISTS {
      ListRun(docs, allow);
    } else {
      OwnRun(docs, allow);
      ShapedRun(docs, allow);
      var was := KeptOld(a, c);
      forall i | 0 <= i < |was| ensures was[i] in a.children
          && (Grown(was[i], c.children[i], allow, NO_DELTA) <==> GrowthUniform(was[i], c.children[i])) {
        var run := ChildRun(docs, allow, i);
        assert was[i] in was;
        RunComposes(run, allow);
      }
    }
  }

  /** What can be checked of the first and the last document. */
  ghost predicate DocumentUniform(a: Element, c: Element) {
    var p, r := Parts(a), Parts(c);
    |p| == |r| && forall i :: 0 <= i < |p| && p[i].tag == HEAD_TAG ==> GrowthUniform(p[i], r[i])
  }

  ghost predicate DocumentRun(docs: seq<Element>, allow: Allow) {
    docs != [] && forall i :: 0 <= i < |docs| - 1 ==> DocumentGrown(docs[i], docs[i + 1], allow, NO_DELTA)
  }

  lemma DocumentRunRest(docs: seq<Element>, allow: Allow)
    requires DocumentRun(docs, allow) && |docs| > 1
    ensures DocumentGrown(docs[0], docs[1], allow, NO_DELTA) && DocumentRun(docs[1..], allow)
  {
    var rest := docs[1..];
    assert DocumentGrown(docs[0], docs[0 + 1], allow, NO_DELTA);
    forall i | 0 <= i < |rest| - 1 ensures DocumentGrown(rest[i], rest[i + 1], allow, NO_DELTA) {
      assert rest[i] == docs[i + 1] && rest[i + 1] == docs[(i + 1) + 1];
    }
  }

  /** The run of edits of one part: of HEAD growths, elsewhere nothing changes. */
  lemma {:induction false} PartRun(docs: seq<Element>, allow: Allow, k: nat) returns (run: seq<Element>)
    requires DocumentRun(docs, allow) && k < |Parts(docs[0])|
    ensures var p, r := Parts(docs[0]), Parts(docs[|docs| - 1]);
            && |p| == |r| && p[k].tag == r[k].tag
            && (p[k].tag == HEAD_TAG ==> GrowthRun(run, allow) && run[0] == p[k] && run[|run| - 1] == r[k])
            && (p[k].tag != HEAD_TAG ==> PartKept(p[k], r[k], allow, NO_DELTA))
    decreases |docs|
  {
    var part := Parts(docs[0])[k];
    if |docs| == 1 {
      run := [part];
    } else {
      DocumentRunRest(docs, allow);
      assert PartKept(part, Parts(docs[1])[k], allow, NO_DELTA);
      var rest := PartRun(docs[1..], allow, k);
      run := [part] + rest;
      if part.tag == HEAD_TAG { RunInFront(part, rest, allow); }
    }
  }

  /** Any number of accepted edits, each under its own allowance, is one accepted change under any common one exactly
      when no growable list mixes absent and present Ids among all it gained. */
  lemma {:induction false} RunGrownExactly(docs: seq<Element>, allows: seq<Allow>, allow: Allow)
    requires |docs| >= 2 && |allows| == |docs| - 1 && CountBound(allow)
    requires forall i, t :: 0 <= i < |allows| ==> Allowed(allows[i], t) <= Allowed(allow, t)
    requires forall i :: 0 <= i < |docs| - 1 ==> DocumentGrown(docs[i], docs[i + 1], allows[i], NO_DELTA)
    ensures DocumentGrown(docs[0], docs[|docs| - 1], allow, NO_DELTA) <==> DocumentUniform(docs[0], docs[|docs| - 1])
  {
    forall i | 0 <= i < |docs| - 1 ensures DocumentGrown(docs[i], docs[i + 1], allow, NO_DELTA) {
      DocumentGrownMonotone(docs[i], docs[i + 1], allows[i], allow);
    }
    assert DocumentRun(docs, allow);
    var p, r := Parts(docs[0]), Parts(docs[|docs| - 1]);
    SamePartCount(docs, allow);
    forall k | 0 <= k < |p|
      ensures PartKept(p[k], r[k], allow, NO_DELTA) <==> (p[k].tag == HEAD_TAG ==> GrowthUniform(p[k], r[k]))
    {
      var run := PartRun(docs, allow, k);
      if p[k].tag == HEAD_TAG { RunComposes(run, allow); }
    }
  }

  lemma {:induction false} SamePartCount(docs: seq<Element>, allow: Allow)
    requires DocumentRun(docs, allow)
    ensures |Parts(docs[0])| == |Parts(docs[|docs| - 1])|
    decreases |docs|
  {
    if |docs| > 1 {
      DocumentRunRest(docs, allow);
      SamePartCount(docs[1..], allow);
    }
  }

  // ------------------------------------------------------------ where composition fails

  function TabDef(attrib: map<string, string>): Element {
    Element("TABDEF", attrib, "", "", [])
  }

  function TabDefList(attrib: map<string, string>, entries: seq<Element>): Element {
    Element("TABDEFLIST", attrib, "", "", entries)
  }

  const BARE: Element := TabDef(map[])
  const NAMED: Element := TabDef(map["Id" := "5"])

  lemma FirstGrowth()
    ensures Grown(TabDefList(map[], []), TabDefList(map[], [BARE]), map[], NO_DELTA)
  {
    var a, b := TabDefList(map[], []), TabDefList(map[], [BARE]);
    assert Appended(a, b) == [BARE];
    assert Ids([BARE]) == [None] && b.children[..0] == [];
  }

  lemma SecondGrowth()
    ensures Grown(TabDefList(map[], [BARE]), TabDefList(map[], [BARE, NAMED]), map[], NO_DELTA)
  {
    var b, c := TabDefList(map[], [BARE]), TabDefList(map[], [BARE, NAMED]);
    assert Appended(b, c) == [NAMED] && c.children[..1] == [BARE];
    assert Ids([BARE]) == [None] && Ids([NAMED]) == [Some("5")];
    assert [None] != Numbered(0, 1) by { assert Numbered(0, 1)[0] == Some(Decimal(0)); }
  }

  /** Without Ids on every entry two accepted edits need not make one: an entry without Id, then one with. */
  lemma MixedIdsDoNotCompose()
    ensures exists a, b, c ::
              Grown(a, b, map[], NO_DELTA) && Grown(b, c, map[], NO_DELTA) && !Grown(a, c, map[], NO_DELTA)
  {
    var a, b, c := TabDefList(map[], []), TabDefList(map[], [BARE]), TabDefList(map[], [BARE, NAMED]);
    FirstGrowth();
    SecondGrowth();
    ListGrowthComposes(a, b, c, map[]);
    assert Appended(a, c) == c.children;
    assert Ids(c.children)[0] == None && Ids(c.children)[1] == Some("5");
    assert Ids(c.children)[1] in Ids(c.children) && Ids(c.children)[0] in Ids(Appended(a, c));
    assert !IdsUniform(a, c);
  }
}
