/** Who uses a definition, read off the document: the attributes and fields that name it, spelled out. */
module DefinitionUse {
  import opened Text
  import opened Hwpml
  import opened BoundLists
  import opened HeadGrowth
  import opened References
  import opened SectionDefinitions
  import opened HeadAcceptance

  // ------------------------------------------------------------ reading names and commands

  /** lower() on ASCII letters. */
  lemma LowerLetters()
    ensures Lower("ABCDEFGHIJKLMNOPQRSTUVWXYZ") == "abcdefghijklmnopqrstuvwxyz"
    ensures forall s: string :: (forall i :: 0 <= i < |s| ==> s[i] < 'A' || 'Z' < s[i]) ==> Lower(s) == s
    ensures forall s: string, t: string :: Lower(s + t) == Lower(s) + Lower(t)
  {
    assert Lower("ABCDEFGHIJKLMNOPQRSTUVWXYZ") == "abcdefghijklmnopqrstuvwxyz";
    forall s: string, t: string ensures Lower(s + t) == Lower(s) + Lower(t) {
      assert Lower(s + t) == Lower(s) + Lower(t);
    }
  }

  lemma {:induction false} ContainsParts(s: string, part: string) returns (p: string, q: string)
    requires Contains(s, part)
    ensures s == p + part + q
  {
    if StartsWith(s, part) {
      p, q := "", s[|part|..];
    } else {
      p, q := ContainsParts(s[1..], part);
      p := [s[0]] + p;
    }
  }

  lemma {:induction false} ContainsOf(p: string, part: string, q: string)
    ensures Contains(p + part + q, part)
  {
    var s := p + part + q;
    if p == "" {
      assert s[..|part|] == part;
    } else {
      assert s[1..] == p[1..] + part + q;
      ContainsOf(p[1..], part, q);
    }
  }

  lemma ContainsExactly(s: string, part: string)
    ensures Contains(s, part) <==> exists p, q :: s == p + part + q
  {
    if Contains(s, part) { var p, q := ContainsParts(s, part); }
    if p, q :| s == p + part + q { ContainsOf(p, part, q); }
  }

  lemma {:induction false} DigitRunOf(v: string, rest: string)
    requires forall i :: 0 <= i < |v| ==> IsDigit(v[i])
    requires rest == [] || !IsDigit(rest[0])
    ensures DigitRun(v + rest) == v
  {
    if v == [] {
      assert v + rest == rest;
    } else {
      assert (v + rest)[1..] == v[1..] + rest;
      DigitRunOf(v[1..], rest);
    }
  }

  lemma MemoValueExactly(command: string, v: string)
    ensures MemoValue(command) == Some(v) <==> Digits(v) && exists rest :: command == "MEMO/" + v + "/" + rest
  {
    if MemoValue(command) == Some(v) {
      var tail := command[5..];
      assert tail == v + tail[|v|..] && command == command[..5] + tail;
      assert command == "MEMO/" + v + "/" + tail[|v| + 1..];
    }
    if rest :| Digits(v) && command == "MEMO/" + v + "/" + rest {
      assert command[5..] == v + ("/" + rest);
      DigitRunOf(v, "/" + rest);
      assert command[..5] == "MEMO/";
    }
  }

  // ------------------------------------------------------------ who names an entry

  /** The attribute is there and holds that Id, blank text around it aside. */
  predicate Holds(e: Element, key: string, id: string) {
    e.Get(key).Some? && Strip(e.Get(key).value) == id
  }

  /** A heading counts as numbered unless its type is known not to be. */
  predicate HeadingCounts(e: Element) {
    var heading := match e.Get("HeadingType") case None => "" case Some(v) => Lower(Strip(v));
    heading != "none" && heading != "bullet" && heading != "0" && heading != "3"
  }

  predicate NamesNumbering(e: Element, id: string) {
    || (e.tag == "SECDEF" && Holds(e, "OutlineShape", id))
    || (e.tag == "PARASHAPE" && Holds(e, "Heading", id) && HeadingCounts(e))
  }

  /** The field of a memo whose command asks for a memo shape. */
  ghost predicate AsksFor(e: Element, id: string) {
    && e.tag == "FIELDBEGIN" && Digits(id)
    && exists rest :: e.Get("Command") == Some("MEMO/" + id + "/" + rest)
  }

  ghost predicate NamesMemoShape(e: Element, id: string, defined: bool) {
    || (e.tag == "SECDEF" && Holds(e, "MemoShapeId", id))
    || (e.tag != "SECDEF" && exists key, p, q :: Holds(e, key, id) && Lower(key) == p + "memoshape" + q)
    || (AsksFor(e, id) && e.Get("Type") == Some("Memo") && id != "65535" && defined)
  }

  lemma NumberingNames(e: Element, id: string, memoIds: Option<set<string>>)
    ensures Names(e, NUMBERINGLIST, id, memoIds) <==> NamesNumbering(e, id)
  {
    hide Strip, Lower, NumberedHeading, HeadingCounts, IsMemoField, ReadMemo;
    HeadingExactly(e);
  }

  lemma HeadingExactly(e: Element)
    ensures NumberedHeading(e) <==> HeadingCounts(e)
  {
    assert Strip("") == "" && Lower("") == "";
    hide Strip, Lower;
  }

  lemma {:induction false} DigitsStay(s: string)
    requires Digits(s)
    ensures Strip(s) == s
  {
    StripOf("", s, "");
    assert "" + s + "" == s;
  }

  lemma FieldNames(e: Element, id: string, memoIds: Option<set<string>>)
    ensures IsMemoField(e) && ReadMemo(e, memoIds).NamesShape? && Strip(ReadMemo(e, memoIds).id) == id
       <==> && AsksFor(e, id) && e.Get("Type") == Some("Memo") && id != "65535"
            && memoIds.Some? && id in memoIds.value
  {
    if e.Get("Command").Some? {
      var command := e.Get("Command").value;
      var read := MemoValue(command);
      if read.Some? {
        DigitsStay(read.value);
        MemoValueExactly(command, read.value);
      }
      MemoValueExactly(command, id);
      if AsksFor(e, id) && e.Get("Type") == Some("Memo") {
        var rest :| e.Get("Command") == Some("MEMO/" + id + "/" + rest);
        assert command[..5] == "MEMO/" && StartsWith(command, "MEMO/");
      }
      if e.tag == "FIELDBEGIN" && e.Get("Type") == Some("Memo") && read.Some? {
        var rest :| command == "MEMO/" + read.value + "/" + rest;
        assert command[..5] == "MEMO/" && StartsWith(command, "MEMO/");
      }
    }
  }

  lemma MemoShapeNames(e: Element, id: string, memoIds: Option<set<string>>)
    ensures Names(e, MEMOSHAPELIST, id, memoIds) <==> NamesMemoShape(e, id, memoIds.Some? && id in memoIds.value)
  {
    hide Strip, Lower, Contains, AsksFor, IsMemoField, ReadMemo;
    FieldNames(e, id, memoIds);
    forall key ensures MemoShapeAttr(key) <==> exists p, q :: Lower(key) == p + "memoshape" + q {
      ContainsExactly(Lower(key), "memoshape");
    }
    assert (exists a :: a in e.attrib && MemoShapeAttr(a) && Strip(e.attrib[a]) == id)
      <==> (exists key, p, q :: Holds(e, key, id) && Lower(key) == p + "memoshape" + q) by {
      if a :| a in e.attrib && MemoShapeAttr(a) && Strip(e.attrib[a]) == id {
        var p, q :| Lower(a) == p + "memoshape" + q;
        assert Holds(e, a, id);
      }
      if key, p, q :| Holds(e, key, id) && Lower(key) == p + "memoshape" + q {
        assert key in e.attrib && MemoShapeAttr(key);
      }
    }
  }

  /** A numbering is referred to exactly when some SECDEF names it as its outline or some PARASHAPE as its heading. */
  lemma NumberingUsed(root: Element, id: string)
    ensures Referrers(root, "NUMBERINGLIST", id) != [] <==> exists e :: e in Iter(root) && NamesNumbering(e, id)
  {
    hide Names, NamesNumbering, Referrers;
    ReferencedMeansNamed(root, NUMBERINGLIST, id);
    forall e ensures Names(e, NUMBERINGLIST, id, MemoIds(root)) <==> NamesNumbering(e, id) {
      NumberingNames(e, id, MemoIds(root));
    }
  }

  /** A memo shape is referred to exactly when some SECDEF or some attribute named like one holds its Id, or some memo
      field asks for it and it is defined. */
  lemma MemoShapeUsed(root: Element, id: string)
    ensures Referrers(root, "MEMOSHAPELIST", id) != [] <==>
              exists e :: e in Iter(root) && NamesMemoShape(e, id, Resolve(root, "MEMOSHAPELIST", id).Some?)
  {
    hide Names, NamesMemoShape, Referrers;
    ReferencedMeansNamed(root, MEMOSHAPELIST, id);
    var memoIds, defined := MemoIds(root), Resolve(root, MEMOSHAPELIST, id).Some?;
    assert defined <==> memoIds.Some? && id in memoIds.value;
    forall e ensures Names(e, MEMOSHAPELIST, id, memoIds) <==> NamesMemoShape(e, id, defined) {
      MemoShapeNames(e, id, memoIds);
    }
  }

  /** An element names a definition, in either list. */
  ghost predicate Uses(e: Element, listTag: string, id: string, defined: bool) {
    if listTag == "NUMBERINGLIST" then NamesNumbering(e, id) else NamesMemoShape(e, id, defined)
  }

  /** The attribute through which a SECDEF names its definition of a list. */
  function SecDefAttr(listTag: string): string {
    if listTag == "NUMBERINGLIST" then "OutlineShape" else "MemoShapeId"
  }

  lemma UsesAre(root: Element, listTag: string, id: string)
    requires IsBound(listTag)
    ensures forall e :: Names(e, listTag, id, MemoIds(root)) <==>
              Uses(e, listTag, id, Resolve(root, listTag, id).Some?)
  {
    hide Names, NamesNumbering, NamesMemoShape;
    forall e ensures Names(e, listTag, id, MemoIds(root)) <==> Uses(e, listTag, id, Resolve(root, listTag, id).Some?) {
      NumberingNames(e, id, MemoIds(root));
      MemoShapeNames(e, id, MemoIds(root));
    }
  }

  // ------------------------------------------------------------ the only referrer

  lemma RefsCons(e: Element, rest: seq<Element>, secdefs: nat, memos: nat, memoIds: Option<set<string>>)
    ensures RefsFrom([e] + rest, secdefs, memos, memoIds)
         == ElementRefs(e, secdefs, memos, memoIds)
            + RefsFrom(rest, secdefs + (if e.tag == "SECDEF" then 1 else 0), memos + (if IsMemoField(e) then 1 else 0),
                memoIds)
  {
    assert ([e] + rest)[1..] == rest;
  }

  ghost predicate SplitAt(es: seq<Element>, fs: seq<Element>, secdefs: nat, memos: nat, memoIds: Option<set<string>>,
      memos': nat) {
    RefsFrom(es + fs, secdefs, memos, memoIds)
    == RefsFrom(es, secdefs, memos, memoIds) + RefsFrom(fs, secdefs + CountTag(es, "SECDEF"), memos', memoIds)
  }

  /** The reference pass over a run of elements and what follows it. */
  lemma {:induction false} RefsSplit(es: seq<Element>, fs: seq<Element>, secdefs: nat, memos: nat,
      memoIds: Option<set<string>>) returns (memos': nat)
    ensures SplitAt(es, fs, secdefs, memos, memoIds, memos')
  {
    hide SplitAt, IsMemoField;
    if es == [] {
      memos' := memos;
      RefsSplitNone(fs, secdefs, memos, memoIds);
    } else {
      var e, rest := es[0], es[1..];
      var s, m := secdefs + (if e.tag == "SECDEF" then 1 else 0), memos + (if IsMemoField(e) then 1 else 0);
      memos' := RefsSplit(rest, fs, s, m, memoIds);
      assert es == [e] + rest;
      RefsSplitCons(e, rest, fs, secdefs, memos, memoIds, memos');
    }
  }

  lemma RefsSplitNone(fs: seq<Element>, secdefs: nat, memos: nat, memoIds: Option<set<string>>)
    ensures SplitAt([], fs, secdefs, memos, memoIds, memos)
  {
    hide ElementRefs, IsMemoField;
    assert [] + fs == fs && RefsFrom([], secdefs, memos, memoIds) == [] && CountTag([], "SECDEF") == 0;
    assert [] + RefsFrom(fs, secdefs, memos, memoIds) == RefsFrom(fs, secdefs, memos, memoIds);
  }

  lemma RefsSplitCons(e: Element, rest: seq<Element>, fs: seq<Element>, secdefs: nat, memos: nat,
      memoIds: Option<set<string>>, memos': nat)
    requires var s, m := secdefs + (if e.tag == "SECDEF" then 1 else 0), memos + (if IsMemoField(e) then 1 else 0);
             SplitAt(rest, fs, s, m, memoIds, memos')
    ensures SplitAt([e] + rest, fs, secdefs, memos, memoIds, memos')
  {
    hide ElementRefs, IsMemoField, RefsFrom;
    var s, m := secdefs + (if e.tag == "SECDEF" then 1 else 0), memos + (if IsMemoField(e) then 1 else 0);
    RefsCons(e, rest + fs, secdefs, memos, memoIds);
    RefsCons(e, rest, secdefs, memos, memoIds);
    assert ([e] + rest)[1..] == rest && ([e] + rest) + fs == [e] + (rest + fs);
    CatRefs(ElementRefs(e, secdefs, memos, memoIds), RefsFrom(rest, s, m, memoIds),
            RefsFrom(fs, s + CountTag(rest, "SECDEF"), memos', memoIds));
  }

  /** A SECDEF of the run has an index within it. */
  lemma {:induction false} RefsIndexed(es: seq<Element>, secdefs: nat, memos: nat, memoIds: Option<set<string>>, r: Ref)
    requires r in RefsFrom(es, secdefs, memos, memoIds) && r.who.SecDefRef?
    ensures secdefs <= r.who.index < secdefs + CountTag(es, "SECDEF")
  {
    hide ElementRefs, IsMemoField;
    assert es != [];
    var e, rest := es[0], es[1..];
    assert es == [e] + rest;
    RefsIndexedCons(e, rest, secdefs, memos, memoIds, r);
    if r !in ElementRefs(e, secdefs, memos, memoIds) {
      RefsIndexed(rest, secdefs + (if e.tag == "SECDEF" then 1 else 0), memos + (if IsMemoField(e) then 1 else 0),
                  memoIds, r);
    }
  }

  lemma RefsIndexedCons(e: Element, rest: seq<Element>, secdefs: nat, memos: nat, memoIds: Option<set<string>>, r: Ref)
    requires r in RefsFrom([e] + rest, secdefs, memos, memoIds) && r.who.SecDefRef?
    ensures var s, m := secdefs + (if e.tag == "SECDEF" then 1 else 0), memos + (if IsMemoField(e) then 1 else 0);
            if r in ElementRefs(e, secdefs, memos, memoIds) then e.tag == "SECDEF" && r.who.index == secdefs
            else r in RefsFrom(rest, s, m, memoIds)
  {
    hide ElementRefs, IsMemoField, RefsFrom;
    RefsCons(e, rest, secdefs, memos, memoIds);
    if r in ElementRefs(e, secdefs, memos, memoIds) { OwnIndex(e, secdefs, memos, memoIds, r); }
  }

  lemma {:induction false} ShapeRefsWho(e: Element, keys: seq<string>, r: Ref)
    requires r in MemoShapeRefs(e, keys)
    ensures r.who.AttrRef?
  {
    var here := if MemoShapeAttr(keys[0]) then AttrRefs(e, MEMOSHAPELIST, keys[0], AttrRef(e.tag, keys[0])) else [];
    if r !in here { ShapeRefsWho(e, keys[1..], r); }
  }

  lemma OwnIndex(e: Element, secdefs: nat, memos: nat, memoIds: Option<set<string>>, r: Ref)
    requires r in ElementRefs(e, secdefs, memos, memoIds) && r.who.SecDefRef?
    ensures e.tag == "SECDEF" && r.who.index == secdefs
  {
    if e.tag != "SECDEF" && r in MemoShapeRefs(e, SortedKeys(e.attrib.Keys)) {
      ShapeRefsWho(e, SortedKeys(e.attrib.Keys), r);
    }
  }

  lemma WhoNone(es: seq<Element>, secdefs: nat, memos: nat, memoIds: Option<set<string>>, listTag: string, id: string)
    ensures Who(RefsFrom(es, secdefs, memos, memoIds), listTag, id) == [] <==> !AnyNames(es, listTag, id, memoIds)
  {
    var refs := RefsFrom(es, secdefs, memos, memoIds);
    RefsFromName(es, secdefs, memos, memoIds, listTag, id);
    if Refers(refs, listTag, id) {
      var r :| r in refs && r.listTag == listTag && r.id == id;
      WhoFinds(refs, listTag, id, r.who);
    }
    if Who(refs, listTag, id) != [] {
      var who := Who(refs, listTag, id)[0];
      WhoFinds(refs, listTag, id, who);
      assert Ref(listTag, id, who) in refs;
    }
  }

  lemma WhoTwo(a: Ref, b: Ref, listTag: string, id: string)
    ensures Who([a], listTag, id) == if a.listTag == listTag && a.id == id then [a.who] else []
    ensures Who([a, b], listTag, id) == Who([a], listTag, id) + Who([b], listTag, id)
  {
    assert [a][..0] == [] && [a, b][..1] == [a];
    WhoConcat([a], [b], listTag, id);
    assert [a] + [b] == [a, b];
  }

  /** What a SECDEF itself contributes. */
  lemma SecDefOwn(e: Element, secdefs: nat, memos: nat, memoIds: Option<set<string>>, listTag: string, id: string)
    requires e.tag == "SECDEF" && IsBound(listTag)
    ensures Who(ElementRefs(e, secdefs, memos, memoIds), listTag, id)
         == if Holds(e, SecDefAttr(listTag), id) then [SecDefRef(secdefs, SecDefAttr(listTag))] else []
  {
    var n := AttrRefs(e, NUMBERINGLIST, OUTLINE_SHAPE, SecDefRef(secdefs, OUTLINE_SHAPE));
    var m := AttrRefs(e, MEMOSHAPELIST, MEMO_SHAPE_ID, SecDefRef(secdefs, MEMO_SHAPE_ID));
    assert ElementRefs(e, secdefs, memos, memoIds) == n + m;
    WhoConcat(n, m, listTag, id);
    if n != [] { WhoTwo(n[0], n[0], listTag, id); }
    if m != [] { WhoTwo(m[0], m[0], listTag, id); }
  }

  /** The n-th SECDEF is all that refers to a definition exactly when it holds the Id and nothing else in the document
      names it. */
  lemma SoleReferrer(root: Element, listTag: string, id: string, p: nat)
    requires IsBound(listTag) && p < |Iter(root)| && Iter(root)[p].tag == "SECDEF"
    ensures Referrers(root, listTag, id) == [SecDefRef(CountTag(Iter(root)[..p], "SECDEF"), SecDefAttr(listTag))] <==>
        && Holds(Iter(root)[p], SecDefAttr(listTag), id)
        && forall q :: 0 <= q < |Iter(root)| && q != p ==>
             !Uses(Iter(root)[q], listTag, id, Resolve(root, listTag, id).Some?)
  {
    hide RefsFrom, ElementRefs, Iter, Who, Uses, Names, Holds, Resolve;
    var es, memoIds := Iter(root), MemoIds(root);
    var n, who := CountTag(es[..p], "SECDEF"), SecDefRef(CountTag(es[..p], "SECDEF"), SecDefAttr(listTag));
    assert es == es[..p] + ([es[p]] + es[p + 1..]);
    var m := RefsSplit(es[..p], [es[p]] + es[p + 1..], 0, 0, memoIds);
    var m2 := RefsSplit([es[p]], es[p + 1..], n, m, memoIds);
    var a, b, c := RefsFrom(es[..p], 0, 0, memoIds), ElementRefs(es[p], n, m, memoIds),
                   RefsFrom(es[p + 1..], n + CountTag([es[p]], "SECDEF"), m2, memoIds);
    OneElement(es[p], n, m, memoIds);
    assert DocumentRefs(root) == a + (b + c);
    WhoConcat(a, b + c, listTag, id);
    WhoConcat(b, c, listTag, id);
    WhoNone(es[..p], 0, 0, memoIds, listTag, id);
    WhoNone(es[p + 1..], n + 1, m2, memoIds, listTag, id);
    SecDefOwn(es[p], n, m, memoIds, listTag, id);
    assert CountTag([es[p]], "SECDEF") == 1;
    NotElsewhere(es[..p], 0, 0, memoIds, listTag, id, who, n);
    NotElsewhere(es[p + 1..], n + 1, m2, memoIds, listTag, id, who, n);
    UsesAre(root, listTag, id);
    ElsewhereNamed(es, p, listTag, id, memoIds);
    var x, y, z := Who(a, listTag, id), Who(b, listTag, id), Who(c, listTag, id);
    assert Referrers(root, listTag, id) == x + (y + z);
    if x + (y + z) == [who] { assert who in x + (y + z); }
  }

  lemma OneElement(e: Element, secdefs: nat, memos: nat, memoIds: Option<set<string>>)
    ensures RefsFrom([e], secdefs, memos, memoIds) == ElementRefs(e, secdefs, memos, memoIds)
  {
    assert [e][1..] == [];
    var s, m := secdefs + (if e.tag == "SECDEF" then 1 else 0), memos + (if IsMemoField(e) then 1 else 0);
    assert RefsFrom([], s, m, memoIds) == [];
  }

  /** Another stretch of the document does not list the n-th SECDEF. */
  lemma NotElsewhere(es: seq<Element>, secdefs: nat, memos: nat, memoIds: Option<set<string>>, listTag: string,
      id: string, who: Referrer, n: nat)
    requires who.SecDefRef? && who.index == n && (n < secdefs || secdefs + CountTag(es, "SECDEF") <= n)
    ensures who !in Who(RefsFrom(es, secdefs, memos, memoIds), listTag, id)
  {
    var refs := RefsFrom(es, secdefs, memos, memoIds);
    WhoFinds(refs, listTag, id, who);
    if Ref(listTag, id, who) in refs { RefsIndexed(es, secdefs, memos, memoIds, Ref(listTag, id, who)); }
  }

  lemma ElsewhereNamed(es: seq<Element>, p: nat, listTag: string, id: string, memoIds: Option<set<string>>)
    requires p < |es|
    ensures !AnyNames(es[..p], listTag, id, memoIds) && !AnyNames(es[p + 1..], listTag, id, memoIds) <==>
              forall q :: 0 <= q < |es| && q != p ==> !Names(es[q], listTag, id, memoIds)
  {
    hide Names;
    if !AnyNames(es[..p], listTag, id, memoIds) && !AnyNames(es[p + 1..], listTag, id, memoIds) {
      forall q | 0 <= q < |es| && q != p ensures !Names(es[q], listTag, id, memoIds) {
        if q < p { assert es[q] in es[..p]; } else { assert es[q] == es[p + 1..][q - p - 1]; }
      }
    }
    if forall q :: 0 <= q < |es| && q != p ==> !Names(es[q], listTag, id, memoIds) {
      forall e | e in es[..p] ensures !Names(e, listTag, id, memoIds) {
        var q :| 0 <= q < p && es[q] == e;
      }
      forall e | e in es[p + 1..] ensures !Names(e, listTag, id, memoIds) {
        var q :| 0 <= q < |es| - p - 1 && es[p + 1..][q] == e;
        assert es[p + 1 + q] == e;
      }
    }
  }

  // ------------------------------------------------------------ what an Id stands for

  predicate FirstChild(es: seq<Element>, k: nat, tag: string) {
    k < |es| && es[k].tag == tag && forall i :: 0 <= i < k ==> es[i].tag != tag
  }

  lemma {:induction false} FindFirst(es: seq<Element>, k: nat, tag: string)
    requires FirstChild(es, k, tag)
    ensures Find(es, tag) == Some(es[k])
  {
    if k > 0 {
      assert es[0].tag != tag && forall i :: 0 <= i < k - 1 ==> es[1..][i] == es[i + 1];
      FindFirst(es[1..], k - 1, tag);
    }
  }

  /** The only list of its kind, one of whose entries has that Id. */
  ghost predicate DefinedBy(lists: seq<Element>, l: nat, listTag: string, id: string, entry: Element) {
    && OnlyChild(lists, l) && lists[l].tag == listTag && ExactList(lists[l])
    && IdOf(entry) == id && exists i :: 0 <= i < |lists[l].children| && lists[l].children[i] == entry
  }

  lemma ListOf(lists: seq<Element>, listTag: string) returns (l: nat)
    requires CountTag(lists, listTag) == 1
    ensures OnlyChild(lists, l) && lists[l].tag == listTag
  {
    CountNone(lists, listTag);
    l :| 0 <= l < |lists| && lists[l].tag == listTag;
    forall i | 0 <= i < |lists| && i != l ensures lists[i].tag != listTag {
      if i < l { TwiceCounted(lists, i, l); } else { TwiceCounted(lists, l, i); }
    }
  }

  lemma TwiceCounted(es: seq<Element>, i: nat, j: nat)
    requires i < j < |es|
    ensures es[i].tag == es[j].tag ==> CountTag(es, es[i].tag) >= 2
  {
    if es[i].tag == es[j].tag {
      var t := es[i].tag;
      assert es == es[..j] + es[j..];
      CountAppend(es[..j], es[j..], t);
      CountNone(es[..j], t);
      CountNone(es[j..], t);
      assert es[..j][i].tag == t && es[j..][0].tag == t;
    }
  }

  lemma EntryFound(list: Element, id: string)
    requires IsBound(list.tag) && ExactList(list)
    ensures id in IndexOf(list.children) <==> exists i :: 0 <= i < |list.children| && IdOf(list.children[i]) == id
    ensures forall i :: 0 <= i < |list.children| && IdOf(list.children[i]) == id ==>
              id in IndexOf(list.children) && IndexOf(list.children)[id] == list.children[i]
  {
    hide Strip, Decimal;
    var es := list.children;
    assert forall e: Element :: EntryId(e) == IdOf(e);
    assert DistinctIds(View(es));
    if id in IndexOf(es) { var i := IndexFrom(es, id); }
    forall i | 0 <= i < |es| && IdOf(es[i]) == id ensures id in IndexOf(es) && IndexOf(es)[id] == es[i] {
      IndexAt(es, i);
    }
  }

  /** An Id stands for an entry exactly when the mapping table holds just one list of that kind, the list can be read,
      and the entry is in it under that Id. A list that is there twice or cannot be read has no index at all. */
  lemma ResolveExactly(root: Element, h: nat, m: nat, listTag: string, id: string)
    requires FirstChild(root.children, h, "HEAD") && FirstChild(root.children[h].children, m, "MAPPINGTABLE")
    requires IsBound(listTag)
    ensures var lists := root.children[h].children[m].children;
            forall entry :: Resolve(root, listTag, id) == Some(entry) <==>
              exists l: nat :: DefinedBy(lists, l, listTag, id, entry)
    ensures var lists := root.children[h].children[m].children;
            BoundIndex(root, listTag).Some? <==>
              !HasChild(lists, listTag)
              || exists l: nat :: OnlyChild(lists, l) && lists[l].tag == listTag && ExactList(lists[l])
  {
    hide IndexOf, WellFormed, ExactList, IdOf;
    var lists := root.children[h].children[m].children;
    FindFirst(root.children, h, "HEAD");
    FindFirst(root.children[h].children, m, "MAPPINGTABLE");
    assert MappingChildren(root) == lists;
    CountNone(lists, listTag);
    FindIn(lists, listTag);
    if CountTag(lists, listTag) == 1 {
      var l := ListOf(lists, listTag);
      FindFirst(lists, l, listTag);
      ExactListExactly(lists[l]);
      TheList(lists, l);
      if ExactList(lists[l]) {
        EntryFound(lists[l], id);
        forall entry ensures Resolve(root, listTag, id) == Some(entry) <==> DefinedBy(lists, l, listTag, id, entry) {
          if Resolve(root, listTag, id) == Some(entry) {
            var i :| 0 <= i < |lists[l].children| && IdOf(lists[l].children[i]) == id;
            assert entry == lists[l].children[i];
          }
        }
      }
    } else {
      forall l: nat | OnlyChild(lists, l) && lists[l].tag == listTag ensures false { CountOne(lists, l); }
    }
  }

  lemma TheList(lists: seq<Element>, l: nat)
    requires OnlyChild(lists, l)
    ensures forall k: nat :: OnlyChild(lists, k) && lists[k].tag == lists[l].tag ==> k == l
  {
  }

  // ------------------------------------------------------------ what a section delete may drop

  /** A memo field, by its type or by its command. */
  ghost predicate MemoField(e: Element) {
    && e.tag == "FIELDBEGIN"
    && (|| (e.Get("Type").Some? && Lower(e.Get("Type").value) == "memo")
        || exists rest :: e.Get("Command") == Some("MEMO/" + rest))
  }

  /** Its memo shape can be read: none, or one the document defines. */
  ghost predicate Readable(root: Element, e: Element) {
    && e.Get("Type") == Some("Memo")
    && exists id :: AsksFor(e, id) && (id == "65535" || Resolve(root, "MEMOSHAPELIST", id).Some?)
  }

  lemma MemoFieldExactly(e: Element)
    ensures IsMemoField(e) <==> MemoField(e)
  {
    if e.Get("Command").Some? {
      var command := e.Get("Command").value;
      if StartsWith(command, "MEMO/") { assert command == "MEMO/" + command[5..]; }
      if rest :| command == "MEMO/" + rest { assert command[..5] == "MEMO/"; }
    }
  }

  lemma ReadableExactly(root: Element, e: Element)
    requires MemoField(e)
    ensures ReadMemo(e, MemoIds(root)).Unreadable? <==> !Readable(root, e)
  {
    hide Lower, Digits;
    assert e.tag == "FIELDBEGIN";
    if e.Get("Type") == Some("Memo") && e.Get("Command").Some? {
      var command := e.Get("Command").value;
      forall id ensures AsksFor(e, id) <==> MemoValue(command) == Some(id) { MemoValueExactly(command, id); }
      hide AsksFor, MemoValue;
      assert forall id :: Resolve(root, MEMOSHAPELIST, id).Some? <==>
        MemoIds(root).Some? && id in MemoIds(root).value;
    }
  }

  lemma MemoProblemsExactly(root: Element)
    ensures MemoProblems(root) <==> exists e :: e in Iter(root) && MemoField(e) && !Readable(root, e)
  {
    hide MemoField, IsMemoField, Readable, ReadMemo;
    forall e ensures IsMemoField(e) <==> MemoField(e)
             ensures MemoField(e) ==> (ReadMemo(e, MemoIds(root)).Unreadable? <==> !Readable(root, e))
    {
      MemoFieldExactly(e);
      if MemoField(e) { ReadableExactly(root, e); }
    }
  }

  /** A delete may drop exactly the definitions that its SECDEF names and nothing else does, before or after; and no
      memo shape while a memo field cannot be read. */
  lemma FreedExactly(before: Element, after: Element, p: nat, listTag: string, id: string)
    requires IsBound(listTag) && p < |Iter(before)| && Iter(before)[p].tag == "SECDEF"
    ensures Freed(before, after, Iter(before)[p], CountTag(Iter(before)[..p], "SECDEF"), listTag) == Some(id) <==>
        && Holds(Iter(before)[p], SecDefAttr(listTag), id)
        && (forall q :: 0 <= q < |Iter(before)| && q != p ==>
              !Uses(Iter(before)[q], listTag, id, Resolve(before, listTag, id).Some?))
        && (forall e :: e in Iter(after) ==> !Uses(e, listTag, id, Resolve(after, listTag, id).Some?))
        && (listTag == "MEMOSHAPELIST" ==>
              && (forall e :: e in Iter(before) && MemoField(e) ==> Readable(before, e))
              && (forall e :: e in Iter(after) && MemoField(e) ==> Readable(after, e)))
  {
    hide Referrers, Iter, Uses, Resolve, MemoField, Readable, MemoProblems, CountTag;
    SoleReferrer(before, listTag, id, p);
    NobodyUses(after, listTag, id);
    MemoProblemsExactly(before);
    MemoProblemsExactly(after);
  }

  lemma NobodyUses(root: Element, listTag: string, id: string)
    requires IsBound(listTag)
    ensures Referrers(root, listTag, id) == [] <==>
              forall e :: e in Iter(root) ==> !Uses(e, listTag, id, Resolve(root, listTag, id).Some?)
  {
    hide Referrers, Uses, Names;
    ReferencedMeansNamed(root, listTag, id);
    UsesAre(root, listTag, id);
  }

  /** After an accepted delete whatever some element still uses is still the same definition. */
  lemma DeleteKeepsUsed(before: Element, after: Element, removed: Element, removedIndex: nat, allow: Allow, e: Element,
      listTag: string, id: string)
    requires DocumentGrown(before, after, allow, DeleteDelta(before, after, removed, removedIndex))
    requires IsBound(listTag) && e in Iter(after) && Uses(e, listTag, id, Resolve(after, listTag, id).Some?)
    ensures StillDefined(before, after, listTag, id)
  {
    hide Uses, Names, DocumentGrown, DeleteDelta, StillDefined, Resolve;
    UsesAre(after, listTag, id);
    NamedKept(before, after, removed, removedIndex, allow, listTag, id);
  }

  /** In particular the numbering of a PARASHAPE with a numbered heading is never dropped. */
  lemma NumberedHeadingKeeps(before: Element, after: Element, removed: Element, removedIndex: nat, allow: Allow,
      e: Element)
    requires DocumentGrown(before, after, allow, DeleteDelta(before, after, removed, removedIndex))
    requires e in Iter(after) && e.tag == "PARASHAPE"
    requires e.Get("HeadingType") == Some("Number") && e.Get("Heading").Some?
    ensures StillDefined(before, after, "NUMBERINGLIST", Strip(e.Get("Heading").value))
  {
    hide DocumentGrown, DeleteDelta, StillDefined, Resolve, Strip;
    NumberCounts(e);
    DeleteKeepsUsed(before, after, removed, removedIndex, allow, e, "NUMBERINGLIST", Strip(e.Get("Heading").value));
  }

  lemma NumberCounts(e: Element)
    requires e.Get("HeadingType") == Some("Number")
    ensures HeadingCounts(e)
  {
    assert Strip("Number") == "Number" by {
      StripOf("", "Number", "");
      assert "" + "Number" + "" == "Number";
    }
    assert Lower("Number") == "number";
  }
}
