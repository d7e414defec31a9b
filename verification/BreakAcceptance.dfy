/** What the body check accepts as a section break, read off the two bodies position by position. */
module BreakAcceptance {
  import opened Text
  import CopyForms
  import opened BodyTokens

  predicate Opening(t: Token) {
    t.Open? && t.tag == "P"
  }

  predicate IsControl(t: Token, tag: string) {
    t.Control? && t.tag == tag
  }

  /** The last place before k where the test holds. */
  ghost predicate LastBefore(ts: Tokens, k: nat, p: nat, test: Token -> bool) {
    p < k <= |ts| && test(ts[p]) && forall i :: p < i < k ==> !test(ts[i])
  }

  /** How many of the first k tokens pass the test. */
  function Places(ts: Tokens, k: nat, test: Token -> bool): set<nat>
    requires k <= |ts|
  {
    set i: nat | i < k && test(ts[i])
  }

  /** k is how far the two bodies agree. */
  predicate AgreeTo(a: Tokens, b: Tokens, k: nat) {
    k <= |a| && k <= |b| && a[..k] == b[..k] && (k < |a| && k < |b| ==> a[k] != b[k])
  }

  lemma AgreeIsPrefix(a: Tokens, b: Tokens, k: nat)
    requires AgreeTo(a, b, k)
    ensures CommonPrefix(a, b) == k
  {
    CommonPrefixLongest(a, b, k);
    var n := CommonPrefix(a, b);
    assert forall i :: 0 <= i < n ==> a[..n][i] == a[i] && b[..n][i] == b[i];
  }

  // ------------------------------------------------------------ the block

  /** From k on the longer body holds n more tokens: the split paragraph closes, a SECTION may close and open, a
      paragraph opens and starts with its SECDEF, and one COLDEF may follow. */
  predicate BreakAt(longer: Tokens, k: nat, n: nat) {
    && k + n <= |longer| && 3 <= n <= 6
    && longer[k] == Close("P")
    && (n >= 5 ==> longer[k + 1] == Close("SECTION") && longer[k + 2].Open? && longer[k + 2].tag == "SECTION")
    && Opening(longer[OpenPlace(k, n)])
    && IsControl(longer[OpenPlace(k, n) + 1], "SECDEF")
    && (n == 4 || n == 6 ==> IsControl(longer[OpenPlace(k, n) + 2], "COLDEF"))
  }

  /** Where the new section's paragraph opens; its SECDEF is next. */
  function OpenPlace(k: nat, n: nat): nat {
    if n <= 4 then k + 1 else k + 3
  }

  lemma ShapeExactly(block: Tokens)
    ensures Kinds(block) in SECTION_BREAK_SHAPES <==> BreakAt(block, 0, |block|)
  {
    var kinds := Kinds(block);
    forall i | 0 <= i < |block|
      ensures kinds[i] == CloseP <==> block[i] == Close("P")
      ensures kinds[i] == CloseSection <==> block[i] == Close("SECTION")
      ensures kinds[i] == OpenP <==> Opening(block[i])
      ensures kinds[i] == OpenSection <==> block[i].Open? && block[i].tag == "SECTION"
      ensures kinds[i] == SecDefKind <==> IsControl(block[i], "SECDEF")
      ensures kinds[i] == ColDefKind <==> IsControl(block[i], "COLDEF")
    {
    }
    hide KindOf;
    assert |kinds| == 3 ==> kinds == [kinds[0], kinds[1], kinds[2]];
    assert |kinds| == 4 ==> kinds == [kinds[0], kinds[1], kinds[2], kinds[3]];
    assert |kinds| == 5 ==> kinds == [kinds[0], kinds[1], kinds[2], kinds[3], kinds[4]];
    assert |kinds| == 6 ==> kinds == [kinds[0], kinds[1], kinds[2], kinds[3], kinds[4], kinds[5]];
  }

  /** The bodies are equal but for the block at k. */
  predicate BreakBetween(shorter: Tokens, longer: Tokens, k: nat) {
    && k <= |shorter| <= |longer| && shorter[..k] == longer[..k]
    && BreakAt(longer, k, |longer| - |shorter|)
    && longer[k + (|longer| - |shorter|)..] == shorter[k..]
  }

  lemma BreakExactly(shorter: Tokens, longer: Tokens, k: nat)
    requires AgreeTo(shorter, longer, k)
    ensures IsBreak(shorter, longer) <==> BreakBetween(shorter, longer, k)
  {
    AgreeIsPrefix(shorter, longer, k);
    if |shorter| <= |longer| {
      var n := |longer| - |shorter|;
      if k + n <= |longer| {
        var block := longer[k..k + n];
        ShapeExactly(block);
        assert forall i :: 0 <= i < n ==> block[i] == longer[k + i];
        hide KindOf, Kinds;
        assert BreakAt(block, 0, n) <==> BreakAt(longer, k, n);
      }
    }
  }

  // ------------------------------------------------------------ the last of a kind, and counts

  lemma {:induction false} LastSelected(ts: Tokens, test: Token -> bool, p: nat)
    requires LastBefore(ts, |ts|, p, test)
    ensures Select(ts, test) != [] && Last(Select(ts, test)) == ts[p]
  {
    assert ts == ts[..p] + ([ts[p]] + ts[p + 1..]);
    SelectConcat(ts[..p], [ts[p]] + ts[p + 1..], test);
    SelectConcat([ts[p]], ts[p + 1..], test);
    SelectNone(ts[p + 1..], test);
    assert Select([ts[p]], test) == [ts[p]] by { assert [ts[p]][1..] == []; }
  }

  lemma {:induction false} NoneSelected(ts: Tokens, test: Token -> bool)
    requires Select(ts, test) == []
    ensures forall i :: 0 <= i < |ts| ==> !test(ts[i])
  {
    if ts != [] {
      NoneSelected(ts[1..], test);
      assert forall i :: 1 <= i < |ts| ==> ts[i] == ts[1..][i - 1];
    }
  }

  lemma {:induction false} FindLast(ts: Tokens, k: nat, test: Token -> bool) returns (found: bool, p: nat)
    requires k <= |ts|
    ensures found ==> LastBefore(ts, k, p, test)
    ensures !found ==> forall i :: 0 <= i < k ==> !test(ts[i])
  {
    found, p := false, 0;
    if k > 0 {
      if test(ts[k - 1]) { return true, k - 1; }
      found, p := FindLast(ts, k - 1, test);
    }
  }

  lemma LastOne(ts: Tokens, k: nat, test: Token -> bool, p: nat, q: nat)
    requires LastBefore(ts, k, p, test) && LastBefore(ts, k, q, test)
    ensures p == q
  {
  }

  lemma {:induction false} SelectCounts(ts: Tokens, k: nat, test: Token -> bool)
    requires k <= |ts|
    ensures |Select(ts[..k], test)| == |Places(ts, k, test)|
  {
    if k == 0 {
      assert Places(ts, 0, test) == {};
    } else {
      SelectCounts(ts, k - 1, test);
      assert ts[..k] == ts[..k - 1] + [ts[k - 1]] && [ts[k - 1]][1..] == [];
      SelectConcat(ts[..k - 1], [ts[k - 1]], test);
      assert Places(ts, k, test) == Places(ts, k - 1, test) + if test(ts[k - 1]) then {k - 1} else {};
    }
  }

  // ------------------------------------------------------------ the caret

  const IsOpening: Token -> bool := (t: Token) => t.Open? && t.tag == "P"
  const IsChar: Token -> bool := (t: Token) => t.Char?
  const IsAnyControl: Token -> bool := (t: Token) => t.Control?

  /** The caret is in the paragraph that opens at o and is still open at k: it has that paragraph's number, and its
      position counts the characters from there to k, and each control as 8 or as none. */
  ghost predicate CaretAt(ts: Tokens, k: nat, caret: Caret, o: nat)
    requires k <= |ts|
  {
    && LastBefore(ts, k, o, IsOpening) && (forall i :: o < i < k ==> ts[i] != Close("P"))
    && caret.list == 0 && caret.para == |Places(ts, k, IsOpening)| - 1
    && var part := ts[o + 1..k];
       var chars, controls := |Places(part, |part|, IsChar)|, |Places(part, |part|, IsAnyControl)|;
       caret.pos == chars || caret.pos == chars + 8 * controls
  }

  lemma {:induction false} OpensCount(ts: Tokens, n: nat)
    requires n <= |ts|
    ensures |Opens(ts, n)| == |Places(ts, n, IsOpening)|
  {
    if n == 0 {
      assert Places(ts, 0, IsOpening) == {};
    } else {
      OpensCount(ts, n - 1);
      assert Places(ts, n, IsOpening) == Places(ts, n - 1, IsOpening) + if Opening(ts[n - 1]) then {n - 1} else {};
    }
  }

  lemma {:induction false} OpensLast(ts: Tokens, n: nat, o: nat)
    requires n <= |ts| && LastBefore(ts, n, o, IsOpening)
    ensures Opens(ts, n) != [] && Opens(ts, n)[|Opens(ts, n)| - 1] == o
  {
    if o < n - 1 { OpensLast(ts, n - 1, o); }
  }

  lemma PlacesSnoc(ts: Tokens, n: nat, test: Token -> bool)
    requires n < |ts|
    ensures |Places(ts, n + 1, test)| == |Places(ts[..n], n, test)| + if test(ts[n]) then 1 else 0
  {
    assert Places(ts, n + 1, test) == Places(ts[..n], n, test) + if test(ts[n]) then {n} else {};
  }

  lemma {:induction false} CountsArePlaces(ts: Tokens)
    ensures CountChars(ts) == |Places(ts, |ts|, IsChar)| && CountControls(ts) == |Places(ts, |ts|, IsAnyControl)|
  {
    if ts == [] {
      assert Places(ts, 0, IsChar) == {} && Places(ts, 0, IsAnyControl) == {};
    } else {
      hide Places;
      CountsArePlaces(ts[..|ts| - 1]);
      PlacesSnoc(ts, |ts| - 1, IsChar);
      PlacesSnoc(ts, |ts| - 1, IsAnyControl);
    }
  }

  lemma CaretExactly(ts: Tokens, k: nat, caret: Caret)
    requires k <= |ts|
    ensures AtCaret(ts, k, caret) <==> exists o: nat :: CaretAt(ts, k, caret, o)
  {
    hide CountChars, CountControls, Places;
    OpensCount(ts, k);
    if AtCaret(ts, k, caret) {
      InsideMeans(ts, k);
      var o := Opens(ts, k)[|Opens(ts, k)| - 1];
      CountsArePlaces(ts[o + 1..k]);
      assert CaretAt(ts, k, caret, o);
    }
    if o: nat :| CaretAt(ts, k, caret, o) {
      InsideFrom(ts, o, k);
      CountsArePlaces(ts[o + 1..k]);
    }
  }

  // ------------------------------------------------------------ what a break may copy

  /** The new paragraph has the attributes of the one that was split, ColumnBreak and PageBreak aside. */
  ghost predicate KeepsAttributes(start: Token, split: Token)
    requires start.Open? && split.Open?
  {
    forall key :: key != "ColumnBreak" && key != "PageBreak" ==>
      && (key in start.attrs <==> key in split.attrs)
      && (key in start.attrs ==> start.attrs[key] == split.attrs[key])
  }

  const IsSecDef: Token -> bool := (t: Token) => t.Control? && t.tag == "SECDEF"
  const IsColDef: Token -> bool := (t: Token) => t.Control? && t.tag == "COLDEF"

  /** The caret's paragraph is the one that was split. */
  ghost predicate ParagraphFits(before: Tokens, k: nat, caret: Caret, start: Token)
    requires k <= |before| && start.Open?
  {
    exists p: nat :: CaretAt(before, k, caret, p) && KeepsAttributes(start, before[p])
  }

  /** The new SECDEF has the copy form of the last one before it. */
  ghost predicate SecDefFits(before: Tokens, k: nat, added: Token, bound: set<string>)
    requires k <= |before| && added.Control?
  {
    exists d: nat :: LastBefore(before, k, d, IsSecDef)
      && CopyForms.CopyForm(added.sig, bound) == CopyForms.CopyForm(before[d].sig, bound)
  }

  /** The new COLDEF is the last one before it. */
  ghost predicate ColDefFits(before: Tokens, k: nat, added: Token)
    requires k <= |before| && added.Control?
  {
    exists c: nat :: LastBefore(before, k, c, IsColDef) && added.sig == before[c].sig
  }

  /** The insert-only conditions on the block of n tokens at k. */
  ghost predicate FitsAt(before: Tokens, after: Tokens, k: nat, n: nat, caret: Caret, bound: set<string>)
    requires k <= |before| && BreakAt(after, k, n)
  {
    && ParagraphFits(before, k, caret, after[OpenPlace(k, n)])
    && SecDefFits(before, k, after[OpenPlace(k, n) + 1], bound)
    && (n == 4 || n == 6 ==> ColDefFits(before, k, after[OpenPlace(k, n) + 2]))
  }

  lemma BlockParts(after: Tokens, k: nat, n: nat, block: Tokens)
    requires BreakAt(after, k, n) && block == after[k..k + n]
    ensures Select(block, ParaOpens) == [after[OpenPlace(k, n)]]
    ensures Select(block, SecDefs) == [after[OpenPlace(k, n) + 1]]
    ensures Select(block, ColDefs) == if n == 4 || n == 6 then [after[OpenPlace(k, n) + 2]] else []
  {
    var o := OpenPlace(0, n);
    assert forall i :: 0 <= i < n ==> block[i] == after[k + i];
    assert block[0] == Close("P") && ParaOpens(block[o]) && SecDefs(block[o + 1]);
    assert n >= 5 ==> block[1] == Close("SECTION") && block[2].Open? && block[2].tag == "SECTION";
    assert n == 4 || n == 6 ==> ColDefs(block[o + 2]);
    forall i | 0 <= i < n
      ensures ParaOpens(block[i]) <==> i == o
      ensures SecDefs(block[i]) <==> i == o + 1
      ensures ColDefs(block[i]) <==> i == o + 2 && (n == 4 || n == 6)
    {
    }
    SelectOne(block, ParaOpens, o);
    SelectOne(block, SecDefs, o + 1);
    if n == 4 || n == 6 { SelectOne(block, ColDefs, o + 2); } else { SelectNone(block, ColDefs); }
  }

  /** The last of a kind in the common prefix, found or not. */
  lemma LastOfKind(ts: Tokens, k: nat, test: Token -> bool, same: Token -> bool) returns (found: bool, p: nat)
    requires k <= |ts| && forall t: Token :: test(t) <==> same(t)
    ensures found ==> LastBefore(ts, k, p, test) && Select(ts[..k], same) != [] && Last(Select(ts[..k], same)) == ts[p]
    ensures !found ==> Select(ts[..k], same) == [] && forall q: nat :: !LastBefore(ts, k, q, test)
  {
    found, p := FindLast(ts, k, test);
    if found {
      assert LastBefore(ts[..k], k, p, same);
      LastSelected(ts[..k], same, p);
    } else {
      SelectNone(ts[..k], same);
    }
  }

  lemma SplitExactly(before: Tokens, k: nat, block: Tokens, start: Token)
    requires k <= |before| && Select(block, ParaOpens) == [start] && start.Open?
    ensures SplitKept(block, before[..k]) <==>
        exists p: nat :: LastBefore(before, k, p, IsOpening) && KeepsAttributes(start, before[p])
  {
    var found, p := LastOfKind(before, k, IsOpening, ParaOpens);
    if found {
      forall q: nat | LastBefore(before, k, q, IsOpening) ensures q == p { LastOne(before, k, IsOpening, p, q); }
      KeepsExactly(start, before[p]);
    }
  }

  lemma KeepsExactly(start: Token, split: Token)
    requires start.Open? && split.Open?
    ensures start.attrs - SECTION_START_FLAGS == split.attrs - SECTION_START_FLAGS <==> KeepsAttributes(start, split)
  {
    var x, y := start.attrs - SECTION_START_FLAGS, split.attrs - SECTION_START_FLAGS;
    assert forall key :: key in x <==> key in start.attrs && key != "ColumnBreak" && key != "PageBreak";
    assert forall key :: key in y <==> key in split.attrs && key != "ColumnBreak" && key != "PageBreak";
    if x == y {
      forall key | key != "ColumnBreak" && key != "PageBreak"
        ensures key in start.attrs <==> key in split.attrs
        ensures key in start.attrs ==> start.attrs[key] == split.attrs[key]
      {
        assert key in x <==> key in y;
      }
    }
  }

  lemma CopyExactly(before: Tokens, k: nat, block: Tokens, test: Token -> bool, same: Token -> bool, added: Token,
      bound: set<string>)
    requires k <= |before| && Select(block, test) == [added] && added.Control?
    requires forall t: Token :: test(t) <==> same(t)
    requires forall t: Token :: test(t) ==> t.Control?
    ensures CopyOf(block, before[..k], test, bound) <==>
        exists d: nat :: LastBefore(before, k, d, same)
          && CopyForms.CopyForm(added.sig, bound) == CopyForms.CopyForm(before[d].sig, bound)
  {
    var found, d := LastOfKind(before, k, same, test);
    if found {
      forall q: nat | LastBefore(before, k, q, same) ensures q == d { LastOne(before, k, same, d, q); }
    }
  }

  /** A section insert is accepted exactly when the after-body is the before-body with a break block where they first
      differ, in the caret's paragraph at the caret, whose paragraph keeps the attributes of that one, whose SECDEF has
      the copy form of the last one before it, and whose COLDEF, if any, is the last one before it. */
  lemma InsertExactly(before: Tokens, after: Tokens, k: nat, caret: Caret, bound: set<string>)
    requires AgreeTo(before, after, k)
    ensures InsertAccepted(before, after, caret, bound) <==>
        && BreakBetween(before, after, k)
        && FitsAt(before, after, k, |after| - |before|, caret, bound)
  {
    AgreeIsPrefix(before, after, k);
    BreakExactly(before, after, k);
    if BreakBetween(before, after, k) { FitsExactly(before, after, k, caret, bound); }
  }

  lemma ParagraphExactly(before: Tokens, k: nat, caret: Caret, block: Tokens, start: Token)
    requires k <= |before| && Select(block, ParaOpens) == [start] && start.Open?
    ensures SplitKept(block, before[..k]) && AtCaret(before, k, caret) <==> ParagraphFits(before, k, caret, start)
  {
    hide AtCaret, CaretAt, KeepsAttributes, SplitKept;
    CaretExactly(before, k, caret);
    SplitExactly(before, k, block, start);
    SameParagraph(before, k, caret);
  }

  lemma ColDefExactly(before: Tokens, k: nat, block: Tokens, added: Token)
    requires k <= |before| && Select(block, ColDefs) == [added] && added.Control?
    ensures CopyOf(block, before[..k], ColDefs, {}) <==> ColDefFits(before, k, added)
  {
    PlainCopyForm();
    CopyExactly(before, k, block, ColDefs, IsColDef, added, {});
  }

  /** The insert-only conditions, part by part. */
  lemma PartsExactly(before: Tokens, k: nat, caret: Caret, block: Tokens, start: Token, added: Token, more: Tokens,
      bound: set<string>)
    requires k <= |before| && start.Open? && added.Control?
    requires Select(block, ParaOpens) == [start] && Select(block, SecDefs) == [added] && Select(block, ColDefs) == more
    requires |more| <= 1 && (more != [] ==> more[0].Control?)
    ensures InsertFits(before, block, k, caret, bound) <==>
        && ParagraphFits(before, k, caret, start) && SecDefFits(before, k, added, bound)
        && (more != [] ==> ColDefFits(before, k, more[0]))
  {
    hide AtCaret, ParagraphFits, SecDefFits, ColDefFits, SplitKept, LastBefore;
    ParagraphExactly(before, k, caret, block, start);
    SecDefExactly(before, k, block, added, bound);
    if more != [] {
      assert more == [more[0]];
      ColDefExactly(before, k, block, more[0]);
    }
  }

  lemma FitsExactly(before: Tokens, after: Tokens, k: nat, caret: Caret, bound: set<string>)
    requires BreakBetween(before, after, k)
    ensures InsertFits(before, Block(before, after, k), k, caret, bound) <==>
              FitsAt(before, after, k, |after| - |before|, caret, bound)
  {
    hide AtCaret, ParagraphFits, SecDefFits, ColDefFits, SplitKept, CopyOf, Select, InsertFits;
    var n, block := |after| - |before|, Block(before, after, k);
    BlockParts(after, k, n, block);
    var o := OpenPlace(k, n);
    PartsExactly(before, k, caret, block, after[o], after[o + 1],
                 if n == 4 || n == 6 then [after[o + 2]] else [], bound);
  }

  lemma SecDefExactly(before: Tokens, k: nat, block: Tokens, added: Token, bound: set<string>)
    requires k <= |before| && Select(block, SecDefs) == [added] && added.Control?
    ensures CopyOf(block, before[..k], SecDefs, bound) <==> SecDefFits(before, k, added, bound)
  {
    CopyExactly(before, k, block, SecDefs, IsSecDef, added, bound);
  }

  lemma PlainCopyForm()
    ensures forall sig :: CopyForms.CopyForm(sig, {}) == sig
  {
  }

  /** The caret's paragraph is the last one start before the break. */
  lemma SameParagraph(before: Tokens, k: nat, caret: Caret)
    requires k <= |before|
    ensures forall p: nat, q: nat :: CaretAt(before, k, caret, p) && LastBefore(before, k, q, IsOpening) ==> p == q
    ensures forall p: nat :: CaretAt(before, k, caret, p) ==> LastBefore(before, k, p, IsOpening)
  {
    hide Places;
    forall p: nat, q: nat | CaretAt(before, k, caret, p) && LastBefore(before, k, q, IsOpening) ensures p == q {
      LastOne(before, k, IsOpening, p, q);
    }
  }

  /** A section delete is accepted exactly when the before-body is the after-body with a break block where they first
      differ, and the SECDEFs in front of it number one less than the section asked for. */
  lemma DeleteExactly(before: Tokens, after: Tokens, k: nat, sectionIndex: nat)
    requires AgreeTo(after, before, k)
    ensures DeleteAccepted(before, after, sectionIndex) <==>
              BreakBetween(after, before, k) && sectionIndex == |Places(after, k, IsSecDef)| + 1
  {
    AgreeIsPrefix(after, before, k);
    BreakExactly(after, before, k);
    SelectCounts(after, k, SecDefs);
    assert Places(after, k, SecDefs) == Places(after, k, IsSecDef);
  }

  // ------------------------------------------------------------ between two characters

  /** What takes a place in the text: a character or a control. */
  predicate TakesPlace(t: Token) {
    t.Char? || t.Control?
  }

  lemma {:induction false} LeftExactly(ts: Tokens, n: nat)
    requires n <= |ts|
    ensures CharLeft(ts, n) <==>
              exists i :: 0 <= i < n && ts[i].Char? && forall j :: i < j < n ==> !TakesPlace(ts[j])
  {
    if n > 0 {
      LeftExactly(ts, n - 1);
      if i :| 0 <= i < n - 1 && ts[i].Char? && forall j :: i < j < n - 1 ==> !TakesPlace(ts[j]) {
        assert !TakesPlace(ts[n - 1]) ==> forall j :: i < j < n ==> !TakesPlace(ts[j]);
      }
    }
  }

  lemma {:induction false} RightExactly(ts: Tokens, n: nat)
    requires n <= |ts|
    ensures CharRight(ts, n) <==>
              exists i :: n <= i < |ts| && ts[i].Char? && forall j :: n <= j < i ==> !TakesPlace(ts[j])
    decreases |ts| - n
  {
    if n < |ts| {
      RightExactly(ts, n + 1);
      if i :| n + 1 <= i < |ts| && ts[i].Char? && forall j :: n + 1 <= j < i ==> !TakesPlace(ts[j]) {
        assert !TakesPlace(ts[n]) ==> forall j :: n <= j < i ==> !TakesPlace(ts[j]);
      }
    }
  }

  /** A place is inside text exactly when the last thing that takes a place before it and the first one from it on are
      both characters. */
  lemma InteriorExactly(ts: Tokens, n: nat)
    requires n <= |ts|
    ensures Interior(ts, n) <==>
        && (exists i :: 0 <= i < n && ts[i].Char? && forall j :: i < j < n ==> !TakesPlace(ts[j]))
        && (exists i :: n <= i < |ts| && ts[i].Char? && forall j :: n <= j < i ==> !TakesPlace(ts[j]))
  {
    LeftExactly(ts, n);
    RightExactly(ts, n);
  }
}
