/** Section breaks in the body: exactly one contiguous block, tied to the caret (app/layout_ops.py). */
module BodyTokens {
  import opened Text
  import opened CopyForms

  /** One token of the linearized body: tags open and close, text comes character by character with the shape of its
      run, controls carry their signature. */
  datatype Token =
    | Open(tag: string, attrs: map<string, string>)
    | Close(tag: string)
    | Char(c: char, shape: Option<string>)
    | Control(tag: string, sig: string)

  type Tokens = seq<Token>

  predicate ParaOpen(t: Token) { t.Open? && t.tag == "P" }
  predicate ParaMark(t: Token) { ParaOpen(t) || (t.Close? && t.tag == "P") }
  predicate SecDef(t: Token) { t.Control? && t.tag == "SECDEF" }
  predicate ColDef(t: Token) { t.Control? && t.tag == "COLDEF" }

  // ------------------------------------------------------------ one contiguous block

  /** longer is shorter with one block inserted at k. */
  predicate InsertedAt(shorter: Tokens, longer: Tokens, k: nat) {
    k <= |shorter| <= |longer| && longer[..k] == shorter[..k] && longer[k + (|longer| - |shorter|)..] == shorter[k..]
  }

  /** Length of the longest common prefix. */
  function CommonPrefix(a: Tokens, b: Tokens): (n: nat)
    ensures n <= |a| && n <= |b| && a[..n] == b[..n]
    ensures n < |a| && n < |b| ==> a[n] != b[n]
  {
    if a == [] || b == [] || a[0] != b[0] then 0
    else
      var n := CommonPrefix(a[1..], b[1..]);
      assert a[..n + 1] == [a[0]] + a[1..][..n] && b[..n + 1] == [b[0]] + b[1..][..n];
      n + 1
  }

  lemma {:induction false} CommonPrefixLongest(a: Tokens, b: Tokens, k: nat)
    requires k <= |a| && k <= |b| && a[..k] == b[..k]
    ensures k <= CommonPrefix(a, b)
  {
    if k > 0 {
      assert a[..k][0] == a[0] && b[..k][0] == b[0];
      assert a[1..][..k - 1] == a[..k][1..] && b[1..][..k - 1] == b[..k][1..];
      CommonPrefixLongest(a[1..], b[1..], k - 1);
    }
  }

  /** The prefix and suffix loops of _section_break_reasons. */
  method LocateBlock(shorter: Tokens, longer: Tokens) returns (prefix: nat, suffix: nat)
    requires |shorter| <= |longer|
    ensures prefix == CommonPrefix(shorter, longer) && prefix + suffix <= |shorter|
    ensures |shorter| - suffix == prefix <==> exists k :: InsertedAt(shorter, longer, k)
    ensures |shorter| - suffix == prefix ==> InsertedAt(shorter, longer, prefix)
  {
    prefix := 0;
    while prefix < |shorter| && shorter[prefix] == longer[prefix]
      invariant prefix <= |shorter| && shorter[..prefix] == longer[..prefix]
    {
      prefix := prefix + 1;
    }
    CommonPrefixLongest(shorter, longer, prefix);
    suffix := 0;
    var gap := |longer| - |shorter|;
    while suffix < |shorter| - prefix && shorter[|shorter| - 1 - suffix] == longer[|longer| - 1 - suffix]
      invariant prefix + suffix <= |shorter|
      invariant shorter[|shorter| - suffix..] == longer[|longer| - suffix..]
    {
      suffix := suffix + 1;
    }
    if prefix + suffix == |shorter| {
      assert longer[prefix + gap..] == shorter[prefix..];
      assert InsertedAt(shorter, longer, prefix);
    } else if k :| InsertedAt(shorter, longer, k) {
      CommonPrefixLongest(shorter, longer, k);
      InsertedLater(shorter, longer, k, prefix);
      SuffixContinues(shorter, longer, prefix, suffix);
      assert false;
    }
  }

  /** A block that fits at k makes everything after k a common suffix. */
  lemma SuffixContinues(shorter: Tokens, longer: Tokens, k: nat, n: nat)
    requires InsertedAt(shorter, longer, k) && k + n < |shorter|
    ensures shorter[|shorter| - 1 - n] == longer[|longer| - 1 - n]
  {
    var i := |shorter| - 1 - n;
    assert longer[k + (|longer| - |shorter|)..][i - k] == shorter[k..][i - k];
  }

  /** If a block fits at k it also fits at every later common-prefix position. */
  lemma InsertedLater(shorter: Tokens, longer: Tokens, k: nat, n: nat)
    requires InsertedAt(shorter, longer, k) && k <= n <= |shorter| && shorter[..n] == longer[..n]
    ensures InsertedAt(shorter, longer, n)
  {
    var gap := |longer| - |shorter|;
    assert longer[n + gap..] == longer[k + gap..][n - k..] && shorter[n..] == shorter[k..][n - k..];
  }

  // ------------------------------------------------------------ the shape of the block

  datatype Kind = OpenP | CloseP | OpenSection | CloseSection | SecDefKind | ColDefKind | OtherKind

  function KindOf(t: Token): Kind {
    match t
    case Open(tag, _) => if tag == "P" then OpenP else if tag == "SECTION" then OpenSection else OtherKind
    case Close(tag) => if tag == "P" then CloseP else if tag == "SECTION" then CloseSection else OtherKind
    case Char(_, _) => OtherKind
    case Control(tag, _) => if tag == "SECDEF" then SecDefKind else if tag == "COLDEF" then ColDefKind else OtherKind
  }

  function Kinds(ts: Tokens): (r: seq<Kind>)
    ensures |r| == |ts|
  {
    seq(|ts|, i requires 0 <= i < |ts| => KindOf(ts[i]))
  }

  const SECTION_BREAK_SHAPES: set<seq<Kind>> :=
    { [CloseP, OpenP, SecDefKind],
      [CloseP, OpenP, SecDefKind, ColDefKind],
      [CloseP, CloseSection, OpenSection, OpenP, SecDefKind],
      [CloseP, CloseSection, OpenSection, OpenP, SecDefKind, ColDefKind] }

  /** Tokens that satisfy a test, in order. */
  function Select(ts: Tokens, test: Token -> bool): Tokens {
    if ts == [] then [] else (if test(ts[0]) then [ts[0]] else []) + Select(ts[1..], test)
  }

  lemma {:induction false} SelectConcat(a: Tokens, b: Tokens, test: Token -> bool)
    ensures Select(a + b, test) == Select(a, test) + Select(b, test)
  {
    if a == [] {
      assert a + b == b;
    } else {
      var head := if test(a[0]) then [a[0]] else [];
      assert (a + b)[0] == a[0] && (a + b)[1..] == a[1..] + b;
      SelectConcat(a[1..], b, test);
      CatTokens(head, Select(a[1..], test), Select(b, test));
    }
  }

  lemma CatTokens(a: Tokens, b: Tokens, c: Tokens)
    ensures (a + b) + c == a + (b + c)
  {
  }

  const ParaOpens: Token -> bool := (t: Token) => ParaOpen(t)
  const SecDefs: Token -> bool := (t: Token) => SecDef(t)
  const ColDefs: Token -> bool := (t: Token) => ColDef(t)

  /** Text and every control that is not a section or column definition: what a section break may not touch. */
  const Content: Token -> bool := (t: Token) => t.Char? || (t.Control? && !SecDef(t) && !ColDef(t))

  predicate NoContentKind(k: Kind) { k != OtherKind }

  lemma ShapeKinds(kinds: seq<Kind>) returns (at: nat)
    requires kinds in SECTION_BREAK_SHAPES
    ensures 0 < at < |kinds| && kinds[at] == SecDefKind && kinds[at - 1] == OpenP
    ensures forall i :: 0 <= i < |kinds| ==> NoContentKind(kinds[i]) && (i != at ==> kinds[i] != SecDefKind)
    ensures forall i :: 0 <= i < |kinds| && kinds[i] == ColDefKind ==> i == |kinds| - 1
  {
    at := if |kinds| <= 4 then 2 else 4;
  }

  lemma KindsMean(t: Token)
    ensures NoContentKind(KindOf(t)) ==> !Content(t)
    ensures KindOf(t) == SecDefKind <==> SecDefs(t)
    ensures KindOf(t) == ColDefKind <==> ColDefs(t)
    ensures KindOf(t) == OpenP ==> ParaOpen(t)
  {
  }

  /** A block of an allowed shape carries at most one COLDEF. */
  lemma ShapeColDefs(block: Tokens)
    requires Kinds(block) in SECTION_BREAK_SHAPES
    ensures |Select(block, ColDefs)| <= 1
  {
    var at := ShapeKinds(Kinds(block));
    forall i | 0 <= i < |block| ensures ColDefs(block[i]) ==> i == |block| - 1 {
      assert Kinds(block)[i] == KindOf(block[i]);
      KindsMean(block[i]);
    }
    if ColDefs(block[|block| - 1]) {
      SelectOne(block, ColDefs, |block| - 1);
    } else {
      SelectNone(block, ColDefs);
    }
  }

  /** A block of an allowed shape carries one SECDEF and no content. */
  lemma ShapeCarries(block: Tokens)
    requires Kinds(block) in SECTION_BREAK_SHAPES
    ensures Select(block, Content) == [] && |Select(block, SecDefs)| == 1 && SecDef(Select(block, SecDefs)[0])
  {
    var at := ShapeKinds(Kinds(block));
    forall i | 0 <= i < |block| ensures !Content(block[i]) && (SecDefs(block[i]) <==> i == at) {
      assert Kinds(block)[i] == KindOf(block[i]);
      KindsMean(block[i]);
    }
    SelectNone(block, Content);
    SelectOne(block, SecDefs, at);
  }

  lemma {:induction false} SelectOne(ts: Tokens, test: Token -> bool, at: nat)
    requires at < |ts| && forall i :: 0 <= i < |ts| ==> (test(ts[i]) <==> i == at)
    ensures Select(ts, test) == [ts[at]]
    decreases at
  {
    if at == 0 {
      SelectNone(ts[1..], test);
    } else {
      SelectOne(ts[1..], test, at - 1);
    }
  }

  lemma {:induction false} SelectNone(ts: Tokens, test: Token -> bool)
    requires forall i :: 0 <= i < |ts| ==> !test(ts[i])
    ensures Select(ts, test) == []
  {
    if ts != [] { SelectNone(ts[1..], test); }
  }

  // ------------------------------------------------------------ the caret

  datatype Caret = Caret(list: int, para: int, pos: int)

  const CONTROL_POSITION_WIDTH := 8

  function CountChars(ts: Tokens): nat {
    if ts == [] then 0 else CountChars(ts[..|ts| - 1]) + if ts[|ts| - 1].Char? then 1 else 0
  }

  function CountControls(ts: Tokens): nat {
    if ts == [] then 0 else CountControls(ts[..|ts| - 1]) + if ts[|ts| - 1].Control? then 1 else 0
  }

  /** Indexes of paragraph opens among the first n tokens. */
  function Opens(ts: Tokens, n: nat): (r: seq<nat>)
    requires n <= |ts|
    ensures forall k :: 0 <= k < |r| ==> r[k] < n && ParaOpen(ts[r[k]])
  {
    if n == 0 then [] else Opens(ts, n - 1) + if ParaOpen(ts[n - 1]) then [n - 1] else []
  }

  lemma {:induction false} OpensIncrease(ts: Tokens, n: nat)
    requires n <= |ts|
    ensures forall k, l :: 0 <= k < l < |Opens(ts, n)| ==> Opens(ts, n)[k] < Opens(ts, n)[l]
  {
    if n > 0 { OpensIncrease(ts, n - 1); }
  }

  /** The last paragraph mark among the first n tokens is an open. */
  predicate InsideParagraph(ts: Tokens, n: nat)
    requires n <= |ts|
  {
    n > 0 && if ParaMark(ts[n - 1]) then ParaOpen(ts[n - 1]) else InsideParagraph(ts, n - 1)
  }

  /** pos is where the run's characters and controls put it, controls counted under one of the two widths. */
  predicate CountsTo(part: Tokens, pos: int) {
    pos == CountChars(part) || pos == CountChars(part) + CONTROL_POSITION_WIDTH * CountControls(part)
  }

  /** _at_caret accepts: index lies in an open body paragraph, the caret's, at the caret's position under either
      control width. */
  predicate AtCaret(ts: Tokens, index: nat, caret: Caret)
    requires index <= |ts|
  {
    && caret.list == 0 && InsideParagraph(ts, index)
    && |Opens(ts, index)| > 0 && |Opens(ts, index)| - 1 == caret.para
    && CountsTo(ts[Opens(ts, index)[|Opens(ts, index)| - 1] + 1..index], caret.pos)
  }

  /** Where the paragraph opened before start ends: its next paragraph mark, or the end of the body. */
  function ParaEnd(ts: Tokens, start: nat): (e: nat)
    requires start <= |ts|
    ensures start <= e <= |ts|
    ensures forall i :: start <= i < e ==> !ParaMark(ts[i])
    ensures e < |ts| ==> ParaMark(ts[e])
    decreases |ts| - start
  {
    if start == |ts| || ParaMark(ts[start]) then start else ParaEnd(ts, start + 1)
  }

  /** The caret width of a token under one reading of control width. */
  function Width(t: Token, control: nat): nat {
    if t.Char? then 1 else if t.Control? then control else 0
  }

  function Position(ts: Tokens, control: nat): nat {
    if ts == [] then 0 else Position(ts[..|ts| - 1], control) + Width(ts[|ts| - 1], control)
  }

  lemma {:induction false} PositionCounts(ts: Tokens, control: nat)
    ensures Position(ts, control) == CountChars(ts) + control * CountControls(ts)
  {
    if ts != [] { PositionCounts(ts[..|ts| - 1], control); }
  }

  /** pos is reached by adding token widths under one of the two readings. */
  predicate ReadsTo(part: Tokens, pos: int) {
    Position(part, CONTROL_POSITION_WIDTH) == pos || Position(part, 0) == pos
  }

  /** A cut the planner reaches under one of its two readings. */
  predicate Reached(segment: Tokens, cut: nat, pos: int)
    requires cut <= |segment|
  {
    ReadsTo(segment[..cut], pos)
  }

  predicate Placed(t: Token) { t.Char? || t.Control? }

  /** Nearest placed token to the left of n is a character. */
  predicate CharLeft(ts: Tokens, n: nat)
    requires n <= |ts|
  {
    n > 0 && if Placed(ts[n - 1]) then ts[n - 1].Char? else CharLeft(ts, n - 1)
  }

  /** Nearest placed token from n on is a character. */
  predicate CharRight(ts: Tokens, n: nat)
    requires n <= |ts|
    decreases |ts| - n
  {
    n < |ts| && if Placed(ts[n]) then ts[n].Char? else CharRight(ts, n + 1)
  }

  predicate Interior(ts: Tokens, n: nat)
    requires n <= |ts|
  {
    CharLeft(ts, n) && CharRight(ts, n)
  }

  datatype Placement = Qualified | NotInterior | Malformed

  /** One reading of the planner: walk the cuts, keep the caret position, judge every cut that reaches it. */
  method ScanReading(segment: Tokens, pos: int, control: nat) returns (reached: bool, interior: bool)
    ensures reached <==>
              exists cut ::
                0 <= cut <= |segment| && Position(segment[..cut], control) == pos && Cut(segment, cut)
    ensures interior <==> forall cut :: 0 <= cut <= |segment| && Position(segment[..cut], control) == pos ==>
              Interior(segment, cut)
  {
    reached, interior := false, true;
    var position, cut := 0, 0;
    while cut <= |segment|
      invariant 0 <= cut <= |segment| + 1
      invariant cut <= |segment| ==> position == Position(segment[..cut], control)
      invariant reached <==> exists c :: 0 <= c < cut && Position(segment[..c], control) == pos && Cut(segment, c)
      invariant interior <==> forall c :: 0 <= c < cut ==> Position(segment[..c], control) == pos ==>
                Interior(segment, c)
    {
      if position == pos {
        assert Cut(segment, cut);
        reached := true;
        if !Interior(segment, cut) { interior := false; }
      }
      if cut < |segment| {
        assert segment[..cut + 1][..cut] == segment[..cut];
        position := position + Width(segment[cut], control);
      }
      cut := cut + 1;
    }
  }

  predicate Cut(segment: Tokens, cut: nat) { cut <= |segment| }

  /** The paragraph segment a caret names, if it names one. */
  predicate NamesParagraph(ts: Tokens, caret: Caret) {
    caret.list == 0 && 0 <= caret.para < |Opens(ts, |ts|)|
  }

  function SegmentStart(ts: Tokens, caret: Caret): (s: nat)
    requires NamesParagraph(ts, caret)
    ensures s <= |ts|
  {
    Opens(ts, |ts|)[caret.para] + 1
  }

  function Segment(ts: Tokens, caret: Caret): Tokens
    requires NamesParagraph(ts, caret)
  {
    ts[SegmentStart(ts, caret)..ParaEnd(ts, SegmentStart(ts, caret))]
  }

  /** section_insert_position_reason: the outcome says whether the caret is placed and whether every place is inside
      text. */
  method SectionInsertPosition(ts: Tokens, caret: Caret) returns (outcome: Placement)
    ensures outcome.Malformed? <==>
              !NamesParagraph(ts, caret) || forall cut :: 0 <= cut <= |Segment(ts, caret)| ==>
                  !Reached(Segment(ts, caret), cut, caret.pos)
    ensures outcome.Qualified? <==>
              NamesParagraph(ts, caret)
                  && (exists cut :: 0 <= cut <= |Segment(ts, caret)| && Reached(Segment(ts, caret), cut, caret.pos))
              && forall cut :: 0 <= cut <= |Segment(ts, caret)| && Reached(Segment(ts, caret), cut, caret.pos) ==>
                  Interior(Segment(ts, caret), cut)
  {
    if !NamesParagraph(ts, caret) { return Malformed; }
    var segment := Segment(ts, caret);
    var wide, wideInterior := ScanReading(segment, caret.pos, CONTROL_POSITION_WIDTH);
    var thin, thinInterior := ScanReading(segment, caret.pos, 0);
    if wide {
      var cut :| 0 <= cut <= |segment| && Position(segment[..cut], CONTROL_POSITION_WIDTH) == caret.pos
          && Cut(segment, cut);
      assert Reached(segment, cut, caret.pos);
    }
    if thin {
      var cut :| 0 <= cut <= |segment| && Position(segment[..cut], 0) == caret.pos && Cut(segment, cut);
      assert Reached(segment, cut, caret.pos);
    }
    assert forall cut :: 0 <= cut <= |segment| && Reached(segment, cut, caret.pos) ==> Cut(segment, cut);
    outcome := if !wideInterior || !thinInterior then NotInterior else if wide || thin then Qualified else Malformed;
  }

  // ------------------------------------------------------------ planner and verifier agree

  lemma {:induction false} OpensPrefix(ts: Tokens, m: nat, n: nat)
    requires m <= n <= |ts|
    ensures Opens(ts, m) <= Opens(ts, n)
    ensures forall k :: |Opens(ts, m)| <= k < |Opens(ts, n)| ==> m <= Opens(ts, n)[k]
    decreases n
  {
    if m < n { OpensPrefix(ts, m, n - 1); }
  }

  /** Being inside a paragraph: no mark since its open. */
  lemma {:induction false} InsideMeans(ts: Tokens, n: nat)
    requires n <= |ts| && InsideParagraph(ts, n)
    ensures |Opens(ts, n)| > 0
    ensures forall i :: Opens(ts, n)[|Opens(ts, n)| - 1] < i < n ==> !ParaMark(ts[i])
  {
    if !ParaMark(ts[n - 1]) { InsideMeans(ts, n - 1); }
  }

  lemma {:induction false} InsideFrom(ts: Tokens, o: nat, n: nat)
    requires o < n <= |ts| && ParaOpen(ts[o]) && forall i :: o < i < n ==> !ParaMark(ts[i])
    ensures InsideParagraph(ts, n) && |Opens(ts, n)| > 0 && Opens(ts, n)[|Opens(ts, n)| - 1] == o
  {
    if n - 1 > o { InsideFrom(ts, o, n - 1); }
  }

  /** Under the two readings a run of tokens ends where its characters and controls put it. */
  lemma ReadingsMean(part: Tokens, pos: int)
    ensures ReadsTo(part, pos) <==> CountsTo(part, pos)
  {
    PositionCounts(part, CONTROL_POSITION_WIDTH);
    PositionCounts(part, 0);
  }

  /** The part of the caret's segment before index. */
  lemma SegmentPart(ts: Tokens, start: nat, index: nat)
    requires start <= |ts| && start <= index <= ParaEnd(ts, start)
    ensures ts[start..ParaEnd(ts, start)][..index - start] == ts[start..index]
  {
  }

  /** The paragraph the verifier measures in is the one the caret names. */
  lemma CaretParagraph(ts: Tokens, caret: Caret, index: nat)
    requires index <= |ts| && AtCaret(ts, index, caret)
    ensures NamesParagraph(ts, caret) && SegmentStart(ts, caret) == Opens(ts, index)[|Opens(ts, index)| - 1] + 1
    ensures SegmentStart(ts, caret) <= index <= ParaEnd(ts, SegmentStart(ts, caret))
    ensures CountsTo(ts[SegmentStart(ts, caret)..index], caret.pos)
  {
    OpensPrefix(ts, index, |ts|);
    InsideMeans(ts, index);
    assert Opens(ts, |ts|)[caret.para] == Opens(ts, index)[caret.para];
    EndsAfter(ts, Opens(ts, index)[caret.para] + 1, index);
  }

  /** Inside the caret's segment the verifier's count and the planner's walk agree. */
  lemma CountedIsReached(ts: Tokens, caret: Caret, index: nat)
    requires NamesParagraph(ts, caret) && SegmentStart(ts, caret) <= index <= ParaEnd(ts, SegmentStart(ts, caret))
    ensures CountsTo(ts[SegmentStart(ts, caret)..index], caret.pos)
       <==> Reached(Segment(ts, caret), index - SegmentStart(ts, caret), caret.pos)
  {
    SegmentPart(ts, SegmentStart(ts, caret), index);
    ReadingsMean(ts[SegmentStart(ts, caret)..index], caret.pos);
  }

  lemma EndsAfter(ts: Tokens, start: nat, index: nat)
    requires start <= index <= |ts| && forall i :: start <= i < index ==> !ParaMark(ts[i])
    ensures index <= ParaEnd(ts, start)
  {
  }

  lemma ReachedIsCaret(ts: Tokens, caret: Caret, index: nat)
    requires NamesParagraph(ts, caret) && SegmentStart(ts, caret) <= index <= ParaEnd(ts, SegmentStart(ts, caret))
    requires CountsTo(ts[SegmentStart(ts, caret)..index], caret.pos)
    ensures AtCaret(ts, index, caret)
  {
    var start := SegmentStart(ts, caret);
    InsideFrom(ts, start - 1, index);
    OpensPrefix(ts, index, |ts|);
    OpenCounted(ts, caret.para, index);
  }

  /** The last open before index is the caret's paragraph, so exactly para + 1 paragraphs are open by then. */
  lemma OpenCounted(ts: Tokens, para: nat, index: nat)
    requires index <= |ts| && para < |Opens(ts, |ts|)| && Opens(ts, index) <= Opens(ts, |ts|)
    requires |Opens(ts, index)| > 0 && Opens(ts, index)[|Opens(ts, index)| - 1] == Opens(ts, |ts|)[para]
    ensures |Opens(ts, index)| - 1 == para
  {
    var last := |Opens(ts, index)| - 1;
    OpensIncrease(ts, |ts|);
    assert Opens(ts, |ts|)[last] == Opens(ts, index)[last];
  }

  /** The token indexes the verifier accepts for a caret are exactly the cuts the planner reaches for it. */
  lemma {:induction false} CaretAgreement(ts: Tokens, caret: Caret, index: nat)
    requires index <= |ts|
    ensures AtCaret(ts, index, caret) <==>
              && NamesParagraph(ts, caret)
              && SegmentStart(ts, caret) <= index <= ParaEnd(ts, SegmentStart(ts, caret))
              && Reached(Segment(ts, caret), index - SegmentStart(ts, caret), caret.pos)
  {
    if AtCaret(ts, index, caret) { CaretParagraph(ts, caret, index); }
    if NamesParagraph(ts, caret) && SegmentStart(ts, caret) <= index <= ParaEnd(ts, SegmentStart(ts, caret)) {
      CountedIsReached(ts, caret, index);
      if CountsTo(ts[SegmentStart(ts, caret)..index], caret.pos) { ReachedIsCaret(ts, caret, index); }
    }
  }

  // ------------------------------------------------------------ accepting a section break

  const SECTION_START_FLAGS: set<string> := {"ColumnBreak", "PageBreak"}

  function Last(ts: Tokens): Token
    requires ts != []
  {
    ts[|ts| - 1]
  }

  predicate CopyOf(block: Tokens, head: Tokens, test: Token -> bool, bound: set<string>) {
    var added, was := Select(block, test), Select(head, test);
    added != [] ==> was != [] && CopiedSig(added[0], Last(was), bound)
  }

  /** Both are controls with the same copy form. */
  predicate CopiedSig(t: Token, u: Token, bound: set<string>) {
    t.Control? && u.Control? && CopyForm(t.sig, bound) == CopyForm(u.sig, bound)
  }

  /** The insert-only conditions: paragraph attributes, caret, copied definitions. */
  predicate InsertFits(before: Tokens, block: Tokens, prefix: nat, caret: Caret, bound: set<string>)
    requires prefix <= |before|
  {
    && SplitKept(block, before[..prefix])
    && AtCaret(before, prefix, caret)
    && CopyOf(block, before[..prefix], SecDefs, bound)
    && CopyOf(block, before[..prefix], ColDefs, {})
  }

  /** The paragraph that opens the new section keeps the split paragraph's attributes, break flags aside. */
  predicate SplitKept(block: Tokens, head: Tokens) {
    var start := Select(block, ParaOpens);
    var split := Select(head, ParaOpens);
    && start != [] && split != [] && start[0].Open? && Last(split).Open?
    && start[0].attrs - SECTION_START_FLAGS == Last(split).attrs - SECTION_START_FLAGS
  }

  function Block(shorter: Tokens, longer: Tokens, prefix: nat): Tokens
    requires prefix <= |shorter| <= |longer|
  {
    longer[prefix..prefix + (|longer| - |shorter|)]
  }

  /** The longer body is the shorter one with one block of an allowed shape inserted right after their common prefix. */
  predicate IsBreak(shorter: Tokens, longer: Tokens) {
    && |shorter| <= |longer|
    && InsertedAt(shorter, longer, CommonPrefix(shorter, longer))
    && Kinds(Block(shorter, longer, CommonPrefix(shorter, longer))) in SECTION_BREAK_SHAPES
  }

  /** Body acceptance of a section insert. */
  predicate InsertAccepted(before: Tokens, after: Tokens, caret: Caret, bound: set<string>) {
    && IsBreak(before, after)
    && InsertFits(before, Block(before, after, CommonPrefix(before, after)), CommonPrefix(before, after), caret, bound)
  }

  /** Body acceptance of a section delete. */
  predicate DeleteAccepted(before: Tokens, after: Tokens, sectionIndex: nat) {
    && IsBreak(after, before)
    && |Select(after[..CommonPrefix(after, before)], SecDefs)| + 1 == sectionIndex
  }

  /** The part of _section_break_reasons both directions share: find the block and judge its shape. */
  method FindBreak(shorter: Tokens, longer: Tokens) returns (found: bool, prefix: nat, extra: Tokens)
    requires |shorter| <= |longer|
    ensures found <==> IsBreak(shorter, longer)
    ensures prefix == CommonPrefix(shorter, longer) && (found ==> extra == Block(shorter, longer, prefix))
  {
    var suffix;
    prefix, suffix := LocateBlock(shorter, longer);
    extra := longer[prefix..|longer| - suffix];
    found := |shorter| - suffix == prefix && Kinds(extra) in SECTION_BREAK_SHAPES;
    assert |shorter| - suffix == prefix ==> extra == Block(shorter, longer, prefix);
  }

  /** _section_break_reasons for an insert. */
  method SectionInsertReasons(before: Tokens, after: Tokens, caret: Caret, bound: set<string>) returns (ok: bool)
    requires |before| <= |after|
    ensures ok <==> InsertAccepted(before, after, caret, bound)
  {
    var found, prefix, extra := FindBreak(before, after);
    ok := found && InsertFits(before, extra, prefix, caret, bound);
  }

  /** _section_break_reasons for a delete. */
  method SectionDeleteReasons(before: Tokens, after: Tokens, sectionIndex: nat) returns (ok: bool)
    requires |after| <= |before|
    ensures ok <==> DeleteAccepted(before, after, sectionIndex)
  {
    var found, prefix, extra := FindBreak(after, before);
    ok := found && |Select(before[..prefix], SecDefs)| + 1 == sectionIndex;
  }

  // ------------------------------------------------------------ what an accepted break conserves

  lemma Spliced(shorter: Tokens, longer: Tokens, k: nat)
    requires InsertedAt(shorter, longer, k)
    ensures shorter == shorter[..k] + shorter[k..] && longer == shorter[..k] + Block(shorter, longer, k) + shorter[k..]
  {
    var gap := |longer| - |shorter|;
    assert longer == longer[..k] + longer[k..k + gap] + longer[k + gap..];
  }

  /** A break conserves the whole sequence of text and of every control but SECDEF and COLDEF, and adds exactly one
      SECDEF. */
  lemma {:induction false} BreakConserves(shorter: Tokens, longer: Tokens, k: nat)
    requires InsertedAt(shorter, longer, k) && Kinds(Block(shorter, longer, k)) in SECTION_BREAK_SHAPES
    ensures Select(longer, Content) == Select(shorter, Content)
    ensures var n := |Select(shorter[..k], SecDefs)|;
            && n <= |Select(shorter, SecDefs)|
            && Select(longer, SecDefs)
               == Select(shorter, SecDefs)[..n] + Select(Block(shorter, longer, k), SecDefs)
                   + Select(shorter, SecDefs)[n..]
    ensures |Select(Block(shorter, longer, k), SecDefs)| == 1
  {
    var p, block, r := shorter[..k], Block(shorter, longer, k), shorter[k..];
    Spliced(shorter, longer, k);
    ShapeCarries(block);
    SelectConcat(p, r, Content);
    SelectConcat(p + block, r, Content);
    SelectConcat(p, block, Content);
    SelectConcat(p, r, SecDefs);
    SelectConcat(p + block, r, SecDefs);
    SelectConcat(p, block, SecDefs);
    assert Select(shorter, SecDefs)[..|Select(p, SecDefs)|] == Select(p, SecDefs);
    assert Select(shorter, SecDefs)[|Select(p, SecDefs)|..] == Select(r, SecDefs);
    assert Select(p, Content) + [] == Select(p, Content);
  }

  /** ... and at most one COLDEF, the other column definitions keeping their order around it. */
  lemma BreakColDefs(shorter: Tokens, longer: Tokens, k: nat)
    requires InsertedAt(shorter, longer, k) && Kinds(Block(shorter, longer, k)) in SECTION_BREAK_SHAPES
    ensures |Select(Block(shorter, longer, k), ColDefs)| <= 1
    ensures var n := |Select(shorter[..k], ColDefs)|;
            && n <= |Select(shorter, ColDefs)|
            && Select(longer, ColDefs)
               == Select(shorter, ColDefs)[..n] + Select(Block(shorter, longer, k), ColDefs)
                   + Select(shorter, ColDefs)[n..]
  {
    var p, block, r := shorter[..k], Block(shorter, longer, k), shorter[k..];
    Spliced(shorter, longer, k);
    ShapeColDefs(block);
    SelectConcat(p, r, ColDefs);
    SelectConcat(p + block, r, ColDefs);
    SelectConcat(p, block, ColDefs);
    assert Select(shorter, ColDefs)[..|Select(p, ColDefs)|] == Select(p, ColDefs);
    assert Select(shorter, ColDefs)[|Select(p, ColDefs)|..] == Select(r, ColDefs);
  }

  /** _inserted_secdef: index, split and new SECDEF from where the bodies first differ. */
  function InsertedIndex(before: Tokens, after: Tokens): nat {
    |Select(before[..CommonPrefix(before, after)], SecDefs)|
  }

  /** The block ends with its SECDEF or one COLDEF later. */
  predicate InBlock(shorter: Tokens, longer: Tokens, k: nat, at: nat) {
    && k + at < |longer|
    && (|longer| - |shorter| == at + 1
        || (|longer| - |shorter| == at + 2 && k + at + 1 < |longer| && ColDef(longer[k + at + 1])))
  }

  lemma BlockShape(block: Tokens) returns (at: nat)
    requires Kinds(block) in SECTION_BREAK_SHAPES
    ensures (at == 2 || at == 4) && at < |block| && SecDefs(block[at])
    ensures forall i :: 0 <= i < at ==> !SecDefs(block[i])
    ensures if at == 2 then KindOf(block[0]) == CloseP else KindOf(block[2]) == OpenSection
    ensures |block| == at + 1 || (|block| == at + 2 && ColDef(block[at + 1]))
  {
    at := ShapeKinds(Kinds(block));
    forall i | 0 <= i < |block| ensures Kinds(block)[i] == KindOf(block[i]) && (SecDefs(block[i]) <==> i == at) {
      KindsMean(block[i]);
    }
    if |block| == at + 2 { KindsMean(block[at + 1]); }
  }

  /** Where the SECDEF of a block stands in the longer body. */
  lemma BlockSecDef(shorter: Tokens, longer: Tokens, k: nat) returns (at: nat)
    requires InsertedAt(shorter, longer, k) && Kinds(Block(shorter, longer, k)) in SECTION_BREAK_SHAPES
    ensures (at == 2 || at == 4) && k + at < |longer| && SecDefs(longer[k + at])
    ensures |Select(longer[..k + at], SecDefs)| == |Select(shorter[..k], SecDefs)|
    ensures if at == 2 then KindOf(longer[k]) == CloseP else KindOf(longer[k + 2]) == OpenSection
    ensures InBlock(shorter, longer, k, at)
  {
    var block := Block(shorter, longer, k);
    at := BlockShape(block);
    hide Kinds, KindOf, ColDef, Select, SecDef;
    forall i | 0 <= i < |block| ensures block[i] == longer[k + i] { }
    SelectNone(block[..at], SecDefs);
    SelectConcat(longer[..k], block[..at], SecDefs);
    assert longer[..k + at] == longer[..k] + block[..at];
  }

  lemma EarlierCounts(ts: Tokens, i: nat, j: nat)
    requires i < j <= |ts| && SecDefs(ts[i])
    ensures |Select(ts[..i], SecDefs)| < |Select(ts[..j], SecDefs)|
  {
    SelectConcat(ts[..i], ts[i..j], SecDefs);
    assert ts[..j] == ts[..i] + ts[i..j];
    assert ts[i..j][0] == ts[i] && Select(ts[i..j], SecDefs) != [];
  }

  /** Only one SECDEF of a body has a given number of them before it. */
  lemma SameSecDef(ts: Tokens, x: nat, y: nat)
    requires x < |ts| && y < |ts| && SecDefs(ts[x]) && SecDefs(ts[y])
    requires |Select(ts[..x], SecDefs)| == |Select(ts[..y], SecDefs)|
    ensures x == y
  {
    if x < y { EarlierCounts(ts, x, y); }
    if y < x { EarlierCounts(ts, y, x); }
  }

  lemma RestOfBreak(b: Tokens, c: Tokens, ts: Tokens, k: nat, at: nat)
    requires InsertedAt(b, ts, k) && InsertedAt(c, ts, k)
    requires InBlock(b, ts, k, at) && InBlock(c, ts, k, at)
    ensures if |b| == |c| then b == c
            else if |b| > |c| then k < |b| && ColDef(b[k]) && c == b[..k] + b[k + 1..]
            else k < |c| && ColDef(c[k]) && b == c[..k] + c[k + 1..]
  {
    var p, q := |ts| - |b|, |ts| - |c|;
    Spliced(b, ts, k);
    Spliced(c, ts, k);
    assert b[k..] == ts[k + p..] && c[k..] == ts[k + q..] && b[..k] == c[..k];
    if |b| > |c| {
      assert b[k] == ts[k + p] && b[k + 1..] == ts[k + p + 1..];
    } else if |b| < |c| {
      assert c[k] == ts[k + q] && c[k + 1..] == ts[k + q + 1..];
    }
  }

  lemma SameBreakPlace(b: Tokens, c: Tokens, ts: Tokens, k: nat, l: nat) returns (at: nat)
    requires InsertedAt(b, ts, k) && Kinds(Block(b, ts, k)) in SECTION_BREAK_SHAPES
    requires InsertedAt(c, ts, l) && Kinds(Block(c, ts, l)) in SECTION_BREAK_SHAPES
    requires |Select(b[..k], SecDefs)| == |Select(c[..l], SecDefs)|
    ensures k == l && InBlock(b, ts, k, at) && InBlock(c, ts, l, at)
  {
    at := BlockSecDef(b, ts, k);
    var other := BlockSecDef(c, ts, l);
    hide *;
    SameSecDef(ts, k + at, l + other);
    assert at < other ==> k == l + 2;
    assert other < at ==> l == k + 2;
  }

  /** Taking one section's break out of a body leaves one body, its COLDEF aside. */
  lemma BreakDetermined(b: Tokens, c: Tokens, ts: Tokens)
    requires IsBreak(b, ts) && IsBreak(c, ts)
    requires |Select(b[..CommonPrefix(b, ts)], SecDefs)| == |Select(c[..CommonPrefix(c, ts)], SecDefs)|
    ensures CommonPrefix(b, ts) == CommonPrefix(c, ts)
    ensures var k := CommonPrefix(b, ts);
            if |b| == |c| then b == c
            else if |b| > |c| then k < |b| && ColDef(b[k]) && c == b[..k] + b[k + 1..]
            else k < |c| && ColDef(c[k]) && b == c[..k] + c[k + 1..]
  {
    hide Select, SecDef, Kinds, CommonPrefix, KindOf, ColDef, Block, InBlock, InsertedAt;
    var k, l := CommonPrefix(b, ts), CommonPrefix(c, ts);
    var at := SameBreakPlace(b, c, ts, k, l);
    RestOfBreak(b, c, ts, k, at);
  }

  /** Deleting the section an accepted insert made gives the old body back; only a COLDEF at the break may come or
      go. */
  lemma InsertUndone(before: Tokens, after: Tokens, caret: Caret, bound: set<string>, restored: Tokens)
    requires InsertAccepted(before, after, caret, bound)
    requires DeleteAccepted(after, restored, InsertedIndex(before, after) + 1)
    ensures var k := CommonPrefix(before, after);
            if |before| == |restored| then restored == before
            else if |before| > |restored| then
              k < |before| && ColDef(before[k]) && restored == before[..k] + before[k + 1..]
            else k < |restored| && ColDef(restored[k]) && before == restored[..k] + restored[k + 1..]
  {
    BreakDetermined(before, restored, after);
  }

  /** Undoing an accepted insert is an accepted delete of the section after the SECDEFs of the common prefix. */
  lemma InsertReversed(before: Tokens, after: Tokens, caret: Caret, bound: set<string>)
    requires InsertAccepted(before, after, caret, bound)
    ensures DeleteAccepted(after, before, |Select(before[..CommonPrefix(before, after)], SecDefs)| + 1)
  {
  }

  /** The new SECDEF stands right after those of the common prefix, the last of which it copies; the others keep their
      order. */
  lemma {:induction false} SecDefPlace(shorter: Tokens, longer: Tokens, k: nat, bound: set<string>)
    requires InsertedAt(shorter, longer, k) && Kinds(Block(shorter, longer, k)) in SECTION_BREAK_SHAPES
    requires CopyOf(Block(shorter, longer, k), shorter[..k], SecDefs, bound)
    ensures var index, olds, news := |Select(shorter[..k], SecDefs)|, Select(shorter, SecDefs), Select(longer, SecDefs);
            && 0 < index <= |olds| && |news| == |olds| + 1
            && Select(Block(shorter, longer, k), SecDefs) == [news[index]]
            && olds[index - 1] == Last(Select(shorter[..k], SecDefs))
            && CopiedSig(news[index], olds[index - 1], bound)
            && news == olds[..index] + [news[index]] + olds[index..]
  {
    BreakConserves(shorter, longer, k);
    var p, block := shorter[..k], Block(shorter, longer, k);
    assert shorter == p + shorter[k..];
    SelectConcat(p, shorter[k..], SecDefs);
    CopiedFrom(block, p, bound);
    Around(Select(shorter, SecDefs), Select(block, SecDefs), Select(longer, SecDefs), |Select(p, SecDefs)|);
  }

  /** In an accepted insert that index is the new SECDEF's place: it is the block's own, and the others keep their
      order around it. */
  lemma {:induction false} InsertedSecDef(before: Tokens, after: Tokens, caret: Caret, bound: set<string>)
    requires InsertAccepted(before, after, caret, bound)
    ensures var index, olds, news := InsertedIndex(before, after), Select(before, SecDefs), Select(after, SecDefs);
            && 0 < index <= |olds| && |news| == |olds| + 1
            && Select(Block(before, after, CommonPrefix(before, after)), SecDefs) == [news[index]]
            && CopiedSig(news[index], olds[index - 1], bound)
            && news == olds[..index] + [news[index]] + olds[index..]
  {
    SecDefPlace(before, after, CommonPrefix(before, after), bound);
  }

  lemma CopiedFrom(block: Tokens, head: Tokens, bound: set<string>)
    requires CopyOf(block, head, SecDefs, bound) && |Select(block, SecDefs)| == 1
    ensures Select(head, SecDefs) != []
  {
  }

  lemma Around(olds: Tokens, one: Tokens, news: Tokens, n: nat)
    requires n <= |olds| && |one| == 1 && news == olds[..n] + one + olds[n..]
    ensures |news| == |olds| + 1 && one == [news[n]] && news == olds[..n] + [news[n]] + olds[n..]
  {
  }

  /** A planned caret and an accepted break: the paragraph was split between two characters. */
  lemma PlannedSplitIsInterior(before: Tokens, after: Tokens, caret: Caret, bound: set<string>)
    requires InsertAccepted(before, after, caret, bound) && NamesParagraph(before, caret)
    requires forall cut :: 0 <= cut <= |Segment(before, caret)| && Reached(Segment(before, caret), cut, caret.pos) ==>
               Interior(Segment(before, caret), cut)
    ensures var cut := CommonPrefix(before, after) - SegmentStart(before, caret);
            0 <= cut <= |Segment(before, caret)| && Interior(Segment(before, caret), cut)
  {
    CaretAgreement(before, caret, CommonPrefix(before, after));
  }

  // ------------------------------------------------------------ column definitions

  /** _section_coldef_reasons: at most one definition comes or goes, every other one survives. */
  method SectionColDefs(before: seq<string>, after: seq<string>, inserted: bool) returns (ok: bool)
    ensures ok <==> if inserted then multiset(before) <= multiset(after) && |after| <= |before| + 1
                    else multiset(after) <= multiset(before) && |before| <= |after| + 1
  {
    var delta := |after| - |before|;
    var smaller, larger := if inserted then before else after, if inserted then after else before;
    Cardinality(smaller, larger);
    if delta != 0 && delta != (if inserted then 1 else -1) { return false; }
    var left := larger;
    for i := 0 to |smaller|
      invariant multiset(left) + multiset(smaller[..i]) == multiset(larger)
    {
      assert smaller[..i + 1] == smaller[..i] + [smaller[i]];
      assert smaller == smaller[..i] + [smaller[i]] + smaller[i + 1..];
      if smaller[i] !in left {
        assert multiset(smaller)[smaller[i]] >= multiset(smaller[..i])[smaller[i]] + 1;
        return false;
      }
      var k :| 0 <= k < |left| && left[k] == smaller[i];
      assert left == left[..k] + [left[k]] + left[k + 1..];
      left := left[..k] + left[k + 1..];
    }
    assert smaller[..|smaller|] == smaller;
    ok := true;
  }

  lemma Cardinality(a: seq<string>, b: seq<string>)
    ensures multiset(a) <= multiset(b) ==> |a| <= |b|
  {
    if multiset(a) <= multiset(b) {
      assert multiset(b) == multiset(a) + (multiset(b) - multiset(a));
      assert |multiset(a)| == |a| && |multiset(b)| == |b|;
    }
  }
}
