/** Derived line reflow: what a picture layout may recompute in its own paragraph's line cache
    (app/hwpx_saved_proof.py). */
module LineReflow {
  import opened Text
  import opened SavedPackage

  const LINESEG_ATTRIBUTES: set<string> :=
    {"textpos", "vertpos", "vertsize", "textheight", "baseline", "spacing", "horzpos", "horzsize", "flags"}
  const LINESEG_UNSIGNED: set<string> := {"textpos", "flags"}
  const REFLOW_FIELDS: set<string> := {"baseline", "horzpos", "horzsize", "textheight", "vertsize"}
  const MAX_REFLOW_LINES: nat := 10000
  const LINESEGARRAY := "{http://www.hancom.co.kr/hwpml/2011/paragraph}linesegarray"
  const LINESEG := "{http://www.hancom.co.kr/hwpml/2011/paragraph}lineseg"

  // ------------------------------------------------------------ exact decimal integers

  /** str(value) */
  function IntText(value: int): string {
    if value < 0 then "-" + Decimal(-value) else Decimal(value)
  }

  /** The pattern 0|-?[1-9][0-9]{0,9}, read as an integer. */
  function ExactDecimal(s: string): Option<int> {
    var body := if s != [] && s[0] == '-' then s[1..] else s;
    if Digits(body) && |body| <= 10 && (body[0] == '0' ==> s == "0") then
      var value: int := DigitsValue(body);
      Some(if |body| < |s| then -value else value)
    else None
  }

  /** An accepted attribute text is the printed form of its value, so writing the value back restores the text. */
  lemma ExactDecimalCanonical(s: string)
    requires ExactDecimal(s).Some?
    ensures IntText(ExactDecimal(s).value) == s
  {
    var body := if s != [] && s[0] == '-' then s[1..] else s;
    DecimalCanonical(body);
    DecimalRoundTrip(DigitsValue(body));
    if |body| < |s| {
      assert s == "-" + body;
      assert DigitsValue(body) != 0;
    }
  }

  // ------------------------------------------------------------ lines

  type Line = map<string, int>

  /** One hp:lineseg: exactly the nine attributes, exact integers in range, no content. */
  predicate LineNode(n: Node) {
    && n.tag == Name(LINESEG) && n.children == [] && OrNone(n.text) == None && OrNone(n.tail) == None
    && n.attrib.Keys == LINESEG_ATTRIBUTES
    && forall k :: k in n.attrib ==> InRange(k, ExactDecimal(n.attrib[k]))
  }

  predicate InRange(name: string, value: Option<int>) {
    value.Some? && if name in LINESEG_UNSIGNED then 0 <= value.value < 0x1_0000_0000
        else -0x8000_0000 <= value.value < 0x8000_0000
  }

  function LineOf(n: Node): (line: Line)
    requires LineNode(n)
    ensures line.Keys == LINESEG_ATTRIBUTES
  {
    map k | k in n.attrib :: ExactDecimal(n.attrib[k]).value
  }

  predicate ArrayNode(n: Node) {
    n.tag == Name(LINESEGARRAY)
  }

  /** The well-formed line cache of a paragraph sits in its child number index, the only array it holds. */
  predicate LinesAt(paragraph: Node, index: nat) {
    && index < |paragraph.children| && ArrayNode(paragraph.children[index])
    && (forall i :: 0 <= i < |paragraph.children| && ArrayNode(paragraph.children[i]) ==> i == index)
    && var lines := paragraph.children[index];
       && lines.attrib == map[] && OrNone(lines.text) == None && OrNone(lines.tail) == None
       && 1 <= |lines.children| <= MAX_REFLOW_LINES
       && forall i :: 0 <= i < |lines.children| ==> LineNode(lines.children[i])
  }

  /** _line_rows: the index of the one line array and its rows. */
  function Lines(paragraph: Node, index: nat): (rows: seq<Line>)
    requires LinesAt(paragraph, index)
    ensures |rows| == |paragraph.children[index].children|
  {
    var lines := paragraph.children[index].children;
    seq(|lines|, i requires 0 <= i < |lines| => LineOf(lines[i]))
  }

  predicate Bounded(line: Line, textWidth: int, paperHeight: int) {
    && line.Keys == LINESEG_ATTRIBUTES
    && (forall k :: k in REFLOW_FIELDS ==> line[k] >= 0)
    && line["baseline"] <= line["vertsize"] && line["textheight"] <= line["vertsize"]
    && line["horzpos"] + line["horzsize"] <= textWidth && line["vertsize"] <= paperHeight
  }

  // ------------------------------------------------------------ the scope and its application

  /** Bound from the before-state and the request only. */
  datatype Scope = Scope(paragraph: nat, array_: nat, rows: seq<Line>, fields: set<string>, textWidth: int,
      paperHeight: int)

  /** The scope describes the given before-tree. */
  predicate BoundTo(scope: Scope, section: Node) {
    && scope.fields <= REFLOW_FIELDS
    && scope.paragraph < |section.children|
    && LinesAt(section.children[scope.paragraph], scope.array_)
    && Lines(section.children[scope.paragraph], scope.array_) == scope.rows
  }

  /** Writing lines into the nodes that hold them. */
  function PutLine(n: Node, line: Line): Node {
    n.(attrib := map k | k in n.attrib :: if k in line then IntText(line[k]) else n.attrib[k])
  }

  function PutLines(ns: seq<Node>, rows: seq<Line>): (r: seq<Node>)
    requires |ns| == |rows|
    ensures |r| == |ns|
  {
    seq(|ns|, i requires 0 <= i < |ns| => PutLine(ns[i], rows[i]))
  }

  /** The paragraph with the given lines in its line array, everything else as it is. */
  function PutParagraph(paragraph: Node, index: nat, rows: seq<Line>): Node
    requires index < |paragraph.children| && |paragraph.children[index].children| == |rows|
  {
    var lines := paragraph.children[index];
    paragraph.(children := paragraph.children[index := lines.(children := PutLines(lines.children, rows))])
  }

  /** The section with the given lines in the scope's line array. */
  function PutSection(section: Node, scope: Scope, rows: seq<Line>): Node
    requires scope.paragraph < |section.children|
    requires scope.array_ < |section.children[scope.paragraph].children|
    requires |section.children[scope.paragraph].children[scope.array_].children| == |rows|
  {
    section.(children := section.children[scope.paragraph := PutParagraph(section.children[scope.paragraph],
        scope.array_, rows)])
  }

  /** What _apply_reflow admits: same place, same number of lines, anchors unchanged, every line within bounds. */
  predicate Admitted(scope: Scope, expected: Node, actual: Node) {
    && scope.paragraph < |expected.children| && scope.paragraph < |actual.children|
    && actual.children[scope.paragraph].tag == expected.children[scope.paragraph].tag
    && LinesAt(actual.children[scope.paragraph], scope.array_)
    && var rows := Lines(actual.children[scope.paragraph], scope.array_);
       && (forall i :: 0 <= i < |rows| ==> Bounded(rows[i], scope.textWidth, scope.paperHeight))
       && |rows| == |scope.rows|
       && forall i :: 0 <= i < |rows| ==> AnchorsKept(scope.rows[i], rows[i], scope.fields)
  }

  predicate AnchorsKept(before: Line, after: Line, fields: set<string>) {
    forall k :: k in LINESEG_ATTRIBUTES && k !in fields ==> k in before && k in after && after[k] == before[k]
  }

  /** One line of the loop: the declared metrics that moved are written, the rest is left alone. */
  function Adopt(n: Node, before: Line, after: Line, fields: set<string>): Node {
    n.(attrib := map k | k in n.attrib ::
         if k in fields && k in before && k in after && after[k] != before[k] then IntText(after[k]) else n.attrib[k])
  }

  /** The node's attribute texts are the printed values of the line. */
  ghost predicate Shows(n: Node, line: Line) {
    n.attrib.Keys == line.Keys && forall k :: k in n.attrib ==> n.attrib[k] == IntText(line[k])
  }

  lemma LineShows(n: Node)
    requires LineNode(n)
    ensures Shows(n, LineOf(n))
  {
    forall k | k in n.attrib ensures n.attrib[k] == IntText(LineOf(n)[k]) {
      assert InRange(k, ExactDecimal(n.attrib[k]));
      ExactDecimalCanonical(n.attrib[k]);
    }
  }

  /** Adopting a line whose anchors are kept is writing it whole. */
  lemma AdoptIsPut(n: Node, before: Line, after: Line, fields: set<string>)
    requires Shows(n, before) && before.Keys == LINESEG_ATTRIBUTES && after.Keys == LINESEG_ATTRIBUTES
        && AnchorsKept(before, after, fields)
    ensures Adopt(n, before, after, fields) == PutLine(n, after)
  {
    assert Adopt(n, before, after, fields).attrib == PutLine(n, after).attrib;
  }

  /** Putting a line's own values back changes nothing. */
  lemma PutOwn(n: Node, line: Line)
    requires Shows(n, line)
    ensures PutLine(n, line) == n
  {
    assert PutLine(n, line).attrib == n.attrib;
  }

  lemma PutTwice(n: Node, line: Line, again: Line)
    requires line.Keys == again.Keys
    ensures PutLine(PutLine(n, line), again) == PutLine(n, again)
  {
    assert PutLine(PutLine(n, line), again).attrib == PutLine(n, again).attrib;
  }

  /** What the loop needs of one segment and its two lines. */
  ghost predicate Adoptable(n: Node, before: Line, after: Line, fields: set<string>) {
    Shows(n, before) && before.Keys == LINESEG_ATTRIBUTES && after.Keys == LINESEG_ATTRIBUTES
        && AnchorsKept(before, after, fields)
  }

  /** The loop of _apply_reflow over the paragraph's segments. */
  method AdoptLines(segments: seq<Node>, before: seq<Line>, after: seq<Line>, fields: set<string>)
      returns (out: seq<Node>)
    requires |segments| == |before| == |after|
    requires forall i :: 0 <= i < |segments| ==> Adoptable(segments[i], before[i], after[i], fields)
    ensures |out| == |segments| && forall k :: 0 <= k < |out| ==> out[k] == PutLine(segments[k], after[k])
  {
    hide PutLine, Adoptable;
    out := [];
    for i := 0 to |segments|
      invariant |out| == i && forall k :: 0 <= k < i ==> out[k] == PutLine(segments[k], after[k])
    {
      assert Adoptable(segments[i], before[i], after[i], fields);
      var node := AdoptOne(segments[i], before[i], after[i], fields);
      out := out + [node];
    }
  }

  method AdoptOne(n: Node, before: Line, after: Line, fields: set<string>) returns (out: Node)
    requires Adoptable(n, before, after, fields)
    ensures out == PutLine(n, after)
  {
    AdoptIsPut(n, before, after, fields);
    out := Adopt(n, before, after, fields);
  }

  /** The scope's lines and admitted actual lines satisfy what the loop needs. */
  lemma ScopeAdoptable(scope: Scope, expected: Node, actual: Node, rows: seq<Line>, i: nat)
    requires BoundTo(scope, expected) && Admitted(scope, expected, actual)
    requires rows == Lines(actual.children[scope.paragraph], scope.array_) && i < |rows|
    ensures Adoptable(expected.children[scope.paragraph].children[scope.array_].children[i], scope.rows[i],
              rows[i], scope.fields)
  {
    var lines := expected.children[scope.paragraph].children[scope.array_];
    assert Lines(expected.children[scope.paragraph], scope.array_)[i] == LineOf(lines.children[i]);
    LineShows(lines.children[i]);
    assert Bounded(rows[i], scope.textWidth, scope.paperHeight);
  }

  /** _apply_reflow: refuses, or returns the expected section with the actual lines written in place. */
  method ApplyReflow(scope: Scope, expected: Node, actual: Node) returns (result: Option<Node>)
    requires BoundTo(scope, expected)
    ensures result.Some? <==> Admitted(scope, expected, actual)
    ensures result.Some? ==> result.value == PutSection(expected, scope,
              Lines(actual.children[scope.paragraph], scope.array_))
  {
    if !Admitted(scope, expected, actual) { return None; }
    var paragraph := expected.children[scope.paragraph];
    var lines := paragraph.children[scope.array_];
    var rows := Lines(actual.children[scope.paragraph], scope.array_);
    forall i | 0 <= i < |lines.children| ensures Adoptable(lines.children[i], scope.rows[i], rows[i], scope.fields) {
      ScopeAdoptable(scope, expected, actual, rows, i);
    }
    var segments := AdoptLines(lines.children, scope.rows, rows, scope.fields);
    assert segments == PutLines(lines.children, rows);
    var put := paragraph.(children := paragraph.children[scope.array_ := lines.(children := segments)]);
    result := Some(expected.(children := expected.children[scope.paragraph := put]));
  }

  // ------------------------------------------------------------ the frame

  lemma {:induction false} CanonicalAt(ns: seq<Node>, i: nat)
    requires i < |ns|
    ensures |CanonicalAll(ns)| == |ns| && CanonicalAll(ns)[i] == Canonical(ns[i])
  {
    CanonicalLength(ns);
    if i > 0 {
      CanonicalAt(ns[1..], i - 1);
      assert CanonicalAll(ns)[1..] == CanonicalAll(ns[1..]);
    }
  }

  /** Equal canonical children, pointwise. */
  lemma CanonicalPointwise(xs: seq<Node>, ys: seq<Node>)
    requires |xs| == |ys| && forall i :: 0 <= i < |xs| ==> Canonical(xs[i]) == Canonical(ys[i])
    ensures CanonicalAll(xs) == CanonicalAll(ys)
  {
    CanonicalLength(xs);
    CanonicalLength(ys);
    forall i | 0 <= i < |xs| ensures CanonicalAll(xs)[i] == CanonicalAll(ys)[i] {
      CanonicalAt(xs, i);
      CanonicalAt(ys, i);
    }
  }

  lemma {:induction false} CanonicalUpdate(xs: seq<Node>, ys: seq<Node>, i: nat, x: Node, y: Node)
    requires CanonicalAll(xs) == CanonicalAll(ys) && i < |xs| && i < |ys| && Canonical(x) == Canonical(y)
    ensures CanonicalAll(xs[i := x]) == CanonicalAll(ys[i := y])
  {
    CanonicalLength(xs);
    CanonicalLength(ys);
    var us, vs := xs[i := x], ys[i := y];
    forall k | 0 <= k < |us| ensures Canonical(us[k]) == Canonical(vs[k]) {
      CanonicalAt(xs, k);
      CanonicalAt(ys, k);
    }
    CanonicalPointwise(us, vs);
  }

  lemma ReplaceChildren(x: Node, y: Node, xs: seq<Node>, ys: seq<Node>)
    requires Canonical(x) == Canonical(y) && CanonicalAll(xs) == CanonicalAll(ys)
    ensures Canonical(x.(children := xs)) == Canonical(y.(children := ys))
  {
  }

  /** Writing the same line into equal nodes gives equal nodes. */
  lemma {:induction false} PutLineCanonical(a: Node, b: Node, line: Line)
    requires Plain(a) && Plain(b) && Canonical(a) == Canonical(b)
    ensures Canonical(PutLine(a, line)) == Canonical(PutLine(b, line))
  {
    OwnAgrees(a, b);
    assert PutLine(a, line).attrib == PutLine(b, line).attrib;
  }

  lemma {:induction false} PutLinesCanonical(xs: seq<Node>, ys: seq<Node>, rows: seq<Line>)
    requires |xs| == |ys| == |rows| && CanonicalAll(xs) == CanonicalAll(ys)
    requires (forall x :: x in xs ==> Plain(x)) && (forall y :: y in ys ==> Plain(y))
    ensures CanonicalAll(PutLines(xs, rows)) == CanonicalAll(PutLines(ys, rows))
  {
    forall i | 0 <= i < |xs| ensures Canonical(PutLines(xs, rows)[i]) == Canonical(PutLines(ys, rows)[i]) {
      CanonicalAt(xs, i);
      CanonicalAt(ys, i);
      PutLineCanonical(xs[i], ys[i], rows[i]);
    }
    CanonicalPointwise(PutLines(xs, rows), PutLines(ys, rows));
  }

  /** Putting the same lines at the same place of equal sections keeps them equal. */
  lemma PutSectionCanonical(a: Node, b: Node, scope: Scope, rows: seq<Line>)
    requires Plain(a) && Plain(b) && Canonical(a) == Canonical(b)
    requires scope.paragraph < |a.children| && scope.array_ < |a.children[scope.paragraph].children|
    requires |a.children[scope.paragraph].children[scope.array_].children| == |rows|
    requires scope.paragraph < |b.children| && scope.array_ < |b.children[scope.paragraph].children|
    requires |b.children[scope.paragraph].children[scope.array_].children| == |rows|
    ensures Canonical(PutSection(a, scope, rows)) == Canonical(PutSection(b, scope, rows))
  {
    var p, q := a.children[scope.paragraph], b.children[scope.paragraph];
    CanonicalAt(a.children, scope.paragraph);
    CanonicalAt(b.children, scope.paragraph);
    assert Plain(p) && Plain(q);
    PutParagraphCanonical(p, q, scope.array_, rows);
    var u, v := PutParagraph(p, scope.array_, rows), PutParagraph(q, scope.array_, rows);
    CanonicalUpdate(a.children, b.children, scope.paragraph, u, v);
    ReplaceChildren(a, b, a.children[scope.paragraph := u], b.children[scope.paragraph := v]);
  }

  lemma PutParagraphCanonical(p: Node, q: Node, index: nat, rows: seq<Line>)
    requires Plain(p) && Plain(q) && Canonical(p) == Canonical(q)
    requires index < |p.children| && |p.children[index].children| == |rows|
    requires index < |q.children| && |q.children[index].children| == |rows|
    ensures Canonical(PutParagraph(p, index, rows)) == Canonical(PutParagraph(q, index, rows))
  {
    var x, y := p.children[index], q.children[index];
    CanonicalAt(p.children, index);
    CanonicalAt(q.children, index);
    assert Plain(x) && Plain(y);
    PutLinesCanonical(x.children, y.children, rows);
    var u, v := x.(children := PutLines(x.children, rows)), y.(children := PutLines(y.children, rows));
    ReplaceChildren(x, y, u.children, v.children);
    CanonicalUpdate(p.children, q.children, index, u, v);
    ReplaceChildren(p, q, p.children[index := u], q.children[index := v]);
  }

  lemma PutBackLines(lines: seq<Node>, rows: seq<Line>, own: seq<Line>)
    requires |lines| == |rows| == |own|
    requires forall i :: 0 <= i < |lines| ==> Shows(lines[i], own[i]) && rows[i].Keys == own[i].Keys
    ensures PutLines(PutLines(lines, rows), own) == lines
  {
    forall i | 0 <= i < |lines| ensures PutLines(PutLines(lines, rows), own)[i] == lines[i] {
      PutTwice(lines[i], rows[i], own[i]);
      PutOwn(lines[i], own[i]);
    }
  }

  lemma PutBackParagraph(paragraph: Node, index: nat, rows: seq<Line>, own: seq<Line>)
    requires index < |paragraph.children| && |paragraph.children[index].children| == |rows| == |own|
    requires PutLines(PutLines(paragraph.children[index].children, rows), own) == paragraph.children[index].children
    ensures PutParagraph(PutParagraph(paragraph, index, rows), index, own) == paragraph
  {
    assert PutParagraph(PutParagraph(paragraph, index, rows), index, own).children == paragraph.children;
  }

  /** Putting the original lines back undoes a put. */
  lemma PutBack(section: Node, scope: Scope, rows: seq<Line>)
    requires BoundTo(scope, section) && |rows| == |scope.rows|
    requires forall i :: 0 <= i < |rows| ==> rows[i].Keys == LINESEG_ATTRIBUTES
    ensures PutSection(PutSection(section, scope, rows), scope, scope.rows) == section
  {
    var paragraph := section.children[scope.paragraph];
    var lines := paragraph.children[scope.array_].children;
    forall i | 0 <= i < |lines| ensures Shows(lines[i], scope.rows[i]) && rows[i].Keys == scope.rows[i].Keys {
      assert scope.rows[i] == LineOf(lines[i]);
      LineShows(lines[i]);
    }
    PutBackLines(lines, rows, scope.rows);
    PutBackParagraph(paragraph, scope.array_, rows, scope.rows);
    assert PutSection(PutSection(section, scope, rows), scope, scope.rows).children == section.children;
  }

  lemma {:induction false} PutPlain(section: Node, scope: Scope, rows: seq<Line>)
    requires Plain(section) && BoundTo(scope, section) && |rows| == |scope.rows|
    ensures Plain(PutSection(section, scope, rows))
  {
    var paragraph := section.children[scope.paragraph];
    var lines := paragraph.children[scope.array_];
    assert Plain(paragraph) && Plain(lines);
    forall c | c in PutLines(lines.children, rows) ensures Plain(c) {
      var i :| 0 <= i < |rows| && PutLines(lines.children, rows)[i] == c;
      assert Plain(lines.children[i]);
    }
    assert Plain(lines.(children := PutLines(lines.children, rows)));
    assert Plain(PutParagraph(paragraph, scope.array_, rows));
  }

  /** Comparison against the reflowed expectation, read backwards: the old lines put back give before-plus-request. */
  lemma ReflowRestores(scope: Scope, expected: Node, actual: Node, rows: seq<Line>)
    requires BoundTo(scope, expected) && Plain(expected) && Plain(actual) && |rows| == |scope.rows|
    requires forall i :: 0 <= i < |rows| ==> rows[i].Keys == LINESEG_ATTRIBUTES
    requires scope.paragraph < |actual.children| && scope.array_ < |actual.children[scope.paragraph].children|
    requires |actual.children[scope.paragraph].children[scope.array_].children| == |rows|
    requires Difference(PutSection(expected, scope, rows), actual).None?
    ensures Canonical(PutSection(actual, scope, scope.rows)) == Canonical(expected)
  {
    var reflowed := PutSection(expected, scope, rows);
    PutPlain(expected, scope, rows);
    DifferenceIsCanonical(reflowed, actual);
    PutSectionCanonical(reflowed, actual, scope, scope.rows);
    PutBack(expected, scope, rows);
  }
}
