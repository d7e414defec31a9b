/** linearize(): the body as document-order tokens, and when they list every section (app/object_insert.py). */
module BodyLinear {
  import opened Text
  import opened Hwpml
  import opened Signatures
  import opened References
  import opened BodyTokens

  const CONTROL_TAGS: set<string> :=
    {"TABLE", "PICTURE", "LINE", "RECTANGLE", "ELLIPSE", "ARC", "POLYGON", "CURVE", "CONNECTLINE",
     "UNKNOWNOBJECT", "CONTAINER", "OLE", "EQUATION", "TEXTART", "BUTTON", "RADIOBUTTON", "CHECKBUTTON",
     "COMBOBOX", "EDIT", "LISTBOX", "SCROLLBAR", "FIELDBEGIN", "FIELDEND", "BOOKMARK", "HEADER", "FOOTER",
     "FOOTNOTE", "ENDNOTE", "AUTONUM", "NEWNUM", "PAGENUMCTRL", "PAGEHIDING", "PAGENUM", "INDEXMARK",
     "COMPOSE", "DUTMAL", "HIDDENCOMMENT", "SECDEF", "COLDEF"}
  const TEXT_TAG := "CHAR"
  const TEXT_RUN_TAG := "TEXT"
  const CHAR_SHAPE_ATTR := "CharShape"

  function ControlKey(e: Element): string {
    if e.tag == "FIELDBEGIN" then "FIELDBEGIN:" + (if "Type" in e.attrib then e.attrib["Type"] else "") else e.tag
  }

  function Chars(value: string, shape: Option<string>): Tokens {
    seq(|value|, i requires 0 <= i < |value| => Char(value[i], shape))
  }

  /** walk(): run wrappers carry no token, controls are atomic, everything else opens and closes. */
  function Walk(e: Element, shape: Option<string>, inRun: bool): Tokens
    decreases e, 1
  {
    if e.tag in CONTROL_TAGS then [Control(ControlKey(e), Signature(e, map[], {}))]
    else
      var structural := e.tag != TEXT_TAG && e.tag != TEXT_RUN_TAG;
      var here := if e.tag == TEXT_RUN_TAG && CHAR_SHAPE_ATTR in e.attrib then Some(e.attrib[CHAR_SHAPE_ATTR])
          else shape;
      (if structural then [Open(e.tag, Attrs(e, map[]))] else [])
      + ((if e.tag == TEXT_TAG then Chars(e.text, here) else [])
         + (WalkAll(e.children, here, inRun || e.tag == TEXT_TAG)
            + (if structural then [Close(e.tag)] else [])))
  }

  function WalkAll(es: seq<Element>, shape: Option<string>, run: bool): Tokens
    decreases es, 0
  {
    if es == [] then []
    else Walk(es[0], shape, run) + ((if run then Chars(es[0].tail, shape) else []) + WalkAll(es[1..], shape, run))
  }

  /** The tokens under a body, the body itself not included. */
  function Linear(body: Element): Tokens {
    WalkAll(body.children, None, false)
  }

  // ------------------------------------------------------------ what each element becomes

  predicate DrawnTag(tag: string) {
    tag in {"TABLE", "PICTURE", "LINE", "RECTANGLE", "ELLIPSE", "ARC", "POLYGON", "CURVE", "CONNECTLINE",
            "UNKNOWNOBJECT", "CONTAINER", "OLE", "EQUATION", "TEXTART"}
  }

  predicate FormTag(tag: string) {
    tag in {"BUTTON", "RADIOBUTTON", "CHECKBUTTON", "COMBOBOX", "EDIT", "LISTBOX", "SCROLLBAR"}
  }

  predicate MarkTag(tag: string) {
    tag in {"FIELDBEGIN", "FIELDEND", "BOOKMARK", "AUTONUM", "NEWNUM", "INDEXMARK", "COMPOSE", "DUTMAL",
            "HIDDENCOMMENT"}
  }

  predicate PageTag(tag: string) {
    tag in {"HEADER", "FOOTER", "FOOTNOTE", "ENDNOTE", "PAGENUMCTRL", "PAGEHIDING", "PAGENUM", "SECDEF", "COLDEF"}
  }

  predicate ControlTag(tag: string) {
    DrawnTag(tag) || FormTag(tag) || MarkTag(tag) || PageTag(tag)
  }

  lemma ControlTags(tag: string)
    ensures tag in CONTROL_TAGS <==> ControlTag(tag)
  {
  }

  lemma TextTags()
    ensures "CHAR" !in CONTROL_TAGS && "TEXT" !in CONTROL_TAGS
  {
    assert "LINE"[0] == 'L' && "EDIT"[0] == 'E' && "CHAR"[0] == 'C' && "TEXT"[0] == 'T';
    assert |"CHAR"| == 4 && |"TEXT"| == 4;
  }

  /** The token of a control: its kind, a field's with its type, and its printed form. */
  function ControlToken(e: Element): Token {
    var kind := match e.Get("Type") case Some(v) => v case None => "";
    Control(if e.tag == "FIELDBEGIN" then "FIELDBEGIN:" + kind else e.tag, Signature(e, map[], {}))
  }

  /** The shape a TEXT run sets. */
  function RunShape(e: Element, shape: Option<string>): Option<string> {
    if e.Get("CharShape").Some? then e.Get("CharShape") else shape
  }

  /** Drawings, form controls, fields and marks, notes, page and section controls are whole tokens; CHAR gives its text
      character by character, TEXT only sets the shape of the run, and any other element opens and closes. */
  lemma WalkExactly(e: Element, shape: Option<string>, inRun: bool)
    ensures ControlTag(e.tag) ==> Walk(e, shape, inRun) == [ControlToken(e)]
    ensures e.tag == "CHAR" ==> Walk(e, shape, inRun) == Chars(e.text, shape) + WalkAll(e.children, shape, true)
    ensures e.tag == "TEXT" ==> Walk(e, shape, inRun) == WalkAll(e.children, RunShape(e, shape), inRun)
    ensures (!ControlTag(e.tag) && e.tag != "CHAR" && e.tag != "TEXT") ==>
              Walk(e, shape, inRun)
              == [Open(e.tag, Attrs(e, map[]))] + WalkAll(e.children, shape, inRun) + [Close(e.tag)]
  {
    ControlTags(e.tag);
    TextTags();
    hide CONTROL_TAGS, ControlTag, Signature, Attrs, WalkAll, Chars;
  }

  /** Children follow each other; what follows one inside a run is text of the run. */
  lemma WalkChildren(es: seq<Element>, fs: seq<Element>, shape: Option<string>, run: bool)
    ensures WalkAll(es + fs, shape, run) == WalkAll(es, shape, run) + WalkAll(fs, shape, run)
    ensures es != [] ==>
              WalkAll(es[..1], shape, run) == Walk(es[0], shape, run) + if run then Chars(es[0].tail, shape) else []
  {
    hide Walk, Chars;
    if es != [] { assert es[..1][1..] == []; }
    WalkConcat(es, fs, shape, run);
  }

  lemma {:induction false} WalkConcat(es: seq<Element>, fs: seq<Element>, shape: Option<string>, run: bool)
    ensures WalkAll(es + fs, shape, run) == WalkAll(es, shape, run) + WalkAll(fs, shape, run)
  {
    hide Walk, Chars;
    if es == [] {
      assert es + fs == fs;
    } else {
      assert (es + fs)[1..] == es[1..] + fs;
      WalkConcat(es[1..], fs, shape, run);
    }
  }

  // ------------------------------------------------------------ sections

  /** The SECDEF elements in document order. */
  function SecDefElements(es: seq<Element>): seq<Element> {
    if es == [] then [] else (if es[0].tag == "SECDEF" then [es[0]] else []) + SecDefElements(es[1..])
  }

  function Sections(root: Element): seq<Element> {
    SecDefElements(Iter(root))
  }

  lemma {:induction false} SecDefConcat(a: seq<Element>, b: seq<Element>)
    ensures SecDefElements(a + b) == SecDefElements(a) + SecDefElements(b)
  {
    if a == [] {
      assert a + b == b;
    } else {
      assert (a + b)[0] == a[0] && (a + b)[1..] == a[1..] + b;
      SecDefConcat(a[1..], b);
    }
  }

  /** The sections that are tokens of their own: those not inside a control. */
  function Shown(e: Element): seq<Element>
    decreases e, 1
  {
    if e.tag in CONTROL_TAGS then (if e.tag == "SECDEF" then [e] else []) else ShownAll(e.children)
  }

  function ShownAll(es: seq<Element>): seq<Element>
    decreases es, 0
  {
    if es == [] then [] else Shown(es[0]) + ShownAll(es[1..])
  }

  function SecToken(s: Element): Token {
    Control("SECDEF", Signature(s, map[], {}))
  }

  function SecTokens(ss: seq<Element>): Tokens {
    seq(|ss|, i requires 0 <= i < |ss| => SecToken(ss[i]))
  }

  lemma SecTokensConcat(a: seq<Element>, b: seq<Element>)
    ensures SecTokens(a + b) == SecTokens(a) + SecTokens(b)
  {
  }

  lemma CharsHoldNone(value: string, shape: Option<string>)
    ensures Select(Chars(value, shape), SecDefs) == []
  {
    SelectNone(Chars(value, shape), SecDefs);
  }

  lemma SelectSingle(t: Token)
    ensures Select([t], SecDefs) == if SecDef(t) then [t] else []
  {
    assert [t][1..] == [];
  }

  /** The SECDEF tokens are the printed sections outside controls, in document order. */
  lemma {:induction false} WalkShows(e: Element, shape: Option<string>, inRun: bool)
    ensures Select(Walk(e, shape, inRun), SecDefs) == SecTokens(Shown(e))
    decreases e, 1
  {
    hide Select, Signature;
    if e.tag in CONTROL_TAGS {
      SelectSingle(Control(ControlKey(e), Signature(e, map[], {})));
      KeyOfSection(e);
    } else {
      var structural := e.tag != TEXT_TAG && e.tag != TEXT_RUN_TAG;
      var here := if e.tag == TEXT_RUN_TAG && CHAR_SHAPE_ATTR in e.attrib then Some(e.attrib[CHAR_SHAPE_ATTR])
          else shape;
      var open := if structural then [Open(e.tag, Attrs(e, map[]))] else [];
      var close := if structural then [Close(e.tag)] else [];
      var text := if e.tag == TEXT_TAG then Chars(e.text, here) else [];
      var kids := WalkAll(e.children, here, inRun || e.tag == TEXT_TAG);
      WalkAllShows(e.children, here, inRun || e.tag == TEXT_TAG);
      SelectSingle(Open(e.tag, Attrs(e, map[])));
      SelectSingle(Close(e.tag));
      CharsHoldNone(e.text, here);
      SelectNone([], SecDefs);
      SelectConcat(open, text + (kids + close), SecDefs);
      SelectConcat(text, kids + close, SecDefs);
      SelectConcat(kids, close, SecDefs);
    }
  }

  lemma KeyOfSection(e: Element)
    ensures ControlKey(e) == "SECDEF" <==> e.tag == "SECDEF"
  {
    assert |"FIELDBEGIN:"| == 11;
  }

  lemma NoneShown()
    ensures Select([], SecDefs) == [] && SecTokens([]) == []
  {
  }

  lemma {:induction false} WalkAllShows(es: seq<Element>, shape: Option<string>, run: bool)
    ensures Select(WalkAll(es, shape, run), SecDefs) == SecTokens(ShownAll(es))
    decreases es, 0
  {
    hide Select, Signature, Walk, Shown, SecTokens, Chars;
    NoneShown();
    if es != [] {
      var first, tail, rest := Walk(es[0], shape, run), if run then Chars(es[0].tail, shape)
          else [], WalkAll(es[1..], shape, run);
      WalkShows(es[0], shape, run);
      WalkAllShows(es[1..], shape, run);
      CharsHoldNone(es[0].tail, shape);
      assert Select(tail, SecDefs) == [];
      SelectConcat(first, tail + rest, SecDefs);
      SelectConcat(tail, rest, SecDefs);
      SecTokensConcat(Shown(es[0]), ShownAll(es[1..]));
    }
  }

  // ------------------------------------------------------------ when every section is a token

  /** No control holds a SECDEF inside it. */
  predicate Flat(e: Element)
    decreases e, 1
  {
    if e.tag in CONTROL_TAGS then SecDefElements(IterAll(e.children)) == [] else FlatAll(e.children)
  }

  predicate FlatAll(es: seq<Element>)
    decreases es, 0
  {
    es == [] || (Flat(es[0]) && FlatAll(es[1..]))
  }

  lemma {:induction false} FlatShown(e: Element)
    ensures |Shown(e)| <= |SecDefElements(Iter(e))|
    ensures Flat(e) <==> |Shown(e)| == |SecDefElements(Iter(e))|
    ensures Flat(e) ==> Shown(e) == SecDefElements(Iter(e))
    decreases e, 1
  {
    var kids := IterAll(e.children);
    assert Iter(e) == [e] + kids;
    SecDefConcat([e], kids);
    assert [e][1..] == [];
    assert SecDefElements([e]) == if e.tag == "SECDEF" then [e] else [];
    if e.tag !in CONTROL_TAGS { FlatAllShown(e.children); }
  }

  lemma {:induction false} FlatAllShown(es: seq<Element>)
    ensures |ShownAll(es)| <= |SecDefElements(IterAll(es))|
    ensures FlatAll(es) <==> |ShownAll(es)| == |SecDefElements(IterAll(es))|
    ensures FlatAll(es) ==> ShownAll(es) == SecDefElements(IterAll(es))
    decreases es, 0
  {
    if es != [] {
      FlatShown(es[0]);
      FlatAllShown(es[1..]);
      assert IterAll(es) == Iter(es[0]) + IterAll(es[1..]);
      SecDefConcat(Iter(es[0]), IterAll(es[1..]));
    }
  }

  /** The body tokens list the document's SECDEFs in order, each by its signature. */
  ghost predicate Lists(ts: Tokens, sections: seq<Element>) {
    Select(ts, SecDefs) == SecTokens(sections)
  }

  /** The tokens of a body list its sections exactly when no control holds one inside it. */
  lemma LinearLists(body: Element)
    requires body.tag == BODY_TAG
    ensures Lists(Linear(body), Sections(body)) <==> FlatAll(body.children)
  {
    hide Select, Walk, WalkAll, Shown, ShownAll, Flat, FlatAll;
    WalkAllShows(body.children, None, false);
    FlatAllShown(body.children);
    assert Iter(body) == [body] + IterAll(body.children);
    SecDefConcat([body], IterAll(body.children));
    assert SecDefElements([body]) == [];
    if Lists(Linear(body), Sections(body)) {
      assert |SecTokens(ShownAll(body.children))| == |SecTokens(Sections(body))|;
    }
  }

  // ------------------------------------------------------------ the body of a document

  function FirstBody(es: seq<Element>): Option<Element> {
    if es == [] then None else if es[0].tag == BODY_TAG then Some(es[0]) else FirstBody(es[1..])
  }

  /** root itself, or root.find('.//BODY'). */
  function BodyOf(root: Element): Option<Element> {
    FirstBody(Iter(root))
  }

  lemma {:induction false} FirstBodyTag(es: seq<Element>)
    ensures FirstBody(es).Some? ==> FirstBody(es).value.tag == BODY_TAG && FirstBody(es).value in es
  {
    if es != [] { FirstBodyTag(es[1..]); }
  }

  /** What a caller can check of a document: it has a body, all its SECDEFs are in there and none is inside a
      control. */
  predicate SectionsInBody(root: Element) {
    BodyOf(root).Some? && Sections(root) == Sections(BodyOf(root).value) && FlatAll(BodyOf(root).value.children)
  }

  function BodyTokensOf(root: Element): Tokens
    requires BodyOf(root).Some?
  {
    Linear(BodyOf(root).value)
  }

  /** Then, and of documents with all sections in the body only then, the body tokens list the document's sections. */
  lemma DocumentLists(root: Element)
    requires BodyOf(root).Some? && Sections(root) == Sections(BodyOf(root).value)
    ensures Lists(BodyTokensOf(root), Sections(root)) <==> SectionsInBody(root)
  {
    FirstBodyTag(Iter(root));
    LinearLists(BodyOf(root).value);
  }
}
