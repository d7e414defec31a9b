/** Parsed HWPML trees and the vocabulary of app/hwpml_invariants.py. */
module Hwpml {
  import opened Text

  /** An ElementTree node; absent text and tail are empty strings, attributes are a dict. */
  datatype Element = Element(tag: string, attrib: map<string, string>, text: string, tail: string,
      children: seq<Element>)
  {
    function Get(key: string): Option<string> {
      if key in attrib then Some(attrib[key]) else None
    }

    /** (element.get(key) or '').strip() */
    function Stripped(key: string): string {
      if key in attrib then Strip(attrib[key]) else ""
    }
  }

  type Ignore = map<string, set<string>>

  const LIST_COUNT_ATTR := "Count"
  const ENTRY_ID_ATTR := "Id"
  const BODY_TAG := "BODY"
  const HEAD_TAG := "HEAD"
  const MAPPINGTABLE_TAG := "MAPPINGTABLE"
  const OUTLINE_SHAPE := "OutlineShape"
  const MEMO_SHAPE_ID := "MemoShapeId"
  const MAX_REASONS: nat := 5
  const GROWABLE_HEAD_LISTS: map<string, string> :=
    map["CHARSHAPELIST" := "CHARSHAPE", "PARASHAPELIST" := "PARASHAPE", "TABDEFLIST" := "TABDEF",
        "BORDERFILLLIST" := "BORDERFILL"]
  const REFERENCE_BOUND_LISTS: map<string, string> := map["NUMBERINGLIST" := "NUMBERING", "MEMOSHAPELIST" := "MEMO"]
  const MAPPINGTABLE_ORDER: seq<string> :=
    ["BINDATALIST", "FACENAMELIST", "BORDERFILLLIST", "CHARSHAPELIST", "TABDEFLIST", "NUMBERINGLIST", "BULLETLIST",
     "PARASHAPELIST", "STYLELIST", "MEMOSHAPELIST"]
  const VIEW_STATE_HEAD_TAGS: set<string> := {"CARETPOS"}

  /** Entry Ids one section edit may append or remove, per reference-bound list. */
  datatype DefinitionDelta = DefinitionDelta(created: map<string, set<string>>, removable: map<string, set<string>>)
  {
    function Created(tag: string): set<string> { if tag in created then created[tag] else {} }
    function Removable(tag: string): set<string> { if tag in removable then removable[tag] else {} }
  }

  const NO_DELTA := DefinitionDelta(map[], map[])

  /** Attributes that may differ between two readbacks of an unchanged element, plus what the caller ignores. */
  function Skip(tag: string, ignore: Ignore): set<string> {
    {"InstId"} + (if tag == "AUTONUM" then {"Number"} else {}) + (if tag in ignore then ignore[tag] else {})
  }

  /** The attributes signature() and attrs() keep. */
  function Attrs(e: Element, ignore: Ignore): map<string, string> {
    map k | k in e.attrib && k !in Skip(e.tag, ignore) :: e.attrib[k]
  }

  /** What a comparison is meant to see: the tree without volatile/ignored attributes and omitted subtrees. */
  function Prune(e: Element, ignore: Ignore, omit: set<string>): Element {
    Element(e.tag, Attrs(e, ignore), e.text, e.tail, PruneAll(e.children, ignore, omit))
  }

  function PruneAll(es: seq<Element>, ignore: Ignore, omit: set<string>): seq<Element> {
    if es == [] then []
    else (if es[0].tag in omit then [] else [Prune(es[0], ignore, omit)]) + PruneAll(es[1..], ignore, omit)
  }

  /** Prune without the element's own tail, which belongs to its parent's content. */
  function Canon(e: Element, ignore: Ignore, omit: set<string>): Element {
    Prune(e, ignore, omit).(tail := "")
  }

  /** The comparison signature(a) == signature(b) stands for, with nothing ignored or omitted by the caller. */
  predicate Same(a: Element, b: Element) {
    Canon(a, map[], {}) == Canon(b, map[], {})
  }

  /** An XML name holds none of the characters the printed form uses as delimiters. */
  predicate Delimiter(c: char) {
    c == ' ' || c == '>' || c == '=' || c == '<' || c == '/' || c == '\'' || c == '"'
  }

  predicate XmlName(s: string) {
    s != [] && forall i :: 0 <= i < |s| ==> !Delimiter(s[i])
  }

  predicate Named(e: Element) {
    XmlName(e.tag) && (forall k :: k in e.attrib ==> XmlName(k)) && forall c :: c in e.children ==> Named(c)
  }

  // ------------------------------------------------------------ consequences of Same

  lemma PruneAllAt(es: seq<Element>, ignore: Ignore)
    ensures |PruneAll(es, ignore, {})| == |es|
    ensures forall i :: 0 <= i < |es| ==> PruneAll(es, ignore, {})[i] == Prune(es[i], ignore, {})
  {
    if es != [] { PruneAllAt(es[1..], ignore); }
  }

  /** Same elements agree on tag, text, compared attributes and, child by child, on tail and content. */
  lemma SameParts(a: Element, b: Element)
    requires Same(a, b)
    ensures a.tag == b.tag && a.text == b.text && Attrs(a, map[]) == Attrs(b, map[])
    ensures |a.children| == |b.children|
    ensures forall i :: 0 <= i < |a.children| ==>
              Same(a.children[i], b.children[i]) && a.children[i].tag == b.children[i].tag
  {
    PruneAllAt(a.children, map[]);
    PruneAllAt(b.children, map[]);
    forall i | 0 <= i < |a.children|
      ensures Same(a.children[i], b.children[i]) && a.children[i].tag == b.children[i].tag
    {
      assert Prune(a.children[i], map[], {}) == Prune(b.children[i], map[], {});
    }
  }

  lemma AttrAgrees(a: Element, b: Element, key: string)
    requires a.tag == b.tag && Attrs(a, map[]) == Attrs(b, map[])
    requires key !in Skip(a.tag, map[])
    ensures a.Get(key) == b.Get(key) && a.Stripped(key) == b.Stripped(key)
  {
    assert key in a.attrib <==> key in Attrs(a, map[]);
    assert key in b.attrib <==> key in Attrs(b, map[]);
  }

  /** What a comparison sees of two trees, attribute by attribute: it skips InstId, the Number of an AUTONUM and what
      the caller ignores, and nothing else. */
  ghost predicate AttributesAgree(a: Element, b: Element, ignored: set<string>) {
    forall key :: key != "InstId" && !(a.tag == "AUTONUM" && key == "Number") && key !in ignored ==>
      a.Get(key) == b.Get(key)
  }

  lemma AttrsAgree(a: Element, b: Element, ignore: Ignore)
    requires a.tag == b.tag
    ensures Attrs(a, ignore) == Attrs(b, ignore) <==>
              AttributesAgree(a, b, if a.tag in ignore then ignore[a.tag] else {})
  {
    var ignored := if a.tag in ignore then ignore[a.tag] else {};
    if Attrs(a, ignore) == Attrs(b, ignore) {
      forall key | key != "InstId" && !(a.tag == "AUTONUM" && key == "Number") && key !in ignored
        ensures a.Get(key) == b.Get(key)
      {
        assert key in Attrs(a, ignore) <==> key in a.attrib;
        assert key in Attrs(b, ignore) <==> key in b.attrib;
      }
    }
    if AttributesAgree(a, b, ignored) {
      forall key ensures key in Attrs(a, ignore) <==> key in Attrs(b, ignore)
                 ensures key in Attrs(a, ignore) ==> Attrs(a, ignore)[key] == Attrs(b, ignore)[key]
      {
        assert key !in Skip(a.tag, ignore) ==> a.Get(key) == b.Get(key);
      }
    }
  }

  /** Trees compare equal exactly when tag, text and every compared attribute agree and so do the children one by one,
      each with the text that follows it. */
  lemma CanonExactly(a: Element, b: Element, ignore: Ignore)
    ensures Canon(a, ignore, {}) == Canon(b, ignore, {}) <==>
        && a.tag == b.tag && a.text == b.text
        && AttributesAgree(a, b, if a.tag in ignore then ignore[a.tag] else {})
        && |a.children| == |b.children|
        && forall i :: 0 <= i < |a.children| ==>
             && a.children[i].tail == b.children[i].tail
             && Canon(a.children[i], ignore, {}) == Canon(b.children[i], ignore, {})
  {
    if a.tag == b.tag { AttrsAgree(a, b, ignore); }
    PruneAllAt(a.children, ignore);
    PruneAllAt(b.children, ignore);
    forall i | 0 <= i < |a.children| == |b.children|
      ensures Prune(a.children[i], ignore, {}) == Prune(b.children[i], ignore, {}) <==>
          && a.children[i].tail == b.children[i].tail
          && Canon(a.children[i], ignore, {}) == Canon(b.children[i], ignore, {})
    {
      var x, y := Prune(a.children[i], ignore, {}), Prune(b.children[i], ignore, {});
      assert x == x.(tail := "").(tail := x.tail) && y == y.(tail := "").(tail := y.tail);
    }
    if Canon(a, ignore, {}) == Canon(b, ignore, {}) {
      assert PruneAll(a.children, ignore, {}) == PruneAll(b.children, ignore, {});
      forall i | 0 <= i < |a.children| ensures Prune(a.children[i], ignore, {}) == Prune(b.children[i], ignore, {}) {
        assert PruneAll(a.children, ignore, {})[i] == PruneAll(b.children, ignore, {})[i];
      }
    }
  }

  /** Ids and counts are never volatile, so they survive a Same comparison. */
  lemma SameKeeps(a: Element, b: Element, key: string)
    requires Same(a, b) && (key == ENTRY_ID_ATTR || key == LIST_COUNT_ATTR)
    ensures a.Get(key) == b.Get(key) && a.Stripped(key) == b.Stripped(key)
  {
    SameParts(a, b);
    AttrAgrees(a, b, key);
  }
}
