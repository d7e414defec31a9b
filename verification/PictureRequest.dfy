/** What a picture request asks for, attribute by attribute, and when it is refused (app/hwpx_saved_proof.py). */
module PictureRequest {
  import opened Text
  import opened SavedPackage
  import opened LineReflow
  import opened PictureLayout
  import opened PackageAcceptance
  import References

  // ------------------------------------------------------------ names

  /** What stands behind the last closing brace. */
  lemma {:induction false} LocalExactly(front: string, name: string)
    requires '}' !in name
    ensures Local(name) == name && Local(front + "}" + name) == name
  {
    if front == "" {
      assert ("}" + name)[1..] == name && '}' in "}" + name;
      assert "" + "}" + name == "}" + name;
    } else {
      var s := front + "}" + name;
      assert s[|front|] == '}' && '}' in s;
      assert s[1..] == front[1..] + "}" + name;
      LocalExactly(front[1..], name);
    }
  }

  /** The only child of that local name stands at place k. */
  predicate OnlyLocal(ns: seq<Node>, name: string, k: nat) {
    k < |ns| && IsLocal(ns[k], name) && forall i :: 0 <= i < |ns| && i != k ==> !IsLocal(ns[i], name)
  }

  lemma {:induction false} IndexesAre(ns: seq<Node>, name: string, from: nat)
    requires from <= |ns|
    ensures forall i :: i in IndexesOf(ns, name, from) <==> from <= i < |ns| && IsLocal(ns[i], name)
    ensures forall i, j :: 0 <= i < j < |IndexesOf(ns, name, from)| ==>
              IndexesOf(ns, name, from)[i] < IndexesOf(ns, name, from)[j]
    decreases |ns| - from
  {
    if from < |ns| {
      IndexesAre(ns, name, from + 1);
      var rest := IndexesOf(ns, name, from + 1);
      assert forall i :: 0 <= i < |rest| ==> rest[i] in rest;
    }
  }

  lemma OneChildExactly(n: Node, name: string, k: nat)
    ensures OneChild(n, name) == Some(k) <==> OnlyLocal(n.children, name, k)
  {
    var found := IndexesOf(n.children, name, 0);
    IndexesAre(n.children, name, 0);
    if OnlyLocal(n.children, name, k) {
      assert k in found;
      forall i | 0 <= i < |found| ensures found[i] == k { assert found[i] in found; }
      NoTwo(found, k);
    }
    if OneChild(n, name) == Some(k) {
      assert found[0] in found && found == [k];
    }
  }

  lemma NoTwo(found: seq<nat>, k: nat)
    requires (forall i :: 0 <= i < |found| ==> found[i] == k)
    requires forall i, j :: 0 <= i < j < |found| ==> found[i] < found[j]
    ensures |found| <= 1
  {
    Increases(found);
  }

  lemma Increases(found: seq<nat>)
    requires forall i, j :: 0 <= i < j < |found| ==> found[i] < found[j]
    ensures |found| >= 2 ==> found[0] < found[1]
  {
  }

  // ------------------------------------------------------------ attributes

  /** The element has the attribute, and no other spelling of its name. */
  ghost predicate Settable(n: Node, name: string) {
    name in n.attrib && forall key :: key in n.attrib && References.Lower(key) == References.Lower(name) ==> key == name
  }

  /** The node with some of its attributes set: tag, text, tail, children and all other attributes are as they were. */
  ghost predicate IsWith(n: Node, now: Node, set_: map<string, string>) {
    && now.tag == n.tag && now.text == n.text && now.tail == n.tail && now.children == n.children
    && now.attrib.Keys == n.attrib.Keys + set_.Keys
    && (forall key :: key in set_ ==> now.attrib[key] == set_[key])
    && (forall key :: key in n.attrib && key !in set_ ==> now.attrib[key] == n.attrib[key])
  }

  lemma WithIsOne(n: Node, now: Node, other: Node, set_: map<string, string>)
    requires IsWith(n, now, set_) && IsWith(n, other, set_)
    ensures now == other
  {
    assert now.attrib == other.attrib;
  }

  /** One more attribute of the same node. */
  lemma SetOne(n: Node, now: Node, done: map<string, string>, name: string, value: string)
    requires IsWith(n, now, done) && done.Keys <= n.attrib.Keys && name !in done
    ensures SetAttr(now, name, value).Some? <==> Settable(n, name)
    ensures SetAttr(now, name, value).Some? ==>
              && IsWith(n, SetAttr(now, name, value).value, done[name := value])
              && done[name := value].Keys <= n.attrib.Keys
  {
    assert now.attrib.Keys == n.attrib.Keys;
    assert forall key :: key in now.attrib <==> key in n.attrib;
  }

  lemma SetNone(n: Node)
    ensures IsWith(n, n, map[])
  {
  }

  // ------------------------------------------------------------ the position and the clip

  /** The position attributes a layout request sets. */
  function PosAttributes(s: Settings): map<string, string> {
    map["treatAsChar" := if s.treatAsChar then "1" else "0"]
    + (match s.horz case None => map[] case Some(h) => map["horzOffset" := IntText(h)])
    + (match s.vert case None => map[] case Some(v) => map["vertOffset" := IntText(v)])
  }

  lemma PosExactly(pos: Node, s: Settings, now: Node)
    ensures EditPos(pos, s) == Some(now) <==>
        && Settable(pos, "treatAsChar") && (s.horz.Some? ==> Settable(pos, "horzOffset"))
        && (s.vert.Some? ==> Settable(pos, "vertOffset"))
        && IsWith(pos, now, PosAttributes(s))
  {
    hide Settable, IsWith, SetAttr, IntText;
    SetNone(pos);
    SetOne(pos, pos, map[], "treatAsChar", if s.treatAsChar then "1" else "0");
    var p := SetAttr(pos, "treatAsChar", if s.treatAsChar then "1" else "0");
    if p.Some? {
      var done := map["treatAsChar" := if s.treatAsChar then "1" else "0"];
      if s.horz.Some? { SetOne(pos, p.value, done, "horzOffset", IntText(s.horz.value)); }
      var q := SetMaybe(p.value, "horzOffset", s.horz);
      if q.Some? {
        var more := if s.horz.Some? then done["horzOffset" := IntText(s.horz.value)] else done;
        if s.vert.Some? { SetOne(pos, q.value, more, "vertOffset", IntText(s.vert.value)); }
        var r := SetMaybe(q.value, "vertOffset", s.vert);
        if r.Some? {
          var all := if s.vert.Some? then more["vertOffset" := IntText(s.vert.value)] else more;
          assert all == PosAttributes(s);
          if IsWith(pos, now, PosAttributes(s)) { WithIsOne(pos, now, r.value, PosAttributes(s)); }
        }
      }
    }
  }

  function ClipAttributes(c: Crop): map<string, string> {
    map["left" := IntText(c.left), "top" := IntText(c.top), "right" := IntText(c.right), "bottom" := IntText(c.bottom)]
  }

  lemma ClipExactly(clip: Node, c: Crop, now: Node)
    ensures EditClip(clip, c) == Some(now) <==>
        && Settable(clip, "left") && Settable(clip, "top") && Settable(clip, "right") && Settable(clip, "bottom")
        && IsWith(clip, now, ClipAttributes(c))
  {
    hide Settable, IsWith, SetAttr, IntText;
    SetNone(clip);
    SetOne(clip, clip, map[], "left", IntText(c.left));
    var p := SetAttr(clip, "left", IntText(c.left));
    if p.Some? {
      SetOne(clip, p.value, map["left" := IntText(c.left)], "top", IntText(c.top));
      var q := SetAttr(p.value, "top", IntText(c.top));
      if q.Some? {
        var two := map["left" := IntText(c.left)]["top" := IntText(c.top)];
        SetOne(clip, q.value, two, "right", IntText(c.right));
        var r := SetAttr(q.value, "right", IntText(c.right));
        if r.Some? {
          SetOne(clip, r.value, two["right" := IntText(c.right)], "bottom", IntText(c.bottom));
          assert two["right" := IntText(c.right)]["bottom" := IntText(c.bottom)] == ClipAttributes(c);
          var t := SetAttr(r.value, "bottom", IntText(c.bottom));
          if t.Some? && IsWith(clip, now, ClipAttributes(c)) { WithIsOne(clip, now, t.value, ClipAttributes(c)); }
        }
      }
    }
  }

  // ------------------------------------------------------------ the picture

  /** The picture with its only child of that local name replaced. */
  ghost predicate ChildReplaced(pic: Node, now: Node, name: string, k: nat, child: Node) {
    OnlyLocal(pic.children, name, k) && now == pic.(children := pic.children[k := child])
  }

  lemma WithChildExactly(n: Node, name: string, edit: Node -> Option<Node>, now: Node)
    ensures WithChild(n, name, edit) == Some(now) <==>
              exists k: nat, child :: ChildReplaced(n, now, name, k, child) && edit(n.children[k]) == Some(child)
  {
    hide IndexesOf;
    forall k: nat ensures OneChild(n, name) == Some(k) <==> OnlyLocal(n.children, name, k) {
      OneChildExactly(n, name, k);
    }
    if OneChild(n, name).Some? {
      var k := OneChild(n, name).value;
      assert OnlyLocal(n.children, name, k);
      var child := edit(n.children[k]);
      if child.Some? { assert ChildReplaced(n, n.(children := n.children[k := child.value]), name, k, child.value); }
    }
  }

  /** The picture's own attributes that a layout request sets: the wrap it asks for, and a text flow only where the
      after-copy materialized one that was not there, with the value read before the edit. */
  function OwnAttributes(pic: Node, s: Settings, flow: Option<string>, actual: Node): map<string, string> {
    (if s.wraps then map["textWrap" := "SQUARE"] else map[])
    + (if flow.Some? && "textFlow" !in pic.attrib && "textFlow" in actual.attrib then map["textFlow" := flow.value]
       else map[])
  }

  /** The picture after a layout request: its position child and its own attributes are set, nothing else. */
  ghost predicate LaidOut(pic: Node, s: Settings, flow: Option<string>, actual: Node, now: Node) {
    && (s.wraps ==> Settable(pic, "textWrap"))
    && exists k: nat, pos, placed ::
         && ChildReplaced(pic, placed, "pos", k, pos) && Settable(pic.children[k], "treatAsChar")
         && (s.horz.Some? ==> Settable(pic.children[k], "horzOffset"))
         && (s.vert.Some? ==> Settable(pic.children[k], "vertOffset"))
         && IsWith(pic.children[k], pos, PosAttributes(s))
         && IsWith(placed, now, OwnAttributes(pic, s, flow, actual))
  }

  lemma LayoutExactly(pic: Node, s: Settings, flow: Option<string>, actual: Node, now: Node)
    ensures EditLayout(pic, s, flow, actual) == Some(now) <==> LaidOut(pic, s, flow, actual, now)
  {
    hide EditPos, Settable, PosAttributes, SetAttr, OneChild, WithChild;
    var edit := pos => EditPos(pos, s);
    forall pos, was ensures edit(was) == Some(pos) <==> EditPos(was, s) == Some(pos) { }
    var placed := WithChild(pic, "pos", edit);
    if placed.Some? {
      WithChildExactly(pic, "pos", edit, placed.value);
      var k: nat, pos :| ChildReplaced(pic, placed.value, "pos", k, pos) && edit(pic.children[k]) == Some(pos);
      PosExactly(pic.children[k], s, pos);
      OwnSet(pic, placed.value, s, flow, actual);
      if EditLayout(pic, s, flow, actual) == Some(now) {
        assert LaidOut(pic, s, flow, actual, now);
      }
    }
    if LaidOut(pic, s, flow, actual, now) {
      var k: nat, pos, place :|
        ChildReplaced(pic, place, "pos", k, pos) && Settable(pic.children[k], "treatAsChar")
        && (s.horz.Some? ==> Settable(pic.children[k], "horzOffset"))
        && (s.vert.Some? ==> Settable(pic.children[k], "vertOffset"))
        && IsWith(pic.children[k], pos, PosAttributes(s)) && IsWith(place, now, OwnAttributes(pic, s, flow, actual));
      PosExactly(pic.children[k], s, pos);
      WithChildExactly(pic, "pos", edit, place);
      assert placed == Some(place);
      OwnSet(pic, place, s, flow, actual);
      WithIsOne(place, now, EditLayout(pic, s, flow, actual).value, OwnAttributes(pic, s, flow, actual));
    }
  }

  /** The picture's own attributes, set on a picture that differs in its children only. */
  lemma OwnSet(pic: Node, placed: Node, s: Settings, flow: Option<string>, actual: Node)
    requires WithChild(pic, "pos", pos => EditPos(pos, s)) == Some(placed) && placed.attrib == pic.attrib
    ensures EditLayout(pic, s, flow, actual).Some? <==> (s.wraps ==> Settable(pic, "textWrap"))
    ensures EditLayout(pic, s, flow, actual).Some? ==>
              IsWith(placed, EditLayout(pic, s, flow, actual).value, OwnAttributes(pic, s, flow, actual))
  {
    hide WithChild, EditPos;
    SetNone(pic);
    SetOne(pic, pic, map[], "textWrap", "SQUARE");
  }

  /** The picture after a crop: its clip child is set, nothing else. */
  ghost predicate Cropped(pic: Node, c: Crop, now: Node) {
    exists k: nat, clip ::
      && ChildReplaced(pic, now, "imgClip", k, clip)
      && Settable(pic.children[k], "left") && Settable(pic.children[k], "top")
      && Settable(pic.children[k], "right") && Settable(pic.children[k], "bottom")
      && IsWith(pic.children[k], clip, ClipAttributes(c))
  }

  lemma CropExactly(pic: Node, c: Crop, now: Node)
    ensures WithChild(pic, "imgClip", clip => EditClip(clip, c)) == Some(now) <==> Cropped(pic, c, now)
  {
    hide EditClip, Settable, ClipAttributes, OneChild, WithChild;
    var edit := clip => EditClip(clip, c);
    WithChildExactly(pic, "imgClip", edit, now);
    forall clip, was ensures edit(was) == Some(clip) <==> EditClip(was, c) == Some(clip) { }
    if k: nat, clip :| ChildReplaced(pic, now, "imgClip", k, clip) && edit(pic.children[k]) == Some(clip) {
      ClipExactly(pic.children[k], c, clip);
    }
    if Cropped(pic, c, now) {
      var k: nat, clip :| ChildReplaced(pic, now, "imgClip", k, clip)
        && Settable(pic.children[k], "left") && Settable(pic.children[k], "top")
        && Settable(pic.children[k], "right") && Settable(pic.children[k], "bottom")
        && IsWith(pic.children[k], clip, ClipAttributes(c));
      ClipExactly(pic.children[k], c, clip);
    }
  }

  // ------------------------------------------------------------ the section

  /** One node of a tree replaced, the rest as it was. */
  ghost predicate Replaced(before: Node, now: Node, path: Path, was: Node, node: Node)
    decreases |path|
  {
    if path == [] then before == was && now == node
    else
      && path[0] < |before.children| && now == before.(children := now.children)
      && |now.children| == |before.children|
      && (forall i :: 0 <= i < |before.children| && i != path[0] ==> now.children[i] == before.children[i])
      && Replaced(before.children[path[0]], now.children[path[0]], path[1..], was, node)
  }

  lemma {:induction false} ReplacedExactly(before: Node, path: Path, now: Node, was: Node, node: Node)
    ensures Replaced(before, now, path, was, node) <==>
              Exists(before, path) && NodeAt(before, path) == was && PutAt(before, path, node) == now
    decreases |path|
  {
    if path != [] && path[0] < |before.children| {
      var child := before.children[path[0]];
      if |now.children| == |before.children| {
        ReplacedExactly(child, path[1..], now.children[path[0]], was, node);
      }
      if Exists(before, path) {
        var put := before.(children := before.children[path[0] := PutAt(child, path[1..], node)]);
        assert PutAt(before, path, node) == put && put.children[path[0]] == PutAt(child, path[1..], node);
        if Replaced(before, now, path, was, node) { assert now.children == put.children; }
      }
    }
  }

  /** The picture a request is for, as requested. */
  ghost predicate AsRequested(pic: Node, actual: Node, path: Path, request: Request, now: Node) {
    match request
    case LayoutRequest(settings, flow) =>
      exists here, node :: Replaced(actual, actual, path, here, node) && LaidOut(pic, settings, flow, here, now)
    case CropRequest(crop) => Cropped(pic, crop, now)
  }

  /** The expected section is the before-section in which that one picture is as requested; the request is refused when
      the picture is not there, or a child or an attribute to set is missing or ambiguous. */
  lemma RequestedExactly(before: Node, actual: Node, path: Path, request: Request, now: Node)
    ensures Requested(before, actual, path, request) == Some(now) <==>
              exists pic, node ::
                Replaced(before, now, path, pic, node) && AsRequested(pic, actual, path, request, node)
  {
    hide EditLayout, LaidOut, Cropped, OneChild;
    forall pic, node ensures Replaced(before, now, path, pic, node) <==>
        Exists(before, path) && NodeAt(before, path) == pic && PutAt(before, path, node) == now
    {
      ReplacedExactly(before, path, now, pic, node);
    }
    if Exists(before, path) {
      var pic := NodeAt(before, path);
      RequestedEdits(before, actual, path, request, now);
      hide Requested, Replaced;
      forall node
        ensures AsRequested(pic, actual, path, request, node) <==> EditedAs(pic, actual, path, request, node)
      {
        EditedExactly(pic, actual, path, request, node);
      }
      hide AsRequested, EditedAs;
      if node :| EditedAs(pic, actual, path, request, node) && PutAt(before, path, node) == now {
        assert Replaced(before, now, path, pic, node) && AsRequested(pic, actual, path, request, node);
      }
    }
  }

  lemma RequestedEdits(before: Node, actual: Node, path: Path, request: Request, now: Node)
    requires Exists(before, path)
    ensures Requested(before, actual, path, request) == Some(now) <==>
              exists node ::
                EditedAs(NodeAt(before, path), actual, path, request, node) && PutAt(before, path, node) == now
  {
    hide EditLayout, OneChild, EditClip;
    match request
    case LayoutRequest(settings, flow) =>
      if Exists(actual, path) {
        var edited := EditLayout(NodeAt(before, path), settings, flow, NodeAt(actual, path));
        if edited.Some? { assert EditedAs(NodeAt(before, path), actual, path, request, edited.value); }
      }
    case CropRequest(crop) =>
      var edited := WithChild(NodeAt(before, path), "imgClip", clip => EditClip(clip, crop));
      if edited.Some? { assert EditedAs(NodeAt(before, path), actual, path, request, edited.value); }
  }

  /** The model's edit of the picture. */
  predicate EditedAs(pic: Node, actual: Node, path: Path, request: Request, node: Node) {
    match request
    case LayoutRequest(settings, flow) =>
      Exists(actual, path) && EditLayout(pic, settings, flow, NodeAt(actual, path)) == Some(node)
    case CropRequest(crop) => WithChild(pic, "imgClip", clip => EditClip(clip, crop)) == Some(node)
  }

  lemma EditedExactly(pic: Node, actual: Node, path: Path, request: Request, node: Node)
    ensures AsRequested(pic, actual, path, request, node) <==> EditedAs(pic, actual, path, request, node)
  {
    hide EditLayout, LaidOut, Cropped, OneChild;
    match request
    case LayoutRequest(settings, flow) =>
      forall here, other ensures Replaced(actual, actual, path, here, other) <==>
          Exists(actual, path) && NodeAt(actual, path) == here && PutAt(actual, path, other) == actual
      {
        ReplacedExactly(actual, path, actual, here, other);
      }
      if Exists(actual, path) {
        PutSame(actual, path);
        assert Replaced(actual, actual, path, NodeAt(actual, path), NodeAt(actual, path));
        LayoutExactly(pic, settings, flow, NodeAt(actual, path), node);
      }
    case CropRequest(crop) => CropExactly(pic, crop, node);
  }

  lemma {:induction false} PutSame(n: Node, path: Path)
    requires Exists(n, path)
    ensures PutAt(n, path, NodeAt(n, path)) == n
    decreases |path|
  {
    if path != [] { PutSame(n.children[path[0]], path[1..]); }
  }

  // ------------------------------------------------------------ the section a scope may be bound in

  /** The element has that attribute, printed as that non-negative integer of at most ten digits. */
  predicate Measures(n: Node, name: string, value: nat) {
    name in n.attrib && n.attrib[name] == Decimal(value) && value < 10000000000
  }

  lemma {:induction false} ShortDecimal(n: nat, width: nat)
    requires 1 <= width
    ensures |Decimal(n)| <= width <==> n < Pow10(width)
  {
    assert Pow10(width) >= 10 by { PowGrows(width); }
    if n >= 10 {
      DecimalRoundTrip(n / 10);
      if width == 1 {
        assert Pow10(1) == 10 * Pow10(0);
      } else {
        ShortDecimal(n / 10, width - 1);
        assert Pow10(width) == 10 * Pow10(width - 1);
      }
    }
  }

  lemma {:induction false} PowGrows(n: nat)
    ensures Pow10(n) >= 1 && (n >= 1 ==> Pow10(n) >= 10)
  {
    if n > 0 { PowGrows(n - 1); }
  }

  function Pow10(n: nat): nat {
    if n == 0 then 1 else 10 * Pow10(n - 1)
  }

  /** Reading the printed form of a small number. */
  lemma PrintedExact(value: nat)
    requires value < 10000000000
    ensures ExactDecimal(Decimal(value)) == Some(value) && Decimal(value)[..1] != "-"
  {
    assert Pow10(10) == 10000000000;
    ShortDecimal(value, 10);
    DecimalRoundTrip(value);
    var s := Decimal(value);
    assert IsDigit(s[0]);
    assert s[..1] == [s[0]];
  }

  /** A text that reads as a number, without a minus sign, is that number printed. */
  lemma ExactPrinted(text: string)
    requires text != [] && ExactDecimal(text).Some? && text[..1] != "-"
    ensures var v := ExactDecimal(text).value; 0 <= v < 10000000000 && text == Decimal(v)
  {
    assert Pow10(10) == 10000000000;
    assert text[..1] == [text[0]];
    ExactDecimalCanonical(text);
    ShortDecimal(ExactDecimal(text).value, 10);
  }

  lemma ExactShort(text: string)
    requires ExactDecimal(text).Some?
    ensures text != []
  {
  }

  lemma MeasureExactly(n: Node, name: string, value: int)
    ensures Measure(n, name) == Some(value) <==> value >= 0 && Measures(n, name, value)
  {
    hide ExactDecimal, Decimal;
    if value >= 0 && Measures(n, name, value) { PrintedExact(value); }
    if Measure(n, name) == Some(value) {
      ExactShort(n.attrib[name]);
      ExactPrinted(n.attrib[name]);
    }
  }

  lemma NodesAreAll(n: Node)
    ensures AllNodes(n) == Nodes(n)
    decreases n, 1
  {
    NodesAreAllIn(n.children);
  }

  lemma {:induction false} NodesAreAllIn(ns: seq<Node>)
    ensures AllNodesIn(ns) == NodesAll(ns)
    decreases ns, 0
  {
    if ns != [] {
      NodesAreAll(ns[0]);
      NodesAreAllIn(ns[1..]);
    }
  }

  /** The elements of that name among the given ones. */
  ghost predicate OnlyNamed(ns: seq<Node>, name: string, k: nat) {
    k < |ns| && ns[k].tag == Name(name) && forall i :: 0 <= i < |ns| && i != k ==> ns[i].tag != Name(name)
  }

  lemma {:induction false} TaggedNone(ns: seq<Node>, name: string)
    ensures Tagged(ns, name) == [] <==> forall i :: 0 <= i < |ns| ==> ns[i].tag != Name(name)
    ensures forall n :: n in Tagged(ns, name) <==> n in ns && n.tag == Name(name)
  {
    if ns != [] {
      TaggedNone(ns[1..], name);
      assert forall i :: 1 <= i < |ns| ==> ns[i] == ns[1..][i - 1];
      assert forall i :: 0 <= i < |ns| - 1 ==> ns[1..][i] == ns[i + 1];
    }
  }

  lemma {:induction false} TaggedOne(ns: seq<Node>, name: string) returns (k: nat)
    requires |Tagged(ns, name)| == 1
    ensures OnlyNamed(ns, name, k) && Tagged(ns, name) == [ns[k]]
  {
    assert forall i :: 1 <= i < |ns| ==> ns[i] == ns[1..][i - 1];
    if ns[0].tag == Name(name) {
      k := 0;
      TaggedNone(ns[1..], name);
    } else {
      k := TaggedOne(ns[1..], name);
      k := k + 1;
    }
  }

  lemma {:induction false} TaggedAt(ns: seq<Node>, name: string, k: nat)
    requires OnlyNamed(ns, name, k)
    ensures Tagged(ns, name) == [ns[k]]
  {
    assert forall i :: 0 <= i < |ns| - 1 ==> ns[1..][i] == ns[i + 1];
    if k == 0 { TaggedNone(ns[1..], name); } else { TaggedAt(ns[1..], name, k - 1); }
  }

  /** The page's paper and margins, as its attributes print them. */
  ghost predicate PageMeasures(page: Node, margin: Node, textWidth: int, paperHeight: int) {
    exists width: nat, height: nat, left: nat, right: nat ::
      && Measures(page, "width", width) && Measures(page, "height", height)
      && Measures(margin, "left", left) && Measures(margin, "right", right) && Measures(margin, "gutter", 0)
      && textWidth == width - left - right > 0 && paperHeight == height > 0
  }

  /** One portrait page description with one set of margins, columns described and single everywhere, no gutter: that is
      when a section has a geometry. */
  lemma GeometryExactly(root: Node, p: nat, m: nat, textWidth: int, paperHeight: int)
    requires OnlyNamed(Nodes(root), "{http://www.hancom.co.kr/hwpml/2011/paragraph}pagePr", p)
    requires OnlyNamed(Nodes(root)[p].children, "{http://www.hancom.co.kr/hwpml/2011/paragraph}margin", m)
    ensures var column := Name("{http://www.hancom.co.kr/hwpml/2011/paragraph}colPr");
            SectionGeometry(root) == Some(Geometry(textWidth, paperHeight)) <==>
        && "landscape" in Nodes(root)[p].attrib && Nodes(root)[p].attrib["landscape"] == "WIDELY"
        && (exists c :: c in Nodes(root) && c.tag == column)
        && (forall c :: c in Nodes(root) && c.tag == column ==> "colCount" in c.attrib && c.attrib["colCount"] == "1")
        && PageMeasures(Nodes(root)[p], Nodes(root)[p].children[m], textWidth, paperHeight)
  {
    hide Nodes, Tagged, Measure, Measures;
    NodesAreAll(root);
    TaggedAt(Nodes(root), PAGE_PR, p);
    TaggedAt(Nodes(root)[p].children, MARGIN, m);
    TaggedNone(Nodes(root), COL_PR);
    var page, margin := Nodes(root)[p], Nodes(root)[p].children[m];
    assert Tagged(Nodes(root), COL_PR) == [] <==> !exists c :: c in Nodes(root) && c.tag == Name(COL_PR) by {
      if Tagged(Nodes(root), COL_PR) != [] {
        assert Tagged(Nodes(root), COL_PR)[0] in Tagged(Nodes(root), COL_PR);
      }
    }
    hide COL_PR, PAGE_PR, MARGIN;
    PageExactly(page, margin, textWidth, paperHeight);
  }

  /** The five measures, read and printed. */
  predicate PageReads(page: Node, margin: Node, textWidth: int, paperHeight: int) {
    match (Measure(page, "width"), Measure(page, "height"), Measure(margin, "left"), Measure(margin, "right"),
        Measure(margin, "gutter"))
    case (Some(width), Some(height), Some(left), Some(right), Some(gutter)) =>
      gutter == 0 && textWidth == width - left - right > 0 && paperHeight == height > 0
    case _ => false
  }

  lemma PageExactly(page: Node, margin: Node, textWidth: int, paperHeight: int)
    ensures PageReads(page, margin, textWidth, paperHeight) <==> PageMeasures(page, margin, textWidth, paperHeight)
  {
    hide Measure, Measures;
    forall n, name, v ensures Measure(n, name) == Some(v) <==> v >= 0 && Measures(n, name, v) {
      MeasureExactly(n, name, v);
    }
  }

  /** Without exactly one page description there is none. */
  lemma NoGeometry(root: Node)
    requires SectionGeometry(root).Some?
    ensures exists p: nat, m: nat ::
              && OnlyNamed(Nodes(root), "{http://www.hancom.co.kr/hwpml/2011/paragraph}pagePr", p)
              && OnlyNamed(Nodes(root)[p].children, "{http://www.hancom.co.kr/hwpml/2011/paragraph}margin", m)
  {
    hide Nodes, Measure;
    NodesAreAll(root);
    var p := TaggedOne(Nodes(root), PAGE_PR);
    var m := TaggedOne(Nodes(root)[p].children, MARGIN);
  }

  // ------------------------------------------------------------ the line cache

  predicate LineAttribute(key: string) {
    key in {"textpos", "vertpos", "vertsize", "textheight", "baseline", "spacing", "horzpos", "horzsize", "flags"}
  }

  /** The integers of the format: text position and flags unsigned, the others signed, all of 32 bits. */
  predicate Storable(key: string, value: int) {
    if key == "textpos" || key == "flags" then 0 <= value <= 4294967295 else -2147483648 <= value <= 2147483647
  }

  /** A line segment that prints exactly these nine values and holds nothing else. */
  ghost predicate Prints(n: Node, line: Line) {
    && n.tag == Name("{http://www.hancom.co.kr/hwpml/2011/paragraph}lineseg") && n.children == []
    && SameText(n.text, None) && SameText(n.tail, None)
    && (forall key :: key in n.attrib <==> LineAttribute(key))
    && (forall key :: key in line <==> LineAttribute(key))
    && forall key :: key in n.attrib && key in line ==> n.attrib[key] == IntText(line[key]) && Storable(key, line[key])
  }

  /** The paragraph's only line array stands at place a and prints these lines, at least one and at most 10000. */
  ghost predicate PrintsLines(paragraph: Node, a: nat, rows: seq<Line>) {
    && OnlyNamed(paragraph.children, "{http://www.hancom.co.kr/hwpml/2011/paragraph}linesegarray", a)
    && var array_ := paragraph.children[a];
       && array_.attrib == map[] && SameText(array_.text, None) && SameText(array_.tail, None)
       && 1 <= |rows| <= 10000 && |array_.children| == |rows|
       && forall i :: 0 <= i < |rows| ==> Prints(array_.children[i], rows[i])
  }

  lemma MinusExact(value: int)
    requires 1 <= value < 10000000000
    ensures ExactDecimal("-" + Decimal(value)) == Some(-value)
  {
    assert Pow10(10) == 10000000000;
    ShortDecimal(value, 10);
    DecimalRoundTrip(value);
    assert ("-" + Decimal(value))[1..] == Decimal(value);
  }

  lemma TextReads(value: int)
    requires -10000000000 < value < 10000000000
    ensures ExactDecimal(IntText(value)) == Some(value)
  {
    hide ExactDecimal, Decimal;
    if value >= 0 { PrintedExact(value); } else { MinusExact(-value); }
  }

  lemma ReadsText(n: Node)
    requires LineNode(n)
    ensures Prints(n, LineOf(n))
  {
    hide ExactDecimal, IntText;
    var line := LineOf(n);
    forall key | key in n.attrib ensures n.attrib[key] == IntText(line[key]) && Storable(key, line[key]) {
      assert InRange(key, ExactDecimal(n.attrib[key]));
      ExactDecimalCanonical(n.attrib[key]);
    }
    assert forall key :: key in LINESEG_ATTRIBUTES <==> LineAttribute(key);
  }

  lemma TextIsLine(n: Node, line: Line)
    requires Prints(n, line)
    ensures LineNode(n) && LineOf(n) == line
  {
    hide ExactDecimal, IntText;
    forall key | key in n.attrib
      ensures InRange(key, ExactDecimal(n.attrib[key])) && ExactDecimal(n.attrib[key]) == Some(line[key])
    {
      assert key in line && Storable(key, line[key]);
      TextReads(line[key]);
    }
    assert forall key :: key in LINESEG_ATTRIBUTES <==> LineAttribute(key);
    assert n.attrib.Keys == LINESEG_ATTRIBUTES;
    hide Storable, InRange;
    assert forall key :: key in line <==> key in n.attrib;
    assert LineOf(n) == line;
  }

  lemma LineExactly(n: Node, line: Line)
    ensures LineNode(n) && LineOf(n) == line <==> Prints(n, line)
  {
    if LineNode(n) { ReadsText(n); }
    if Prints(n, line) { TextIsLine(n, line); }
  }

  /** The line cache of a paragraph reads as those lines exactly when it prints them. */
  lemma LinesExactly(paragraph: Node, a: nat, rows: seq<Line>)
    ensures LinesAt(paragraph, a) && Lines(paragraph, a) == rows <==> PrintsLines(paragraph, a, rows)
  {
    hide LineNode, Prints, LineOf;
    forall n, line ensures Prints(n, line) <==> LineNode(n) && LineOf(n) == line { LineExactly(n, line); }
    if PrintsLines(paragraph, a, rows) {
      assert LinesAt(paragraph, a);
      assert Lines(paragraph, a) == rows;
    }
  }

  /** A line within its text box: no negative metric, baseline and text height within the line, the line within text
      width and paper height. */
  predicate Boxed(line: Line, textWidth: int, paperHeight: int) {
    && "baseline" in line && "horzpos" in line && "horzsize" in line && "textheight" in line && "vertsize" in line
    && line["horzpos"] >= 0 && line["horzsize"] >= 0 && line["horzpos"] + line["horzsize"] <= textWidth
    && 0 <= line["baseline"] <= line["vertsize"] && 0 <= line["textheight"] <= line["vertsize"] <= paperHeight
  }

  lemma BoxExactly(line: Line, textWidth: int, paperHeight: int)
    requires forall key :: key in line <==> LineAttribute(key)
    ensures Bounded(line, textWidth, paperHeight) <==> Boxed(line, textWidth, paperHeight)
  {
    assert line.Keys == LINESEG_ATTRIBUTES;
  }

  /** A reflow is admitted exactly when the actual paragraph is of the same kind, prints as many lines as were bound,
      each in its box, and every attribute outside the declared metrics is the bound one. */
  lemma AdmittedExactly(scope: Scope, expected: Node, actual: Node)
    ensures Admitted(scope, expected, actual) <==>
        && scope.paragraph < |expected.children| && scope.paragraph < |actual.children|
        && actual.children[scope.paragraph].tag == expected.children[scope.paragraph].tag
        && exists rows :: PrintsLines(actual.children[scope.paragraph], scope.array_, rows) && Adopts(scope, rows)
  {
    hide LinesAt, PrintsLines, Adopts, Bounded, AnchorsKept;
    if scope.paragraph < |actual.children| {
      var paragraph := actual.children[scope.paragraph];
      forall rows ensures PrintsLines(paragraph, scope.array_, rows) <==>
          LinesAt(paragraph, scope.array_) && Lines(paragraph, scope.array_) == rows
      {
        LinesExactly(paragraph, scope.array_, rows);
      }
      if LinesAt(paragraph, scope.array_) {
        var rows := Lines(paragraph, scope.array_);
        forall i | 0 <= i < |rows| ensures rows[i].Keys == LINESEG_ATTRIBUTES { LineKeys(paragraph, scope.array_, i); }
        AdoptsExactly(scope, rows);
      }
    }
  }

  lemma LineKeys(paragraph: Node, a: nat, i: nat)
    requires LinesAt(paragraph, a) && i < |Lines(paragraph, a)|
    ensures Lines(paragraph, a)[i].Keys == LINESEG_ATTRIBUTES
  {
    hide LineNode;
  }

  lemma AdoptsExactly(scope: Scope, rows: seq<Line>)
    requires forall i :: 0 <= i < |rows| ==> rows[i].Keys == LINESEG_ATTRIBUTES
    ensures (&& (forall i :: 0 <= i < |rows| ==> Bounded(rows[i], scope.textWidth, scope.paperHeight))
             && |rows| == |scope.rows|
             && forall i :: 0 <= i < |rows| ==> AnchorsKept(scope.rows[i], rows[i], scope.fields))
       <==> Adopts(scope, rows)
  {
    hide Bounded, Boxed, AnchorsKept;
    forall i | 0 <= i < |rows|
      ensures Bounded(rows[i], scope.textWidth, scope.paperHeight) <==>
                Boxed(rows[i], scope.textWidth, scope.paperHeight)
      ensures i < |scope.rows| ==> (AnchorsKept(scope.rows[i], rows[i], scope.fields) <==> Kept(scope, rows[i], i))
    {
      NineKeys(rows[i]);
      BoxExactly(rows[i], scope.textWidth, scope.paperHeight);
      if i < |scope.rows| { KeptExactly(scope, rows[i], i); }
    }
  }

  lemma NineKeys(line: Line)
    requires line.Keys == LINESEG_ATTRIBUTES
    ensures forall key :: key in line <==> LineAttribute(key)
  {
  }

  lemma KeptExactly(scope: Scope, line: Line, i: nat)
    requires i < |scope.rows| && line.Keys == LINESEG_ATTRIBUTES
    ensures AnchorsKept(scope.rows[i], line, scope.fields) <==> Kept(scope, line, i)
  {
    assert forall key :: key in LINESEG_ATTRIBUTES <==> LineAttribute(key);
    hide LINESEG_ATTRIBUTES, LineAttribute;
  }

  /** What was not declared is what was bound. */
  ghost predicate Kept(scope: Scope, line: Line, i: nat)
    requires i < |scope.rows|
  {
    forall key :: LineAttribute(key) && key !in scope.fields ==>
      key in scope.rows[i] && key in line && line[key] == scope.rows[i][key]
  }

  /** The lines are in their boxes and keep what was not declared. */
  ghost predicate Adopts(scope: Scope, rows: seq<Line>) {
    && |rows| == |scope.rows|
    && forall i :: 0 <= i < |rows| ==> Boxed(rows[i], scope.textWidth, scope.paperHeight) && Kept(scope, rows[i], i)
  }

  /** Without a reflow the requested section is expected as it is; with one, only for a layout request of the bound
      paragraph, and with the actual lines, if they are admitted, written into the requested section. */
  lemma ExpectedExactly(before: Node, actual: Node, path: Path, request: Request, reflow: Option<Scope>, tree: Node)
    ensures PictureLayout.Expected(before, actual, path, request, reflow) == Some(tree) <==>
        exists requested :: Requested(before, actual, path, request) == Some(requested)
          && match reflow
             case None => tree == requested
             case Some(scope) => Reflowed(requested, actual, path, request, scope, tree)
  {
    hide Admitted, PutSection;
  }

  predicate Reflowed(requested: Node, actual: Node, path: Path, request: Request, scope: Scope, tree: Node) {
    && request.LayoutRequest? && |path| >= 1 && scope.paragraph == path[0]
    && Admitted(scope, requested, actual) && FitsLines(scope, requested, actual)
    && tree == PutSection(requested, scope, Lines(actual.children[scope.paragraph], scope.array_))
  }

  // ------------------------------------------------------------ binding a scope

  /** The picture stands in a run of a paragraph that is a child of the section. */
  predicate PictureAt(root: Node, path: Path) {
    && |path| == 3 && root.tag == Name("{http://www.hancom.co.kr/hwpml/2011/section}sec")
    && path[0] < |root.children|
    && root.children[path[0]].tag == Name("{http://www.hancom.co.kr/hwpml/2011/paragraph}p")
    && path[1] < |root.children[path[0]].children|
    && root.children[path[0]].children[path[1]].tag == Name("{http://www.hancom.co.kr/hwpml/2011/paragraph}run")
    && path[2] < |root.children[path[0]].children[path[1]].children|
    && root.children[path[0]].children[path[1]].children[path[2]].tag
       == Name("{http://www.hancom.co.kr/hwpml/2011/paragraph}pic")
  }

  /** A scope is bound to the picture's own paragraph, its lines and the section's geometry, with none but the five line
      metrics to recompute, and only where every line is in its box already. */
  lemma BindsExactly(scope: Scope, root: Node, path: Path)
    ensures Binds(scope, root, path) <==>
        && PictureAt(root, path) && scope.paragraph == path[0]
        && SectionGeometry(root) == Some(Geometry(scope.textWidth, scope.paperHeight))
        && (forall key :: key in scope.fields ==> key in {"baseline", "horzpos", "horzsize", "textheight", "vertsize"})
        && PrintsLines(root.children[path[0]], scope.array_, scope.rows)
        && forall i :: 0 <= i < |scope.rows| ==> Boxed(scope.rows[i], scope.textWidth, scope.paperHeight)
  {
    BodyRunExactly(root, path);
    hide SectionGeometry, Bounded, Boxed, LinesAt, PrintsLines, InBodyRun, PictureAt;
    if PictureAt(root, path) {
      FirstPlace(root, path);
      var paragraph := root.children[path[0]];
      LinesExactly(paragraph, scope.array_, scope.rows);
      if LinesAt(paragraph, scope.array_) && Lines(paragraph, scope.array_) == scope.rows {
        AllBoxed(scope, paragraph);
      }
    }
  }

  lemma BodyRunExactly(root: Node, path: Path)
    ensures InBodyRun(root, path) <==> PictureAt(root, path)
  {
  }

  lemma FirstPlace(root: Node, path: Path)
    requires PictureAt(root, path)
    ensures |path| == 3 && path[0] < |root.children|
  {
  }

  lemma AllBoxed(scope: Scope, paragraph: Node)
    requires LinesAt(paragraph, scope.array_) && Lines(paragraph, scope.array_) == scope.rows
    ensures forall i :: 0 <= i < |scope.rows| ==>
        (Bounded(scope.rows[i], scope.textWidth, scope.paperHeight) <==>
           Boxed(scope.rows[i], scope.textWidth, scope.paperHeight))
  {
    hide Bounded, Boxed, LinesAt;
    forall i | 0 <= i < |scope.rows|
      ensures Bounded(scope.rows[i], scope.textWidth, scope.paperHeight) <==>
                Boxed(scope.rows[i], scope.textWidth, scope.paperHeight)
    {
      LineKeys(paragraph, scope.array_, i);
      NineKeys(scope.rows[i]);
      BoxExactly(scope.rows[i], scope.textWidth, scope.paperHeight);
    }
  }
}
