/** A picture layout edit: the requested change, the reflow bound to it, and what acceptance of the whole package then
    says (app/hwpx_saved_proof.py). */
module PictureLayout {
  import opened Text
  import opened SavedPackage
  import opened LineReflow
  import References

  const SEC := "{http://www.hancom.co.kr/hwpml/2011/section}sec"
  const P := "{http://www.hancom.co.kr/hwpml/2011/paragraph}p"
  const RUN := "{http://www.hancom.co.kr/hwpml/2011/paragraph}run"
  const PIC := "{http://www.hancom.co.kr/hwpml/2011/paragraph}pic"
  const PAGE_PR := "{http://www.hancom.co.kr/hwpml/2011/paragraph}pagePr"
  const MARGIN := "{http://www.hancom.co.kr/hwpml/2011/paragraph}margin"
  const COL_PR := "{http://www.hancom.co.kr/hwpml/2011/paragraph}colPr"

  // ------------------------------------------------------------ section geometry

  function AllNodes(n: Node): seq<Node> {
    [n] + AllNodesIn(n.children)
  }

  function AllNodesIn(ns: seq<Node>): seq<Node> {
    if ns == [] then [] else AllNodes(ns[0]) + AllNodesIn(ns[1..])
  }

  function Tagged(ns: seq<Node>, name: string): seq<Node> {
    if ns == [] then [] else (if ns[0].tag == Name(name) then [ns[0]] else []) + Tagged(ns[1..], name)
  }

  /** An exact non-negative decimal attribute. */
  function Measure(n: Node, name: string): Option<int> {
    if name !in n.attrib then None
    else
      var value := ExactDecimal(n.attrib[name]);
      if value.Some? && n.attrib[name][..1] != "-" then value else None
  }

  datatype Geometry = Geometry(textWidth: int, paperHeight: int)

  /** _section_geometry: one portrait page, single columns, no gutter. */
  function SectionGeometry(root: Node): Option<Geometry> {
    var pages, columns := Tagged(AllNodes(root), PAGE_PR), Tagged(AllNodes(root), COL_PR);
    if |pages| != 1 then None
    else
      var page := pages[0];
      var margins := Tagged(page.children, MARGIN);
      if |margins| != 1 || !("landscape" in page.attrib && page.attrib["landscape"] == "WIDELY") then None
      else if columns == [] || !forall c :: c in columns ==> "colCount" in c.attrib && c.attrib["colCount"] == "1"
      then None
      else
        match (Measure(page, "width"), Measure(page, "height"), Measure(margins[0], "left"),
            Measure(margins[0], "right"),
            Measure(margins[0], "gutter"))
        case (Some(width), Some(height), Some(left), Some(right), Some(gutter)) =>
          if gutter != 0 || width - left - right <= 0 || height <= 0 then None
              else Some(Geometry(width - left - right, height))
        case _ => None
  }

  // ------------------------------------------------------------ the scope, bound before any effect

  /** Where a picture stands: the child to take at each level from the root. */
  type Path = seq<nat>

  predicate Exists(root: Node, path: Path) {
    path != [] ==> path[0] < |root.children| && Exists(root.children[path[0]], path[1..])
  }

  /** _at_path */
  function NodeAt(root: Node, path: Path): Node
    requires Exists(root, path)
  {
    if path == [] then root else NodeAt(root.children[path[0]], path[1..])
  }

  /** The tree with another node there. */
  function PutAt(root: Node, path: Path, n: Node): Node
    requires Exists(root, path)
  {
    if path == [] then n
    else root.(children := root.children[path[0] := PutAt(root.children[path[0]], path[1..], n)])
  }

  function PutRun(root: Node, p: nat, r: nat, run: Node): Node
    requires p < |root.children| && r < |root.children[p].children|
  {
    var paragraph := root.children[p];
    root.(children := root.children[p := paragraph.(children := paragraph.children[r := run])])
  }

  /** The picture stands in a run of a top-level paragraph of a section. */
  predicate InBodyRun(root: Node, path: Path) {
    && root.tag == Name(SEC) && |path| == 3 && path[0] < |root.children|
    && var paragraph := root.children[path[0]];
       && paragraph.tag == Name(P) && path[1] < |paragraph.children|
       && var run := paragraph.children[path[1]];
          run.tag == Name(RUN) && path[2] < |run.children| && run.children[path[2]].tag == Name(PIC)
  }

  /** A place three levels down, level by level. */
  lemma ThreeLevels(root: Node, path: Path, pic: Node)
    requires InBodyRun(root, path)
    ensures Exists(root, path)
    ensures var run := root.children[path[0]].children[path[1]];
            PutAt(root, path, pic) == PutRun(root, path[0], path[1], run.(children := run.children[path[2] := pic]))
  {
    var paragraph := root.children[path[0]];
    var run := paragraph.children[path[1]];
    OneLevel(run, path[2], pic);
    assert path[1..][1..] == [path[2]] && path[1..][0] == path[1];
    assert Exists(paragraph, path[1..]);
    assert PutAt(paragraph, path[1..],
        pic) == paragraph.(children := paragraph.children[path[1] := PutAt(run, [path[2]], pic)]);
  }

  lemma OneLevel(run: Node, i: nat, pic: Node)
    requires i < |run.children|
    ensures Exists(run, [i]) && PutAt(run, [i], pic) == run.(children := run.children[i := pic])
  {
    assert [i][1..] == [];
  }

  /** reflow_scope: the scope it binds, which must describe the given line cache. */
  predicate Binds(scope: Scope, root: Node, path: Path) {
    && InBodyRun(root, path) && SectionGeometry(root) == Some(Geometry(scope.textWidth, scope.paperHeight))
    && scope.paragraph == path[0] && BoundTo(scope, root)
    && forall i :: 0 <= i < |scope.rows| ==> Bounded(scope.rows[i], scope.textWidth, scope.paperHeight)
  }

  // ------------------------------------------------------------ the requested change

  /** What follows the last closing brace of a qualified name. */
  function Local(name: string): string {
    if '}' in name then Local(name[1..]) else name
  }

  predicate IsLocal(n: Node, name: string) {
    n.tag.Name? && Local(n.tag.name) == name
  }

  function IndexesOf(ns: seq<Node>, name: string, from: nat): seq<nat>
    requires from <= |ns|
    decreases |ns| - from
  {
    if from == |ns| then [] else (if IsLocal(ns[from], name) then [from] else []) + IndexesOf(ns, name, from + 1)
  }

  /** _one_child: the place of the only child of that local name. */
  function OneChild(n: Node, name: string): Option<nat> {
    var found := IndexesOf(n.children, name, 0);
    if |found| == 1 then Some(found[0]) else None
  }

  lemma {:induction false} IndexesInside(ns: seq<Node>, name: string, from: nat)
    requires from <= |ns|
    ensures forall i :: i in IndexesOf(ns, name, from) ==> from <= i < |ns|
    decreases |ns| - from
  {
    if from < |ns| { IndexesInside(ns, name, from + 1); }
  }

  /** _set: the attribute exists, under exactly this spelling. */
  function SetAttr(n: Node, name: string, value: string): Option<Node> {
    if name in n.attrib && forall k :: k in n.attrib && k != name ==> References.Lower(k) != References.Lower(name)
    then Some(n.(attrib := n.attrib[name := value])) else None
  }

  function SetMaybe(n: Node, name: string, value: Option<int>): Option<Node> {
    if value.Some? then SetAttr(n, name, IntText(value.value)) else Some(n)
  }

  datatype Settings = Settings(treatAsChar: bool, wraps: bool, horz: Option<int>, vert: Option<int>)

  /** The position child of the picture as requested. */
  function EditPos(pos: Node, s: Settings): Option<Node> {
    match SetAttr(pos, "treatAsChar", if s.treatAsChar then "1" else "0")
    case None => None
    case Some(p) =>
      match SetMaybe(p, "horzOffset", s.horz)
      case None => None
      case Some(q) => SetMaybe(q, "vertOffset", s.vert)
  }

  datatype Crop = Crop(left: int, top: int, right: int, bottom: int)

  /** A requested edit; flow is the typed pre-state's text flow, written only where the after-copy materialized one. */
  datatype Request = LayoutRequest(settings: Settings, flow: Option<string>) | CropRequest(crop: Crop)

  /** The clip child of the picture as requested. */
  function EditClip(clip: Node, c: Crop): Option<Node> {
    match SetAttr(clip, "left", IntText(c.left))
    case None => None
    case Some(p) =>
      match SetAttr(p, "top", IntText(c.top))
      case None => None
      case Some(q) =>
        match SetAttr(q, "right", IntText(c.right))
        case None => None
        case Some(r) => SetAttr(r, "bottom", IntText(c.bottom))
  }

  /** The node with its only child of that local name edited. */
  function WithChild(n: Node, name: string, edit: Node -> Option<Node>): Option<Node> {
    match OneChild(n, name)
    case None => None
    case Some(i) =>
      IndexesInside(n.children, name, 0);
      assert i in IndexesOf(n.children, name, 0);
      match edit(n.children[i])
      case None => None
      case Some(child) => Some(n.(children := n.children[i := child]))
  }

  function EditLayout(pic: Node, s: Settings, flow: Option<string>, actual: Node): Option<Node> {
    match (WithChild(pic, "pos", pos => EditPos(pos, s)), if s.wraps then SetAttr(pic, "textWrap", "SQUARE")
        else Some(pic))
    case (Some(placed), Some(own)) =>
      var attrib := if flow.Some? && "textFlow" !in own.attrib && "textFlow" in actual.attrib
                    then own.attrib["textFlow" := flow.value]
                    else own.attrib;
      Some(placed.(attrib := attrib))
    case _ => None
  }

  /** The before-section with the requested picture change and nothing else. */
  function Requested(before: Node, actual: Node, path: Path, request: Request): Option<Node> {
    if !Exists(before, path) || (request.LayoutRequest? && !Exists(actual, path)) then None
    else
      var pic := NodeAt(before, path);
      var edited := match request
        case LayoutRequest(settings, flow) => EditLayout(pic, settings, flow, NodeAt(actual, path))
        case CropRequest(crop) => WithChild(pic, "imgClip", clip => EditClip(clip, crop));
      match edited
      case None => None
      case Some(now) => Some(PutAt(before, path, now))
  }

  /** A bound scope is of a layout request and of the picture's paragraph. */
  predicate ForTarget(scope: Scope, path: Path, request: Request) {
    request.LayoutRequest? && path != [] && scope.paragraph == path[0]
  }

  /** The expected section: the requested change, with the admitted lines written in when a reflow is bound. A scope
      of another request or paragraph is refused. */
  function Expected(before: Node, actual: Node, path: Path, request: Request, reflow: Option<Scope>): Option<Node> {
    match Requested(before, actual, path, request)
    case None => None
    case Some(requested) =>
      if reflow.None? then Some(requested)
      else if !ForTarget(reflow.value, path, request) then None
      else if Admitted(reflow.value, requested, actual) && FitsLines(reflow.value, requested, actual)
      then Some(PutSection(requested, reflow.value,
          Lines(actual.children[reflow.value.paragraph], reflow.value.array_)))
      else None
  }

  /** The requested section has the scope's line array where the actual lines go. */
  predicate FitsLines(scope: Scope, requested: Node, actual: Node)
    requires Admitted(scope, requested, actual)
  {
    && scope.array_ < |requested.children[scope.paragraph].children|
    && |requested.children[scope.paragraph].children[scope.array_].children|
       == |Lines(actual.children[scope.paragraph], scope.array_)|
  }

  // ------------------------------------------------------------ plain trees stay plain

  lemma PlainChild(n: Node, i: nat, c: Node)
    requires Plain(n) && i < |n.children| && Plain(c)
    ensures Plain(n.(children := n.children[i := c]))
  {
    var m := n.(children := n.children[i := c]);
    forall d | d in m.children ensures Plain(d) {
      var k :| 0 <= k < |m.children| && m.children[k] == d;
      assert k != i ==> d == n.children[k] && n.children[k] in n.children;
    }
  }

  lemma PlainAttrib(n: Node, attrib: map<string, string>)
    requires Plain(n)
    ensures Plain(n.(attrib := attrib))
  {
  }

  lemma WithChildPlain(n: Node, name: string, edit: Node -> Option<Node>)
    requires Plain(n) && WithChild(n, name, edit).Some?
    requires forall c :: Plain(c) && edit(c).Some? ==> Plain(edit(c).value)
    ensures Plain(WithChild(n, name, edit).value)
  {
    IndexesInside(n.children, name, 0);
    var i := OneChild(n, name).value;
    assert i in IndexesOf(n.children, name, 0);
    hide IndexesOf, OneChild;
    assert n.children[i] in n.children;
    PlainChild(n, i, edit(n.children[i]).value);
  }

  lemma LayoutPlain(pic: Node, s: Settings, flow: Option<string>, actual: Node)
    requires EditLayout(pic, s, flow, actual).Some?
    ensures Plain(pic) ==> Plain(EditLayout(pic, s, flow, actual).value)
  {
    if Plain(pic) {
      forall c | Plain(c) && EditPos(c, s).Some? ensures Plain(EditPos(c, s).value) {
        PlainAttrib(c, EditPos(c, s).value.attrib);
        assert EditPos(c, s).value == c.(attrib := EditPos(c, s).value.attrib);
      }
      hide EditPos, WithChild;
      var edit := pos => EditPos(pos, s);
      WithChildPlain(pic, "pos", edit);
      PlainAttrib(WithChild(pic, "pos", edit).value, EditLayout(pic, s, flow, actual).value.attrib);
    }
  }

  lemma CropPlain(pic: Node, crop: Crop)
    requires WithChild(pic, "imgClip", clip => EditClip(clip, crop)).Some?
    ensures Plain(pic) ==> Plain(WithChild(pic, "imgClip", clip => EditClip(clip, crop)).value)
  {
    if Plain(pic) {
      forall c | Plain(c) && EditClip(c, crop).Some? ensures Plain(EditClip(c, crop).value) {
        PlainAttrib(c, EditClip(c, crop).value.attrib);
        assert EditClip(c, crop).value == c.(attrib := EditClip(c, crop).value.attrib);
      }
      hide EditClip, WithChild;
      WithChildPlain(pic, "imgClip", clip => EditClip(clip, crop));
    }
  }

  lemma {:induction false} PutAtPlain(root: Node, path: Path, n: Node)
    requires Plain(root) && Exists(root, path)
    ensures Plain(NodeAt(root, path))
    ensures Plain(n) ==> Plain(PutAt(root, path, n))
    decreases |path|
  {
    if path != [] {
      assert root.children[path[0]] in root.children;
      PutAtPlain(root.children[path[0]], path[1..], n);
      if Plain(n) { PlainChild(root, path[0], PutAt(root.children[path[0]], path[1..], n)); }
    }
  }

  // ------------------------------------------------------------ the request keeps the scope bound

  lemma RunKeepsBound(scope: Scope, root: Node, r: nat, run: Node)
    requires BoundTo(scope, root) && r < |root.children[scope.paragraph].children|
    requires !ArrayNode(root.children[scope.paragraph].children[r]) && !ArrayNode(run)
    ensures BoundTo(scope, PutRun(root, scope.paragraph, r, run))
  {
    var p, q := root.children[scope.paragraph], PutRun(root, scope.paragraph, r, run).children[scope.paragraph];
    assert q.children[scope.array_] == p.children[scope.array_];
    assert Lines(q, scope.array_) == Lines(p, scope.array_);
  }

  /** The requested change touches one run of the scope's paragraph, never its line cache. */
  lemma RequestKeepsBound(scope: Scope, before: Node, actual: Node, path: Path, request: Request)
    requires BoundTo(scope, before) && InBodyRun(before, path) && scope.paragraph == path[0]
    requires Requested(before, actual, path, request).Some?
    ensures BoundTo(scope, Requested(before, actual, path, request).value)
  {
    hide EditLayout, EditClip, WithChild, LinesAt, SectionGeometry;
    var pic := EditedAt(before, actual, path, request);
    ThreeLevels(before, path, pic);
    var run := before.children[path[0]].children[path[1]];
    RunKeepsBound(scope, before, path[1], run.(children := run.children[path[2] := pic]));
  }

  /** The edited picture of a request. */
  lemma EditedAt(before: Node, actual: Node, path: Path, request: Request) returns (pic: Node)
    requires Requested(before, actual, path, request).Some?
    ensures Exists(before, path) && Requested(before, actual, path, request) == Some(PutAt(before, path, pic))
    ensures Plain(NodeAt(before, path)) ==> Plain(pic)
  {
    var was := NodeAt(before, path);
    match request
    case LayoutRequest(settings, flow) =>
      pic := EditLayout(was, settings, flow, NodeAt(actual, path)).value;
      LayoutPlain(was, settings, flow, NodeAt(actual, path));
    case CropRequest(crop) =>
      pic := WithChild(was, "imgClip", clip => EditClip(clip, crop)).value;
      CropPlain(was, crop);
  }

  /** So, once admitted, there is a place for the lines. */
  lemma AdmittedFits(scope: Scope, requested: Node, actual: Node)
    requires BoundTo(scope, requested) && Admitted(scope, requested, actual)
    ensures FitsLines(scope, requested, actual)
  {
  }

  lemma RequestedPlain(before: Node, actual: Node, path: Path, request: Request)
    requires Plain(before) && Requested(before, actual, path, request).Some?
    ensures Plain(Requested(before, actual, path, request).value)
  {
    hide EditLayout, EditClip, WithChild;
    var pic := EditedAt(before, actual, path, request);
    PutAtPlain(before, path, pic);
  }

  /** expect() for a picture layout or crop. */
  method ExpectPicture(before: Node, actual: Node, path: Path, request: Request, reflow: Option<Scope>)
      returns (tree: Option<Node>)
    requires reflow.Some? && ForTarget(reflow.value, path, request) ==>
              BoundTo(reflow.value, before) && InBodyRun(before, path)
    ensures tree == Expected(before, actual, path, request, reflow)
  {
    hide InBodyRun, EditLayout, EditClip, BoundTo, Admitted, PutSection;
    if reflow.Some? && !ForTarget(reflow.value, path, request) { return None; }
    if !Exists(before, path) { return None; }
    var pic := NodeAt(before, path);
    var edited;
    if request.LayoutRequest? {
      if !Exists(actual, path) { return None; }
      edited := EditLayout(pic, request.settings, request.flow, NodeAt(actual, path));
    } else {
      var crop := request.crop;
      edited := WithChild(pic, "imgClip", clip => EditClip(clip, crop));
    }
    if edited.None? { return None; }
    var section := PutAt(before, path, edited.value);
    if reflow.None? { return Some(section); }
    RequestKeepsBound(reflow.value, before, actual, path, request);
    assert Requested(before, actual, path, request) == Some(section);
    tree := ApplyReflow(reflow.value, section, actual);
    if tree.Some? { AdmittedFits(reflow.value, section, actual); }
  }

  // ------------------------------------------------------------ acceptance of the package

  /** An accepted package holds, where the expectation names a tree, exactly that tree (no volatile values in body
      sections). */
  lemma AcceptedTree(before: Package, after: Package, e: Expectation, rules: Rules, name: string, a: Document)
    requires Complete(before) && Complete(after) && Accepted(before, after, e, rules)
    requires name in before.order && name in e.trees && name !in rules.regenerated && SpecsOf(rules.specs, name) == []
    requires Held(before, after, name) && rules.parse(after.members[name]) == Some(a)
    ensures Difference(e.trees[name], a.root).None?
  {
    hide Difference;
    var i :| 0 <= i < |before.order| && before.order[i] == name;
    assert MemberVerdict(before, after, e, rules, name) != Refused;
    assert Apply(e.trees[name], a.root, []) == Some(e.trees[name]);
  }

  lemma AcceptedHolds(before: Package, after: Package, e: Expectation, rules: Rules, name: string)
    requires Complete(before) && Complete(after) && Accepted(before, after, e, rules) && name in before.order
    ensures Held(before, after, name)
  {
    var i :| 0 <= i < |before.order| && before.order[i] == name;
  }

  /** What the accepted lines are: as many as before, every attribute outside the declared metrics unchanged, all
      within bounds. */
  ghost predicate LinesReflowed(scope: Scope, rows: seq<Line>) {
    && |rows| == |scope.rows|
    && forall i :: 0 <= i < |rows| ==>
         && Bounded(rows[i], scope.textWidth, scope.paperHeight)
         && AnchorsKept(scope.rows[i], rows[i], scope.fields)
  }

  /** Reflow frame. A scope bound to the before-section, an expectation built from the request under it, and a package
      the comparison accepts: then the after-section is the before-section with the requested picture change, but for
      the declared metrics of that one paragraph's lines. Putting the old lines back gives exactly
      before-plus-request. */
  lemma ReflowFrame(before: Package, after: Package, e: Expectation, rules: Rules, name: string, b: Document,
        a: Document,
                    scope: Scope, path: Path, request: Request)
    requires Complete(before) && Complete(after) && Accepted(before, after, e, rules)
    requires name in before.order && name !in rules.regenerated && SpecsOf(rules.specs, name) == []
    requires name in before.members && rules.parse(before.members[name]) == Some(b) && Plain(b.root)
    requires name in after.members && rules.parse(after.members[name]) == Some(a) && Plain(a.root)
    requires Binds(scope, b.root, path)
    requires name in e.trees && Expected(b.root, a.root, path, request, Some(scope)) == Some(e.trees[name])
    ensures Requested(b.root, a.root, path, request).Some?
    ensures scope.paragraph < |a.root.children| && LinesAt(a.root.children[scope.paragraph], scope.array_)
    ensures LinesReflowed(scope, Lines(a.root.children[scope.paragraph], scope.array_))
    ensures Canonical(PutSection(a.root, scope, scope.rows)) == Canonical(Requested(b.root, a.root, path,
              request).value)
  {
    AcceptedHolds(before, after, e, rules, name);
    AcceptedTree(before, after, e, rules, name, a);
    var requested := Requested(b.root, a.root, path, request).value;
    RequestKeepsBound(scope, b.root, a.root, path, request);
    RequestedPlain(b.root, a.root, path, request);
    FrameOf(scope, requested, a.root);
  }

  lemma {:induction false} FrameOf(scope: Scope, requested: Node, actual: Node)
    requires BoundTo(scope, requested) && Plain(requested) && Plain(actual) && Admitted(scope, requested, actual)
    requires Difference(PutSection(requested, scope, Lines(actual.children[scope.paragraph], scope.array_)),
              actual).None?
    ensures LinesReflowed(scope, Lines(actual.children[scope.paragraph], scope.array_))
    ensures Canonical(PutSection(actual, scope, scope.rows)) == Canonical(requested)
  {
    hide Difference, Canonical, PutSection;
    var rows := Lines(actual.children[scope.paragraph], scope.array_);
    forall i | 0 <= i < |rows| ensures rows[i].Keys == LINESEG_ATTRIBUTES {
      assert Bounded(rows[i], scope.textWidth, scope.paperHeight);
    }
    ReflowRestores(scope, requested, actual, rows);
  }
}
