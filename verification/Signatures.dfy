/** signature(): the printed canonical form of a subtree, and why comparing it is comparing trees. */
module Signatures {
  import opened Text
  import opened Hwpml

  // ------------------------------------------------------------ repr

  /** Characters Python's repr prints as they are: not controls, separators, format or private-use characters. */
  predicate Printable(c: char) {
    var n := c as int;
    c == ' '
    || !(IsSpace(c) || n < 0x20 || 0x7f <= n <= 0xa0 || n == 0xad || 0x200b <= n <= 0x200f || 0x202a <= n <= 0x202e
         || 0x2060 <= n <= 0x206f || 0xe000 <= n <= 0xf8ff || 0xfff0 <= n <= 0xfffb || 0xe_0000 <= n)
  }

  function HexDigit(d: nat): char
    requires d < 16
  {
    if d < 10 then (48 + d) as char else (87 + d) as char
  }

  function Hex(n: nat, width: nat): (r: string)
    ensures |r| == width
  {
    if width == 0 then "" else Hex(n / 16, width - 1) + [HexDigit(n % 16)]
  }

  function EscapeChar(c: char, quote: char): string {
    if c == '\\' || c == quote then ['\\', c]
    else if c == '\n' then ['\\', 'n']
    else if c == '\r' then ['\\', 'r']
    else if c == '\t' then ['\\', 't']
    else if Printable(c) then [c]
    else if (c as int) < 0x100 then ['\\', 'x'] + Hex(c as int, 2)
    else if (c as int) < 0x1_0000 then ['\\', 'u'] + Hex(c as int, 4)
    else ['\\', 'U'] + Hex(c as int, 8)
  }

  function Escape(s: string, quote: char): string {
    if s == [] then "" else EscapeChar(s[0], quote) + Escape(s[1..], quote)
  }

  /** Double quotes only when the text holds a single quote and no double one. */
  function Quote(s: string): char {
    if '\'' in s && '"' !in s then '"' else '\''
  }

  function Repr(s: string): string {
    [Quote(s)] + (Escape(s, Quote(s)) + [Quote(s)])
  }

  // ------------------------------------------------------------ signature

  function AttrText(m: map<string, string>, keys: seq<string>): string
    requires forall k :: k in keys ==> k in m
  {
    if keys == [] then "" else " " + (keys[0] + ("=" + (Repr(m[keys[0]]) + AttrText(m, keys[1..]))))
  }

  function Own(m: map<string, string>): string {
    AttrText(m, SortedKeys(m.Keys))
  }

  function Signature(e: Element, ignore: Ignore, omit: set<string>): string {
    "<" + (e.tag + (Own(Attrs(e, ignore))
        + (">" + (Repr(e.text) + (ChildText(e.children, ignore, omit) + ("</" + e.tag + ">"))))))
  }

  function ChildText(es: seq<Element>, ignore: Ignore, omit: set<string>): string {
    if es == [] then ""
    else if es[0].tag in omit then ChildText(es[1..], ignore, omit)
    else Signature(es[0], ignore, omit) + ("~" + (Repr(es[0].tail) + ChildText(es[1..], ignore, omit)))
  }

  // ------------------------------------------------------------ unique decodability

  lemma Cat(a: string, b: string, c: string)
    ensures (a + b) + c == a + (b + c)
  {
  }

  lemma Cancel(a: string, x: string, b: string, y: string)
    requires a + x == b + y && |a| == |b|
    ensures a == b && x == y
  {
    assert a == (a + x)[..|a|] && b == (b + y)[..|b|];
    assert x == (a + x)[|a|..] && y == (b + y)[|b|..];
  }

  function Pow16(n: nat): nat {
    if n == 0 then 1 else 16 * Pow16(n - 1)
  }

  lemma {:induction false} HexInjective(m: nat, n: nat, width: nat)
    requires m < Pow16(width) && n < Pow16(width) && Hex(m, width) == Hex(n, width)
    ensures m == n
  {
    if width > 0 {
      Cancel(Hex(m / 16, width - 1), [HexDigit(m % 16)], Hex(n / 16, width - 1), [HexDigit(n % 16)]);
      assert [HexDigit(m % 16)][0] == [HexDigit(n % 16)][0];
      HexInjective(m / 16, n / 16, width - 1);
    }
  }

  lemma EscapeCharDecodes(c: char, d: char, quote: char, x: string, y: string)
    requires quote == '\'' || quote == '"'
    requires EscapeChar(c, quote) + x == EscapeChar(d, quote) + y
    ensures c == d && x == y
  {
    var p, q := EscapeChar(c, quote), EscapeChar(d, quote);
    assert (p + x)[0] == p[0] && (q + y)[0] == q[0];
    if p[0] == '\\' {
      assert (p + x)[1] == p[1] && (q + y)[1] == q[1];
    }
    Cancel(p, x, q, y);
    if |p| > 2 {
      var w := |p| - 2;
      assert p[2..] == Hex(c as int, w) && q[2..] == Hex(d as int, w);
      assert Pow16(2) == 0x100;
      assert Pow16(4) == 0x1_0000;
      assert Pow16(8) == 0x1_0000_0000;
      HexInjective(c as int, d as int, w);
    }
  }

  /** An escaped run ends at its quote: escaped characters never begin with it. */
  lemma EscapeStart(s: string, quote: char, x: string)
    requires quote == '\'' || quote == '"'
    ensures (Escape(s, quote) + ([quote] + x))[0] == quote <==> s == []
  {
  }

  lemma {:induction false} EscapeDecodes(s: string, t: string, quote: char, x: string, y: string)
    requires quote == '\'' || quote == '"'
    requires Escape(s, quote) + ([quote] + x) == Escape(t, quote) + ([quote] + y)
    ensures s == t && x == y
    decreases |s|
  {
    EscapeStart(s, quote, x);
    EscapeStart(t, quote, y);
    if s == [] {
      Cancel("", [quote] + x, "", [quote] + y);
      Cancel([quote], x, [quote], y);
    } else {
      Cat(EscapeChar(s[0], quote), Escape(s[1..], quote), [quote] + x);
      Cat(EscapeChar(t[0], quote), Escape(t[1..], quote), [quote] + y);
      EscapeCharDecodes(s[0], t[0], quote, Escape(s[1..], quote) + ([quote] + x), Escape(t[1..], quote)
          + ([quote] + y));
      EscapeDecodes(s[1..], t[1..], quote, x, y);
      assert s == [s[0]] + s[1..] && t == [t[0]] + t[1..];
    }
  }

  /** repr is self-delimiting: what follows a printed string is determined. */
  lemma ReprDecodes(s: string, t: string, x: string, y: string)
    requires Repr(s) + x == Repr(t) + y
    ensures s == t && x == y
  {
    var q, r := Quote(s), Quote(t);
    Cat([q], Escape(s, q) + [q], x);
    Cat([r], Escape(t, r) + [r], y);
    Cancel([q], (Escape(s, q) + [q]) + x, [r], (Escape(t, r) + [r]) + y);
    assert [q][0] == [r][0];
    Cat(Escape(s, q), [q], x);
    Cat(Escape(t, r), [r], y);
    EscapeDecodes(s, t, q, x, y);
  }

  function NameEnd(s: string): nat {
    if s == [] || Delimiter(s[0]) then 0 else 1 + NameEnd(s[1..])
  }

  lemma {:induction false} NameEnds(a: string, x: string)
    requires forall i :: 0 <= i < |a| ==> !Delimiter(a[i])
    requires x != [] && Delimiter(x[0])
    ensures NameEnd(a + x) == |a|
  {
    if a == [] {
      assert a + x == x;
    } else {
      assert (a + x)[1..] == a[1..] + x;
      NameEnds(a[1..], x);
    }
  }

  /** A name ends where the first delimiter stands. */
  lemma NameDecodes(a: string, b: string, x: string, y: string)
    requires forall i :: 0 <= i < |a| ==> !Delimiter(a[i])
    requires forall i :: 0 <= i < |b| ==> !Delimiter(b[i])
    requires x != [] && Delimiter(x[0]) && y != [] && Delimiter(y[0])
    requires a + x == b + y
    ensures a == b && x == y
  {
    NameEnds(a, x);
    NameEnds(b, y);
    Cancel(a, x, b, y);
  }

  lemma AttrTextStart(m: map<string, string>, ks: seq<string>, x: string)
    requires (forall k :: k in ks ==> k in m) && x != [] && x[0] == '>'
    ensures AttrText(m, ks) + x != []
    ensures (AttrText(m, ks) + x)[0] == if ks == [] then '>' else ' '
  {
  }

  /** One printed attribute with everything after it pushed to the right. */
  lemma AttrTextStep(m: map<string, string>, ks: seq<string>, x: string)
    requires (forall k :: k in ks ==> k in m) && ks != []
    ensures AttrText(m, ks) + x == " " + (ks[0] + ("=" + (Repr(m[ks[0]]) + (AttrText(m, ks[1..]) + x))))
  {
    var r, rest := Repr(m[ks[0]]), AttrText(m, ks[1..]);
    Cat(" ", ks[0] + ("=" + (r + rest)), x);
    Cat(ks[0], "=" + (r + rest), x);
    Cat("=", r + rest, x);
    Cat(r, rest, x);
  }

  lemma {:induction false} AttrTextDecodes(m: map<string, string>, ks: seq<string>, n: map<string, string>,
        ls: seq<string>,
                                           x: string, y: string)
    requires (forall k :: k in ks ==> k in m && XmlName(k)) && (forall l :: l in ls ==> l in n && XmlName(l))
    requires x != [] && x[0] == '>' && y != [] && y[0] == '>'
    requires AttrText(m, ks) + x == AttrText(n, ls) + y
    ensures ks == ls && (forall k :: k in ks ==> m[k] == n[k]) && x == y
    decreases |ks|
  {
    AttrTextStart(m, ks, x);
    AttrTextStart(n, ls, y);
    if ks == [] {
      Cancel("", x, "", y);
    } else {
      AttrTextStep(m, ks, x);
      AttrTextStep(n, ls, y);
      var v, w := AttrText(m, ks[1..]) + x, AttrText(n, ls[1..]) + y;
      var p, q := Repr(m[ks[0]]) + v, Repr(n[ls[0]]) + w;
      Cancel(" ", ks[0] + ("=" + p), " ", ls[0] + ("=" + q));
      NameDecodes(ks[0], ls[0], "=" + p, "=" + q);
      Cancel("=", p, "=", q);
      ReprDecodes(m[ks[0]], n[ls[0]], v, w);
      AttrTextDecodes(m, ks[1..], n, ls[1..], x, y);
      assert ks == [ks[0]] + ks[1..] && ls == [ls[0]] + ls[1..];
    }
  }

  lemma OwnDecodes(m: map<string, string>, n: map<string, string>, x: string, y: string)
    requires (forall k :: k in m ==> XmlName(k)) && (forall k :: k in n ==> XmlName(k))
    requires x != [] && x[0] == '>' && y != [] && y[0] == '>'
    requires Own(m) + x == Own(n) + y
    ensures m == n && x == y
  {
    AttrTextDecodes(m, SortedKeys(m.Keys), n, SortedKeys(n.Keys), x, y);
    SameListing(m, SortedKeys(m.Keys), n, SortedKeys(n.Keys));
  }

  lemma SameListing(m: map<string, string>, ks: seq<string>, n: map<string, string>, ls: seq<string>)
    requires (forall k :: k in m <==> k in ks) && (forall k :: k in n <==> k in ls)
    requires ks == ls && forall k :: k in ks ==> k in m && k in n && m[k] == n[k]
    ensures m == n
  {
  }

  /** The head of a printed element determines its tag, its kept attributes and everything after them. */
  lemma OpeningDecodes(s: string, m: map<string, string>, t: string, n: map<string, string>, x: string, y: string)
    requires XmlName(s) && XmlName(t) && (forall k :: k in m ==> XmlName(k)) && (forall k :: k in n ==> XmlName(k))
    requires "<" + (s + (Own(m) + (">" + x))) == "<" + (t + (Own(n) + (">" + y)))
    ensures s == t && m == n && x == y
  {
    var p, q := Own(m) + (">" + x), Own(n) + (">" + y);
    AttrTextStart(m, SortedKeys(m.Keys), ">" + x);
    AttrTextStart(n, SortedKeys(n.Keys), ">" + y);
    Cancel("<", s + p, "<", t + q);
    NameDecodes(s, t, p, q);
    OwnDecodes(m, n, ">" + x, ">" + y);
    Cancel(">", x, ">", y);
  }

  /** A printed element with everything after it pushed to the right. */
  lemma SignatureStep(e: Element, ignore: Ignore, omit: set<string>, x: string)
    ensures Signature(e, ignore, omit) + x
         == "<" + (e.tag + (Own(Attrs(e, ignore))
             + (">" + (Repr(e.text) + (ChildText(e.children, ignore, omit) + (("</" + e.tag + ">") + x))))))
  {
    var close := "</" + e.tag + ">";
    var kids := ChildText(e.children, ignore, omit);
    var own := Own(Attrs(e, ignore));
    Cat("<", e.tag + (own + (">" + (Repr(e.text) + (kids + close)))), x);
    Cat(e.tag, own + (">" + (Repr(e.text) + (kids + close))), x);
    Cat(own, ">" + (Repr(e.text) + (kids + close)), x);
    Cat(">", Repr(e.text) + (kids + close), x);
    Cat(Repr(e.text), kids + close, x);
    Cat(kids, close, x);
  }

  lemma ChildTextStep(es: seq<Element>, ignore: Ignore, omit: set<string>, x: string)
    requires es != [] && es[0].tag !in omit
    ensures ChildText(es, ignore, omit) + x
         == Signature(es[0], ignore, omit) + ("~" + (Repr(es[0].tail) + (ChildText(es[1..], ignore, omit) + x)))
  {
    var rest := ChildText(es[1..], ignore, omit);
    Cat(Signature(es[0], ignore, omit), "~" + (Repr(es[0].tail) + rest), x);
    Cat("~", Repr(es[0].tail) + rest, x);
    Cat(Repr(es[0].tail), rest, x);
  }

  predicate Closing(x: string) {
    |x| > 1 && x[0] == '<' && x[1] == '/'
  }

  /** Once omitted children are passed, only an exhausted list is followed by a closing tag. */
  lemma ChildTextStart(es: seq<Element>, ignore: Ignore, omit: set<string>, x: string)
    requires Closing(x) && (es != [] ==> es[0].tag !in omit && Named(es[0]))
    ensures Closing(ChildText(es, ignore, omit) + x) <==> es == []
  {
    if es == [] {
      assert ChildText(es, ignore, omit) + x == x;
    } else {
      var s := Signature(es[0], ignore, omit);
      ChildTextStep(es, ignore, omit, x);
      SignatureStep(es[0], ignore, omit, "");
      assert |s| > 1 && s[1] == es[0].tag[0];
    }
  }

  /** Printed elements are self-delimiting and determine the pruned tree. */
  lemma {:induction false} SignatureDecodes(a: Element, b: Element, ignore: Ignore, omit: set<string>,
        x: string, y: string)
    requires Named(a) && Named(b)
    requires Signature(a, ignore, omit) + x == Signature(b, ignore, omit) + y
    ensures Canon(a, ignore, omit) == Canon(b, ignore, omit) && x == y
    decreases a, 1
  {
    SignatureStep(a, ignore, omit, x);
    SignatureStep(b, ignore, omit, y);
    var closeA, closeB := ("</" + a.tag + ">") + x, ("</" + b.tag + ">") + y;
    var kidsA, kidsB := ChildText(a.children, ignore, omit) + closeA, ChildText(b.children, ignore, omit) + closeB;
    OpeningDecodes(a.tag, Attrs(a, ignore), b.tag, Attrs(b, ignore), Repr(a.text) + kidsA, Repr(b.text) + kidsB);
    ReprDecodes(a.text, b.text, kidsA, kidsB);
    ChildTextDecodes(a.children, b.children, ignore, omit, closeA, closeB);
    Cancel("</" + a.tag + ">", x, "</" + b.tag + ">", y);
  }

  lemma {:induction false} ChildTextDecodes(cs: seq<Element>, ds: seq<Element>, ignore: Ignore, omit: set<string>,
      x: string, y: string)
    requires (forall c :: c in cs ==> Named(c)) && (forall d :: d in ds ==> Named(d))
    requires Closing(x) && Closing(y)
    requires ChildText(cs, ignore, omit) + x == ChildText(ds, ignore, omit) + y
    ensures PruneAll(cs, ignore, omit) == PruneAll(ds, ignore, omit) && x == y
    decreases cs, 0, |ds|
  {
    if cs != [] && cs[0].tag in omit {
      ChildTextDecodes(cs[1..], ds, ignore, omit, x, y);
    } else if ds != [] && ds[0].tag in omit {
      ChildTextDecodes(cs, ds[1..], ignore, omit, x, y);
    } else {
      ChildTextStart(cs, ignore, omit, x);
      ChildTextStart(ds, ignore, omit, y);
      if cs == [] {
        Cancel("", x, "", y);
      } else {
        ChildTextStep(cs, ignore, omit, x);
        ChildTextStep(ds, ignore, omit, y);
        var v, w := ChildText(cs[1..], ignore, omit) + x, ChildText(ds[1..], ignore, omit) + y;
        var p, q := Repr(cs[0].tail) + v, Repr(ds[0].tail) + w;
        SignatureDecodes(cs[0], ds[0], ignore, omit, "~" + p, "~" + q);
        Cancel("~", p, "~", q);
        ReprDecodes(cs[0].tail, ds[0].tail, v, w);
        ChildTextDecodes(cs[1..], ds[1..], ignore, omit, x, y);
        assert Prune(cs[0], ignore, omit) == Canon(cs[0], ignore, omit).(tail := cs[0].tail);
        assert Prune(ds[0], ignore, omit) == Canon(ds[0], ignore, omit).(tail := ds[0].tail);
      }
    }
  }

  /** Printing sees exactly what pruning keeps. */
  lemma {:induction false} SignatureOfPruned(e: Element, ignore: Ignore, omit: set<string>)
    ensures Signature(Prune(e, ignore, omit), ignore, omit) == Signature(e, ignore, omit)
    decreases e, 1
  {
    var p := Prune(e, ignore, omit);
    assert Attrs(p, ignore) == Attrs(e, ignore);
    ChildTextOfPruned(e.children, ignore, omit);
  }

  lemma {:induction false} ChildTextOfPruned(es: seq<Element>, ignore: Ignore, omit: set<string>)
    ensures ChildText(PruneAll(es, ignore, omit), ignore, omit) == ChildText(es, ignore, omit)
    decreases es, 0
  {
    if es != [] {
      ChildTextOfPruned(es[1..], ignore, omit);
      if es[0].tag !in omit {
        SignatureOfPruned(es[0], ignore, omit);
        var ps := PruneAll(es, ignore, omit);
        assert ps[0] == Prune(es[0], ignore, omit) && ps[1..] == PruneAll(es[1..], ignore, omit);
      } else {
        assert PruneAll(es, ignore, omit) == PruneAll(es[1..], ignore, omit);
      }
    }
  }

  /** Comparing printed forms is comparing trees without volatile/ignored attributes and omitted subtrees. */
  lemma SignatureFaithful(a: Element, b: Element, ignore: Ignore, omit: set<string>)
    requires Named(a) && Named(b)
    ensures Signature(a, ignore, omit) == Signature(b, ignore, omit) <==>
              Canon(a, ignore, omit) == Canon(b, ignore, omit)
  {
    if Signature(a, ignore, omit) == Signature(b, ignore, omit) {
      SignatureDecodes(a, b, ignore, omit, "", "");
    }
    if Canon(a, ignore, omit) == Canon(b, ignore, omit) {
      SignatureOfPruned(a, ignore, omit);
      SignatureOfPruned(b, ignore, omit);
      TailUnseen(Prune(a, ignore, omit), "", ignore, omit);
      TailUnseen(Prune(b, ignore, omit), "", ignore, omit);
    }
  }

  lemma TailUnseen(e: Element, tail: string, ignore: Ignore, omit: set<string>)
    ensures Signature(e.(tail := tail), ignore, omit) == Signature(e, ignore, omit)
  {
    assert Attrs(e.(tail := tail), ignore) == Attrs(e, ignore);
  }

  // ------------------------------------------------------------ the per-tree cache

  lemma Shift(done: string, printed: string, tail: string, rest: string)
    ensures (done + (printed + ("~" + tail))) + rest == done + (printed + ("~" + (tail + rest)))
  {
    Cat(done, printed + ("~" + tail), rest);
    Cat(printed, "~" + tail, rest);
    Cat("~", tail, rest);
  }

  /** A node's identity within one tree. */
  type Path = seq<nat>

  predicate ValidPath(e: Element, path: Path) {
    path == [] || (path[0] < |e.children| && ValidPath(e.children[path[0]], path[1..]))
  }

  function At(e: Element, path: Path): Element
    requires ValidPath(e, path)
  {
    if path == [] then e else At(e.children[path[0]], path[1..])
  }

  lemma {:induction false} AtChild(e: Element, path: Path, i: nat)
    requires ValidPath(e, path) && i < |At(e, path).children|
    ensures ValidPath(e, path + [i]) && At(e, path + [i]) == At(e, path).children[i]
    decreases path
  {
    if path == [] {
      assert (path + [i])[1..] == [];
    } else {
      AtChild(e.children[path[0]], path[1..], i);
      assert (path + [i])[1..] == path[1..] + [i];
    }
  }

  ghost predicate CacheOf(root: Element, ignore: Ignore, omit: set<string>, cache: map<Path, string>) {
    forall p :: p in cache ==> ValidPath(root, p) && cache[p] == Signature(At(root, p), ignore, omit)
  }

  ghost predicate Locates(root: Element, path: Path, element: Element) {
    ValidPath(root, path) && At(root, path) == element
  }

  /** signature() with a cache keyed by node identity: the cache never changes the result. */
  method SignatureCached(ghost root: Element, path: Path, element: Element, ignore: Ignore, omit: set<string>,
                         cache: map<Path, string>, cacheTags: set<string>)
    returns (result: string, cache': map<Path, string>)
    requires Locates(root, path, element) && CacheOf(root, ignore, omit, cache)
    ensures result == Signature(element, ignore, omit)
    ensures CacheOf(root, ignore, omit, cache')
    decreases element, 1
  {
    if element.tag in cacheTags && path in cache {
      return cache[path], cache;
    }
    var children;
    children, cache' := ChildrenCached(root, path, element, ignore, omit, cache, cacheTags);
    result := "<" + (element.tag
        + (Own(Attrs(element, ignore)) + (">" + (Repr(element.text) + (children + ("</" + element.tag + ">"))))));
    if element.tag in cacheTags {
      cache' := cache'[path := result];
    }
  }

  /** The join over an element's children inside signature(). */
  method ChildrenCached(ghost root: Element, path: Path, element: Element, ignore: Ignore, omit: set<string>,
                        cache: map<Path, string>, cacheTags: set<string>)
    returns (children: string, cache': map<Path, string>)
    requires Locates(root, path, element) && CacheOf(root, ignore, omit, cache)
    ensures children == ChildText(element.children, ignore, omit)
    ensures CacheOf(root, ignore, omit, cache')
    decreases element, 0
  {
    var es := element.children;
    children, cache' := "", cache;
    var i := 0;
    ghost var total := ChildText(es, ignore, omit);
    assert es[0..] == es;
    while i < |es|
      invariant 0 <= i <= |es|
      invariant children + ChildText(es[i..], ignore, omit) == total
      invariant CacheOf(root, ignore, omit, cache')
    {
      NextChild(es, i, children, ignore, omit);
      if es[i].tag !in omit {
        assert Locates(root, path + [i], es[i]) by { AtChild(root, path, i); }
        var printed;
        printed, cache' := SignatureCached(root, path + [i], es[i], ignore, omit, cache', cacheTags);
        children := children + (printed + ("~" + Repr(es[i].tail)));
      }
      i := i + 1;
    }
    assert es[i..] == [];
  }

  /** Moving one child from what remains to be printed to what is printed. */
  lemma NextChild(es: seq<Element>, i: nat, done: string, ignore: Ignore, omit: set<string>)
    requires i < |es|
    ensures done + ChildText(es[i..], ignore, omit)
         == (if es[i].tag in omit then done else done + (Signature(es[i], ignore, omit) + ("~" + Repr(es[i].tail))))
            + ChildText(es[i + 1..], ignore, omit)
  {
    assert es[i..][0] == es[i] && es[i..][1..] == es[i + 1..];
    Shift(done, Signature(es[i], ignore, omit), Repr(es[i].tail), ChildText(es[i + 1..], ignore, omit));
  }
}
