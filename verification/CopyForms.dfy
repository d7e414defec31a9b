/** _copy_form(): a printed section definition without the references bound elsewhere (app/layout_ops.py). */
module CopyForms {
  import opened Text
  import opened Hwpml
  import opened Signatures

  const REFERENCE_ATTRS: set<string> := {OUTLINE_SHAPE, MEMO_SHAPE_ID}
  const QUOTE: char := '\''

  // ------------------------------------------------------------ the substitution

  /** What follows the first single quote; empty when there is none. */
  function AfterQuote(s: string): (r: string)
    ensures |r| <= |s| && (s != [] ==> |r| < |s|)
  {
    if s == [] then [] else if s[0] == QUOTE then s[1..] else AfterQuote(s[1..])
  }

  /** The literal start of the pattern for one name. */
  function Opener(name: string): string {
    " " + (name + "='")
  }

  predicate Opens(s: string, bound: set<string>) {
    exists n :: n in bound && Opener(n) <= s
  }

  /** The pattern matches here: a start, anything but a quote, a quote. */
  predicate Hit(s: string, bound: set<string>) {
    Opens(s, bound) && QUOTE in AfterQuote(s)
  }

  /** re.sub with the empty string: the leftmost matches, one after another, are dropped. */
  function CopyText(s: string, bound: set<string>): string
    decreases |s|
  {
    if s == [] then []
    else if Hit(s, bound) then CopyText(AfterQuote(AfterQuote(s)), bound)
    else [s[0]] + CopyText(s[1..], bound)
  }

  /** At how many places the pattern matches, overlaps included. */
  function Hits(s: string, bound: set<string>): nat {
    if s == [] then 0 else (if Hit(s, bound) then 1 else 0) + Hits(s[1..], bound)
  }

  /** How many matches the substitution drops. */
  function Matches(s: string, bound: set<string>): nat
    decreases |s|
  {
    if s == [] then 0
    else if Hit(s, bound) then 1 + Matches(AfterQuote(AfterQuote(s)), bound)
    else Matches(s[1..], bound)
  }

  function Quotes(s: string): nat {
    if s == [] then 0 else (if s[0] == QUOTE then 1 else 0) + Quotes(s[1..])
  }

  // ------------------------------------------------------------ quotes

  lemma Step(a: string, b: string)
    requires a != []
    ensures (a + b)[0] == a[0] && (a + b)[1..] == a[1..] + b
  {
  }

  lemma {:induction false} QuotesConcat(a: string, b: string)
    ensures Quotes(a + b) == Quotes(a) + Quotes(b)
  {
    if a == [] {
      assert a + b == b;
    } else {
      Step(a, b);
      QuotesConcat(a[1..], b);
    }
  }

  lemma {:induction false} QuotesFound(s: string)
    ensures Quotes(s) > 0 <==> QUOTE in s
    ensures Quotes(AfterQuote(s)) == if QUOTE in s then Quotes(s) - 1 else 0
  {
    if s != [] { QuotesFound(s[1..]); }
  }

  lemma {:induction false} AfterQuoteConcat(a: string, b: string)
    ensures AfterQuote(a + b) == if QUOTE in a then AfterQuote(a) + b else AfterQuote(b)
  {
    if a == [] {
      assert a + b == b;
    } else {
      Step(a, b);
      AfterQuoteConcat(a[1..], b);
    }
  }

  /** An opening ends with a quote and starts with a blank and the first letter of a name. */
  lemma OpensStart(s: string, bound: set<string>)
    requires bound <= REFERENCE_ATTRS
    ensures Opens(s, bound) ==> |s| >= 2 && s[0] == ' ' && (s[1] == 'O' || s[1] == 'M') && QUOTE in s
  {
    if Opens(s, bound) {
      var n :| n in bound && Opener(n) <= s;
      var o := Opener(n);
      assert o[0] == ' ' && o[1] == n[0] && o[|o| - 1] == QUOTE;
      assert s[0] == o[0] && s[1] == o[1] && s[|o| - 1] == o[|o| - 1];
    }
  }

  /** Each dropped match takes two quotes. */
  lemma {:induction false} CopyQuotes(s: string, bound: set<string>)
    requires bound <= REFERENCE_ATTRS
    ensures Quotes(CopyText(s, bound)) + 2 * Matches(s, bound) == Quotes(s)
    decreases |s|
  {
    if s != [] {
      if Hit(s, bound) {
        OpensStart(s, bound);
        QuotesFound(s);
        QuotesFound(AfterQuote(s));
        CopyQuotes(AfterQuote(AfterQuote(s)), bound);
      } else {
        CopyQuotes(s[1..], bound);
        QuotesConcat([s[0]], CopyText(s[1..], bound));
        assert [s[0]][1..] == [];
      }
    }
  }

  // ------------------------------------------------------------ where a match can start

  /** An opening does not run across a blank or a closing bracket. */
  lemma OpensLocal(c: string, t: string, bound: set<string>)
    requires bound <= REFERENCE_ATTRS && c != [] && t != [] && (t[0] == ' ' || t[0] == '>')
    ensures Opens(c + t, bound) <==> Opens(c, bound)
  {
    if Opens(c, bound) {
      var n :| n in bound && Opener(n) <= c;
      assert Opener(n) <= c + t;
    }
    if Opens(c + t, bound) {
      var n :| n in bound && Opener(n) <= c + t;
      OpenerChars(n);
      assert (c + t)[|c|] == t[0];
      assert forall i :: 0 <= i < |Opener(n)| ==> Opener(n)[i] == (c + t)[i];
      assert Opener(n) <= c;
    }
  }

  lemma OpenerChars(n: string)
    requires n in REFERENCE_ATTRS
    ensures forall i :: 0 < i < |Opener(n)| ==> Opener(n)[i] != ' ' && Opener(n)[i] != '>'
  {
    var o := Opener(n);
    forall i | 0 < i < |o| ensures o[i] != ' ' && o[i] != '>' {
      if i <= |n| { assert o[i] == n[i - 1]; } else { assert o[i] == "='"[i - 1 - |n|]; }
    }
  }

  /** No match starts inside c when t follows it. */
  ghost predicate Silent(c: string, t: string, bound: set<string>) {
    forall j :: 0 <= j < |c| ==> !Hit(c[j..] + t, bound)
  }

  lemma {:induction false} SilentPiece(c: string, t: string, bound: set<string>)
    requires Silent(c, t, bound)
    ensures CopyText(c + t, bound) == c + CopyText(t, bound)
    ensures Hits(c + t, bound) == Hits(t, bound) && Matches(c + t, bound) == Matches(t, bound)
  {
    if c == [] {
      assert c + t == t;
    } else {
      Step(c, t);
      assert c[0..] == c;
      forall j | 0 <= j < |c[1..]| ensures !Hit(c[1..][j..] + t, bound) { assert c[1..][j..] == c[j + 1..]; }
      SilentPiece(c[1..], t, bound);
      Cat([c[0]], c[1..], CopyText(t, bound));
      assert [c[0]] + c[1..] == c;
    }
  }

  /** Where nothing opens, nothing matches. */
  lemma NoOpening(c: string, t: string, bound: set<string>)
    requires bound <= REFERENCE_ATTRS && t != [] && (t[0] == ' ' || t[0] == '>')
    requires forall j :: 0 <= j < |c| ==> !Opens(c[j..], bound)
    ensures Silent(c, t, bound)
  {
    forall j | 0 <= j < |c| ensures !Hit(c[j..] + t, bound) { OpensLocal(c[j..], t, bound); }
  }

  /** A text with a blank nowhere before an O or M has no opening. */
  predicate Quiet(c: string) {
    forall j :: 0 <= j < |c| - 1 && c[j] == ' ' ==> c[j + 1] != 'O' && c[j + 1] != 'M'
  }

  lemma QuietSilent(c: string, t: string, bound: set<string>)
    requires bound <= REFERENCE_ATTRS && t != [] && (t[0] == ' ' || t[0] == '>') && Quiet(c)
    ensures Silent(c, t, bound)
  {
    forall j | 0 <= j < |c| ensures !Opens(c[j..], bound) {
      OpensStart(c[j..], bound);
      assert |c[j..]| >= 2 ==> c[j] == c[j..][0] && c[j + 1] == c[j..][1];
    }
    NoOpening(c, t, bound);
  }

  /** A text is left as it is exactly when the pattern matches nowhere in it. */
  lemma {:induction false} Untouched(s: string, bound: set<string>)
    ensures |CopyText(s, bound)| <= |s|
    ensures CopyText(s, bound) == s <==> Hits(s, bound) == 0
    decreases |s|
  {
    if s != [] {
      Untouched(s[1..], bound);
      if Hit(s, bound) {
        Untouched(AfterQuote(AfterQuote(s)), bound);
      } else {
        assert s == [s[0]] + s[1..];
        assert ([s[0]] + CopyText(s[1..], bound))[1..] == CopyText(s[1..], bound);
      }
    }
  }

  // ------------------------------------------------------------ printed attributes

  /** Digits and whitespace: what a reference that names an Id holds. */
  predicate IdLike(v: string) {
    forall i :: 0 <= i < |v| ==> IsDigit(v[i]) || IsSpace(v[i])
  }

  /** What follows the opening of a printed reference: its value and the closing quote. */
  function Body(v: string): string {
    Escape(v, QUOTE) + [QUOTE]
  }

  predicate Plain(s: string) {
    forall i :: 0 <= i < |s| ==> s[i] != 'O' && s[i] != 'M' && s[i] != QUOTE
  }

  lemma {:induction false} HexPlain(n: nat, width: nat)
    ensures Plain(Hex(n, width))
  {
    if width > 0 { HexPlain(n / 16, width - 1); }
  }

  lemma EscapeCharPlain(c: char)
    requires IsDigit(c) || IsSpace(c)
    ensures Plain(EscapeChar(c, QUOTE))
  {
    HexPlain(c as int, 2);
    HexPlain(c as int, 4);
    HexPlain(c as int, 8);
  }

  lemma {:induction false} EscapePlain(v: string)
    requires IdLike(v)
    ensures Plain(Escape(v, QUOTE)) && Quote(v) == QUOTE
  {
    assert QUOTE !in v;
    if v != [] {
      EscapeCharPlain(v[0]);
      EscapePlain(v[1..]);
    }
  }

  lemma BodyQuiet(v: string)
    requires IdLike(v)
    ensures Quiet(Body(v)) && AfterQuote(Body(v)) == [] && Quotes(Body(v)) == 1
    ensures |Body(v)| > 1 ==> Body(v)[1] != 'O' && Body(v)[1] != 'M'
  {
    EscapePlain(v);
    var e := Escape(v, QUOTE);
    assert QUOTE !in e;
    AfterQuoteConcat(e, [QUOTE]);
    QuotesConcat(e, [QUOTE]);
    QuotesFound(e);
    assert [QUOTE][1..] == [];
  }

  /** One printed attribute. */
  function Piece(k: string, v: string): string {
    " " + (k + ("=" + Repr(v)))
  }

  type Dict = map<string, string>

  ghost predicate Keys(m: Dict, ks: seq<string>) {
    forall k :: k in ks ==> k in m
  }

  ghost predicate IdLikeAll(m: Dict, ks: seq<string>, bound: set<string>) {
    bound <= REFERENCE_ATTRS && forall k :: k in ks && k in bound && k in m ==> IdLike(m[k])
  }

  predicate Tail(x: string) {
    x != [] && x[0] == '>'
  }

  lemma PieceFirst(m: Dict, ks: seq<string>, x: string)
    requires Keys(m, ks) && ks != [] && Tail(x)
    ensures AttrText(m, ks) + x == Piece(ks[0], m[ks[0]]) + (AttrText(m, ks[1..]) + x)
    ensures Starts(AttrText(m, ks[1..]) + x)
  {
    AttrTextStep(m, ks, x);
    var k, v, t := ks[0], m[ks[0]], AttrText(m, ks[1..]) + x;
    Cat("=", Repr(v), t);
    Cat(k, "=" + Repr(v), t);
    Cat(" ", k + ("=" + Repr(v)), t);
    AttrTextStart(m, ks[1..], x);
  }

  predicate Starts(t: string) {
    t != [] && (t[0] == ' ' || t[0] == '>')
  }

  /** A printed reference is its opening and its body. */
  lemma BoundPiece(k: string, v: string)
    requires IdLike(v) && k in REFERENCE_ATTRS
    ensures Piece(k, v) == Opener(k) + Body(v) && AfterQuote(Piece(k, v)) == Body(v) && QUOTE in Piece(k, v)
        && Quotes(Piece(k, v)) == 2
    ensures Quiet(Piece(k, v)[1..])
  {
    EscapePlain(v);
    BodyQuiet(v);
    var o, b := Opener(k), Body(v);
    assert Piece(k, v) == o + b by {
      assert Repr(v) == [QUOTE] + b;
      Cat(" ", k + "='", b);
      Cat(k, "='", b);
    }
    var front := " " + (k + "=");
    assert o == front + [QUOTE];
    assert QUOTE !in front;
    AfterQuoteConcat(front, [QUOTE]);
    assert AfterQuote(o) == [];
    AfterQuoteConcat(o, b);
    assert o[|o| - 1] == QUOTE;
    QuotesFound(o);
    QuotesConcat(o, b);
    assert Quotes(o) == 1;
    PieceQuiet(k, b);
  }

  lemma PieceQuiet(k: string, b: string)
    requires k in REFERENCE_ATTRS && Quiet(b)
    ensures Quiet((Opener(k) + b)[1..])
  {
    var o := Opener(k);
    var p, q := o + b, (o + b)[1..];
    OpenerChars(k);
    forall j | 0 <= j < |q| - 1 ensures q[j] == ' ' ==> q[j + 1] != 'O' && q[j + 1] != 'M' {
      assert q[j] == p[j + 1] && q[j + 1] == p[j + 2];
      assert j + 1 < |o| ==> p[j + 1] == o[j + 1];
      assert j + 1 >= |o| ==> p[j + 1] == b[j + 1 - |o|] && p[j + 2] == b[j + 2 - |o|];
    }
  }

  /** A printed reference always matches, and nothing else inside it does. */
  lemma BoundScan(k: string, v: string, t: string, bound: set<string>)
    requires IdLike(v) && k in bound && bound <= REFERENCE_ATTRS && Starts(t)
    ensures CopyText(Piece(k, v) + t, bound) == CopyText(t, bound)
    ensures Hits(Piece(k, v) + t, bound) == 1 + Hits(t, bound) && Matches(Piece(k, v) + t, bound) == 1
              + Matches(t, bound)
  {
    BoundPiece(k, v);
    BodyQuiet(v);
    hide Quiet, Quotes, Escape, Repr;
    var p := Piece(k, v);
    assert Opener(k) <= p + t;
    AfterQuoteConcat(p, t);
    AfterQuoteConcat(Body(v), t);
    assert Body(v)[|Body(v)| - 1] == QUOTE;
    assert QUOTE in AfterQuote(p + t) by { assert (Body(v) + t)[|Body(v)| - 1] == QUOTE; }
    assert [] + t == t;
    Step(p, t);
    QuietSilent(p[1..], t, bound);
    SilentPiece(p[1..], t, bound);
  }

  // ------------------------------------------------------------ counting the references among the attributes

  function Unbound(ks: seq<string>, bound: set<string>): seq<string> {
    if ks == [] then [] else (if ks[0] in bound then [] else [ks[0]]) + Unbound(ks[1..], bound)
  }

  function CountBound(ks: seq<string>, bound: set<string>): nat {
    if ks == [] then 0 else (if ks[0] in bound then 1 else 0) + CountBound(ks[1..], bound)
  }

  lemma {:induction false} UnboundKeys(m: Dict, ks: seq<string>, bound: set<string>)
    requires Keys(m, ks)
    ensures Keys(m, Unbound(ks, bound))
  {
    if ks != [] { UnboundKeys(m, ks[1..], bound); }
  }

  /** Leaving the references out leaves out two quotes for each. */
  lemma {:induction false} UnboundQuotes(m: Dict, ks: seq<string>, bound: set<string>, x: string)
    requires Keys(m, ks) && Keys(m, Unbound(ks, bound)) && IdLikeAll(m, ks, bound) && Tail(x)
    ensures Quotes(AttrText(m, ks) + x) == Quotes(AttrText(m, Unbound(ks, bound)) + x) + 2 * CountBound(ks, bound)
  {
    if ks != [] {
      var rest := Unbound(ks[1..], bound);
      UnboundKeys(m, ks[1..], bound);
      UnboundQuotes(m, ks[1..], bound, x);
      PieceFirst(m, ks, x);
      QuotesConcat(Piece(ks[0], m[ks[0]]), AttrText(m, ks[1..]) + x);
      if ks[0] in bound {
        BoundPiece(ks[0], m[ks[0]]);
        assert Unbound(ks, bound) == rest;
      } else {
        assert Unbound(ks, bound)[1..] == rest;
        PieceFirst(m, Unbound(ks, bound), x);
        QuotesConcat(Piece(ks[0], m[ks[0]]), AttrText(m, rest) + x);
      }
    }
  }

  /** The next quote among printed attributes: it costs at most one reference, and then what is left starts with that
      one's value. */
  lemma {:induction false} NextQuote(m: Dict, ks: seq<string>, bound: set<string>, x: string)
      returns (pre: string, rest: seq<string>)
    requires Keys(m, ks) && IdLikeAll(m, ks, bound) && Tail(x) && CountBound(ks, bound) > 0
    ensures Keys(m, rest) && IdLikeAll(m, rest, bound)
    ensures AfterQuote(AttrText(m, ks) + x) == pre + (AttrText(m, rest) + x)
    ensures CountBound(rest, bound) == CountBound(ks, bound)
            || (CountBound(rest, bound) == CountBound(ks, bound) - 1 && exists v :: IdLike(v) && pre == Body(v))
  {
    var k, t := ks[0], AttrText(m, ks[1..]) + x;
    var p := Piece(k, m[k]);
    PieceFirst(m, ks, x);
    AfterQuoteConcat(p, t);
    if k in bound {
      BoundPiece(k, m[k]);
      pre, rest := Body(m[k]), ks[1..];
    } else if QUOTE in p {
      pre, rest := AfterQuote(p), ks[1..];
    } else {
      pre, rest := NextQuote(m, ks[1..], bound, x);
    }
  }

  /** Whatever comes before, the substitution drops at least one match for every printed reference. */
  lemma {:induction false} MatchesAtLeast(pre: string, m: Dict, ks: seq<string>, bound: set<string>, x: string)
    requires Keys(m, ks) && IdLikeAll(m, ks, bound) && Tail(x)
    ensures Matches(pre + (AttrText(m, ks) + x), bound) >= CountBound(ks, bound)
    decreases |pre + (AttrText(m, ks) + x)|, |ks|
  {
    var t := AttrText(m, ks) + x;
    var y := pre + t;
    if CountBound(ks, bound) == 0 {
    } else if pre == [] {
      var k, rest := ks[0], AttrText(m, ks[1..]) + x;
      PieceFirst(m, ks, x);
      assert y == t && [] + rest == rest;
      if k in bound {
        BoundScan(k, m[k], rest, bound);
        MatchesAtLeast([], m, ks[1..], bound, x);
      } else {
        MatchesAtLeast(Piece(k, m[k]), m, ks[1..], bound, x);
      }
    } else {
      AttrTextStart(m, ks, x);
      Step(pre, t);
      if Hit(y, bound) {
        MatchedAtLeast(pre, m, ks, bound, x);
      } else {
        MatchesAtLeast(pre[1..], m, ks, bound, x);
      }
    }
  }

  /** The case of a match that starts before the attributes. */
  lemma {:induction false} MatchedAtLeast(pre: string, m: Dict, ks: seq<string>, bound: set<string>, x: string)
    requires Keys(m, ks) && IdLikeAll(m, ks, bound) && Tail(x) && CountBound(ks, bound) > 0
    requires pre != [] && Hit(pre + (AttrText(m, ks) + x), bound)
    ensures Matches(pre + (AttrText(m, ks) + x), bound) >= CountBound(ks, bound)
    decreases |pre + (AttrText(m, ks) + x)|, 0
  {
    var t := AttrText(m, ks) + x;
    AttrTextStart(m, ks, x);
    OpensLocal(pre, t, bound);
    OpensStart(pre, bound);
    AfterQuoteConcat(pre, t);
    var p := AfterQuote(pre);
    AfterQuoteConcat(p, t);
    if QUOTE in p {
      MatchesAtLeast(AfterQuote(p), m, ks, bound, x);
    } else {
      var pre', rest := NextQuote(m, ks, bound, x);
      MatchesAtLeast(pre', m, rest, bound, x);
    }
  }

  // ------------------------------------------------------------ exactly the references are dropped

  /** A match that is no reference spoils the result: the substitution does not leave c and the other attributes. */
  lemma StrayMatch(c: string, m: Dict, ks: seq<string>, bound: set<string>, x: string)
    requires Keys(m, ks) && Keys(m, Unbound(ks, bound)) && IdLikeAll(m, ks, bound) && Tail(x)
    requires c != [] && Hit(c + (AttrText(m, ks) + x), bound)
    ensures CopyText(c + (AttrText(m, ks) + x), bound) != c + (AttrText(m, Unbound(ks, bound)) + x)
  {
    var t, u := AttrText(m, ks) + x, AttrText(m, Unbound(ks, bound)) + x;
    var n := CountBound(ks, bound);
    AttrTextStart(m, ks, x);
    OpensLocal(c, t, bound);
    OpensStart(c, bound);
    AfterQuoteConcat(c, t);
    var p := AfterQuote(c);
    AfterQuoteConcat(p, t);
    var r := AfterQuote(AfterQuote(c + t));
    StrayQuotes(c, t, u, n, r, bound, m, ks, x);
    if QUOTE in p {
      MatchesAtLeast(AfterQuote(p), m, ks, bound, x);
    } else if n > 0 {
      var pre, rest := NextQuote(m, ks, bound, x);
      MatchesAtLeast(pre, m, rest, bound, x);
      if CountBound(rest, bound) == n - 1 {
        var v :| IdLike(v) && pre == Body(v);
        BodyFirst(v, m, rest, bound, x, c, u);
      }
    }
  }

  /** Counting quotes: a result without loss needs one match fewer in what follows the stray one. */
  lemma StrayQuotes(c: string, t: string, u: string, n: nat, r: string, bound: set<string>, m: Dict,
        ks: seq<string>, x: string)
    requires Keys(m, ks) && Keys(m, Unbound(ks, bound)) && IdLikeAll(m, ks, bound) && Tail(x)
    requires t == AttrText(m, ks) + x && u == AttrText(m, Unbound(ks, bound)) + x && n == CountBound(ks, bound)
    requires c != [] && Hit(c + t, bound) && r == AfterQuote(AfterQuote(c + t))
    ensures CopyText(c + t, bound) == CopyText(r, bound)
    ensures CopyText(r, bound) == c + u ==> Matches(r, bound) + 1 == n
  {
    Step(c, t);
    OpensStart(c + t, bound);
    QuotesFound(c + t);
    QuotesFound(AfterQuote(c + t));
    QuotesConcat(c, t);
    QuotesConcat(c, u);
    UnboundQuotes(m, ks, bound, x);
    CopyQuotes(r, bound);
  }

  /** What is left after a reference's opening was taken does not read like an opening. */
  lemma BodyFirst(v: string, m: Dict, ks: seq<string>, bound: set<string>, x: string, c: string, u: string)
    requires Keys(m, ks) && bound <= REFERENCE_ATTRS && Tail(x) && IdLike(v)
    requires |c| >= 2 && c[0] == ' ' && (c[1] == 'O' || c[1] == 'M')
    ensures CopyText(Body(v) + (AttrText(m, ks) + x), bound) != c + u
  {
    var t := AttrText(m, ks) + x;
    AttrTextStart(m, ks, x);
    BodyQuiet(v);
    QuietSilent(Body(v), t, bound);
    SilentPiece(Body(v), t, bound);
    var b, rest := Body(v), CopyText(t, bound);
    assert (b + rest)[0] == b[0] && (c + u)[0] == ' ' && (c + u)[1] == c[1];
    assert |b| > 1 ==> (b + rest)[1] == b[1];
    assert |b| == 1 ==> b[0] == QUOTE;
  }

  /** Either nothing matches inside c, or there is a first place where something does. */
  lemma {:induction false} FirstHit(c: string, t: string, bound: set<string>) returns (j: nat)
    ensures j <= |c| && Silent(c[..j], c[j..] + t, bound)
    ensures j < |c| ==> Hit(c[j..] + t, bound)
  {
    if c == [] || Hit(c + t, bound) {
      assert c[0..] == c;
      j := 0;
    } else {
      var i := FirstHit(c[1..], t, bound);
      j := i + 1;
      assert c[1..][..i] == c[1..j] && c[1..][i..] == c[j..];
      forall k | 0 <= k < j ensures !Hit(c[..j][k..] + (c[j..] + t), bound) {
        assert c[..j][k..] + (c[j..] + t) == c[k..] + t;
        if k == 0 {
          assert c[0..] == c;
        } else {
          assert c[1..j][k - 1..] + (c[j..] + t) == c[k..] + t;
        }
      }
    }
  }

  /** Printed attributes: the substitution leaves exactly the others when the pattern matches nowhere but at the
      references. */
  lemma {:induction false} ScanAttrs(m: Dict, ks: seq<string>, bound: set<string>, x: string)
    requires Keys(m, ks) && Keys(m, Unbound(ks, bound)) && IdLikeAll(m, ks, bound) && Tail(x)
    ensures Hits(AttrText(m, ks) + x, bound) >= CountBound(ks, bound)
    ensures CopyText(AttrText(m, ks) + x, bound) == AttrText(m, Unbound(ks, bound)) + x
            <==> Hits(AttrText(m, ks) + x, bound) == CountBound(ks, bound)
  {
    if ks == [] {
      Untouched(x, bound);
      assert [] + x == x;
    } else {
      var k, t, rest := ks[0], AttrText(m, ks[1..]) + x, Unbound(ks[1..], bound);
      UnboundKeys(m, ks[1..], bound);
      PieceFirst(m, ks, x);
      ScanAttrs(m, ks[1..], bound, x);
      if k in bound {
        BoundScan(k, m[k], t, bound);
        assert Unbound(ks, bound) == rest;
      } else {
        assert Unbound(ks, bound)[1..] == rest;
        PieceFirst(m, Unbound(ks, bound), x);
        ScanPiece(Piece(k, m[k]), m, ks[1..], bound, x);
      }
    }
  }

  /** One printed attribute that is no reference, in front of the others. */
  lemma ScanPiece(c: string, m: Dict, ks: seq<string>, bound: set<string>, x: string)
    requires Keys(m, ks) && Keys(m, Unbound(ks, bound)) && IdLikeAll(m, ks, bound) && Tail(x)
    requires var t, u, n := AttrText(m, ks) + x, AttrText(m, Unbound(ks, bound)) + x, CountBound(ks, bound);
             Hits(t, bound) >= n && (CopyText(t, bound) == u <==> Hits(t, bound) == n)
    ensures var t, u, n := AttrText(m, ks) + x, AttrText(m, Unbound(ks, bound)) + x, CountBound(ks, bound);
            Hits(c + t, bound) >= n && (CopyText(c + t, bound) == c + u <==> Hits(c + t, bound) == n)
  {
    var t, u := AttrText(m, ks) + x, AttrText(m, Unbound(ks, bound)) + x;
    var j := FirstHit(c, t, bound);
    var a, b := c[..j], c[j..];
    assert c == a + b;
    Cat(a, b, t);
    Cat(a, b, u);
    SilentPiece(a, b + t, bound);
    if j == |c| {
      assert b + t == t && b + u == u;
      Cancel2(a, CopyText(t, bound), u);
    } else {
      StrayMatch(b, m, ks, bound, x);
      Cancel2(a, CopyText(b + t, bound), b + u);
      MoreHits(b, t, bound);
    }
  }

  lemma Cancel2(a: string, x: string, y: string)
    ensures a + x == a + y <==> x == y
  {
    if a + x == a + y { Cancel(a, x, a, y); }
  }

  lemma {:induction false} HitsConcat(c: string, t: string, bound: set<string>)
    ensures Hits(c + t, bound) >= Hits(t, bound)
  {
    if c == [] {
      assert c + t == t;
    } else {
      Step(c, t);
      HitsConcat(c[1..], t, bound);
    }
  }

  lemma MoreHits(c: string, t: string, bound: set<string>)
    requires c != [] && Hit(c + t, bound)
    ensures Hits(c + t, bound) > Hits(t, bound)
  {
    Step(c, t);
    HitsConcat(c[1..], t, bound);
  }

  // ------------------------------------------------------------ whole definitions

  /** The element without its own references of the given names. */
  function WithoutRefs(e: Element, bound: set<string>): Element {
    e.(attrib := e.attrib - bound)
  }

  /** The references of the given names an element carries. */
  function Carried(e: Element, bound: set<string>): nat {
    |bound * e.attrib.Keys|
  }

  /** What a caller can check on one definition: the pattern matches at exactly as many places as it carries
      references. */
  predicate Clean(e: Element, bound: set<string>) {
    Hits(Signature(e, map[], {}), bound) == Carried(e, bound)
  }

  /** The references of an element name Ids. */
  predicate NamesIds(e: Element, bound: set<string>) {
    forall k :: k in bound && k in e.attrib ==> IdLike(e.attrib[k])
  }

  lemma {:induction false} SortedWithout(ks: set<string>, bound: set<string>)
    ensures Unbound(SortedKeys(ks), bound) == SortedKeys(ks - bound)
    ensures CountBound(SortedKeys(ks), bound) == |bound * ks|
  {
    hide SortedKeys, Least, Unbound, CountBound;
    if ks == {} {
      SortedNone(bound);
      assert ks - bound == {} && bound * ks == {};
    } else {
      LeastExists(ks);
      var k :| Least(k, ks);
      var rest := ks - {k};
      SortedFirst(ks, k);
      SortedWithout(rest, bound);
      UnboundCons(k, SortedKeys(rest), bound);
      assert k in ks by { LeastIn(k, ks); }
      SortedRest(ks, k, bound);
    }
  }

  lemma LeastIn(k: string, ks: set<string>)
    requires Least(k, ks)
    ensures k in ks
  {
  }

  lemma UnboundCons(k: string, ks: seq<string>, bound: set<string>)
    ensures Unbound([k] + ks, bound) == (if k in bound then [] else [k]) + Unbound(ks, bound)
    ensures CountBound([k] + ks, bound) == (if k in bound then 1 else 0) + CountBound(ks, bound)
  {
    assert ([k] + ks)[1..] == ks;
  }

  /** Taking the least key out of a set, before or after the references are left out. */
  lemma SortedRest(ks: set<string>, k: string, bound: set<string>)
    requires Least(k, ks) && k in ks
    ensures (if k in bound then [] else [k]) + SortedKeys((ks - {k}) - bound) == SortedKeys(ks - bound)
    ensures |bound * ks| == (if k in bound then 1 else 0) + |bound * (ks - {k})|
  {
    hide Least, SortedKeys;
    if k in bound {
      RestBound(ks, k, bound);
    } else {
      RestOther(ks, k, bound);
      SortedFirst(ks - bound, k);
    }
  }

  lemma RestBound(ks: set<string>, k: string, bound: set<string>)
    requires k in ks && k in bound
    ensures (ks - {k}) - bound == ks - bound && |bound * ks| == 1 + |bound * (ks - {k})|
  {
    assert bound * ks == bound * (ks - {k}) + {k};
  }

  lemma RestOther(ks: set<string>, k: string, bound: set<string>)
    requires Least(k, ks) && k !in bound
    ensures (ks - {k}) - bound == (ks - bound) - {k} && |bound * ks| == |bound * (ks - {k})| && Least(k, ks - bound)
  {
    assert bound * (ks - {k}) == bound * ks;
  }

  lemma SortedNone(bound: set<string>)
    ensures SortedKeys({}) == [] && Unbound([], bound) == [] && CountBound([], bound) == 0
  {
  }

  lemma SortedFirst(ks: set<string>, k: string)
    requires Least(k, ks)
    ensures SortedKeys(ks) == [k] + SortedKeys(ks - {k})
  {
    LeastExists(ks);
  }

  lemma {:induction false} AttrTextAlike(m: Dict, n: Dict, ks: seq<string>)
    requires Keys(m, ks) && Keys(n, ks) && forall k :: k in ks ==> m[k] == n[k]
    ensures AttrText(m, ks) == AttrText(n, ks)
  {
    if ks != [] { AttrTextAlike(m, n, ks[1..]); }
  }

  /** What a printed element holds after its attributes. */
  function Inside(e: Element): string {
    ">" + (Repr(e.text) + (ChildText(e.children, map[], {}) + ("</" + e.tag + ">")))
  }

  lemma Printed(e: Element)
    ensures Signature(e, map[], {}) == ("<" + e.tag) + (Own(Attrs(e, map[])) + Inside(e)) && Tail(Inside(e))
  {
    Cat("<", e.tag, Own(Attrs(e, map[])) + Inside(e));
  }

  /** Scanning a printed element: what stands before and after its attributes adds nothing of its own. */
  lemma PrintedScan(tag: string, m: Dict, bound: set<string>, x: string)
    requires XmlName(tag) && IdLikeAll(m, SortedKeys(m.Keys), bound) && Tail(x)
    ensures var s, u := ("<" + tag) + (Own(m) + x), ("<" + tag) + (Own(m - bound) + x);
            CopyText(s, bound) == u <==> Hits(s, bound) == |bound * m.Keys|
  {
    hide SortedKeys, Hits, CopyText, AttrText, Hit, XmlName;
    var ks := SortedKeys(m.Keys);
    SortedWithout(m.Keys, bound);
    assert m.Keys - bound == (m - bound).Keys;
    AttrTextAlike(m - bound, m, Unbound(ks, bound));
    ScanAttrs(m, ks, bound, x);
    var c, t := "<" + tag, AttrText(m, ks) + x;
    AttrTextStart(m, ks, x);
    TagQuiet(tag);
    QuietSilent(c, t, bound);
    SilentPiece(c, t, bound);
    Cancel2(c, CopyText(t, bound), Own(m - bound) + x);
  }

  lemma TagQuiet(tag: string)
    requires XmlName(tag)
    ensures Quiet("<" + tag)
  {
    var c := "<" + tag;
    assert forall j :: 1 <= j < |c| ==> c[j] == tag[j - 1] && !Delimiter(tag[j - 1]);
  }

  lemma IdLikeAttrs(e: Element, bound: set<string>)
    requires bound <= REFERENCE_ATTRS && NamesIds(e, bound)
    ensures var m := Attrs(e, map[]);
            && IdLikeAll(m, SortedKeys(m.Keys), bound) && bound * m.Keys == bound * e.attrib.Keys
            && Attrs(WithoutRefs(e, bound), map[]) == m - bound
  {
  }

  /** The copy form is the definition without its references exactly when it is clean. */
  lemma {:induction false} CopyFormExact(e: Element, bound: set<string>)
    requires Named(e) && bound <= REFERENCE_ATTRS && NamesIds(e, bound)
    ensures CopyText(Signature(e, map[], {}), bound) == Signature(WithoutRefs(e, bound), map[], {}) <==> Clean(e, bound)
  {
    var f := WithoutRefs(e, bound);
    Printed(e);
    Printed(f);
    IdLikeAttrs(e, bound);
    assert Inside(f) == Inside(e);
    hide Signature, Hits, CopyText, Own, Attrs, Inside, WithoutRefs;
    PrintedScan(e.tag, Attrs(e, map[]), bound, Inside(e));
  }

  /** Clean definitions have the same copy form exactly when they are equal apart from their references. */
  lemma CopiesAgree(a: Element, b: Element, bound: set<string>)
    requires Named(a) && Named(b) && bound <= REFERENCE_ATTRS && NamesIds(a, bound) && NamesIds(b, bound)
    requires Clean(a, bound) && Clean(b, bound)
    ensures CopyText(Signature(a, map[], {}), bound) == CopyText(Signature(b, map[], {}), bound)
            <==> Same(WithoutRefs(a, bound), WithoutRefs(b, bound))
  {
    CopyFormExact(a, bound);
    CopyFormExact(b, bound);
    SignatureFaithful(WithoutRefs(a, bound), WithoutRefs(b, bound), map[], {});
  }

  /** _copy_form() on a printed definition. */
  function CopyForm(sig: string, bound: set<string>): string {
    if bound == {} then sig else CopyText(sig, bound)
  }

  /** When two definitions pass for copies and one of them is clean, they are copies exactly when both are. */
  lemma {:induction false} CopyIsExact(a: Element, b: Element, bound: set<string>)
    requires Named(a) && Named(b) && bound <= REFERENCE_ATTRS && NamesIds(a, bound) && NamesIds(b, bound)
    requires CopyForm(Signature(a, map[], {}), bound) == CopyForm(Signature(b, map[], {}), bound)
    ensures Clean(a, bound) || Clean(b, bound) ==>
              (Same(WithoutRefs(a, bound), WithoutRefs(b, bound)) <==> Clean(a, bound) && Clean(b, bound))
  {
    CopyFormExact(a, bound);
    CopyFormExact(b, bound);
    SignatureFaithful(WithoutRefs(a, bound), WithoutRefs(b, bound), map[], {});
    if bound == {} {
      NothingBound(Signature(a, map[], {}));
      NothingBound(Signature(b, map[], {}));
    }
  }

  lemma {:induction false} NothingBound(s: string)
    ensures CopyText(s, {}) == s
  {
    if s != [] {
      NothingBound(s[1..]);
      assert s == [s[0]] + s[1..];
    }
  }

  // ------------------------------------------------------------ where the check is fooled

  lemma {:induction false} QuietUntouched(x: string, bound: set<string>)
    requires bound <= REFERENCE_ATTRS && Quiet(x)
    ensures CopyText(x, bound) == x
  {
    if x != [] {
      OpensStart(x, bound);
      QuietUntouched(x[1..], bound);
      assert x == [x[0]] + x[1..];
    }
  }

  const ONLY_OUTLINE: set<string> := {OUTLINE_SHAPE}

  /** An element whose only attribute is an outline reference. */
  function Outlined(tag: string, v: string, children: seq<Element>): Element {
    Element(tag, map[OUTLINE_SHAPE := v], "", "", children)
  }

  /** A section definition with a reference of its own and one in a child. */
  function Nested(v: string, d: string): Element {
    Outlined("SECDEF", v, [Outlined("X", d, [])])
  }

  lemma OutlinedPrinted(tag: string, v: string, children: seq<Element>)
    ensures var e := Outlined(tag, v, children);
            Signature(e, map[], {}) == ("<" + tag) + (Piece(OUTLINE_SHAPE, v) + Inside(e))
  {
    var e := Outlined(tag, v, children);
    Printed(e);
    hide Signature, SortedKeys, Repr, AttrText;
    assert Attrs(e, map[]) == e.attrib;
    OwnOne(OUTLINE_SHAPE, v);
  }

  lemma OwnOne(k: string, v: string)
    ensures Own(map[k := v]) == Piece(k, v)
  {
    var ks, m: Dict := {k}, map[k := v];
    LeTotal(k, k);
    SortedFirst(ks, k);
    assert ks - {k} == {};
    SortedNone({});
    hide SortedKeys, Repr, Le;
    assert m.Keys == ks && SortedKeys(ks) == [k];
    assert AttrText(m, [k]) == " " + (k + ("=" + (Repr(v) + AttrText(m, [k][1..]))));
    assert AttrText(m, [k][1..]) == "" && Repr(v) + "" == Repr(v);
  }

  const MIDDLE := ">''<X"
  const END := ">''</X>~''</SECDEF>"

  lemma NestedPrinted(v: string, d: string)
    ensures Signature(Nested(v, d), map[], {})
         == "<SECDEF" + (Piece(OUTLINE_SHAPE, v) + (MIDDLE + (Piece(OUTLINE_SHAPE, d) + END)))
  {
    var child := Outlined("X", d, []);
    OutlinedPrinted("SECDEF", v, [child]);
    OutlinedPrinted("X", d, []);
    hide Signature, Piece;
    var p := Piece(OUTLINE_SHAPE, d);
    assert Repr("") == "''";
    assert ChildText([], map[], {}) == "";
    assert Inside(child) == ">" + ("''" + ("" + ("</" + "X" + ">")));
    assert Signature(child, map[], {}) == "<X" + (p + ">''</X>");
    assert ChildText([child], map[], {}) == ("<X" + (p + ">''</X>")) + ("~" + ("''" + ""));
    assert Inside(Nested(v, d)) == ">"
        + ("''" + ((("<X" + (p + ">''</X>")) + ("~" + ("''" + ""))) + ("</" + "SECDEF" + ">")));
    assert Inside(Nested(v, d)) == MIDDLE + (p + END);
  }

  /** The pattern takes the child's reference as well, whatever Id it names. */
  lemma NestedForm(v: string, d: string)
    requires IdLike(v) && IdLike(d)
    ensures CopyText(Signature(Nested(v, d), map[], {}), ONLY_OUTLINE) == "<SECDEF" + (MIDDLE + END)
  {
    hide Piece, CopyText, Signature, Hits, Matches;
    NestedPrinted(v, d);
    var last, inner := Piece(OUTLINE_SHAPE, d) + END, MIDDLE + (Piece(OUTLINE_SHAPE, d) + END);
    PieceStarts(OUTLINE_SHAPE, d, END);
    PieceStarts(OUTLINE_SHAPE, v, inner);
    QuietSilent("<SECDEF", Piece(OUTLINE_SHAPE, v) + inner, ONLY_OUTLINE);
    SilentPiece("<SECDEF", Piece(OUTLINE_SHAPE, v) + inner, ONLY_OUTLINE);
    BoundScan(OUTLINE_SHAPE, v, inner, ONLY_OUTLINE);
    QuietSilent(MIDDLE, last, ONLY_OUTLINE);
    SilentPiece(MIDDLE, last, ONLY_OUTLINE);
    BoundScan(OUTLINE_SHAPE, d, END, ONLY_OUTLINE);
    QuietUntouched(END, ONLY_OUTLINE);
  }

  lemma PieceStarts(k: string, v: string, t: string)
    ensures Starts(Piece(k, v) + t)
  {
  }

  /** Two definitions that differ beyond their own references pass for copies of each other. */
  lemma CopyCheckFooled()
    ensures var a, b := Nested("3", "1"), Nested("9", "2");
            && CopyText(Signature(a, map[], {}), ONLY_OUTLINE) == CopyText(Signature(b, map[], {}), ONLY_OUTLINE)
            && !Same(WithoutRefs(a, ONLY_OUTLINE), WithoutRefs(b, ONLY_OUTLINE))
  {
    NestedForm("3", "1");
    NestedForm("9", "2");
    hide CopyText, Signature;
    var a, b := WithoutRefs(Nested("3", "1"), ONLY_OUTLINE), WithoutRefs(Nested("9", "2"), ONLY_OUTLINE);
    if Same(a, b) {
      SameParts(a, b);
      AttrAgreesAt(a.children[0], b.children[0]);
    }
  }

  lemma AttrAgreesAt(a: Element, b: Element)
    requires Same(a, b)
    ensures a.Get(OUTLINE_SHAPE) == b.Get(OUTLINE_SHAPE)
  {
    SameParts(a, b);
    AttrAgrees(a, b, OUTLINE_SHAPE);
  }

  // ------------------------------------------------------------ where the check refuses a copy

  const NOTE := "Note"
  const STRAY := "x OutlineShape='"

  /** A section definition whose note ends in the start of the pattern. */
  function Noted(digit: char): Element {
    Element("SECDEF", map[NOTE := STRAY, OUTLINE_SHAPE := [digit]], "", "", [])
  }

  lemma AttrTextTwo(m: Dict, k: string, l: string)
    requires k in m && l in m
    ensures AttrText(m, [k, l]) == Piece(k, m[k]) + Piece(l, m[l])
  {
    hide Repr;
    var ks := [k, l];
    assert ks[1..] == [l] && [l][1..] == [];
    assert AttrText(m, [l]) == " " + (l + ("=" + (Repr(m[l]) + AttrText(m, [l][1..]))));
    assert Repr(m[l]) + "" == Repr(m[l]);
    assert AttrText(m, ks) == " " + (k + ("=" + (Repr(m[k]) + AttrText(m, ks[1..]))));
  }

  lemma NotedKeys()
    ensures SortedKeys({NOTE, OUTLINE_SHAPE}) == [NOTE, OUTLINE_SHAPE]
  {
    LeTotal(NOTE, NOTE);
    LeTotal(OUTLINE_SHAPE, OUTLINE_SHAPE);
    assert Le(NOTE, OUTLINE_SHAPE) by { assert NOTE[0] < OUTLINE_SHAPE[0]; }
    hide Le, SortedKeys;
    var ks: set<string> := {NOTE, OUTLINE_SHAPE};
    assert NOTE != OUTLINE_SHAPE by { assert NOTE[0] != OUTLINE_SHAPE[0]; }
    SortedFirst(ks, NOTE);
    assert ks - {NOTE} == {OUTLINE_SHAPE};
    SortedFirst({OUTLINE_SHAPE}, OUTLINE_SHAPE);
    SortedNone({});
    assert {OUTLINE_SHAPE} - {OUTLINE_SHAPE} == {};
  }

  lemma OwnTwo(v: string)
    ensures Own(map[NOTE := STRAY, OUTLINE_SHAPE := v]) == Piece(NOTE, STRAY) + Piece(OUTLINE_SHAPE, v)
  {
    var m: Dict := map[NOTE := STRAY, OUTLINE_SHAPE := v];
    assert m.Keys == {NOTE, OUTLINE_SHAPE};
    assert m[NOTE] == STRAY by { assert NOTE[0] != OUTLINE_SHAPE[0]; }
    NotedKeys();
    hide SortedKeys, AttrText, Piece;
    AttrTextTwo(m, NOTE, OUTLINE_SHAPE);
  }

  lemma {:induction false} EscapeClean(s: string, quote: char)
    requires forall i :: 0 <= i < |s| ==> ' ' <= s[i] <= '~' && s[i] != '\\' && s[i] != quote
    ensures Escape(s, quote) == s
  {
    if s != [] {
      EscapeClean(s[1..], quote);
      assert s == [s[0]] + s[1..];
    }
  }

  lemma OpenerIs()
    ensures Opener(OUTLINE_SHAPE) == " OutlineShape='" && STRAY == "x" + Opener(OUTLINE_SHAPE)
  {
  }

  lemma ReprDouble(s: string)
    requires QUOTE in s && forall i :: 0 <= i < |s| ==> ' ' <= s[i] <= '~' && s[i] != '\\' && s[i] != '"'
    ensures Repr(s) == "\"" + (s + "\"")
  {
    EscapeClean(s, '"');
    hide Escape;
  }

  lemma StrayPrinted()
    ensures Repr(STRAY) == "\"" + (STRAY + "\"")
  {
    hide Repr, Escape;
    assert STRAY[15] == QUOTE;
    ReprDouble(STRAY);
  }

  lemma NotePrinted()
    ensures Piece(NOTE, STRAY) == " Note=\"x" + (Opener(OUTLINE_SHAPE) + "\"")
  {
    StrayPrinted();
    OpenerIs();
    hide Repr, Opener;
    var o := Opener(OUTLINE_SHAPE);
    Cat("x", o, "\"");
    assert Repr(STRAY) == "\"" + ("x" + (o + "\""));
    Regrouped(o + "\"");
  }

  lemma Regrouped(t: string)
    ensures " " + (NOTE + ("=" + ("\"" + ("x" + t)))) == " Note=\"x" + t
  {
  }

  const CLOSING := ">''</SECDEF>"

  lemma NotedPrinted(digit: char)
    ensures Signature(Noted(digit), map[], {})
            == ("<SECDEF" + " Note=\"x") + (Opener(OUTLINE_SHAPE) + ("\"" + (Piece(OUTLINE_SHAPE, [digit]) + CLOSING)))
  {
    var e := Noted(digit);
    Printed(e);
    NotePrinted();
    OwnTwo([digit]);
    hide Signature, Piece, Own, Repr;
    assert Attrs(e, map[]) == e.attrib;
    assert Inside(e) == CLOSING by { InsideNothing(e); }
  }

  lemma InsideNothing(e: Element)
    requires e.text == "" && e.children == [] && e.tag == "SECDEF"
    ensures Inside(e) == CLOSING
  {
    assert Repr("") == "''";
    assert ChildText([], map[], {}) == "";
  }

  /** The start in the note makes the pattern run over the reference's own start, so that its Id stays. */
  lemma NotedForm(digit: char)
    requires IsDigit(digit)
    ensures CopyText(Signature(Noted(digit), map[], {}), ONLY_OUTLINE)
            == ("<SECDEF" + " Note=\"x") + ([digit, QUOTE] + CLOSING)
  {
    hide CopyText, Signature, Piece, Hits, Matches, Quiet, Body, Opener, Opens, Hit;
    var v, first := [digit], "<SECDEF" + " Note=\"x";
    var rest := [digit, QUOTE] + CLOSING;
    NotedPrinted(digit);
    DigitBody(digit);
    NotedQuiet(digit);
    var s := Opener(OUTLINE_SHAPE) + ("\"" + (Piece(OUTLINE_SHAPE, v) + CLOSING));
    OpenerIs();
    assert s[0] == ' ';
    NoteMatch(v);
    QuietSilent(first, s, ONLY_OUTLINE);
    SilentPiece(first, s, ONLY_OUTLINE);
    QuietUntouched(rest, ONLY_OUTLINE);
  }

  lemma NotedQuiet(digit: char)
    requires IsDigit(digit)
    ensures Quiet("<SECDEF" + " Note=\"x") && Quiet([digit, QUOTE] + CLOSING)
  {
  }

  lemma DigitBody(digit: char)
    requires IsDigit(digit)
    ensures Body([digit]) == [digit, QUOTE]
  {
    EscapeClean([digit], QUOTE);
  }

  predicate LastQuote(a: string) {
    a != [] && a[|a| - 1] == QUOTE && forall i :: 0 <= i < |a| - 1 ==> a[i] != QUOTE
  }

  lemma OpenerQuote()
    ensures LastQuote(Opener(OUTLINE_SHAPE)) && LastQuote("\"" + Opener(OUTLINE_SHAPE))
  {
    OpenerIs();
  }

  lemma NoteMatch(v: string)
    requires IdLike(v)
    ensures var s := Opener(OUTLINE_SHAPE) + ("\"" + (Piece(OUTLINE_SHAPE, v) + CLOSING));
            CopyText(s, ONLY_OUTLINE) == CopyText(Body(v) + CLOSING, ONLY_OUTLINE)
  {
    hide CopyText, Piece, Body, Opener, LastQuote, Opens;
    BoundPiece(OUTLINE_SHAPE, v);
    OpenerQuote();
    var o, b := Opener(OUTLINE_SHAPE), Body(v);
    var after := "\"" + (Piece(OUTLINE_SHAPE, v) + CLOSING);
    Cat(o, b, CLOSING);
    Cat("\"", o, b + CLOSING);
    OneQuote(o, after);
    OneQuote("\"" + o, b + CLOSING);
    OpensHere(o + after);
    CopyHit(o + after, ONLY_OUTLINE);
  }

  lemma OpensHere(s: string)
    requires Opener(OUTLINE_SHAPE) <= s
    ensures Opens(s, ONLY_OUTLINE)
  {
    assert OUTLINE_SHAPE in ONLY_OUTLINE;
  }

  lemma CopyHit(s: string, bound: set<string>)
    requires s != [] && Hit(s, bound)
    ensures CopyText(s, bound) == CopyText(AfterQuote(AfterQuote(s)), bound)
  {
  }

  /** A text that ends in its only quote. */
  lemma {:induction false} OneQuote(a: string, t: string)
    requires LastQuote(a)
    ensures AfterQuote(a + t) == t && QUOTE in a + t
  {
    assert (a + t)[|a| - 1] == QUOTE;
    if |a| > 1 {
      assert (a + t)[1..] == a[1..] + t;
      OneQuote(a[1..], t);
    }
  }

  /** Two definitions that differ in nothing but their reference are refused as copies. */
  lemma CopyCheckRefuses()
    ensures var a, b := Noted('1'), Noted('2');
            && CopyText(Signature(a, map[], {}), ONLY_OUTLINE) != CopyText(Signature(b, map[], {}), ONLY_OUTLINE)
            && WithoutRefs(a, ONLY_OUTLINE) == WithoutRefs(b, ONLY_OUTLINE)
  {
    hide CopyText, Signature;
    NotedForm('1');
    NotedForm('2');
    FormsDiffer();
    assert Noted('1').attrib - ONLY_OUTLINE == Noted('2').attrib - ONLY_OUTLINE;
  }

  lemma FormsDiffer()
    ensures ("<SECDEF" + " Note=\"x") + (['1', QUOTE] + CLOSING) != ("<SECDEF" + " Note=\"x") + (['2', QUOTE] + CLOSING)
  {
    var first := "<SECDEF" + " Note=\"x";
    var p, q := first + (['1', QUOTE] + CLOSING), first + (['2', QUOTE] + CLOSING);
    assert p[|first|] == '1' && q[|first|] == '2';
  }
}
