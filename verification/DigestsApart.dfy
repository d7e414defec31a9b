/** Two packages the saved proof accepts whose history digests differ (app/hwpx_saved_proof.py). */
module DigestsApart {
  import opened Text
  import opened UtcSeconds
  import opened SavedPackage
  import opened HistoryDigest

  // ------------------------------------------------------------ a selector that reads what two later specs assign

  const SETTINGS := "settings.xml"
  const ENTRY := "{urn:settings}entry"

  function ReadA(one: string): Spec {
    Spec(SETTINGS, ENTRY, map["a" := one], AttrField("b"))
  }

  function WriteA(at: string): Spec {
    Spec(SETTINGS, ENTRY, map["c" := at], AttrField("a"))
  }

  function ReadAndWrite(one: string): seq<Spec> {
    [ReadA(one)] + ([WriteA("x")] + ([WriteA("y")] + []))
  }

  function Leaf(a: string, b: string, c: string): Node {
    Node(Name(ENTRY), map["a" := a, "b" := b, "c" := c], None, None, [])
  }

  function Pair(x: Node, y: Node): Node {
    Node(Name("{urn:settings}settings"), map[], None, None, [x, y])
  }

  lemma LeafSet(a: string, b: string, c: string, value: string)
    ensures SetOwn(Leaf(a, b, c), AttrField("a"), Some(value)) == Leaf(value, b, c)
    ensures SetOwn(Leaf(a, b, c), AttrField("b"), Some(value)) == Leaf(a, value, c)
  {
    var m := Leaf(a, b, c).attrib;
    assert m["a" := value] == Leaf(value, b, c).attrib && m["b" := value] == Leaf(a, value, c).attrib;
  }

  lemma Childless(n: Node, s: Spec, value: Option<string>)
    requires n.children == []
    ensures Selected(n, s) == if Matches(n, s) then [n] else []
    ensures SetField(n, s, value) == if Matches(n, s) then SetOwn(n, s.field, value) else n
  {
    assert SelectedAll([], s) == [] && SetFieldAll([], s, value) == [];
  }

  /** One spec on a pair of childless nodes of which it selects one. */
  lemma PairStep(x: Node, y: Node, s: Spec, value: string)
    requires x.children == y.children == [] && s.element == ENTRY && (Matches(x, s) <==> !Matches(y, s))
    ensures Selected(Pair(x, y), s) == if Matches(x, s) then [x] else [y]
    ensures SetField(Pair(x, y), s, Some(value))
            == if Matches(x, s) then Pair(SetOwn(x, s.field, Some(value)), y)
                else Pair(x, SetOwn(y, s.field, Some(value)))
  {
    Childless(x, s, Some(value));
    Childless(y, s, Some(value));
    assert !Matches(Pair(x, y), s);
    hide Matches, SetOwn;
    var ns := [x, y];
    assert ns[1..] == [y] && [y][1..] == [];
    assert SelectedAll([y], s) == Selected(y, s) && SetFieldAll([y], s, Some(value)) == [SetField(y, s, Some(value))];
    assert SelectedAll(ns, s) == Selected(x, s) + Selected(y, s);
    assert SetFieldAll(ns, s, Some(value)) == [SetField(x, s, Some(value)), SetField(y, s, Some(value))];
  }

  lemma StepRead(a: string, b: string, c: string, a2: string, b2: string, c2: string, one: string, value: string)
    requires a == one <==> a2 != one
    ensures var n := Pair(Leaf(a, b, c), Leaf(a2, b2, c2));
            && Exact(n, ReadA(one)) && Taken(n, ReadA(one)) == Some(if a == one then b else b2)
            && SetField(n, ReadA(one), Some(value))
               == Pair(Leaf(a, if a == one then value else b, c), Leaf(a2, if a2 == one then value else b2, c2))
  {
    var x, y, s := Leaf(a, b, c), Leaf(a2, b2, c2), ReadA(one);
    LeafSet(a, b, c, value);
    LeafSet(a2, b2, c2, value);
    assert "a" in s.where;
    assert (Matches(x, s) <==> a == one) && (Matches(y, s) <==> a2 == one);
    hide Matches, Selected, SetField, SetOwn, Pair;
    PairStep(x, y, s, value);
  }

  lemma StepWrite(a: string, b: string, c: string, a2: string, b2: string, c2: string, at: string, value: string)
    requires c == at <==> c2 != at
    ensures var n := Pair(Leaf(a, b, c), Leaf(a2, b2, c2));
            && Exact(n, WriteA(at)) && Taken(n, WriteA(at)) == Some(if c == at then a else a2)
            && SetField(n, WriteA(at), Some(value))
               == Pair(Leaf(if c == at then value else a, b, c), Leaf(if c2 == at then value else a2, b2, c2))
  {
    var x, y, s := Leaf(a, b, c), Leaf(a2, b2, c2), WriteA(at);
    LeafSet(a, b, c, value);
    LeafSet(a2, b2, c2, value);
    assert "c" in s.where;
    assert (Matches(x, s) <==> c == at) && (Matches(y, s) <==> c2 == at);
    hide Matches, Selected, SetField, SetOwn, Pair;
    PairStep(x, y, s, value);
  }

  lemma ApplyFirst(n: Node, actual: Node, s: Spec, rest: seq<Spec>)
    requires Exact(n, s) && Exact(actual, s)
    ensures Apply(n, actual, [s] + rest) == Apply(SetField(n, s, Taken(actual, s)), actual, rest)
  {
    assert ([s] + rest)[1..] == rest;
  }

  lemma ReadFirst(one: string)
    ensures BlankedApart(ReadAndWrite(one)) && !OneWriter(ReadAndWrite(one))
  {
    var specs := ReadAndWrite(one);
    forall i, j | 0 <= i < j < 3 ensures !Reads(specs[i], specs[j]) {
      assert specs[j] == WriteA("x") || specs[j] == WriteA("y");
    }
    assert specs[0] == ReadA(one) && specs[1] == WriteA("x") && specs[2] == WriteA("y");
    assert "a" in ReadA(one).where && "c" in WriteA("x").where && "c" in WriteA("y").where;
    assert Disturbs(WriteA("x"), ReadA(one)) && Disturbs(WriteA("y"), ReadA(one));
    assert WriteA("x").where["c"] == "x" && WriteA("y").where["c"] == "y";
  }

  lemma AppliedPair(one: string, a: string, b: string, a2: string, b2: string, p: string, v: string, q: string)
    requires (a == one <==> a2 != one) && (p == one <==> q != one)
    ensures Apply(Pair(Leaf(a, b, "x"), Leaf(a2, b2, "y")), Pair(Leaf(p, v, "x"), Leaf(q, v, "y")), ReadAndWrite(one))
            == Some(Pair(Leaf(p, if a == one then v else b, "x"), Leaf(q, if a2 == one then v else b2, "y")))
  {
    hide Exact, SetField, Pair, Leaf, Matches, Taken;
    var after := Pair(Leaf(p, v, "x"), Leaf(q, v, "y"));
    var d, e := if a == one then v else b, if a2 == one then v else b2;
    StepRead(p, v, "x", q, v, "y", one, "");
    StepWrite(p, v, "x", q, v, "y", "x", "");
    StepWrite(p, v, "x", q, v, "y", "y", "");
    StepRead(a, b, "x", a2, b2, "y", one, v);
    StepWrite(a, d, "x", a2, e, "y", "x", p);
    StepWrite(p, d, "x", a2, e, "y", "y", q);
    ApplyFirst(Pair(Leaf(a, b, "x"), Leaf(a2, b2, "y")), after, ReadA(one), [WriteA("x")] + ([WriteA("y")] + []));
    ApplyFirst(Pair(Leaf(a, d, "x"), Leaf(a2, e, "y")), after, WriteA("x"), [WriteA("y")] + []);
    ApplyFirst(Pair(Leaf(p, d, "x"), Leaf(a2, e, "y")), after, WriteA("y"), []);
  }

  // ------------------------------------------------------------ the two packages

  /** Three timestamps in rising order. */
  datatype Times = Times(first: string, second: string, third: string)

  predicate Rising(t: Times) {
    && UtcSecond(t.first).Some? && UtcSecond(t.second).Some? && UtcSecond(t.third).Some?
    && UtcSecond(t.first).value < UtcSecond(t.second).value < UtcSecond(t.third).value
  }

  function Before(t: Times): Node {
    Pair(Leaf(t.second, t.first, "x"), Leaf(t.first, t.second, "y"))
  }

  function After(t: Times): Node {
    Pair(Leaf(t.third, t.second, "x"), Leaf(t.second, t.second, "y"))
  }

  function Parsed(t: Times, data: string): Option<Document> {
    if data == "before" then Some(Document("", ("", ""), [], Before(t)))
    else if data == "after" then Some(Document("", ("", ""), [], After(t)))
    else None
  }

  function Profile(t: Times): Rules {
    Rules({}, ReadAndWrite(t.second), None, map[], data => Parsed(t, data), _ => None, (_, _) => false)
  }

  function Window(t: Times): (int, int)
    requires Rising(t)
  {
    (UtcSecond(t.first).value * 1000000, UtcSecond(t.third).value * 1000000)
  }

  function Saved(t: Times, data: string): Package
    requires Rising(t)
  {
    Package([SETTINGS], "", map[SETTINGS := data], map[SETTINGS := map[]], Some(Window(t)))
  }

  lemma TypedFrom(s: Spec, before: Node, after: Node, window: (int, int), prior: string, now: string)
    requires Exact(before, s) && Taken(before, s) == Some(prior) && Exact(after, s) && Taken(after, s) == Some(now)
    requires UtcSecond(prior).Some? && UtcSecond(now).Some? && UtcSecond(prior).value <= UtcSecond(now).value
    requires window.0 <= UtcSecond(prior).value * 1000000 && UtcSecond(now).value * 1000000 <= window.1
    ensures Typed(s, before, after, Some(window), Some(window))
  {
    hide UtcSecond, Selected;
  }

  lemma RisingTyped(t: Times, s: Spec)
    requires Rising(t) && s in ReadAndWrite(t.second)
    ensures Typed(s, Before(t), After(t), Some(Window(t)), Some(Window(t)))
  {
    var i, j, k := t.first, t.second, t.third;
    assert s == ReadA(j) || s == WriteA("x") || s == WriteA("y");
    hide Exact, Taken, UtcSecond, SetField, Leaf, Pair, Typed, ReadAndWrite, ReadA, WriteA;
    if s == ReadA(j) {
      StepRead(j, i, "x", i, j, "y", j, "");
      StepRead(k, j, "x", j, j, "y", j, "");
      TypedFrom(s, Before(t), After(t), Window(t), i, j);
    } else if s == WriteA("x") {
      StepWrite(j, i, "x", i, j, "y", "x", "");
      StepWrite(k, j, "x", j, j, "y", "x", "");
      TypedFrom(s, Before(t), After(t), Window(t), j, k);
    } else {
      StepWrite(j, i, "x", i, j, "y", "y", "");
      StepWrite(k, j, "x", j, j, "y", "y", "");
      TypedFrom(s, Before(t), After(t), Window(t), i, j);
    }
  }

  lemma AllOfMember(specs: seq<Spec>)
    requires forall s :: s in specs ==> s.member == SETTINGS
    ensures SpecsOf(specs, SETTINGS) == specs
  {
  }

  lemma ProfileSpecs(t: Times)
    ensures SpecsOf(Profile(t).specs, SETTINGS) == ReadAndWrite(t.second)
  {
    AllOfMember(ReadAndWrite(t.second));
  }

  lemma InfosetAccepts(rules: Rules, b: Document, a: Document, prior: string, now: string, specs: seq<Spec>,
      wrote: Window, writes: Window)
    requires rules.parse(prior) == Some(b) && rules.parse(now) == Some(a)
    requires a.prolog == b.prolog && a.outer == b.outer && a.namespaces == b.namespaces
    requires (forall s :: s in specs ==> Typed(s, b.root, a.root, wrote, writes)) && Plain(a.root)
    requires Apply(b.root, a.root, specs) == Some(a.root)
    ensures InfosetVerdict(prior, now, None, specs, rules, wrote, writes) == InfosetEqual
  {
    DifferenceIsCanonical(a.root, a.root);
  }

  lemma MemberAccepted(t: Times)
    requires Rising(t)
    ensures MemberVerdict(Saved(t, "before"), Saved(t, "after"), UNCHANGED, Profile(t), SETTINGS) == InfosetEqual
  {
    ProfileSpecs(t);
    forall s | s in ReadAndWrite(t.second)
      ensures Typed(s, Before(t), After(t), Some(Window(t)), Some(Window(t)))
    {
      RisingTyped(t, s);
    }
    AppliedPair(t.second, t.second, t.first, t.first, t.second, t.third, t.second, t.second);
    PairPlain(Leaf(t.third, t.second, "x"), Leaf(t.second, t.second, "y"));
    hide Typed, Apply, ReadAndWrite, UtcSecond, Pair, Leaf, Plain, SpecsOf, InfosetVerdict;
    InfosetAccepts(Profile(t), Parsed(t, "before").value, Parsed(t, "after").value, "before", "after",
                   ReadAndWrite(t.second), Some(Window(t)), Some(Window(t)));
    assert ReadAndWrite(t.second) != [] by { SomeSpecs(t.second); }
  }

  lemma SomeSpecs(one: string)
    ensures ReadAndWrite(one) != []
  {
  }

  lemma PairPlain(x: Node, y: Node)
    requires Plain(x) && Plain(y)
    ensures Plain(Pair(x, y))
  {
  }

  lemma ReaderMoves(t: Times)
    requires Rising(t)
    ensures !SamePlaces(Before(t), After(t), ReadAndWrite(t.second))
  {
    var specs := ReadAndWrite(t.second);
    var b, a := Before(t).children[0], After(t).children[0];
    assert "b" in b.attrib && specs[0] == ReadA(t.second);
    assert ErasesKey(b, specs, "b") by { assert specs[0] in specs && Matches(b, specs[0]); }
    assert !ErasesKey(a, specs, "b") by {
      assert forall s :: s in specs ==> s == ReadA(t.second) || s == WriteA("x") || s == WriteA("y");
      assert "a" in ReadA(t.second).where && t.third != t.second;
    }
    assert !OwnSamePlaces(b, a, specs);
    assert !SamePlaces(b, a, specs);
  }

  lemma PlainBoth(t: Times)
    ensures PlainDocument("before", Profile(t)) && PlainDocument("after", Profile(t))
  {
    PairPlain(Leaf(t.second, t.first, "x"), Leaf(t.first, t.second, "y"));
    PairPlain(Leaf(t.third, t.second, "x"), Leaf(t.second, t.second, "y"));
    hide Plain, Pair, Leaf;
  }

  lemma MemberDiffers(t: Times)
    requires Rising(t)
    ensures DigestBody("before", Profile(t), SETTINGS) != DigestBody("after", Profile(t), SETTINGS)
  {
    MemberAccepted(t);
    ReadFirst(t.second);
    ProfileSpecs(t);
    ReaderMoves(t);
    PlainBoth(t);
    SomeSpecs(t.second);
    hide MemberVerdict, ReadAndWrite, UtcSecond, Pair, Leaf, Plain, BlankedApart, SamePlaces, SpecsOf, DigestBody,
      PlainDocument, OneWriter;
    MemberDigests(Saved(t, "before"), Saved(t, "after"), Profile(t), SETTINGS);
  }

  lemma OneMember(before: Package, after: Package, rules: Rules)
    requires before.order == after.order == [SETTINGS] && before.comment == after.comment
    requires Complete(before) && Complete(after) && Held(before, after, SETTINGS)
    requires MemberVerdict(before, after, UNCHANGED, rules, SETTINGS) != Refused
    ensures Accepted(before, after, UNCHANGED, rules)
  {
    OtherAll(after.order);
    hide MemberVerdict, Other;
  }

  lemma RowsDiffer(before: Package, after: Package, rules: Rules, i: nat)
    requires Complete(before) && Complete(after) && i < |before.order| && after.order == before.order
    requires var n := before.order[i];
             DigestBody(before.members[n], rules, n) != DigestBody(after.members[n], rules, n)
    ensures StateDigest(before, rules) != StateDigest(after, rules)
  {
    hide DigestBody;
    assert StateDigest(before, rules).2[i] != StateDigest(after, rules).2[i];
  }

  /** Three timestamps rise, the saved proof accepts, and the history digests differ: the selector that reads one of
      the timestamps finds it at another element afterwards. */
  lemma AcceptedDigestsDiffer(t: Times)
    requires Rising(t)
    ensures Complete(Saved(t, "before")) && Complete(Saved(t, "after"))
    ensures Accepted(Saved(t, "before"), Saved(t, "after"), UNCHANGED, Profile(t))
    ensures BlankedApart(Profile(t).specs) && CaretHoldsNone(Profile(t))
    ensures StateDigest(Saved(t, "before"), Profile(t)) != StateDigest(Saved(t, "after"), Profile(t))
  {
    var before, after := Saved(t, "before"), Saved(t, "after");
    MemberAccepted(t);
    ReadFirst(t.second);
    MemberDiffers(t);
    hide MemberVerdict, ReadAndWrite, UtcSecond, BlankedApart, DigestBody, StateDigest, Accepted;
    OneMember(before, after, Profile(t));
    RowsDiffer(before, after, Profile(t), 0);
  }

  /** A second of the first minute of 2026. */
  function At(digit: char): string {
    ['2', '0', '2', '6', '-', '0', '1', '-', '0', '1', 'T', '0', '0', ':', '0', '0', ':', '0', digit, 'Z']
  }

  lemma Moment(digit: char)
    requires IsDigit(digit)
    ensures UtcSecond(At(digit)) == Some(Day(2026, 1, 1) * 86400 + DigitOf(digit))
  {
    hide Day, Leap;
    var s := At(digit);
    assert Number(s, 0) == 20 && Number(s, 2) == 26 && Number(s, 5) == 1 && Number(s, 8) == 1;
    assert Number(s, 11) == 0 && Number(s, 14) == 0 && Number(s, 17) == DigitOf(digit);
  }

  lemma RisingTimes()
    ensures Rising(Times(At('0'), At('1'), At('2')))
  {
    Moment('0');
    Moment('1');
    Moment('2');
    hide UtcSecond, At;
  }
}
