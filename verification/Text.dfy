/** Python text primitives the verifiers rely on: strip, decimal printing and reading. */
module Text {

  datatype Option<+T> = None | Some(value: T)

  /** Characters str.strip() removes. */
  predicate IsSpace(c: char) {
    var n := c as int;
    0x09 <= n <= 0x0d || 0x1c <= n <= 0x20 || n == 0x85 || n == 0xa0 || n == 0x1680
    || 0x2000 <= n <= 0x200a || n == 0x2028 || n == 0x2029 || n == 0x202f || n == 0x205f || n == 0x3000
  }

  function TrimLeft(s: string): string {
    if s != [] && IsSpace(s[0]) then TrimLeft(s[1..]) else s
  }

  function TrimRight(s: string): string {
    if s != [] && IsSpace(s[|s| - 1]) then TrimRight(s[..|s| - 1]) else s
  }

  function Strip(s: string): string {
    TrimRight(TrimLeft(s))
  }

  predicate IsDigit(c: char) {
    '0' <= c <= '9'
  }

  /** A non-empty run of ASCII digits. */
  predicate Digits(s: string) {
    s != [] && forall i :: 0 <= i < |s| ==> IsDigit(s[i])
  }

  function DigitChar(d: nat): char
    requires d < 10
  {
    (48 + d) as char
  }

  /** str(n) for a natural number. */
  function Decimal(n: nat): string {
    if n < 10 then [DigitChar(n)] else Decimal(n / 10) + [DigitChar(n % 10)]
  }

  function DigitOf(c: char): nat
    requires IsDigit(c)
  {
    c as int - 48
  }

  /** Value of a run of digits. */
  function DigitsValue(s: string): nat
    requires forall i :: 0 <= i < |s| ==> IsDigit(s[i])
  {
    if s == [] then 0 else 10 * DigitsValue(s[..|s| - 1]) + DigitOf(s[|s| - 1])
  }

  /** Printing then reading is the identity, and the printed form is the canonical one. */
  lemma {:induction false} DecimalRoundTrip(n: nat)
    ensures Digits(Decimal(n)) && DigitsValue(Decimal(n)) == n
    ensures Decimal(n)[0] == '0' ==> n == 0
  {
    if n >= 10 {
      DecimalRoundTrip(n / 10);
      var s := Decimal(n);
      assert s[..|s| - 1] == Decimal(n / 10);
    }
  }

  /** Reading then printing is the identity on runs without leading zeros. */
  lemma {:induction false} DecimalCanonical(s: string)
    requires Digits(s) && (s[0] == '0' ==> |s| == 1)
    ensures Decimal(DigitsValue(s)) == s
  {
    if |s| == 1 {
      assert s[..0] == [];
    } else {
      var t := s[..|s| - 1];
      assert t[0] == s[0];
      DecimalCanonical(t);
      DecimalRoundTrip(DigitsValue(t));
      assert s == t + [s[|s| - 1]];
    }
  }

  /** Digits with single underscores between them, as Python's int() accepts. */
  predicate DigitGroups(s: string) {
    && s != [] && IsDigit(s[0]) && IsDigit(s[|s| - 1])
    && (forall i :: 0 <= i < |s| ==> IsDigit(s[i]) || s[i] == '_')
    && (forall i :: 0 <= i < |s| - 1 ==> s[i] != '_' || s[i + 1] != '_')
  }

  function DropUnderscores(s: string): (r: string)
    ensures (forall i :: 0 <= i < |s| ==> IsDigit(s[i]) || s[i] == '_') ==> forall i :: 0 <= i < |r| ==> IsDigit(r[i])
  {
    if s == [] then [] else if s[0] == '_' then DropUnderscores(s[1..]) else [s[0]] + DropUnderscores(s[1..])
  }

  /** int(s) over ASCII digits; None stands for ValueError. */
  function PyInt(s: string): Option<int> {
    var t := Strip(s);
    var signed := t != [] && (t[0] == '-' || t[0] == '+');
    var body := if signed then t[1..] else t;
    if !DigitGroups(body) then None
    else
      var value: int := DigitsValue(DropUnderscores(body));
      Some(if signed && t[0] == '-' then -value else value)
  }

  predicate Spaces(s: string) {
    forall i :: 0 <= i < |s| ==> IsSpace(s[i])
  }

  /** Nothing blank at either end. */
  predicate Trimmed(s: string) {
    s != [] ==> !IsSpace(s[0]) && !IsSpace(s[|s| - 1])
  }

  lemma {:induction false} TrimLeftParts(s: string) returns (p: string)
    ensures s == p + TrimLeft(s) && Spaces(p) && (TrimLeft(s) != [] ==> !IsSpace(TrimLeft(s)[0]))
  {
    p := [];
    if s != [] && IsSpace(s[0]) {
      p := TrimLeftParts(s[1..]);
      p := [s[0]] + p;
    }
  }

  lemma {:induction false} TrimRightParts(s: string) returns (q: string)
    ensures s == TrimRight(s) + q && Spaces(q)
    ensures TrimRight(s) != [] ==> TrimRight(s)[0] == s[0] && !IsSpace(TrimRight(s)[|TrimRight(s)| - 1])
  {
    q := [];
    if s != [] && IsSpace(s[|s| - 1]) {
      q := TrimRightParts(s[..|s| - 1]);
      q := q + [s[|s| - 1]];
    }
  }

  /** strip() takes the blank ends off and nothing else. */
  lemma StripParts(s: string) returns (p: string, q: string)
    ensures s == p + Strip(s) + q && Spaces(p) && Spaces(q) && Trimmed(Strip(s))
  {
    p := TrimLeftParts(s);
    q := TrimRightParts(TrimLeft(s));
  }

  lemma {:induction false} TrimLeftOf(p: string, t: string)
    requires Spaces(p) && (t != [] ==> !IsSpace(t[0]))
    ensures TrimLeft(p + t) == t
  {
    if p == [] {
      assert p + t == t;
    } else {
      assert (p + t)[1..] == p[1..] + t;
      TrimLeftOf(p[1..], t);
    }
  }

  lemma {:induction false} TrimRightOf(t: string, q: string)
    requires Spaces(q) && (t != [] ==> !IsSpace(t[|t| - 1]))
    ensures TrimRight(t + q) == t
  {
    if q == [] {
      assert t + q == t;
    } else {
      assert (t + q)[..|t + q| - 1] == t + q[..|q| - 1];
      TrimRightOf(t, q[..|q| - 1]);
    }
  }

  /** Whatever is trimmed comes back when blank text is put around it. */
  lemma StripOf(p: string, t: string, q: string)
    requires Spaces(p) && Spaces(q) && Trimmed(t)
    ensures Strip(p + t + q) == t
  {
    assert p + t + q == p + (t + q);
    if t == [] {
      assert t + q == q && p + q == (p + q) + [];
      TrimLeftOf(p + q, []);
    } else {
      TrimLeftOf(p, t + q);
      TrimRightOf(t, q);
    }
  }

  lemma {:induction false} NoUnderscores(s: string)
    requires forall i :: 0 <= i < |s| ==> IsDigit(s[i])
    ensures DropUnderscores(s) == s
  {
    if s != [] { NoUnderscores(s[1..]); }
  }

  lemma PrintedGroups(n: nat)
    ensures var d := Decimal(n);
            d != [] && DigitGroups(d) && DropUnderscores(d) == d && DigitsValue(d) == n && IsDigit(d[0]) && Trimmed(d)
  {
    hide DigitsValue;
    DecimalRoundTrip(n);
    hide Decimal;
    NoUnderscores(Decimal(n));
  }

  /** int() reads a printed number back, blank text around it aside. */
  lemma IntReads(p: string, n: nat, q: string)
    requires Spaces(p) && Spaces(q)
    ensures PyInt(p + Decimal(n) + q) == Some(n)
  {
    hide Decimal, DigitGroups, DropUnderscores, DigitsValue, Strip;
    PrintedGroups(n);
    StripOf(p, Decimal(n), q);
  }

  /** So it does behind a minus sign. */
  lemma NegativeReads(p: string, n: nat, q: string)
    requires Spaces(p) && Spaces(q)
    ensures var r := PyInt(p + ("-" + Decimal(n)) + q); r.Some? && r.value + n == 0
  {
    hide Decimal, DigitGroups, DropUnderscores, DigitsValue, Strip;
    PrintedGroups(n);
    var t := "-" + Decimal(n);
    assert t[1..] == Decimal(n) && t[|t| - 1] == Decimal(n)[|Decimal(n)| - 1];
    assert Trimmed(t);
    StripOf(p, t, q);
  }

  /** And behind a plus sign. */
  lemma PositiveReads(p: string, n: nat, q: string)
    requires Spaces(p) && Spaces(q)
    ensures PyInt(p + ("+" + Decimal(n)) + q) == Some(n)
  {
    hide Decimal, DigitGroups, DropUnderscores, DigitsValue, Strip;
    PrintedGroups(n);
    var t := "+" + Decimal(n);
    assert t[1..] == Decimal(n) && t[|t| - 1] == Decimal(n)[|Decimal(n)| - 1];
    assert Trimmed(t);
    StripOf(p, t, q);
  }

  /** Two underscores in a row are refused. */
  lemma DoubleRefused(s: string, i: nat)
    requires i + 1 < |Strip(s)| && Strip(s)[i] == '_' && Strip(s)[i + 1] == '_'
    ensures PyInt(s).None?
  {
    hide Strip, DigitsValue, DropUnderscores;
    var t := Strip(s);
    var signed := t[0] == '-' || t[0] == '+';
    var body := if signed then t[1..] else t;
    var j := if signed then i - 1 else i;
    assert body[j] == '_' && body[j + 1] == '_';
  }

  /** Nothing is read where the trimmed text is empty or does not end in a digit. */
  lemma IntRefuses(s: string)
    requires Strip(s) == [] || !IsDigit(Strip(s)[|Strip(s)| - 1])
    ensures PyInt(s).None?
  {
  }

  // ------------------------------------------------------------ string order

  /** Python's ordering of strings by code point. */
  predicate Le(a: string, b: string) {
    a == [] || (b != [] && (a[0] < b[0] || (a[0] == b[0] && Le(a[1..], b[1..]))))
  }

  lemma LeTotal(a: string, b: string)
    ensures Le(a, b) || Le(b, a)
    decreases |a|
  {
    if a != [] && b != [] && a[0] == b[0] { LeTotal(a[1..], b[1..]); }
  }

  lemma {:induction false} LeAntisymmetric(a: string, b: string)
    requires Le(a, b) && Le(b, a)
    ensures a == b
    decreases |a|
  {
    if a != [] {
      LeAntisymmetric(a[1..], b[1..]);
      assert a == [a[0]] + a[1..] && b == [b[0]] + b[1..];
    }
  }

  lemma {:induction false} LeTransitive(a: string, b: string, c: string)
    requires Le(a, b) && Le(b, c)
    ensures Le(a, c)
    decreases |a|
  {
    if a != [] && a[0] == b[0] && b[0] == c[0] { LeTransitive(a[1..], b[1..], c[1..]); }
  }

  predicate Least(k: string, ks: set<string>) {
    k in ks && forall j :: j in ks ==> Le(k, j)
  }

  lemma {:induction false} LeastExists(ks: set<string>)
    requires ks != {}
    ensures exists k :: Least(k, ks)
    ensures forall k, j :: Least(k, ks) && Least(j, ks) ==> k == j
  {
    forall k, j | Least(k, ks) && Least(j, ks) ensures k == j { LeAntisymmetric(k, j); }
    var x :| x in ks;
    var rest := ks - {x};
    LeTotal(x, x);
    if rest == {} {
      assert ks == {x};
      assert Least(x, ks);
    } else {
      LeastExists(rest);
      var y :| Least(y, rest);
      LeTotal(x, y);
      if Le(x, y) {
        forall j | j in ks ensures Le(x, j) { if j != x { LeTransitive(x, y, j); } }
        assert Least(x, ks);
      } else {
        assert Least(y, ks);
      }
    }
  }

  /** sorted(keys). */
  function SortedKeys(ks: set<string>): (r: seq<string>)
    ensures forall k :: k in r <==> k in ks
    ensures forall i, j :: 0 <= i < j < |r| ==> Le(r[i], r[j]) && r[i] != r[j]
  {
    if ks == {} then []
    else
      LeastExists(ks);
      var k :| k in ks && Least(k, ks);
      [k] + SortedKeys(ks - {k})
  }
}
