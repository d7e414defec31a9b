/** Cell addresses: bijective base-26 columns, printing and the two parsers (app/local_cli_document.py,
    app/edit_ops.py, app/local_cli_service_support.py). */
module CellAddress {
  import opened Text

  // ------------------------------------------------------------ columns

  function Letter(d: nat): char
    requires d < 26
  {
    (65 + d) as char
  }

  predicate IsUpper(c: char) { 'A' <= c <= 'Z' }

  function LetterValue(c: char): (v: nat)
    requires IsUpper(c)
    ensures 1 <= v <= 26 && Letter(v - 1) == c
  {
    c as int - 64
  }

  /** The letters of a column: A..Z, AA.., without a zero digit. */
  function Letters(n: nat): string {
    if n == 0 then "" else Letters((n - 1) / 26) + [Letter((n - 1) % 26)]
  }

  predicate UpperRun(s: string) {
    forall i :: 0 <= i < |s| ==> IsUpper(s[i])
  }

  /** The value both parsers accumulate. */
  function Column(s: string): nat
    requires UpperRun(s)
  {
    if s == [] then 0 else 26 * Column(s[..|s| - 1]) + LetterValue(s[|s| - 1])
  }

  /** Printing a column and reading it back is the identity. */
  lemma {:induction false} LettersRead(n: nat)
    ensures UpperRun(Letters(n)) && Column(Letters(n)) == n && (n > 0 ==> Letters(n) != "")
  {
    if n > 0 {
      var q, r := (n - 1) / 26, (n - 1) % 26;
      LettersRead(q);
      ColumnSnoc(Letters(q), Letter(r));
    }
  }

  lemma ColumnSnoc(s: string, c: char)
    requires UpperRun(s) && IsUpper(c)
    ensures UpperRun(s + [c]) && Column(s + [c]) == 26 * Column(s) + LetterValue(c)
  {
    assert (s + [c])[..|s|] == s;
  }

  /** Every run of letters is the printed form of its value. */
  lemma {:induction false} ColumnPrints(s: string)
    requires UpperRun(s)
    ensures Letters(Column(s)) == s && (s != [] ==> Column(s) > 0)
  {
    if s != [] {
      var init, v := s[..|s| - 1], LetterValue(s[|s| - 1]);
      ColumnPrints(init);
      assert (26 * Column(init) + v - 1) / 26 == Column(init) && (26 * Column(init) + v - 1) % 26 == v - 1;
      assert s == init + [s[|s| - 1]];
    }
  }

  function Reversed(s: string): string {
    if s == [] then [] else Reversed(s[1..]) + [s[0]]
  }

  lemma {:induction false} ReversedSnoc(s: string, c: char)
    ensures Reversed(s + [c]) == [c] + Reversed(s)
  {
    if s != [] {
      assert (s + [c])[1..] == s[1..] + [c];
      ReversedSnoc(s[1..], c);
    }
  }

  /** _column_name: digits are found from the right and reversed. */
  method ColumnName(col: int) returns (name: string)
    ensures name == if col <= 0 then "?" else Letters(col)
  {
    var value, letters := col, [];
    while value > 0
      invariant col <= 0 ==> value == col && letters == []
      invariant col > 0 ==> value >= 0 && Letters(value) + Reversed(letters) == Letters(col)
      decreases value
    {
      var remainder := (value - 1) % 26;
      ReversedSnoc(letters, Letter(remainder));
      assert Letters(value) + Reversed(letters) == Letters((value - 1) / 26)
          + ([Letter(remainder)] + Reversed(letters));
      value, letters := (value - 1) / 26, letters + [Letter(remainder)];
    }
    if col > 0 { LettersRead(col); }
    name := if Reversed(letters) == [] then "?" else Reversed(letters);
  }

  /** _cell_addr */
  function Printed(row: int, col: int): Option<string> {
    if row <= 0 || col <= 0 then None else Some(Letters(col) + Decimal(row))
  }

  method CellAddr(row: Option<int>, col: Option<int>) returns (addr: Option<string>)
    ensures addr == if row.None? || col.None? then None else Printed(row.value, col.value)
  {
    if row.None? || col.None? || row.value <= 0 || col.value <= 0 { return None; }
    var name := ColumnName(col.value);
    addr := Some(name + Decimal(row.value));
  }

  // ------------------------------------------------------------ parsing

  function UpperChar(c: char): char {
    if 'a' <= c <= 'z' then (c as int - 32) as char else c
  }

  function Upper(s: string): (r: string)
    ensures |r| == |s|
  {
    seq(|s|, i requires 0 <= i < |s| => UpperChar(s[i]))
  }

  /** Length of the leading run of upper-case letters. */
  function Run(s: string): (n: nat)
    ensures n <= |s| && UpperRun(s[..n]) && (n < |s| ==> !IsUpper(s[n]))
  {
    if s != [] && IsUpper(s[0]) then
      var n := Run(s[1..]);
      assert forall i :: 0 <= i < n ==> s[1..][..n][i] == s[i + 1];
      n + 1
    else 0
  }

  /** Letters then digits, nothing else. */
  predicate AddressShape(s: string) {
    Run(s) > 0 && Digits(s[Run(s)..])
  }

  datatype Ref = Ref(letters: string, row: nat, col: nat)
  {
    /** The address the parser reports back. */
    function Addr(): string { letters + Decimal(row) }
  }

  /** _cell_addr_to_ref on a string. */
  function ParseRef(s: string): Option<Ref> {
    var t := Upper(Strip(s));
    if AddressShape(t) then Some(Ref(t[..Run(t)], DigitsValue(t[Run(t)..]), Column(t[..Run(t)]))) else None
  }

  /** The accumulating loop both parsers run over the letters. */
  method ReadColumn(letters: string) returns (column: nat)
    requires UpperRun(letters)
    ensures column == Column(letters)
  {
    column := 0;
    for i := 0 to |letters|
      invariant column == Column(letters[..i])
    {
      assert letters[..i + 1][..i] == letters[..i];
      column := column * 26 + LetterValue(letters[i]);
    }
    assert letters[..|letters|] == letters;
  }

  method CellAddrToRef(s: string) returns (ref: Option<Ref>)
    ensures ref == ParseRef(s)
  {
    var t := Upper(Strip(s));
    if !AddressShape(t) { return None; }
    var col := ReadColumn(t[..Run(t)]);
    ref := Some(Ref(t[..Run(t)], DigitsValue(t[Run(t)..]), col));
  }

  /** _normalize_cell_addr_value on a string: (column, row), both from zero. */
  function ParseIndices(s: string): Option<(int, int)> {
    var t := Upper(Strip(s));
    if AddressShape(t) && t[Run(t)] != '0' then Some((Column(t[..Run(t)]) - 1, DigitsValue(t[Run(t)..]) - 1)) else None
  }

  datatype Item = Number(value: int) | Other

  /** What a caller may hand in: a string, a list or tuple, or anything else (a Boolean item is no number). */
  datatype Value = Written(text: string) | List(items: seq<Item>) | Else

  /** _valid_cell_addr */
  predicate ValidPair(items: seq<Item>) {
    |items| == 2 && forall i :: 0 <= i < 2 ==> items[i].Number? && items[i].value >= 0
  }

  /** _normalize_cell_addr_value */
  function Indices(v: Value): Option<(int, int)> {
    match v
    case Written(s) => ParseIndices(s)
    case List(items) => if ValidPair(items) then Some((items[0].value, items[1].value)) else None
    case Else => None
  }

  method NormalizeCellAddr(v: Value) returns (indices: Option<(int, int)>)
    ensures indices == Indices(v)
  {
    if v.List? && ValidPair(v.items) { return Some((v.items[0].value, v.items[1].value)); }
    if !v.Written? { return None; }
    var t := Upper(Strip(v.text));
    if !AddressShape(t) || t[Run(t)] == '0' { return None; }
    var column := ReadColumn(t[..Run(t)]);
    indices := Some((column - 1, DigitsValue(t[Run(t)..]) - 1));
  }

  // ------------------------------------------------------------ round trips

  lemma {:induction false} RunOfPrinted(a: string, d: string)
    requires UpperRun(a) && Digits(d)
    ensures Run(a + d) == |a|
  {
    if a == [] {
      assert a + d == d;
    } else {
      assert (a + d)[0] == a[0] && (a + d)[1..] == a[1..] + d;
      RunOfPrinted(a[1..], d);
    }
  }

  /** Upper-case letters and digits survive strip and upper. */
  lemma Settled(a: string, d: string)
    requires UpperRun(a) && Digits(d)
    ensures Upper(Strip(a + d)) == a + d
  {
    var s := a + d;
    assert !IsSpace(s[0]) by { if a == [] { assert s[0] == d[0]; } else { assert s[0] == a[0]; } }
    assert s[|s| - 1] == d[|d| - 1];
    assert TrimLeft(s) == s && TrimRight(s) == s;
    forall i | 0 <= i < |s| ensures UpperChar(s[i]) == s[i] {
      if i < |a| { assert s[i] == a[i]; } else { assert s[i] == d[i - |a|]; }
    }
  }

  /** Letters followed by a row without leading zero parse to their two values, with both parsers. */
  lemma {:induction false} AddressParses(a: string, d: string)
    requires UpperRun(a) && a != "" && Digits(d)
    ensures ParseRef(a + d) == Some(Ref(a, DigitsValue(d), Column(a)))
    ensures d[0] != '0' ==> ParseIndices(a + d) == Some((Column(a) - 1, DigitsValue(d) - 1))
  {
    hide Upper, Strip, Run, DigitsValue, Column;
    Settled(a, d);
    RunOfPrinted(a, d);
    assert (a + d)[..|a|] == a && (a + d)[|a|..] == d && (a + d)[|a|] == d[0];
  }

  /** Printing any cell and parsing it back is the identity, for both parsers. */
  lemma {:induction false} PrintedParses(row: int, col: int)
    requires row >= 1 && col >= 1
    ensures ParseRef(Printed(row, col).value) == Some(Ref(Letters(col), row, col))
    ensures ParseIndices(Printed(row, col).value) == Some((col - 1, row - 1))
  {
    hide Letters, Decimal, DigitsValue, Column, ParseRef, ParseIndices;
    LettersRead(col);
    DecimalRoundTrip(row);
    AddressParses(Letters(col), Decimal(row));
  }

  /** Printing a parsed address with a row gives its normal form. */
  lemma ParsedPrints(s: string)
    requires ParseRef(s).Some? && ParseRef(s).value.row >= 1
    ensures var ref := ParseRef(s).value; ref.col >= 1 && Printed(ref.row, ref.col) == Some(ref.Addr())
  {
    ColumnPrints(ParseRef(s).value.letters);
  }

  lemma {:induction false} DigitsZero(d: string)
    requires Digits(d) && d[0] != '0'
    ensures DigitsValue(d) >= 1
  {
    if |d| > 1 {
      assert d[..|d| - 1][0] == d[0];
      DigitsZero(d[..|d| - 1]);
    } else {
      assert d[..0] == [];
    }
  }

  /** The two parsers agree on every string whose row has no leading zero, and the second refuses every other. */
  lemma ParsersAgree(s: string)
    ensures var t := Upper(Strip(s));
            if ParseRef(s).Some? && t[Run(t)] != '0'
            then ParseIndices(s) == Some((ParseRef(s).value.col - 1, ParseRef(s).value.row - 1))
                && ParseRef(s).value.row >= 1
            else ParseIndices(s).None?
  {
    var t := Upper(Strip(s));
    if AddressShape(t) && t[Run(t)] != '0' { DigitsZero(t[Run(t)..]); }
  }

  lemma IndicesFromZero(s: string)
    requires ParseIndices(s).Some?
    ensures ParseIndices(s).value.0 >= 0 && ParseIndices(s).value.1 >= 0
  {
    ParsersAgree(s);
    var t := Upper(Strip(s));
    hide Upper, Strip, DigitsValue;
    ColumnPrints(t[..Run(t)]);
  }

  /** What the second parser returns are two indices from zero; handed in again, or printed and parsed, they come
      back. */
  lemma NormalizedStays(v: Value)
    requires Indices(v).Some?
    ensures var (col, row) := Indices(v).value;
            && col >= 0 && row >= 0
            && Indices(List([Number(col), Number(row)])) == Indices(v)
            && Indices(Written(Printed(row + 1, col + 1).value)) == Indices(v)
  {
    hide ParseIndices, ParseRef, Printed;
    if v.Written? { IndicesFromZero(v.text); }
    var (col, row) := Indices(v).value;
    PrintedParses(row + 1, col + 1);
    assert ValidPair([Number(col), Number(row)]);
  }

  // ------------------------------------------------------------ table navigation

  datatype Action = Up | Down | Left | Right

  /** What the caret read reports: whether it is in a cell, and the cell's address if readable. */
  datatype Snapshot = Snapshot(inCell: bool, addr: Option<string>)

  /** The editor answers any history of moves with some snapshot. */
  type Editor = seq<Action> -> Snapshot

  function Key(s: Snapshot): string {
    if s.addr.Some? then s.addr.value else ""
  }

  function Choose(current: Ref, target: Ref): Action {
    if current.row < target.row then Down
    else if current.row > target.row then Up
    else if current.col < target.col then Right
    else Left
  }

  datatype Outcome = Reached(moves: seq<Action>) | BadTarget | NotInTable(moves: seq<Action>)
                   | LostAddress(moves: seq<Action>) | Cycling(moves: seq<Action>) | TooManySteps(moves: seq<Action>)

  /** The addresses seen before and after each move. */
  function Seen(editor: Editor, moves: seq<Action>): (r: seq<string>)
    ensures |r| == |moves| + 1
  {
    if moves == [] then [Key(editor([]))] else Seen(editor, moves[..|moves| - 1]) + [Key(editor(moves))]
  }

  predicate NoRepeat(s: seq<string>) {
    forall i, j :: 0 <= i < j < |s| ==> s[i] != s[j]
  }

  /** The walk so far: inside the table at every step, each move the chosen one, no address seen twice, the target not
      seen. */
  ghost predicate Walking(editor: Editor, target: Ref, moves: seq<Action>) {
    && (forall n :: 0 <= n <= |moves| ==> editor(moves[..n]).inCell && editor(moves[..n]).addr != Some(target.Addr()))
    && NoRepeat(Seen(editor, moves))
    && (forall n :: 0 <= n < |moves| ==> ChosenAt(editor, target, moves, n))
  }

  ghost predicate ChosenAt(editor: Editor, target: Ref, moves: seq<Action>, n: nat)
    requires n < |moves|
  {
    var at := editor(moves[..n]);
    at.addr.Some? && ParseRef(at.addr.value).Some? && moves[n] == Choose(ParseRef(at.addr.value).value, target)
  }

  lemma {:induction false} WalkingMore(editor: Editor, target: Ref, moves: seq<Action>, action: Action)
    requires Walking(editor, target, moves)
    requires
      var at := editor(moves);
      && at.addr.Some?
      && ParseRef(at.addr.value).Some?
      && action == Choose(ParseRef(at.addr.value).value, target)
    requires var next := editor(moves + [action]);
             next.inCell && next.addr != Some(target.Addr()) && Key(next) !in Seen(editor, moves)
    ensures Walking(editor, target, moves + [action])
  {
    var more := moves + [action];
    assert more[..|moves|] == moves && more[..|more|] == more;
    forall n | 0 <= n <= |more| ensures editor(more[..n]).inCell && editor(more[..n]).addr != Some(target.Addr()) {
      if n <= |moves| { assert more[..n] == moves[..n]; }
    }
    forall n | 0 <= n < |more| ensures ChosenAt(editor, target, more, n) {
      if n < |moves| { assert more[..n] == moves[..n] && ChosenAt(editor, target, moves, n); }
    }
  }

  /** The step function of the walk, used to say what the method returns. */
  function Walk(editor: Editor, target: Ref, moves: seq<Action>, budget: nat): Outcome
    decreases budget
  {
    if budget == 0 then TooManySteps(moves)
    else
      var at := editor(moves);
      if at.addr.None? || ParseRef(at.addr.value).None? then LostAddress(moves)
      else
        var next := moves + [Choose(ParseRef(at.addr.value).value, target)];
        if !editor(next).inCell then NotInTable(next)
        else if editor(next).addr == Some(target.Addr()) then Reached(next)
        else if Key(editor(next)) == "" || Key(editor(next)) in Seen(editor, moves) then Cycling(next)
        else Walk(editor, target, next, budget - 1)
  }

  function Navigate(editor: Editor, targetAddr: string, maxSteps: nat): Outcome {
    match ParseRef(targetAddr)
    case None => BadTarget
    case Some(target) =>
      if !editor([]).inCell then NotInTable([])
      else if editor([]).addr == Some(target.Addr()) then Reached([])
      else Walk(editor, target, [], maxSteps)
  }

  /** _move_to_cell_scoped: one bounded loop of single moves with the set of visited addresses. */
  method MoveToCellScoped(editor: Editor, targetAddr: string, maxSteps: nat) returns (outcome: Outcome)
    ensures outcome == Navigate(editor, targetAddr, maxSteps)
  {
    hide ParseRef, Choose, Ref.Addr;
    var parsed := CellAddrToRef(targetAddr);
    if parsed.None? { return BadTarget; }
    var target := parsed.value;
    var moves: seq<Action> := [];
    var snapshot := editor([]);
    if !snapshot.inCell { return NotInTable([]); }
    if snapshot.addr == Some(target.Addr()) { return Reached([]); }
    var visited := {Key(snapshot)};
    for i := 0 to maxSteps
      invariant |moves| == i && snapshot == editor(moves)
      invariant forall a :: a in visited <==> a in Seen(editor, moves)
      invariant Walk(editor, target, moves, maxSteps - i) == Walk(editor, target, [], maxSteps)
    {
      if snapshot.addr.None? { return LostAddress(moves); }
      var current := CellAddrToRef(snapshot.addr.value);
      if current.None? { return LostAddress(moves); }
      var action := Choose(current.value, target);
      ghost var before := moves;
      moves := moves + [action];
      snapshot := editor(moves);
      if !snapshot.inCell { return NotInTable(moves); }
      if snapshot.addr == Some(target.Addr()) { return Reached(moves); }
      if Key(snapshot) == "" || Key(snapshot) in visited { return Cycling(moves); }
      visited := visited + {Key(snapshot)};
      assert moves[..|moves| - 1] == before;
    }
    outcome := TooManySteps(moves);
  }

  /** What the walk promises of its outcome. */
  ghost predicate EndsWell(editor: Editor, target: Ref, moves: seq<Action>, budget: nat, o: Outcome) {
    && (o.Reached? ==>
          && |moves| < |o.moves| <= |moves| + budget
          && editor(o.moves) == Snapshot(true, Some(target.Addr()))
          && Walking(editor, target, o.moves[..|o.moves| - 1]))
    && (!o.BadTarget? ==> |o.moves| <= |moves| + budget)
  }

  /** The walk ends here or after one move, or goes on from there. */
  lemma WalkStep(editor: Editor, target: Ref, moves: seq<Action>, budget: nat) returns (goes: bool, next: seq<Action>)
    requires Walking(editor, target, moves)
    ensures !goes ==> EndsWell(editor, target, moves, budget, Walk(editor, target, moves, budget))
    ensures goes ==>
              && budget > 0 && |next| == |moves| + 1 && Walking(editor, target, next)
              && Walk(editor, target, moves, budget) == Walk(editor, target, next, budget - 1)
  {
    hide ParseRef, Choose, Ref.Addr, Seen;
    goes, next := false, moves;
    if budget > 0 {
      var at := editor(moves);
      if at.addr.Some? && ParseRef(at.addr.value).Some? {
        var action := Choose(ParseRef(at.addr.value).value, target);
        next := moves + [action];
        assert next[..|moves|] == moves && |next| == |moves| + 1;
        if editor(next).inCell && editor(next).addr != Some(target.Addr()) && Key(editor(next)) != ""
            && Key(editor(next)) !in Seen(editor, moves) {
          WalkingMore(editor, target, moves, action);
          goes := true;
        }
      }
    }
  }

  /** A walk that ends on the target took at most its budget of moves and saw no address twice. */
  lemma {:induction false} WalkReaches(editor: Editor, target: Ref, moves: seq<Action>, budget: nat)
    requires Walking(editor, target, moves)
    ensures EndsWell(editor, target, moves, budget, Walk(editor, target, moves, budget))
    decreases budget
  {
    hide Walk, Walking, Ref.Addr;
    var goes, next := WalkStep(editor, target, moves, budget);
    if goes { WalkReaches(editor, target, next, budget - 1); }
  }

  lemma AddrNotEmpty(ref: Ref)
    ensures ref.Addr() != ""
  {
    DecimalRoundTrip(ref.row);
  }

  /** The target's address is not among those seen on the way. */
  lemma {:induction false} SeenMisses(editor: Editor, moves: seq<Action>, addr: string)
    requires forall n :: 0 <= n <= |moves| ==> editor(moves[..n]).addr != Some(addr)
    requires addr != ""
    ensures addr !in Seen(editor, moves)
  {
    assert moves[..|moves|] == moves;
    if moves != [] {
      var init := moves[..|moves| - 1];
      forall n | 0 <= n <= |init| ensures editor(init[..n]).addr != Some(addr) { assert init[..n] == moves[..n]; }
      SeenMisses(editor, init, addr);
    }
  }

  lemma SeenAtOnce(editor: Editor)
    ensures NoRepeat(Seen(editor, []))
  {
  }

  lemma WalkingFrom(editor: Editor, target: Ref)
    requires editor([]).inCell && editor([]).addr != Some(target.Addr())
    ensures Walking(editor, target, [])
  {
    var none: seq<Action> := [];
    assert none[..0] == [];
  }

  lemma {:induction false} ReachedApart(editor: Editor, target: Ref, moves: seq<Action>)
    requires moves != [] && Walking(editor, target, moves[..|moves| - 1])
    requires editor(moves) == Snapshot(true, Some(target.Addr()))
    ensures NoRepeat(Seen(editor, moves))
  {
    AddrNotEmpty(target);
    SeenMisses(editor, moves[..|moves| - 1], target.Addr());
    hide ParseRef, Ref.Addr, Choose;
  }

  /** For any editor: at most maxSteps moves; success ends on the target having visited no address twice. */
  lemma NavigateBounded(editor: Editor, targetAddr: string, maxSteps: nat)
    ensures var o := Navigate(editor, targetAddr, maxSteps);
            && (!o.BadTarget? ==> |o.moves| <= maxSteps)
            && (o.Reached? ==>
                  && ParseRef(targetAddr).Some?
                  && editor(o.moves).addr == Some(ParseRef(targetAddr).value.Addr())
                  && NoRepeat(Seen(editor, o.moves)))
  {
    hide ParseRef, Ref.Addr, Choose, Walk, Walking, Seen, NoRepeat;
    if ParseRef(targetAddr).Some? && editor([]).inCell {
      var target := ParseRef(targetAddr).value;
      if editor([]).addr == Some(target.Addr()) {
        SeenAtOnce(editor);
      } else {
        WalkingFrom(editor, target);
        WalkReaches(editor, target, [], maxSteps);
        var o := Walk(editor, target, [], maxSteps);
        if o.Reached? { ReachedApart(editor, target, o.moves); }
      }
    }
  }

  // ------------------------------------------------------------ merge-free grids

  datatype Cell = Cell(row: int, col: int)

  predicate InGrid(c: Cell, rows: nat, cols: nat) {
    1 <= c.row <= rows && 1 <= c.col <= cols
  }

  function Address(c: Cell): string
    requires c.row >= 1 && c.col >= 1
  {
    Printed(c.row, c.col).value
  }

  lemma AddressesDiffer(a: Cell, b: Cell)
    requires a.row >= 1 && a.col >= 1 && b.row >= 1 && b.col >= 1
    ensures Address(a) == Address(b) ==> a == b
  {
    PrintedParses(a.row, a.col);
    PrintedParses(b.row, b.col);
  }

  function Beside(c: Cell, action: Action): Cell {
    match action
    case Up => Cell(c.row - 1, c.col)
    case Down => Cell(c.row + 1, c.col)
    case Left => Cell(c.row, c.col - 1)
    case Right => Cell(c.row, c.col + 1)
  }

  function Position(start: Cell, moves: seq<Action>): Cell {
    if moves == [] then start else Beside(Position(start, moves[..|moves| - 1]), moves[|moves| - 1])
  }

  predicate Inside(start: Cell, moves: seq<Action>, rows: nat, cols: nat) {
    InGrid(Position(start, moves), rows, cols) && (moves == [] || Inside(start, moves[..|moves| - 1], rows, cols))
  }

  /** A table without merged cells: while the moves stay inside, the caret is in the cell they lead to. Nothing is
      said of others. */
  ghost predicate MergeFree(editor: Editor, start: Cell, rows: nat, cols: nat) {
    forall moves :: Inside(start, moves, rows, cols) ==>
        editor(moves) == Snapshot(true, Some(Address(Position(start, moves))))
  }

  function Gap(a: int, b: int): nat { if a < b then b - a else a - b }

  function Distance(a: Cell, b: Cell): nat { Gap(a.row, b.row) + Gap(a.col, b.col) }

  /** No run of moves reaches a cell in fewer moves than its Manhattan distance. */
  lemma {:induction false} NoShorterWay(start: Cell, moves: seq<Action>)
    ensures Distance(start, Position(start, moves)) <= |moves|
  {
    if moves != [] {
      NoShorterWay(start, moves[..|moves| - 1]);
    }
  }

  /** Every address seen belongs to a cell at least d away from the goal. */
  ghost predicate SeenFar(seen: seq<string>, goal: Cell, d: nat) {
    forall a :: a in seen ==> FarAddress(a, goal, d)
  }

  ghost predicate FarAddress(a: string, goal: Cell, d: nat) {
    exists c: Cell :: c.row >= 1 && c.col >= 1 && a == Address(c) && Distance(c, goal) >= d
  }

  lemma CloserIsNew(seen: seq<string>, goal: Cell, d: nat, c: Cell)
    requires SeenFar(seen, goal, d) && c.row >= 1 && c.col >= 1 && Distance(c, goal) < d
    ensures Address(c) !in seen
    ensures SeenFar(seen + [Address(c)], goal, Distance(c, goal))
  {
    hide Address;
    if Address(c) in seen {
      assert FarAddress(Address(c), goal, d);
      var q: Cell :| q.row >= 1 && q.col >= 1 && Address(c) == Address(q) && Distance(q, goal) >= d;
      AddressesDiffer(c, q);
      assert false;
    }
    forall a | a in seen + [Address(c)] ensures FarAddress(a, goal, Distance(c, goal)) {
      if a in seen { assert FarAddress(a, goal, d); }
    }
  }

  /** What parsing the cell's address gives. */
  function Normal(c: Cell): Ref
    requires c.row >= 1 && c.col >= 1
  {
    Ref(Letters(c.col), c.row, c.col)
  }

  /** The chosen move comes one closer and stays inside. */
  lemma ChosenComesCloser(at: Cell, goal: Cell, rows: nat, cols: nat)
    requires InGrid(at, rows, cols) && InGrid(goal, rows, cols) && at != goal
    ensures var next := Beside(at, Choose(Normal(at), Normal(goal)));
            InGrid(next, rows, cols) && Distance(next, goal) == Distance(at, goal) - 1
  {
  }

  /** The grid walk between two moves: where the caret is, and that nothing seen was as close. */
  ghost predicate OnTheWay(editor: Editor, start: Cell, rows: nat, cols: nat, goal: Cell, moves: seq<Action>) {
    && Inside(start, moves, rows, cols)
    && Position(start, moves) != goal
    && SeenFar(Seen(editor, moves), goal, Distance(Position(start, moves), goal))
  }

  lemma NormalAddress(c: Cell)
    requires c.row >= 1 && c.col >= 1
    ensures Normal(c).Addr() == Address(c) != "" && ParseRef(Address(c)) == Some(Normal(c))
  {
    PrintedParses(c.row, c.col);
    LettersRead(c.col);
  }

  /** One move of the grid walk. */
  lemma GridStep(editor: Editor, start: Cell, rows: nat, cols: nat, goal: Cell, moves: seq<Action>, budget: nat)
      returns (next: seq<Action>)
    requires MergeFree(editor, start, rows, cols) && InGrid(goal, rows, cols)
            && OnTheWay(editor, start, rows, cols, goal, moves)
    requires budget > 0
    ensures next == moves + [Choose(Normal(Position(start, moves)), Normal(goal))]
    ensures |next| == |moves| + 1 && Distance(Position(start, next), goal) == Distance(Position(start, moves), goal) - 1
    ensures Walk(editor, Normal(goal), moves, budget)
            == if Position(start, next) == goal then Reached(next) else Walk(editor, Normal(goal), next, budget - 1)
    ensures Position(start, next) != goal ==> OnTheWay(editor, start, rows, cols, goal, next)
  {
    hide Letters, Decimal, ParseRef, Printed;
    var at := Position(start, moves);
    ChosenComesCloser(at, goal, rows, cols);
    next := moves + [Choose(Normal(at), Normal(goal))];
    assert next[..|moves|] == moves;
    var to := Position(start, next);
    assert to == Beside(at, Choose(Normal(at), Normal(goal)));
    assert Inside(start, next, rows, cols);
    assert editor(moves) == Snapshot(true, Some(Address(at)));
    assert editor(next) == Snapshot(true, Some(Address(to)));
    assert Seen(editor, next) == Seen(editor, moves) + [Address(to)];
    NormalAddress(at);
    NormalAddress(to);
    NormalAddress(goal);
    AddressesDiffer(to, goal);
    CloserIsNew(Seen(editor, moves), goal, Distance(at, goal), to);
    hide ParseRef, Address, Normal, Choose, Beside, Position, Seen, SeenFar, Inside, MergeFree, Distance, Ref.Addr;
  }

  /** With d moves to go, the walk reaches its target in d moves if the budget allows it, and runs out of steps
      otherwise. */
  predicate Ends(o: Outcome, sofar: nat, d: nat, budget: nat) {
    if d <= budget then o.Reached? && |o.moves| == sofar + d else o.TooManySteps? && |o.moves| == sofar + budget
  }

  lemma {:induction false} GridWalk(editor: Editor, start: Cell, rows: nat, cols: nat, goal: Cell,
        moves: seq<Action>, budget: nat)
    requires MergeFree(editor, start, rows, cols) && InGrid(goal, rows, cols)
            && OnTheWay(editor, start, rows, cols, goal, moves)
    ensures Ends(Walk(editor, Normal(goal), moves, budget), |moves|, Distance(Position(start, moves), goal), budget)
    decreases budget
  {
    hide Walk, OnTheWay, MergeFree, Position, Normal, Distance;
    StillApart(editor, start, rows, cols, goal, moves);
    if budget > 0 {
      var next := GridStep(editor, start, rows, cols, goal, moves, budget);
      Apart(Position(start, next), goal);
      if Position(start, next) != goal {
        GridWalk(editor, start, rows, cols, goal, next, budget - 1);
      }
    } else {
      NoBudget(editor, Normal(goal), moves);
    }
  }

  lemma StillApart(editor: Editor, start: Cell, rows: nat, cols: nat, goal: Cell, moves: seq<Action>)
    requires OnTheWay(editor, start, rows, cols, goal, moves)
    ensures Distance(Position(start, moves), goal) > 0
  {
    hide Inside, SeenFar, Position;
    Apart(Position(start, moves), goal);
  }

  lemma NoBudget(editor: Editor, target: Ref, moves: seq<Action>)
    ensures Walk(editor, target, moves, 0) == TooManySteps(moves)
  {
  }

  lemma Apart(a: Cell, b: Cell)
    ensures Distance(a, b) == 0 <==> a == b
  {
  }

  /** On a merge-free grid a target is reached exactly when it is within maxSteps Manhattan distance, and by a
      shortest way. */
  lemma GridIsNavigated(editor: Editor, start: Cell, rows: nat, cols: nat, targetAddr: string, maxSteps: nat)
    requires MergeFree(editor, start, rows, cols) && InGrid(start, rows, cols)
    requires ParseRef(targetAddr).Some?
            && InGrid(Cell(ParseRef(targetAddr).value.row, ParseRef(targetAddr).value.col), rows, cols)
    ensures var goal := Cell(ParseRef(targetAddr).value.row, ParseRef(targetAddr).value.col);
            var o := Navigate(editor, targetAddr, maxSteps);
            && (o.Reached? <==> Distance(start, goal) <= maxSteps)
            && (o.Reached? ==> |o.moves| == Distance(start, goal))
            && (!o.Reached? ==> o.TooManySteps?)
  {
    var ref := ParseRef(targetAddr).value;
    var goal := Cell(ref.row, ref.col);
    ParsedPrints(targetAddr);
    ColumnPrints(ref.letters);
    AddressesDiffer(start, goal);
    var none: seq<Action> := [];
    assert Inside(start, none, rows, cols);
    assert editor(none) == Snapshot(true, Some(Address(start)));
    if start != goal {
      assert FarAddress(Address(start), goal, Distance(start, goal));
      assert Seen(editor, none) == [Address(start)];
      GridWalk(editor, start, rows, cols, goal, none, maxSteps);
    }
  }

  /** The way the caret goes: all rows first, then all columns. */
  function Route(at: Cell, goal: Cell): seq<Action> {
    seq(Gap(at.row, goal.row), _ => if at.row < goal.row then Down else Up)
    + seq(Gap(at.col, goal.col), _ => if at.col < goal.col then Right else Left)
  }

  lemma RouteStep(at: Cell, goal: Cell)
    requires at.row >= 1 && at.col >= 1 && goal.row >= 1 && goal.col >= 1 && at != goal
    ensures var move := Choose(Normal(at), Normal(goal));
            Route(at, goal) == [move] + Route(Beside(at, move), goal)
  {
    hide Letters;
    var move := Choose(Normal(at), Normal(goal));
    var p, q := Route(at, goal), [move] + Route(Beside(at, move), goal);
    assert |p| == |q|;
    forall i | 0 <= i < |p| ensures p[i] == q[i] { }
  }

  lemma {:induction false} WalkRoute(editor: Editor, start: Cell, rows: nat, cols: nat, goal: Cell,
        moves: seq<Action>, budget: nat)
    requires MergeFree(editor, start, rows, cols) && InGrid(goal, rows, cols)
            && OnTheWay(editor, start, rows, cols, goal, moves)
    requires Distance(Position(start, moves), goal) <= budget
    ensures Walk(editor, Normal(goal), moves, budget) == Reached(moves + Route(Position(start, moves), goal))
    decreases budget
  {
    hide Walk, MergeFree, Normal, Distance, Route, OnTheWay;
    StillApart(editor, start, rows, cols, goal, moves);
    var at := Position(start, moves);
    var next := GridStep(editor, start, rows, cols, goal, moves, budget);
    var to := Position(start, next);
    RouteAfter(editor, start, rows, cols, goal, moves, next);
    Apart(to, goal);
    if to != goal {
      WalkRoute(editor, start, rows, cols, goal, next, budget - 1);
    } else {
      RouteEnds(goal);
      assert next + [] == next;
    }
  }

  lemma RouteEnds(goal: Cell)
    ensures Route(goal, goal) == []
  {
  }

  /** The step taken is the first of the way that is left. */
  lemma RouteAfter(editor: Editor, start: Cell, rows: nat, cols: nat, goal: Cell, moves: seq<Action>, next: seq<Action>)
    requires InGrid(goal, rows, cols) && OnTheWay(editor, start, rows, cols, goal, moves)
    requires next == moves + [Choose(Normal(Position(start, moves)), Normal(goal))]
    ensures moves + Route(Position(start, moves), goal) == next + Route(Position(start, next), goal)
  {
    var at := Position(start, moves);
    RouteStep(at, goal);
    assert next[..|moves|] == moves;
    hide Choose, Normal, Route, SeenFar, Seen;
    assert Position(start, next) == Beside(at, next[|moves|]);
  }

  /** On a merge-free grid the caret goes down or up to the row first, then along it. */
  lemma GridRoute(editor: Editor, start: Cell, rows: nat, cols: nat, targetAddr: string, maxSteps: nat)
    requires MergeFree(editor, start, rows, cols) && InGrid(start, rows, cols)
    requires ParseRef(targetAddr).Some?
            && InGrid(Cell(ParseRef(targetAddr).value.row, ParseRef(targetAddr).value.col), rows, cols)
    requires Distance(start, Cell(ParseRef(targetAddr).value.row, ParseRef(targetAddr).value.col)) <= maxSteps
    ensures Navigate(editor, targetAddr, maxSteps)
         == Reached(Route(start, Cell(ParseRef(targetAddr).value.row, ParseRef(targetAddr).value.col)))
  {
    var ref := ParseRef(targetAddr).value;
    var goal := Cell(ref.row, ref.col);
    ParsedPrints(targetAddr);
    ColumnPrints(ref.letters);
    AddressesDiffer(start, goal);
    var none: seq<Action> := [];
    assert Inside(start, none, rows, cols);
    assert editor(none) == Snapshot(true, Some(Address(start)));
    if start != goal {
      assert FarAddress(Address(start), goal, Distance(start, goal));
      assert Seen(editor, none) == [Address(start)];
      WalkRoute(editor, start, rows, cols, goal, none, maxSteps);
      assert none + Route(start, goal) == Route(start, goal);
    } else {
      RouteEnds(goal);
    }
  }
}
