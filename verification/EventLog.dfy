/** The bounded JSONL event log: rotation and append as one transaction (app/interactive_session_manager.py). */
module EventLog {
  import opened Text

  const MAX_EVENT_FILE_BYTES: nat := 65536
  const MAX_EVENT_FILES: nat := 5

  /** One encoded line, as bytes. */
  type Record = string
  type File = seq<Record>

  function Size(file: File): nat {
    if file == [] then 0 else Size(file[..|file| - 1]) + |file[|file| - 1]|
  }

  function Content(file: Option<File>): File {
    if file.Some? then file.value else []
  }

  /** The live file and the numbered generations, generation 1 first; None is a file that does not exist. */
  datatype Log = Log(current: Option<File>, generations: seq<Option<File>>)
  {
    predicate Valid() { |generations| == MAX_EVENT_FILES }

    /** No file is larger than the limit. */
    predicate Bounded() {
      && Size(Content(current)) <= MAX_EVENT_FILE_BYTES
      && (forall n :: 0 <= n < |generations| ==> Size(Content(generations[n])) <= MAX_EVENT_FILE_BYTES)
    }

    /** All records, oldest file first. */
    function Reading(): seq<Record> { Archive(generations) + Content(current) }
  }

  const EMPTY := Log(None, [None, None, None, None, None])

  /** Generations read oldest to newest. */
  function Archive(generations: seq<Option<File>>): seq<Record> {
    if generations == [] then [] else Archive(generations[1..]) + Content(generations[0])
  }

  /** What is written for a payload: its line, or the fixed-size stub that stands for an oversize one. */
  function Written(line: Record, stub: Record): Record {
    if |line| > MAX_EVENT_FILE_BYTES then stub else line
  }

  /** Every file one generation older; the oldest is gone. */
  function Rotated(log: Log): Log
    requires log.Valid()
  {
    Log(None, [log.current] + log.generations[..MAX_EVENT_FILES - 1])
  }

  predicate Overflows(log: Log, record: Record) {
    Size(Content(log.current)) + |record| > MAX_EVENT_FILE_BYTES
  }

  function Append(log: Log, record: Record): Log
    requires log.Valid()
  {
    var base := if Overflows(log, record) then Rotated(log) else log;
    base.(current := Some(Content(base.current) + [record]))
  }

  lemma {:induction false} ArchiveSnoc(generations: seq<Option<File>>, oldest: Option<File>)
    ensures Archive(generations + [oldest]) == Content(oldest) + Archive(generations)
  {
    if generations == [] {
      assert (generations + [oldest])[1..] == [];
    } else {
      assert (generations + [oldest])[1..] == generations[1..] + [oldest];
      ArchiveSnoc(generations[1..], oldest);
    }
  }

  /** Rotating drops exactly the oldest generation from what is read. */
  lemma RotatedReads(log: Log)
    requires log.Valid()
    ensures log.Reading() == Content(log.generations[4]) + Rotated(log).Reading()
  {
    var kept := log.generations[..4];
    assert log.generations == kept + [log.generations[4]];
    ArchiveSnoc(kept, log.generations[4]);
    assert ([log.current] + kept)[1..] == kept;
    assert Rotated(log).Reading() == Archive(kept) + Content(log.current);
  }

  /** What one append drops from the front of the reading. */
  function Dropped(log: Log, record: Record): seq<Record>
    requires log.Valid()
  {
    if Overflows(log, record) then Content(log.generations[4]) else []
  }

  lemma AppendReads(log: Log, record: Record)
    requires log.Valid()
    ensures log.Reading() + [record] == Dropped(log, record) + Append(log, record).Reading()
  {
    if Overflows(log, record) {
      RotatedReads(log);
      assert Append(log, record).Reading() == Rotated(log).Reading() + [record];
    } else {
      assert Append(log, record).Reading() == log.Reading() + [record];
    }
  }

  lemma SizeSnoc(file: File, record: Record)
    ensures Size(file + [record]) == Size(file) + |record|
  {
    assert (file + [record])[..|file|] == file;
  }

  lemma AppendBounded(log: Log, record: Record)
    requires log.Valid() && log.Bounded() && |record| <= MAX_EVENT_FILE_BYTES
    ensures Append(log, record).Valid() && Append(log, record).Bounded()
  {
    var base := if Overflows(log, record) then Rotated(log) else log;
    assert base.Bounded() by {
      forall n | 0 <= n < |base.generations| ensures Size(Content(base.generations[n])) <= MAX_EVENT_FILE_BYTES {
        if Overflows(log, record) && n > 0 { assert base.generations[n] == log.generations[n - 1]; }
      }
    }
    SizeSnoc(Content(base.current), record);
  }

  // ------------------------------------------------------------ whole runs

  function Run(records: seq<Record>): (log: Log)
    ensures log.Valid()
  {
    if records == [] then EMPTY else Append(Run(records[..|records| - 1]), records[|records| - 1])
  }

  /** How many of the oldest records a run has dropped. */
  function Gone(records: seq<Record>): nat {
    if records == [] then 0
    else Gone(records[..|records| - 1]) + |Dropped(Run(records[..|records| - 1]), records[|records| - 1])|
  }

  /** Over any sequence of appends, reading the files oldest to newest gives exactly a suffix of everything appended,
      in order. */
  lemma {:induction false} RunReadsSuffix(records: seq<Record>)
    ensures Gone(records) <= |records| && Run(records).Reading() == records[Gone(records)..]
  {
    if records != [] {
      var n := |records| - 1;
      var init, last := records[..n], records[n];
      RunReadsSuffix(init);
      AppendReads(Run(init), last);
      var k, lost := Gone(init), Dropped(Run(init), last);
      SuffixStep(records, k, lost, Run(records).Reading());
    }
  }

  lemma SuffixStep(records: seq<Record>, k: nat, lost: seq<Record>, reading: seq<Record>)
    requires records != [] && k < |records|
    requires records[..|records| - 1][k..] + [records[|records| - 1]] == lost + reading
    ensures k + |lost| <= |records| && reading == records[k + |lost|..]
  {
    assert records[..|records| - 1][k..] + [records[|records| - 1]] == records[k..];
    assert reading == records[k..][|lost|..];
  }

  /** ... and every file stays within the limit. */
  lemma {:induction false} RunBounded(records: seq<Record>)
    requires forall n :: 0 <= n < |records| ==> |records[n]| <= MAX_EVENT_FILE_BYTES
    ensures Run(records).Bounded()
  {
    if records != [] {
      RunBounded(records[..|records| - 1]);
      AppendBounded(Run(records[..|records| - 1]), records[|records| - 1]);
    }
  }

  /** The newest record is always there to read. */
  lemma {:induction false} NewestSurvives(records: seq<Record>)
    requires records != []
    ensures Gone(records) < |records|
  {
    RunReadsSuffix(records);
    var init, last := records[..|records| - 1], records[|records| - 1];
    var log := Run(records);
    assert log.current.Some? && Content(log.current)[|Content(log.current)| - 1] == last;
    assert log.Reading()[|log.Reading()| - 1] == last;
  }

  // ------------------------------------------------------------ one append, and what is kept

  /** A line that fits is added to the file as it is; one that does not starts a new file, each file takes the next
      number and the fifth is lost. Nothing is rotated while the line fits. */
  lemma AppendExactly(log: Log, record: Record)
    requires |log.generations| == 5
    ensures Size(Content(log.current)) + |record| <= 65536 ==>
              Append(log, record) == Log(Some(Content(log.current) + [record]), log.generations)
    ensures Size(Content(log.current)) + |record| > 65536 ==>
              Append(log, record) == Log(Some([record]), [log.current, log.generations[0], log.generations[1],
                                                         log.generations[2], log.generations[3]])
  {
    var g := log.generations;
    assert Rotated(log).generations == [log.current, g[0], g[1], g[2], g[3]];
    assert [] + [record] == [record];
  }

  /** The size of a file is the sum of the sizes of its lines. */
  lemma {:induction false} SizeAdds(p: File, q: File)
    ensures Size(p + q) == Size(p) + Size(q)
  {
    if q == [] {
      assert p + q == p;
    } else {
      assert (p + q)[..|p + q| - 1] == p + q[..|q| - 1];
      SizeAdds(p, q[..|q| - 1]);
    }
  }

  /** A payload is written as its line up to the limit, and as the stub beyond it. */
  lemma WrittenFits(line: Record, stub: Record)
    requires |stub| <= 65536
    ensures |Written(line, stub)| <= 65536
    ensures Written(line, stub) == line <==> |line| <= 65536 || line == stub
  {
  }

  /** A file and the one that followed it together exceed the limit: the second was begun because its first line did not
      fit the first. */
  ghost predicate Packed(older: Option<File>, newer: Option<File>) {
    Content(older) != [] ==> Size(Content(older)) + Size(Content(newer)) > 65536
  }

  ghost predicate AllPacked(log: Log) {
    && |log.generations| == 5 && Packed(log.generations[0], log.current)
    && (forall n :: 0 <= n < 4 ==> Packed(log.generations[n + 1], log.generations[n]))
  }

  lemma AppendPacked(log: Log, record: Record)
    requires AllPacked(log)
    ensures AllPacked(Append(log, record))
  {
    hide Overflows;
    AppendExactly(log, record);
    SizeSnoc(Content(log.current), record);
    SizeSnoc([], record);
    assert [] + [record] == [record];
    var after := Append(log, record);
    assert forall n :: 0 <= n < 4 ==> Packed(after.generations[n + 1], after.generations[n]);
  }

  lemma {:induction false} RunPacked(records: seq<Record>)
    ensures AllPacked(Run(records))
  {
    if records != [] {
      RunPacked(records[..|records| - 1]);
      AppendPacked(Run(records[..|records| - 1]), records[|records| - 1]);
    }
  }

  lemma ReadingSize(log: Log)
    requires |log.generations| == 5
    ensures var g := log.generations;
            Size(log.Reading()) == Size(Content(g[0])) + Size(Content(g[1])) + Size(Content(g[2])) + Size(Content(g[3]))
                + Size(Content(g[4])) + Size(Content(log.current))
  {
    var g := log.generations;
    ArchiveSize(g);
    ArchiveSize(g[1..]);
    ArchiveSize(g[2..]);
    ArchiveSize(g[3..]);
    ArchiveSize(g[4..]);
    assert g[1..][1..] == g[2..] && g[2..][1..] == g[3..] && g[3..][1..] == g[4..] && g[4..][1..] == [];
    SizeAdds(Archive(g), Content(log.current));
  }

  lemma ArchiveSize(g: seq<Option<File>>)
    requires g != []
    ensures Size(Archive(g)) == Size(Archive(g[1..])) + Size(Content(g[0]))
  {
    SizeAdds(Archive(g[1..]), Content(g[0]));
  }

  lemma EmptySize(file: File)
    ensures file == [] ==> Size(file) == 0
  {
  }

  /** An append that loses lines leaves more than three full files behind. */
  lemma DroppedLate(log: Log, record: Record)
    requires AllPacked(log) && log.Bounded() && Dropped(log, record) != []
    ensures Size(Append(log, record).Reading()) > 3 * 65536
  {
    hide Size;
    var g := log.generations;
    AppendExactly(log, record);
    ReadingSize(Append(log, record));
    SizeSnoc([], record);
    EmptySize([]);
    assert [] + [record] == [record];
    EmptySize(Content(g[3]));
    EmptySize(Content(g[2]));
    EmptySize(Content(g[1]));
    assert Size(Content(g[4])) <= 65536 && Size(Content(g[3])) <= 65536 && Size(Content(g[2])) <= 65536;
    assert Packed(g[3 + 1], g[3]) && Packed(g[2 + 1], g[2]) && Packed(g[1 + 1], g[1]) && Packed(g[0 + 1], g[0]);
  }

  /** Whatever a run appended is still there, or more than three full files of later lines are. */
  lemma {:induction false} LinesKept(records: seq<Record>)
    requires forall n :: 0 <= n < |records| ==> |records[n]| <= 65536
    ensures Gone(records) == 0 || Size(Run(records).Reading()) > 3 * 65536
  {
    if records != [] {
      var n := |records| - 1;
      var init, last := records[..n], records[n];
      LinesKept(init);
      RunPacked(init);
      RunBounded(init);
      if Dropped(Run(init), last) != [] {
        DroppedLate(Run(init), last);
      } else {
        AppendReads(Run(init), last);
        assert [] + Append(Run(init), last).Reading() == Append(Run(init), last).Reading();
        SizeSnoc(Run(init).Reading(), last);
      }
    }
  }

  /** The directory with the files from number i + 1 on already moved up. */
  function Moved(was: seq<Option<File>>, i: nat): seq<Option<File>>
    requires |was| == MAX_EVENT_FILES && i < MAX_EVENT_FILES
  {
    was[..i] + [None] + was[i..4]
  }

  lemma MovedStep(was: seq<Option<File>>, i: nat)
    requires |was| == MAX_EVENT_FILES && i < 4
    ensures var g := Moved(was, i + 1);
            Moved(was, i) == if g[i].Some? then g[i + 1 := g[i]][i := None] else g
  {
    var g, h := Moved(was, i + 1), Moved(was, i);
    var next := if g[i].Some? then g[i + 1 := g[i]][i := None] else g;
    forall n | 0 <= n < 5 ensures next[n] == h[n] {}
  }

  // ------------------------------------------------------------ the log on disk

  class EventFiles {
    var current: Option<File>
    var generations: seq<Option<File>>

    ghost function State(): Log
      reads this
    {
      Log(current, generations)
    }

    constructor ()
      ensures State() == EMPTY
    {
      current, generations := None, [None, None, None, None, None];
    }

    /** The rotation: the oldest file is unlinked, then each file takes the next number, oldest first. */
    method Rotate()
      requires State().Valid()
      modifies this
      ensures State() == Rotated(old(State()))
    {
      ghost var was := generations;
      generations := generations[4 := None];
      for index := MAX_EVENT_FILES - 1 downto 0
        invariant |was| == MAX_EVENT_FILES && current == old(current)
        invariant generations == Moved(was, index)
      {
        MovedStep(was, index);
        // path.{index + 1} moves to path.{index + 2}, which does not exist
        if generations[index].Some? {
          generations := generations[index + 1 := generations[index]][index := None];
        }
      }
      if current.Some? {
        generations := generations[0 := current];
        current := None;
      }
    }

    /** _append_jsonl: rotate when the line would not fit, then append it. */
    method AppendLine(line: Record, stub: Record)
      requires State().Valid()
      modifies this
      ensures State() == Append(old(State()), Written(line, stub))
    {
      var encoded := Written(line, stub);
      if Size(Content(current)) + |encoded| > MAX_EVENT_FILE_BYTES {
        Rotate();
      }
      current := Some(Content(current) + [encoded]);
    }
  }
}
