/** What the locked JSON calls return, in any interleaving (app/atomic_json.py). */
module CallAnswers {
  import opened Text
  import opened PathLocks

  /** The i-th commit is this call's, and its operation makes this object of what the earlier commits had left. */
  ghost predicate Made(initial: map<string, Content>, log: seq<Commit>, i: nat, c: Commit, made: Object)
    requires i < |log|
  {
    var current := Current(Replay(initial, log[..i]), c.key, c.op);
    log[i] == c && current.Some? && Result(c.op, current.value) == Some(made)
  }

  ghost predicate Committed(initial: map<string, Content>, log: seq<Commit>, c: Commit, made: Object) {
    exists i: nat :: i < |log| && Made(initial, log, i, c, made)
  }

  /** What the file held after some number of commits, not fewer than there were when the call was made. */
  ghost predicate Held(initial: map<string, Content>, log: seq<Commit>, since: nat, key: string,
        value: Option<Object>) {
    exists n: nat :: since <= n <= |log| && HeldAt(initial, log, n, key, value)
  }

  ghost predicate HeldAt(initial: map<string, Content>, log: seq<Commit>, n: nat, key: string, value: Option<Object>)
    requires n <= |log|
  {
    value == Found(Replay(initial, log[..n]), key)
  }

  /** A body that returned: an update the object it committed, a write nothing, a read what the file held meanwhile. */
  ghost predicate Answered(initial: map<string, Content>, log: seq<Commit>, since: nat, c: Commit, end: End) {
    end.ok ==>
      match c.op
      case Update(_, _) => end.value.Some? && Committed(initial, log, c, end.value.value)
      case Write(payload) => end.value.None? && Committed(initial, log, c, payload)
      case Read => Held(initial, log, since, c.key, end.value)
  }

  /** A call in flight: what it has replaced it has committed, and what it will return is right. */
  ghost predicate OnCourse(initial: map<string, Content>, log: seq<Commit>, since: nat, c: Commit, pc: Pc) {
    match pc
    case Replaced(next) => Committed(initial, log, c, next)
    case Closing(end) => Answered(initial, log, since, c, end)
    case Unfiled(end) => Answered(initial, log, since, c, end)
    case Leaving(end) => Answered(initial, log, since, c, end)
    case _ => true
  }

  function Since(entered: map<nat, nat>, id: nat): nat {
    if id in entered then entered[id] else 0
  }

  function CallOf(id: nat, f: Frame): Commit {
    Commit(id, f.key, f.op)
  }

  function OverCall(id: nat, o: Outcome): Commit {
    Commit(id, o.key, o.op)
  }

  ghost predicate FramesOnCourse(initial: map<string, Content>, log: seq<Commit>, entered: map<nat, nat>,
        frames: Frames) {
    forall f :: f in frames ==> OnCourse(initial, log, Since(entered, f), CallOf(f, frames[f]), frames[f].pc)
  }

  ghost predicate OverAnswered(initial: map<string, Content>, log: seq<Commit>, entered: map<nat, nat>,
      over: map<nat, Outcome>) {
    forall f :: f in over ==> Answered(initial, log, Since(entered, f), OverCall(f, over[f]), over[f].end)
  }

  ghost predicate AllAnswered(s: State, initial: map<string, Content>) {
    && FramesOnCourse(initial, s.log, s.entered, s.frames) && OverAnswered(initial, s.log, s.entered, s.over)
    && s.frames.Keys <= s.entered.Keys && s.over.Keys <= s.entered.Keys
    && forall id :: id in s.entered ==> s.entered[id] <= |s.log|
  }

  // ------------------------------------------------------------ more commits change no answer

  lemma CommittedLater(initial: map<string, Content>, log: seq<Commit>, d: Commit, c: Commit, made: Object)
    requires Committed(initial, log, c, made)
    ensures Committed(initial, log + [d], c, made)
  {
    var i: nat :| i < |log| && Made(initial, log, i, c, made);
    assert (log + [d])[..i] == log[..i] && (log + [d])[i] == log[i];
    assert Made(initial, log + [d], i, c, made);
  }

  lemma HeldLater(initial: map<string, Content>, log: seq<Commit>, d: Commit, since: nat, key: string,
        value: Option<Object>)
    requires Held(initial, log, since, key, value)
    ensures Held(initial, log + [d], since, key, value)
  {
    var n: nat :| since <= n <= |log| && HeldAt(initial, log, n, key, value);
    assert (log + [d])[..n] == log[..n];
    assert HeldAt(initial, log + [d], n, key, value);
  }

  lemma AnsweredLater(initial: map<string, Content>, log: seq<Commit>, d: Commit, since: nat, c: Commit, end: End)
    requires Answered(initial, log, since, c, end)
    ensures Answered(initial, log + [d], since, c, end)
  {
    hide Committed, Held;
    if end.ok {
      match c.op
      case Update(_, _) => CommittedLater(initial, log, d, c, end.value.value);
      case Write(payload) => CommittedLater(initial, log, d, c, payload);
      case Read => HeldLater(initial, log, d, since, c.key, end.value);
    }
  }

  lemma OnCourseLater(initial: map<string, Content>, log: seq<Commit>, d: Commit, since: nat, c: Commit, pc: Pc)
    requires OnCourse(initial, log, since, c, pc)
    ensures OnCourse(initial, log + [d], since, c, pc)
  {
    hide Committed, Answered;
    match pc
    case Replaced(next) => CommittedLater(initial, log, d, c, next);
    case Closing(end) => AnsweredLater(initial, log, d, since, c, end);
    case Unfiled(end) => AnsweredLater(initial, log, d, since, c, end);
    case Leaving(end) => AnsweredLater(initial, log, d, since, c, end);
    case _ =>
  }

  // ------------------------------------------------------------ every step

  /** Moving one call on without a commit. */
  lemma MovedAnswered(s: State, t: State, initial: map<string, Content>, id: nat)
    requires AllAnswered(s, initial) && id in s.frames
    requires t.log == s.log && t.entered == s.entered && t.over == s.over && t.frames.Keys == s.frames.Keys
    requires forall f :: f in s.frames && f != id ==> t.frames[f] == s.frames[f]
    requires OnCourse(initial, s.log, Since(s.entered, id), CallOf(id, t.frames[id]), t.frames[id].pc)
    ensures AllAnswered(t, initial)
  {
    hide OnCourse, Answered;
  }

  lemma CourseOf(s: State, id: nat, initial: map<string, Content>)
    requires AllAnswered(s, initial) && id in s.frames
    ensures OnCourse(initial, s.log, Since(s.entered, id), CallOf(id, s.frames[id]), s.frames[id].pc)
  {
  }

  lemma ReplaceAnswered(s: State, id: nat, initial: map<string, Content>)
    requires Invariant(s, initial) && AllAnswered(s, initial) && Enabled(s, Replace(id))
    ensures AllAnswered(Do(s, Replace(id)), initial)
  {
    hide Counted, LocksApart, Owned, FilesHeld;
    var t, f := Do(s, Replace(id)), s.frames[id];
    var d := CallOf(id, f);
    assert FrameCurrent(s.disk, s.temps, id, f);
    assert t.log == s.log + [d] && t.log[..|s.log|] == s.log;
    assert Made(initial, t.log, |s.log|, d, f.pc.next);
    forall g | g in t.frames
      ensures OnCourse(initial, t.log, Since(t.entered, g), CallOf(g, t.frames[g]), t.frames[g].pc)
    {
      if g != id { OnCourseLater(initial, s.log, d, Since(s.entered, g), CallOf(g, s.frames[g]), s.frames[g].pc); }
    }
    forall g | g in t.over
        ensures Answered(initial, t.log, Since(t.entered, g), OverCall(g, t.over[g]), t.over[g].end) {
      AnsweredLater(initial, s.log, d, Since(s.entered, g), OverCall(g, s.over[g]), s.over[g].end);
    }
  }

  /** A read finds what the commits so far have left. */
  lemma LookAnswered(s: State, id: nat, initial: map<string, Content>)
    requires Invariant(s, initial) && AllAnswered(s, initial) && Enabled(s, Look(id))
    ensures AllAnswered(Do(s, Look(id)), initial)
  {
    hide Counted, LocksApart, Owned, FilesHeld, UpToDate, FramesOnCourse;
    var t, f := Do(s, Look(id)), s.frames[id];
    assert s.log[..|s.log|] == s.log;
    assert HeldAt(initial, s.log, |s.log|, f.key, Found(s.disk, f.key));
    assert id in s.entered && Since(s.entered, id) <= |s.log|;
    assert Held(initial, s.log, Since(s.entered, id), f.key, Found(s.disk, f.key));
    hide Held, Found;
    MovedAnswered(s, t, initial, id);
  }

  /** A call past its replace is no read. */
  lemma CommittedIsNoRead(initial: map<string, Content>, log: seq<Commit>, c: Commit, made: Object)
    requires Committed(initial, log, c, made)
    ensures !c.op.Read? && (c.op.Write? ==> made == c.op.payload)
  {
    var i: nat :| i < |log| && Made(initial, log, i, c, made);
  }

  /** It returns what it committed. */
  lemma VerifyAnswered(s: State, id: nat, initial: map<string, Content>)
    requires AllAnswered(s, initial) && Enabled(s, Verify(id))
    ensures AllAnswered(Do(s, Verify(id)), initial)
  {
    hide FramesOnCourse, OverAnswered, Committed, Held, Current, Replay;
    var f := s.frames[id];
    CourseOf(s, id, initial);
    CommittedIsNoRead(initial, s.log, CallOf(id, f), f.pc.next);
    MovedAnswered(s, Do(s, Verify(id)), initial, id);
  }

  lemma EnterAnswered(s: State, step: Step, initial: map<string, Content>)
    requires AllAnswered(s, initial) && step.Enter? && Enabled(s, step)
    ensures AllAnswered(Do(s, step), initial)
  {
    hide Answered, ThreadFits;
    var f := DoEnter(s, step);
  }

  lemma LeaveAnswered(s: State, id: nat, initial: map<string, Content>)
    requires AllAnswered(s, initial) && Enabled(s, Leave(id))
    ensures AllAnswered(Do(s, Leave(id)), initial)
  {
    hide Answered, Parted;
    assert OnCourse(initial, s.log, Since(s.entered, id), CallOf(id, s.frames[id]), s.frames[id].pc);
  }

  lemma CrashAnswered(s: State, process: nat, initial: map<string, Content>)
    requires AllAnswered(s, initial)
    ensures AllAnswered(Do(s, Crash(process)), initial)
  {
    hide Answered, OnCourse;
  }

  lemma OtherAnswered(s: State, step: Step, initial: map<string, Content>)
    requires AllAnswered(s, initial) && Enabled(s, step)
    requires !step.Enter? && !step.Leave? && !step.Replace? && !step.Crash? && !step.Look? && !step.Verify?
    ensures AllAnswered(Do(s, step), initial)
  {
    hide FramesOnCourse, Committed, Held;
    CourseOf(s, step.id, initial);
    MovedAnswered(s, Do(s, step), initial, step.id);
  }

  lemma StepAnswered(s: State, step: Step, initial: map<string, Content>)
    requires Invariant(s, initial) && AllAnswered(s, initial) && Enabled(s, step)
    ensures AllAnswered(Do(s, step), initial)
  {
    hide AllAnswered, Invariant, Do;
    match step
    case Enter(_, _, _, _, _) => EnterAnswered(s, step, initial);
    case Leave(id) => LeaveAnswered(s, id, initial);
    case Replace(id) => ReplaceAnswered(s, id, initial);
    case Crash(process) => CrashAnswered(s, process, initial);
    case Look(id) => LookAnswered(s, id, initial);
    case Verify(id) => VerifyAnswered(s, id, initial);
    case _ => OtherAnswered(s, step, initial);
  }

  lemma {:induction false} RunAnswered(s: State, steps: seq<Step>, t: State, initial: map<string, Content>)
    requires Run(s, steps, t) && Invariant(s, initial) && AllAnswered(s, initial)
    ensures AllAnswered(t, initial)
    decreases |steps|
  {
    hide AllAnswered, Invariant, Do;
    if steps != [] {
      StepKeeps(s, steps[0], initial);
      StepAnswered(s, steps[0], initial);
      RunAnswered(Do(s, steps[0]), steps[1..], t, initial);
    }
  }

  /** In every reachable state: an update that returned gave back what its updater made of what the earlier commits
      had left, which is what it committed; a read that returned gave back what the file held at some point during the
      call. */
  lemma CallsAnswered(s: State, steps: seq<Step>, t: State, id: nat)
    requires Initial(s) && Run(s, steps, t) && id in t.over && t.over[id].end.ok
    ensures var o := t.over[id];
            && (o.op.Update? ==>
                  o.end.value.Some? && Committed(s.disk, t.log, Commit(id, o.key, o.op), o.end.value.value))
            && (o.op.Write? ==> o.end.value.None? && Committed(s.disk, t.log, Commit(id, o.key, o.op), o.op.payload))
            && (o.op.Read? ==> id in t.entered && Held(s.disk, t.log, t.entered[id], o.key, o.end.value))
  {
    InitialInvariant(s);
    assert AllAnswered(s, s.disk);
    RunAnswered(s, steps, t, s.disk);
    hide Committed, Held;
    assert Answered(s.disk, t.log, Since(t.entered, id), OverCall(id, t.over[id]), t.over[id].end);
  }
}
