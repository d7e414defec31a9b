/** What a locked call does when nothing interferes, and when it has to wait (app/atomic_json.py). */
module CallsAlone {
  import opened Text
  import opened PathLocks

  /** These steps are possible one after another and lead from s to t. */
  ghost predicate Runs(s: State, steps: seq<Step>, t: State)
    decreases |steps|
  {
    if steps == [] then s == t else Enabled(s, steps[0]) && Runs(Do(s, steps[0]), steps[1..], t)
  }

  lemma RunsStep(s: State, step: Step, rest: seq<Step>, t: State)
    requires Enabled(s, step) && Runs(Do(s, step), rest, t)
    ensures Runs(s, [step] + rest, t)
  {
    assert ([step] + rest)[1..] == rest;
  }

  lemma {:induction false} RunsThrough(s: State, first: seq<Step>, m: State, rest: seq<Step>, t: State)
    requires Runs(s, first, m) && Runs(m, rest, t)
    ensures Runs(s, first + rest, t)
    decreases |first|
  {
    hide Enabled, Do;
    if first == [] {
      assert first + rest == rest;
    } else {
      RunsThrough(Do(s, first[0]), first[1..], m, rest, t);
      RunsStep(s, first[0], first[1..] + rest, t);
      assert first + rest == [first[0]] + (first[1..] + rest);
    }
  }

  /** No call is under way and nothing is locked; the number is new. */
  ghost predicate Idle(s: State, id: nat) {
    && s.frames == map[] && s.registry == map[] && s.owner == map[] && s.fileLock == map[]
    && id !in s.entered && id !in s.temps
  }

  /** The call holds both its locks and nobody else is there. */
  ghost predicate HoldsBoth(s: State, t: State, id: nat, f: Frame) {
    && f.pc == Filed && f.lock == s.nextLock && t.frames == map[id := f]
    && t.registry == map[Place(f.process, f.key) := Entry(s.nextLock, 1)]
    && t.owner == map[s.nextLock := Owner(f.thread, 1)]
    && t.fileLock == map[f.key := id]
    && t.disk == s.disk && t.temps == s.temps && t.log == s.log && t.over == s.over
  }

  // ------------------------------------------------------------ one step of a call that is alone

  lemma DoEnter(s: State, id: nat, process: nat, thread: nat, key: string, op: Op)
    requires Idle(s, id)
    ensures var step := Enter(id, process, thread, key, op);
            && Enabled(s, step)
            && Do(s, step) == s.(registry := map[Place(process, key) := Entry(s.nextLock, 1)],
                                 nextLock := s.nextLock + 1,
                                 frames := map[id := Frame(process, thread, key, s.nextLock, op, Waiting)],
                                 entered := s.entered[id := |s.log|])
  {
  }

  lemma DoAcquire(s: State, id: nat, f: Frame)
    requires s.frames == map[id := f] && f.pc == Waiting && s.owner == map[]
    ensures Enabled(s, Acquire(id))
    ensures Do(s, Acquire(id)) == s.(frames := map[id := f.(pc := Locked)], owner := map[f.lock := Owner(f.thread, 1)])
  {
  }

  lemma DoAcquireFile(s: State, id: nat, f: Frame)
    requires s.frames == map[id := f] && f.pc == Locked && s.fileLock == map[]
    ensures Enabled(s, AcquireFile(id))
    ensures Do(s, AcquireFile(id)) == s.(frames := map[id := f.(pc := Filed)], fileLock := map[f.key := id])
  {
  }

  lemma DoLoad(s: State, id: nat, f: Frame, current: Object)
    requires s.frames == map[id := f] && f.pc == Filed && Current(s.disk, f.key, f.op) == Some(current)
    ensures Enabled(s, Load(id)) && Do(s, Load(id)) == s.(frames := map[id := f.(pc := Loaded(current))])
  {
  }

  lemma DoCompute(s: State, id: nat, f: Frame, current: Object, next: Object)
    requires s.frames == map[id := f] && f.pc == Loaded(current) && Result(f.op, current) == Some(next)
    ensures Enabled(s, Compute(id))
    ensures Do(s, Compute(id)) == s.(frames := map[id := f.(pc := Writing(next, false))], temps := s.temps[id := Torn])
  {
  }

  lemma DoFlush(s: State, id: nat, f: Frame, next: Object)
    requires s.frames == map[id := f] && f.pc == Writing(next, false)
    ensures Enabled(s, Flush(id))
    ensures Do(s, Flush(id))
         == s.(frames := map[id := f.(pc := Writing(next, true))], temps := s.temps[id := Whole(next)])
  {
  }

  lemma DoReplace(s: State, id: nat, f: Frame, next: Object)
    requires s.frames == map[id := f] && f.pc == Writing(next, true) && id in s.temps && s.temps[id] == Whole(next)
    ensures Enabled(s, Replace(id))
    ensures Do(s, Replace(id)) == s.(frames := map[id := f.(pc := Replaced(next))], temps := s.temps - {id},
                                     disk := s.disk[f.key := Whole(next)], log := s.log + [Commit(id, f.key, f.op)])
  {
  }

  lemma DoVerify(s: State, id: nat, f: Frame, next: Object)
    requires s.frames == map[id := f] && f.pc == Replaced(next)
    ensures Enabled(s, Verify(id))
    ensures Do(s, Verify(id))
         == s.(frames := map[id := f.(pc := Closing(End(true, true, if f.op.Update? then Some(next) else None)))])
  {
  }

  lemma DoReleaseFile(s: State, id: nat, f: Frame, end: End)
    requires s.frames == map[id := f] && f.pc == Closing(end) && s.fileLock == map[f.key := id]
    ensures Enabled(s, ReleaseFile(id))
    ensures Do(s, ReleaseFile(id)) == s.(frames := map[id := f.(pc := Unfiled(end))], fileLock := map[])
  {
    assert map[f.key := id] - {f.key} == map[];
  }

  lemma DoRelease(s: State, id: nat, f: Frame, end: End)
    requires s.frames == map[id := f] && f.pc == Unfiled(end) && s.owner == map[f.lock := Owner(f.thread, 1)]
    ensures Enabled(s, Release(id))
    ensures Do(s, Release(id)) == s.(frames := map[id := f.(pc := Leaving(end))], owner := map[])
  {
    assert map[f.lock := Owner(f.thread, 1)] - {f.lock} == map[];
  }

  lemma DoLeave(s: State, id: nat, f: Frame, end: End)
    requires s.frames == map[id := f] && f.pc == Leaving(end)
    requires s.registry == map[Place(f.process, f.key) := Entry(f.lock, 1)]
    ensures Enabled(s, Leave(id))
    ensures Do(s, Leave(id)) == s.(frames := map[], registry := map[], over := s.over[id := Outcome(f.key, f.op, end)])
  {
    assert map[Place(f.process, f.key) := Entry(f.lock, 1)] - {Place(f.process, f.key)} == map[];
    assert map[id := f] - {id} == map[];
  }

  /** Entering and taking both locks. */
  lemma Takes(s: State, id: nat, process: nat, thread: nat, key: string, op: Op) returns (m: State)
    requires Idle(s, id)
    ensures Runs(s, [Enter(id, process, thread, key, op), Acquire(id), AcquireFile(id)], m)
    ensures HoldsBoth(s, m, id, Frame(process, thread, key, s.nextLock, op, Filed))
  {
    DoEnter(s, id, process, thread, key, op);
    hide Enabled, Do;
    var a := Do(s, Enter(id, process, thread, key, op));
    var f := Frame(process, thread, key, s.nextLock, op, Waiting);
    DoAcquire(a, id, f);
    var b := Do(a, Acquire(id));
    DoAcquireFile(b, id, f.(pc := Locked));
    m := Do(b, AcquireFile(id));
    assert Runs(m, [], m);
    RunsStep(b, AcquireFile(id), [], m);
    RunsStep(a, Acquire(id), [AcquireFile(id)] + [], m);
    RunsStep(s, Enter(id, process, thread, key, op), [Acquire(id)] + ([AcquireFile(id)] + []), m);
    assert [Enter(id, process, thread, key, op), Acquire(id), AcquireFile(id)]
        == [Enter(id, process, thread, key, op)] + ([Acquire(id)] + ([AcquireFile(id)] + []));
  }

  /** The call's body is over. */
  ghost predicate BodyOver(s: State, m: State, t: State, id: nat, f: Frame, end: End) {
    && t == m.(frames := map[id := f.(pc := Closing(end))], disk := t.disk, temps := t.temps, log := t.log)
  }

  /** Leaving again. */
  lemma Leaves(s: State, m: State, id: nat, f: Frame, end: End) returns (t: State)
    requires m.frames == map[id := f.(pc := Closing(end))]
    requires m.registry == map[Place(f.process, f.key) := Entry(f.lock, 1)]
    requires m.owner == map[f.lock := Owner(f.thread, 1)]
    requires m.fileLock == map[f.key := id]
    ensures Runs(m, [ReleaseFile(id), Release(id), Leave(id)], t)
    ensures t.frames == map[] && t.registry == map[] && t.owner == map[] && t.fileLock == map[]
    ensures t.disk == m.disk && t.temps == m.temps && t.log == m.log
    ensures t.over == m.over[id := Outcome(f.key, f.op, end)]
  {
    hide Enabled, Do;
    DoReleaseFile(m, id, f.(pc := Closing(end)), end);
    var a := Do(m, ReleaseFile(id));
    DoRelease(a, id, f.(pc := Unfiled(end)), end);
    var b := Do(a, Release(id));
    DoLeave(b, id, f.(pc := Leaving(end)), end);
    t := Do(b, Leave(id));
    assert Runs(t, [], t);
    RunsStep(b, Leave(id), [], t);
    RunsStep(a, Release(id), [Leave(id)] + [], t);
    RunsStep(m, ReleaseFile(id), [Release(id)] + ([Leave(id)] + []), t);
    assert [ReleaseFile(id), Release(id), Leave(id)] == [ReleaseFile(id)] + ([Release(id)] + ([Leave(id)] + []));
  }

  /** What the file gives an operation that replaces it, and what that makes of it: a write its payload, an update the
      updater's answer to the file's object, or to the default where there is no file. */
  ghost predicate Makes(s: State, key: string, op: Op, next: Object) {
    match op
    case Write(payload) => next == payload
    case Update(updater, default) =>
      if key in s.disk then s.disk[key].Whole? && updater(s.disk[key].value) == Some(next)
      else updater(default) == Some(next)
    case Read => false
  }

  /** What the operation starts from. */
  lemma Given(s: State, key: string, op: Op, next: Object) returns (current: Object)
    requires Makes(s, key, op, next)
    ensures Current(s.disk, key, op) == Some(current) && Result(op, current) == Some(next)
  {
    current := Current(s.disk, key, op).value;
  }

  /** From the file to a flushed temporary one. */
  lemma Computes(m: State, id: nat, f: Frame, current: Object, next: Object) returns (t: State)
    requires m.frames == map[id := f] && f.pc == Filed
    requires Current(m.disk, f.key, f.op) == Some(current) && Result(f.op, current) == Some(next)
    ensures Runs(m, [Load(id), Compute(id), Flush(id)], t)
    ensures t == m.(frames := map[id := f.(pc := Writing(next, true))], temps := m.temps[id := Whole(next)])
  {
    hide Enabled, Do, Current, Result;
    DoLoad(m, id, f, current);
    var a := Do(m, Load(id));
    DoCompute(a, id, f.(pc := Loaded(current)), current, next);
    var b := Do(a, Compute(id));
    DoFlush(b, id, f.(pc := Writing(next, false)), next);
    t := Do(b, Flush(id));
    var tail2: seq<Step> := [Flush(id)] + [];
    var tail1 := [Compute(id)] + tail2;
    assert Runs(t, [], t);
    RunsStep(b, Flush(id), [], t);
    RunsStep(a, Compute(id), tail2, t);
    RunsStep(m, Load(id), tail1, t);
    assert [Load(id), Compute(id), Flush(id)] == [Load(id)] + tail1;
  }

  /** From there to the replaced file, read back. */
  lemma Commits(m: State, id: nat, f: Frame, next: Object) returns (t: State)
    requires m.frames == map[id := f] && f.pc == Writing(next, true) && id in m.temps && m.temps[id] == Whole(next)
    ensures Runs(m, [Replace(id), Verify(id)], t)
    ensures t == m.(frames := map[id := f.(pc := Closing(End(true, true, if f.op.Update? then Some(next) else None)))],
                    temps := m.temps - {id}, disk := m.disk[f.key := Whole(next)],
                    log := m.log + [Commit(id, f.key, f.op)])
  {
    hide Enabled, Do;
    DoReplace(m, id, f, next);
    var a := Do(m, Replace(id));
    DoVerify(a, id, f.(pc := Replaced(next)), next);
    t := Do(a, Verify(id));
    assert Runs(t, [], t);
    RunsStep(a, Verify(id), [], t);
    RunsStep(m, Replace(id), [Verify(id)] + [], t);
    assert [Replace(id), Verify(id)] == [Replace(id)] + ([Verify(id)] + []);
  }

  /** The replacing steps under both locks. */
  lemma Replaces(s: State, m: State, id: nat, f: Frame, next: Object) returns (t: State)
    requires m.frames == map[id := f] && f.pc == Filed && m.disk == s.disk && id !in m.temps
    requires Makes(s, f.key, f.op, next)
    ensures Runs(m, [Load(id), Compute(id), Flush(id)] + [Replace(id), Verify(id)], t)
    ensures t == m.(frames := map[id := f.(pc := Closing(End(true, true, if f.op.Update? then Some(next) else None)))],
                    disk := s.disk[f.key := Whole(next)], log := m.log + [Commit(id, f.key, f.op)])
  {
    hide Enabled, Do, Current, Result, Runs;
    var current := Given(s, f.key, f.op, next);
    var c := Computes(m, id, f, current, next);
    t := Commits(c, id, f.(pc := Writing(next, true)), next);
    assert c.temps - {id} == m.temps;
    RunsThrough(m, [Load(id), Compute(id), Flush(id)], c, [Replace(id), Verify(id)], t);
  }

  /** How a call ends up: the locks are free again, the file holds this, and the call's outcome is recorded. */
  ghost predicate EndsWith(s: State, t: State, id: nat, key: string, op: Op, disk: map<string, Content>, end: End) {
    && t.frames == map[] && t.registry == map[] && t.owner == map[] && t.fileLock == map[] && t.temps == s.temps
    && t.disk == disk && t.over == s.over[id := Outcome(key, op, end)]
    && t.log == if end.replaced then s.log + [Commit(id, key, op)] else s.log
  }

  /** A write or update with nothing in its way runs through, leaves its object in the file, and an update returns
      it. */
  lemma ReplacesAlone(s: State, id: nat, process: nat, thread: nat, key: string, op: Op, next: Object)
      returns (t: State)
    requires Idle(s, id) && Makes(s, key, op, next)
    ensures Runs(s, [Enter(id, process, thread, key, op), Acquire(id), AcquireFile(id)]
                      + (([Load(id), Compute(id), Flush(id)] + [Replace(id), Verify(id)])
                         + [ReleaseFile(id), Release(id), Leave(id)]), t)
    ensures EndsWith(s, t, id, key, op, s.disk[key := Whole(next)],
              End(true, true, if op.Update? then Some(next) else None))
  {
    hide Enabled, Do;
    var f := Frame(process, thread, key, s.nextLock, op, Filed);
    var m := Takes(s, id, process, thread, key, op);
    var n := Replaces(s, m, id, f, next);
    t := Leaves(s, n, id, f, End(true, true, if op.Update? then Some(next) else None));
    RunsThrough(m, [Load(id), Compute(id), Flush(id)] + [Replace(id), Verify(id)], n,
                [ReleaseFile(id), Release(id), Leave(id)], t);
    RunsThrough(s, [Enter(id, process, thread, key, op), Acquire(id), AcquireFile(id)], m,
                ([Load(id), Compute(id), Flush(id)] + [Replace(id), Verify(id)])
                + [ReleaseFile(id), Release(id), Leave(id)], t);
  }

  /** A read with nothing in its way returns what the file holds, nothing where there is no file, and leaves it
      alone. */
  lemma ReadsAlone(s: State, id: nat, process: nat, thread: nat, key: string) returns (t: State)
    requires Idle(s, id) && (key in s.disk ==> s.disk[key].Whole?)
    ensures Runs(s, [Enter(id, process, thread, key, Read), Acquire(id), AcquireFile(id)]
                      + ([Look(id)] + [ReleaseFile(id), Release(id), Leave(id)]), t)
    ensures EndsWith(s, t, id, key, Read, s.disk,
              End(false, true, if key in s.disk then Some(s.disk[key].value) else None))
  {
    var f := Frame(process, thread, key, s.nextLock, Read, Filed);
    var m := Takes(s, id, process, thread, key, Read);
    var end := End(false, true, if key in s.disk then Some(s.disk[key].value) else None);
    var n := Do(m, Look(id));
    assert Runs(n, [], n);
    RunsStep(m, Look(id), [], n);
    hide Enabled, Do;
    t := Leaves(s, n, id, f, end);
    assert [Look(id)] + [] == [Look(id)];
    RunsThrough(m, [Look(id)], n, [ReleaseFile(id), Release(id), Leave(id)], t);
    RunsThrough(s, [Enter(id, process, thread, key, Read), Acquire(id), AcquireFile(id)], m,
                [Look(id)] + [ReleaseFile(id), Release(id), Leave(id)], t);
  }

  /** What a call may do next once it holds both locks: a torn file lets nothing but a write begin, an updater without
      an answer goes no further, and failing is always possible. */
  lemma BodyExactly(s: State, id: nat)
    requires id in s.frames && s.frames[id].pc.Filed?
    ensures var f := s.frames[id];
            && (Enabled(s, Load(id)) <==> f.op.Write? || (f.op.Update? && (f.key in s.disk ==> s.disk[f.key].Whole?)))
            && (Enabled(s, Look(id)) <==> f.op.Read? && (f.key in s.disk ==> s.disk[f.key].Whole?))
            && Enabled(s, Fail(id))
    ensures Enabled(s, Load(id)) ==>
              var f, t := s.frames[id], Do(s, Load(id));
              && t == s.(frames := t.frames) && t.frames.Keys == s.frames.Keys && t.frames[id].pc.Loaded?
              && (f.op.Update? ==>
                    t.frames[id].pc.current == if f.key in s.disk then s.disk[f.key].value else f.op.default)
  {
  }

  lemma ComputeExactly(s: State, id: nat)
    requires id in s.frames && s.frames[id].pc.Loaded? && s.frames[id].op.Update?
    ensures Enabled(s, Compute(id)) <==> s.frames[id].op.updater(s.frames[id].pc.current).Some?
    ensures Enabled(s, Fail(id))
  {
  }

  /** A failed call leaves every file as it is. */
  lemma FailKeeps(s: State, id: nat)
    requires Enabled(s, Fail(id))
    ensures Do(s, Fail(id)).disk == s.disk && Do(s, Fail(id)).log == s.log
    ensures Do(s, Fail(id)).frames[id].pc.Closing? && !Do(s, Fail(id)).frames[id].pc.end.ok
  {
  }

  // ------------------------------------------------------------ waiting

  /** A call may always enter under a new number, as long as its thread has no call open in another process. */
  lemma EnterExactly(s: State, id: nat, process: nat, thread: nat, key: string, op: Op)
    requires id !in s.entered && id !in s.frames && id !in s.temps
    ensures Enabled(s, Enter(id, process, thread, key, op)) <==>
              forall g :: g in s.frames && s.frames[g].process != process ==> s.frames[g].thread != thread
  {
  }

  /** A call that is inside the same path in the same process. */
  predicate InsideSame(g: Frame, f: Frame) {
    g.process == f.process && g.key == f.key && !g.pc.Waiting? && !g.pc.Leaving?
  }

  /** A registered call gets the thread lock exactly when every call that is inside the same path in the same process is
      of its own thread. */
  lemma AcquireExactly(s: State, initial: map<string, Content>, id: nat)
    requires Invariant(s, initial) && id in s.frames && s.frames[id].pc.Waiting?
    ensures Enabled(s, Acquire(id)) <==>
        forall g :: g in s.frames && InsideSame(s.frames[g], s.frames[id]) ==> s.frames[g].thread == s.frames[id].thread
  {
    hide UpToDate, FilesHeld, Replay;
    var f := s.frames[id];
    SameLock(s, initial, id);
    if f.lock in s.owner {
      assert Holders(s.frames, f.lock) != {};
      var h :| h in Holders(s.frames, f.lock);
      assert s.frames[h].thread == s.owner[f.lock].thread;
    } else {
      assert Holders(s.frames, f.lock) == {};
      forall g | g in s.frames && s.frames[g].lock == f.lock ensures !HoldsThread(s.frames[g].pc) {
        assert g !in Holders(s.frames, f.lock);
      }
    }
    forall g | g in s.frames && s.frames[g].lock == f.lock && HoldsThread(s.frames[g].pc)
      ensures f.lock in s.owner && s.frames[g].thread == s.owner[f.lock].thread
    {
      assert g in Holders(s.frames, f.lock);
    }
  }

  /** Calls share a lock exactly when they are on the same path in the same process. */
  lemma SameLock(s: State, initial: map<string, Content>, id: nat)
    requires Invariant(s, initial) && id in s.frames
    ensures forall g :: g in s.frames ==>
        (s.frames[g].lock == s.frames[id].lock <==>
           s.frames[g].process == s.frames[id].process && s.frames[g].key == s.frames[id].key)
  {
    hide Owned, UpToDate, FilesHeld, Replay;
    forall g | g in s.frames
      ensures s.frames[g].lock == s.frames[id].lock <==>
                s.frames[g].process == s.frames[id].process && s.frames[g].key == s.frames[id].key
    {
      assert Slot(s.frames[g]) in s.registry && Slot(s.frames[id]) in s.registry;
      assert s.registry[Slot(s.frames[g])].lock == s.frames[g].lock;
      assert s.registry[Slot(s.frames[id])].lock == s.frames[id].lock;
    }
  }

  /** It then gets the file lock exactly when no call of any process holds that of the path. */
  lemma AcquireFileExactly(s: State, initial: map<string, Content>, id: nat)
    requires Invariant(s, initial) && id in s.frames && s.frames[id].pc.Locked?
    ensures Enabled(s, AcquireFile(id)) <==>
              forall g :: g in s.frames && s.frames[g].key == s.frames[id].key ==> !HoldsFile(s.frames[g].pc)
    ensures Enabled(s, GiveUpFile(id))
  {
    hide UpToDate, Owned, Counted, LocksApart, Replay;
  }
}
