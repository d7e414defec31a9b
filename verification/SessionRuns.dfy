/** The session operations at their lock sections, in any interleaving (app/interactive_session_manager.py). */
module SessionRuns {
  import opened Text
  import opened Sessions

  /** How far the call that holds the active lock has come; everything else is one section under the state lock. */
  datatype Stage = Free | OpenAdmitted(o: Opening) | OpenSaved(id: string)
                 | CloseBegun(closing: string, c: Command) | CloseSaved(closed: string)

  datatype System = System(store: Store, stage: Stage)

  datatype Step =
    | Swept(expired: set<string>)
    | Reaped(limit: int, failing: set<string>)
    | OpenChecks(o: Opening)
    | OpenSaves
    | OpenPublishes
    | CloseBegins(id: string, c: Command)
    | CloseSaves
    | CloseClears
    | BreaksOff
    | Recorded(id: string, c: Command)
    | Updated(id: string, state: Option<string>, runtime: Option<Runtime>, now: nat)
    | Saved(id: string, draft: Session, carried: Option<nat>, now: nat)

  function OpenChecked(s: System, o: Opening): System {
    if s.stage.Free? && Strip(o.id) != "" && !ActiveIsLive(s.store) then s.(stage := OpenAdmitted(o)) else s
  }

  function OpenSave(s: System): System {
    if !s.stage.OpenAdmitted? then s
    else
      var id := Strip(s.stage.o.id);
      if id in s.store.sessions then s.(stage := Free)
      else System(s.store.(sessions := s.store.sessions[id := NewSession(s.stage.o)]), OpenSaved(id))
  }

  function CloseSave(s: System): System {
    if !s.stage.CloseBegun? then s
    else if s.stage.closing !in s.store.sessions then s.(stage := Free)
    else System(RecordSaved(s.store, s.stage.closing, s.stage.c), CloseSaved(s.stage.closing))
  }

  function CloseClear(s: System): System {
    if !s.stage.CloseSaved? then s
    else System(if s.store.active == Some(s.stage.closed) then s.store.(active := None) else s.store, Free)
  }

  /** One section; a section whose lock is held by another call waits, which is a step that changes nothing. */
  function Apply(s: System, step: Step): System {
    match step
    case Swept(expired) => s.(store := Sweep(s.store, expired))
    case Reaped(limit, failing) => if s.stage.Free? then s.(store := Reap(s.store, limit, failing)) else s
    case OpenChecks(o) => OpenChecked(s, o)
    case OpenSaves => OpenSave(s)
    case OpenPublishes => if s.stage.OpenSaved? then System(s.store.(active := Some(s.stage.id)), Free) else s
    case CloseBegins(id, c) => if s.stage.Free? && c.name == "close" then s.(stage := CloseBegun(id, c)) else s
    case CloseSaves => CloseSave(s)
    case CloseClears => CloseClear(s)
    case BreaksOff => s.(stage := Free)
    case Recorded(id, c) =>
      if c.name != "close" && id in s.store.sessions then s.(store := RecordSaved(s.store, id, c)) else s
    case Updated(id, state, runtime, now) => s.(store := Update(s.store, id, state, runtime, now).0)
    case Saved(id, draft, carried, now) => s.(store := Save(s.store, id, draft, carried, now).0)
  }

  function Run(s: System, steps: seq<Step>): System
    decreases |steps|
  {
    if steps == [] then s else Run(Apply(s, steps[0]), steps[1..])
  }

  lemma {:induction false} RunOn(s: System, steps: seq<Step>, more: seq<Step>)
    ensures Run(s, steps + more) == Run(Run(s, steps), more)
    decreases |steps|
  {
    hide Apply;
    if steps == [] {
      assert [] + more == more;
    } else {
      RunOn(Apply(s, steps[0]), steps[1..], more);
      assert (steps + more)[1..] == steps[1..] + more;
    }
  }

  // ------------------------------------------------------------ calls that nothing interrupts

  /** The sections of open_session, in order. */
  function OpenSections(o: Opening): seq<Step> {
    [Swept(o.expired), Reaped(MAX_SETTLED_SESSIONS, o.failing)]
    + [OpenChecks(o), OpenSaves, if o.fault then BreaksOff else OpenPublishes]
  }

  /** The sections of a close. */
  function CloseSections(id: string, c: Command): seq<Step> {
    [CloseBegins(id, c), CloseSaves, if c.fault then BreaksOff else CloseClears]
  }

  lemma RunTwo(s: System, x: Step, y: Step)
    ensures Run(s, [x, y]) == Apply(Apply(s, x), y)
  {
    hide Apply;
    assert [x, y][1..] == [y] && [y][1..] == [];
    assert Run(Apply(s, x), [y]) == Run(Apply(Apply(s, x), y), []);
  }

  lemma RunThree(s: System, x: Step, y: Step, z: Step)
    ensures Run(s, [x, y, z]) == Apply(Apply(Apply(s, x), y), z)
  {
    hide Apply;
    assert [x, y, z][1..] == [y, z];
    RunTwo(Apply(s, x), y, z);
  }

  lemma OpenTail(base: Store, o: Opening)
    ensures var id, last := Strip(o.id), if o.fault then BreaksOff else OpenPublishes;
            Apply(Apply(Apply(System(base, Free), OpenChecks(o)), OpenSaves), last)
            == if id == "" || ActiveIsLive(base) || id in base.sessions then System(base, Free)
               else
                 var saved := base.(sessions := base.sessions[id := NewSession(o)]);
                 System(if o.fault then saved else saved.(active := Some(id)), Free)
  {
    hide Strip, ActiveIsLive, NewSession, Sweep, Reap;
  }

  /** An open whose sections follow each other has the effect of the whole operation. */
  lemma OpenInOnePiece(s: Store, o: Opening)
    ensures Run(System(s, Free), OpenSections(o)) == System(Open(s, o).0, Free)
  {
    var clean := [Swept(o.expired), Reaped(MAX_SETTLED_SESSIONS, o.failing)];
    var last := if o.fault then BreaksOff else OpenPublishes;
    hide Run, Strip, Reap, Sweep, ActiveIsLive, NewSession;
    RunOn(System(s, Free), clean, [OpenChecks(o), OpenSaves, last]);
    RunTwo(System(s, Free), clean[0], clean[1]);
    assert Apply(Apply(System(s, Free), clean[0]), clean[1]) == System(Cleaned(s, o), Free);
    hide Apply, Cleaned;
    RunThree(System(Cleaned(s, o), Free), OpenChecks(o), OpenSaves, last);
    OpenTail(Cleaned(s, o), o);
  }

  /** So has a close. */
  lemma CloseInOnePiece(s: Store, id: string, c: Command)
    requires c.name == "close" && Resolved(s, c.id) == Some(id)
    ensures Run(System(s, Free), CloseSections(id, c)) == System(Record(s, c).0, Free)
  {
    RunThree(System(s, Free), CloseBegins(id, c), CloseSaves, if c.fault then BreaksOff else CloseClears);
  }

  /** A command that is no close, an update and a save are one section each, whatever open or close is under way. */
  lemma SectionsInOnePiece(s: System, id: string, c: Command, state: Option<string>, runtime: Option<Runtime>,
      draft: Session, carried: Option<nat>, now: nat)
    ensures c.name != "close" && Resolved(s.store, c.id) == Some(id) ==>
              Apply(s, Recorded(id, c)) == System(Record(s.store, c).0, s.stage)
    ensures Apply(s, Updated(id, state, runtime, now)) == System(Update(s.store, id, state, runtime, now).0, s.stage)
    ensures Apply(s, Saved(id, draft, carried, now)) == System(Save(s.store, id, draft, carried, now).0, s.stage)
  {
  }

  /** While one call holds the active lock no other open or close begins, and the reaper waits. */
  lemma ActiveLockExcludes(s: System, step: Step)
    requires !s.stage.Free? && (step.OpenChecks? || step.CloseBegins? || step.Reaped?)
    ensures Apply(s, step) == s
  {
  }

  // ------------------------------------------------------------ at most one live session

  /** No session but the given one is live. */
  ghost predicate LiveOnly(s: Store, named: Option<string>) {
    forall id :: id in s.sessions && s.sessions[id].Live() ==> named == Some(id)
  }

  /** The session that may be live: the one the active record names; during an open none, then the one it stored. */
  function MayLive(s: System): Option<string> {
    match s.stage
    case OpenAdmitted(_) => None
    case OpenSaved(id) => Some(id)
    case _ => s.store.active
  }

  ghost predicate Kept(s: System) {
    LiveOnly(s.store, MayLive(s))
  }

  /** Whether a step leaves session id live with the given state only where it may be. */
  predicate Allowed(s: System, id: string, state: string) {
    Terminal(state) || MayLive(s) == Some(id)
  }

  /** A stored session is live. */
  predicate LiveAt(s: Store, id: string) {
    id in s.sessions && s.sessions[id].Live()
  }

  /** The condition of each step, on what it finds. */
  predicate Calm(s: System, step: Step) {
    match step
    case CloseSaves =>
      s.stage.CloseBegun? && s.stage.closing in s.store.sessions ==>
        Allowed(s, s.stage.closing, RecordedState(s.store.sessions[s.stage.closing].state, s.stage.c))
    case CloseClears => s.stage.CloseSaved? && s.store.active == Some(s.stage.closed) ==>
        !LiveAt(s.store, s.stage.closed)
    case BreaksOff => s.stage.OpenSaved? && LiveAt(s.store, s.stage.id) ==> s.store.active == Some(s.stage.id)
    case Recorded(id, c) =>
      c.name != "close" && id in s.store.sessions ==> Allowed(s, id, RecordedState(s.store.sessions[id].state, c))
    case Updated(id, state, _, _) => id in s.store.sessions && state.Some? ==> Allowed(s, id, state.value)
    case Saved(id, draft, carried, _) =>
      Strip(id) == "" || StaleDraft(carried, Stored(s.store, Strip(id))) || Allowed(s, Strip(id), draft.state)
    case _ => true
  }

  /** Storing a session keeps the others. */
  lemma StoredExact(s: Store, id: string, session: Session, named: Option<string>)
    requires LiveOnly(s, named)
    ensures LiveOnly(s.(sessions := s.sessions[id := session]), named) <==> Terminal(session.state) || named == Some(id)
  {
    var t := s.(sessions := s.sessions[id := session]);
    assert id in t.sessions && t.sessions[id] == session;
  }

  lemma CleaningKeeps(s: Store, step: Step, named: Option<string>)
    requires LiveOnly(s, named)
    ensures step.Swept? ==> LiveOnly(Sweep(s, step.expired), named)
    ensures step.Reaped? ==> LiveOnly(Reap(s, step.limit, step.failing), named)
    ensures step.Reaped? ==> Reap(s, step.limit, step.failing).active == s.active
  {
    if step.Swept? { SweepKeeps(s, step.expired); }
    if step.Reaped? {
      hide Taken;
      ReapKeeps(s, step.limit, step.failing);
    }
  }

  lemma OpenStepExact(s: System, step: Step)
    requires Kept(s) && (step.OpenChecks? || step.OpenSaves? || step.OpenPublishes? || step.BreaksOff?)
    ensures Kept(Apply(s, step)) <==> Calm(s, step)
  {
    hide Strip, Reap, Sweep;
    if step.OpenSaves? && s.stage.OpenAdmitted? {
      var id := Strip(s.stage.o.id);
      assert LiveOnly(s.store, Some(id));
      StoredExact(s.store, id, NewSession(s.stage.o), Some(id));
    }
  }

  lemma CloseStepExact(s: System, step: Step)
    requires Kept(s) && (step.CloseBegins? || step.CloseSaves? || step.CloseClears?)
    ensures Kept(Apply(s, step)) <==> Calm(s, step)
  {
    hide Strip, Reap, Sweep;
    if step.CloseSaves? && s.stage.CloseBegun? && s.stage.closing in s.store.sessions {
      var id, was := s.stage.closing, s.store.sessions[s.stage.closing];
      StoredExact(s.store, id, SavedOver(RecordedSession(was, s.stage.c), Some(was), s.stage.c.now), MayLive(s));
    }
  }

  /** Every section keeps "only that session is live" exactly under its own condition. */
  lemma StepExact(s: System, step: Step)
    requires Kept(s)
    ensures Kept(Apply(s, step)) <==> Calm(s, step)
  {
    hide Strip, Reap, Sweep, OpenChecked, OpenSave, CloseSave, CloseClear;
    match step
    case Swept(_) => SweepKeeps(s.store, step.expired); CleaningKeeps(s.store, step, MayLive(s));
    case Reaped(_, _) => CleaningKeeps(s.store, step, MayLive(s));
    case Recorded(id, c) =>
      if id in s.store.sessions {
        var was := s.store.sessions[id];
        StoredExact(s.store, id, SavedOver(RecordedSession(was, c), Some(was), c.now), MayLive(s));
      }
    case Updated(id, state, runtime, now) =>
      if id in s.store.sessions {
        var was := s.store.sessions[id];
        var draft := WithRuntime(was, runtime);
        StoredExact(s.store, id,
            SavedOver(if state.Some? then draft.(state := state.value) else draft, Some(was), now), MayLive(s));
      }
    case Saved(id, draft, carried, now) =>
      StoredExact(s.store, Strip(id), SavedOver(draft, Stored(s.store, Strip(id)), now), MayLive(s));
    case CloseBegins(_, _) => CloseStepExact(s, step);
    case CloseSaves => CloseStepExact(s, step);
    case CloseClears => CloseStepExact(s, step);
    case _ => OpenStepExact(s, step);
  }

  // ------------------------------------------------------------ whole runs

  predicate AllCalm(s: System, steps: seq<Step>)
    decreases |steps|
  {
    steps == [] || (Calm(s, steps[0]) && AllCalm(Apply(s, steps[0]), steps[1..]))
  }

  /** At most one session is live. */
  ghost predicate OneLive(s: Store) {
    forall a, b :: LiveAt(s, a) && LiveAt(s, b) ==> a == b
  }

  /** After any interleaving of such sections at most one session is live, and with no open or close under way it is
      the one the active record names. */
  lemma {:induction false} AtMostOneLive(s: System, steps: seq<Step>)
    requires Kept(s) && AllCalm(s, steps)
    ensures Kept(Run(s, steps)) && OneLive(Run(s, steps).store)
    decreases |steps|
  {
    hide Apply, Calm;
    if steps != [] {
      StepExact(s, steps[0]);
      AtMostOneLive(Apply(s, steps[0]), steps[1..]);
    }
  }

  // ------------------------------------------------------------ what a caller can see to

  /** A state a caller gives: terminal, or for a session that is live. */
  predicate Revives(s: Store, id: string, state: string) {
    !Terminal(state) && !LiveAt(s, id)
  }

  /** The caller gives no live state to a terminal or unknown session, nor to a close; and no open breaks off after
      its save. */
  predicate Gentle(s: System, step: Step) {
    match step
    case CloseBegins(_, c) => c.failed || c.state.None? || Terminal(c.state.value)
    case BreaksOff => !s.stage.OpenSaved?
    case Recorded(id, c) =>
      id in s.store.sessions ==> !Revives(s.store, id, RecordedState(s.store.sessions[id].state, c))
    case Updated(id, state, _, _) => id in s.store.sessions && state.Some? ==> !Revives(s.store, id, state.value)
    case Saved(id, draft, carried, _) =>
      Strip(id) == "" || StaleDraft(carried, Stored(s.store, Strip(id))) || !Revives(s.store, Strip(id), draft.state)
    case _ => true
  }

  predicate AllGentle(s: System, steps: seq<Step>)
    decreases |steps|
  {
    steps == [] || (Gentle(s, steps[0]) && AllGentle(Apply(s, steps[0]), steps[1..]))
  }

  /** What gentle steps keep of a close under way. */
  predicate ClosesDown(s: System) {
    && (s.stage.CloseBegun? ==> s.stage.c.name == "close" && Gentle(s, CloseBegins(s.stage.closing, s.stage.c)))
    && (s.stage.CloseSaved? ==> !LiveAt(s.store, s.stage.closed))
  }

  lemma GentleIsCalm(s: System, step: Step)
    requires Kept(s) && ClosesDown(s) && Gentle(s, step)
    ensures Calm(s, step)
  {
  }

  lemma GentleClosesDown(s: System, step: Step)
    requires ClosesDown(s) && Gentle(s, step)
    ensures ClosesDown(Apply(s, step))
  {
    hide Strip, Taken;
    match step
    case Reaped(limit, failing) => ReapKeeps(s.store, limit, failing);
    case _ =>
  }

  /** However callers that do so interleave, at most one session is live at every point. */
  lemma {:induction false} GentleCallers(s: System, steps: seq<Step>)
    requires Kept(s) && ClosesDown(s) && AllGentle(s, steps)
    ensures Kept(Run(s, steps)) && OneLive(Run(s, steps).store)
    decreases |steps|
  {
    hide Apply, Calm, Gentle, ClosesDown;
    if steps != [] {
      GentleIsCalm(s, steps[0]);
      StepExact(s, steps[0]);
      GentleClosesDown(s, steps[0]);
      GentleCallers(Apply(s, steps[0]), steps[1..]);
    }
  }

  /** An update that gives a state is harmless whatever holds the active lock exactly when it revives nothing. */
  lemma UpdateExact(s: System, id: string, state: string, runtime: Option<Runtime>, now: nat)
    requires Kept(s) && id in s.store.sessions
    ensures (forall stage :: Kept(System(s.store, stage)) ==>
               Kept(Apply(System(s.store, stage), Updated(id, Some(state), runtime, now))))
            <==> !Revives(s.store, id, state)
  {
    var step := Updated(id, Some(state), runtime, now);
    hide Strip, Apply;
    forall stage | Kept(System(s.store, stage))
      ensures Kept(Apply(System(s.store, stage), step)) <==> Allowed(System(s.store, stage), id, state)
    {
      StepExact(System(s.store, stage), step);
    }
    if Revives(s.store, id, state) {
      var admitted := OpenAdmitted(Opening("", {}, {}, 0, false, false, false));
      if Allowed(s, id, state) {
        assert Kept(System(s.store, admitted)) && !Allowed(System(s.store, admitted), id, state);
      }
    } else {
      forall stage | Kept(System(s.store, stage)) ensures Allowed(System(s.store, stage), id, state) {
        assert LiveAt(s.store, id) ==> MayLive(System(s.store, stage)) == Some(id);
      }
    }
  }

  // ------------------------------------------------------------ an update between the check and the save of an open

  const FAILED_A: Session := Session("failed", 2, IDLE, false, None, 0)
  const OPEN_B: Opening := Opening("b", {}, {}, 0, false, false, false)

  /** Session a has failed and the active record still names it; an open of b passes its check, an update makes a
      ready again, and the open stores and publishes b: two sessions are live, although the update itself found a
      named and was harmless with no open under way. */
  lemma UpdateDuringOpen()
    ensures var start := System(Store(map["a" := FAILED_A], Some("a")), Free);
            var revive := Updated("a", Some("ready"), None, 1);
            var end := Run(start, [OpenChecks(OPEN_B), revive, OpenSaves, OpenPublishes]);
            && Kept(start) && Calm(start, revive) && LiveAt(end.store, "a") && LiveAt(end.store, "b")
  {
    var start := System(Store(map["a" := FAILED_A], Some("a")), Free);
    var revive := Updated("a", Some("ready"), None, 1);
    var steps := [OpenChecks(OPEN_B), revive];
    assert steps + [OpenSaves, OpenPublishes] == [OpenChecks(OPEN_B), revive, OpenSaves, OpenPublishes];
    RunOn(start, steps, [OpenSaves, OpenPublishes]);
    RunTwo(start, OpenChecks(OPEN_B), revive);
    RunTwo(Run(start, steps), OpenSaves, OpenPublishes);
    assert Strip("b") == "b";
    hide Run, Strip;
  }

  // ------------------------------------------------------------ terminal sessions

  /** No caller hands a live state to this session. */
  predicate NotRevived(s: System, step: Step, id: string) {
    match step
    case CloseSaves =>
      s.stage.CloseBegun? && s.stage.closing == id && id in s.store.sessions ==>
        Terminal(RecordedState(s.store.sessions[id].state, s.stage.c))
    case Recorded(other, c) => other != id || c.failed || c.state.None? || Terminal(c.state.value)
    case Updated(other, state, _, _) => other != id || state.None? || Terminal(state.value)
    case Saved(other, draft, _, _) => Strip(other) != id || Terminal(draft.state)
    case _ => true
  }

  predicate NeverRevived(s: System, steps: seq<Step>, id: string)
    decreases |steps|
  {
    steps == [] || (NotRevived(s, steps[0], id) && NeverRevived(Apply(s, steps[0]), steps[1..], id))
  }

  /** Sessions a step deletes. */
  function Removed(s: System, step: Step): set<string> {
    if step.Reaped? && s.stage.Free? then Taken(s.store, step.limit, step.failing) else {}
  }

  predicate NeverRemoved(s: System, steps: seq<Step>, id: string)
    decreases |steps|
  {
    steps == [] || (id !in Removed(s, steps[0]) && NeverRemoved(Apply(s, steps[0]), steps[1..], id))
  }

  lemma TerminalStep(s: System, step: Step, id: string)
    requires id in s.store.sessions && Terminal(s.store.sessions[id].state)
    requires id !in Removed(s, step) && NotRevived(s, step, id)
    ensures id in Apply(s, step).store.sessions && Terminal(Apply(s, step).store.sessions[id].state)
  {
    hide Taken, Strip;
  }

  /** A settled session stays settled in every run, unless it is removed or a caller names a live state for it. */
  lemma {:induction false} TerminalForGood(s: System, steps: seq<Step>, id: string)
    requires id in s.store.sessions && Terminal(s.store.sessions[id].state)
    requires NeverRemoved(s, steps, id) && NeverRevived(s, steps, id)
    ensures id in Run(s, steps).store.sessions && Terminal(Run(s, steps).store.sessions[id].state)
    decreases |steps|
  {
    hide Apply, Removed, NotRevived;
    if steps != [] {
      TerminalStep(s, steps[0], id);
      TerminalForGood(Apply(s, steps[0]), steps[1..], id);
    }
  }

  // ------------------------------------------------------------ generations

  /** Whether a step persists a mutation of a stored session. */
  predicate Mutates(s: System, step: Step, id: string) {
    match step
    case CloseSaves => s.stage.CloseBegun? && s.stage.closing == id && id in s.store.sessions
    case Recorded(other, c) => other == id && id in s.store.sessions && c.name != "close"
    case Updated(other, _, _, _) => other == id && id in s.store.sessions
    case Saved(other, draft, carried, now) => Strip(other) == id && Save(s.store, other, draft, carried, now).1 == Done
    case _ => false
  }

  /** Every persisted mutation counts the generation up by exactly one; nothing else changes it. */
  lemma StepGeneration(s: System, step: Step, id: string)
    requires id in s.store.sessions && id !in Removed(s, step)
    ensures id in Apply(s, step).store.sessions
    ensures Apply(s, step).store.sessions[id].generation
            == s.store.sessions[id].generation + if Mutates(s, step, id) then 1 else 0
  {
    hide Taken, Strip;
  }

  function Mutations(s: System, steps: seq<Step>, id: string): nat
    decreases |steps|
  {
    if steps == [] then 0
    else (if Mutates(s, steps[0], id) then 1 else 0) + Mutations(Apply(s, steps[0]), steps[1..], id)
  }

  lemma {:induction false} RunGeneration(s: System, steps: seq<Step>, id: string)
    requires id in s.store.sessions && NeverRemoved(s, steps, id)
    ensures id in Run(s, steps).store.sessions
    ensures Run(s, steps).store.sessions[id].generation == s.store.sessions[id].generation + Mutations(s, steps, id)
    decreases |steps|
  {
    hide Apply, Removed, Mutates;
    if steps != [] {
      StepGeneration(s, steps[0], id);
      RunGeneration(Apply(s, steps[0]), steps[1..], id);
    }
  }

  /** A draft that carries the generation it was read at is accepted after a run exactly when nobody mutated the
      session meanwhile. */
  lemma {:induction false} StaleRefused(s: System, steps: seq<Step>, id: string, draft: Session, now: nat)
    requires id in s.store.sessions && NeverRemoved(s, steps, id) && Strip(id) == id != ""
    ensures Save(Run(s, steps).store, id, draft, Some(s.store.sessions[id].generation), now).1
            == if Mutations(s, steps, id) == 0 then Done else Stale
  {
    RunGeneration(s, steps, id);
  }

  /** A step stores a session under an id that had none. */
  predicate Creates(s: System, step: Step, id: string) {
    id !in s.store.sessions && id in Apply(s, step).store.sessions
  }

  /** Wherever a session comes from, it starts at generation 1; and it goes only by being removed. */
  lemma StepBirth(s: System, step: Step, id: string)
    ensures Creates(s, step, id) ==> Apply(s, step).store.sessions[id].generation == 1
    ensures id in s.store.sessions ==> (id in Apply(s, step).store.sessions <==> id !in Removed(s, step))
  {
    hide Taken, Strip;
  }

  lemma {:induction false} RunSnoc(s: System, steps: seq<Step>)
    requires steps != []
    ensures Run(s, steps) == Apply(Run(s, steps[..|steps| - 1]), steps[|steps| - 1])
  {
    hide Apply;
    var init, last := steps[..|steps| - 1], steps[|steps| - 1];
    assert steps == init + [last] && [last][1..] == [];
    RunOn(s, init, [last]);
  }

  /** The generation an id has earned: 1 at its last creation in the run, or what it had before the run, and one more
      for every persisted mutation since. None while nothing is stored under the id. */
  function Earned(s: System, steps: seq<Step>, id: string): Option<nat>
    decreases |steps|
  {
    if steps == [] then (if id in s.store.sessions then Some(s.store.sessions[id].generation) else None)
    else
      var init, last := steps[..|steps| - 1], steps[|steps| - 1];
      var t, earned := Run(s, init), Earned(s, init, id);
      if Creates(t, last, id) then Some(1)
      else if id in Removed(t, last) || earned.None? then None
      else Some(earned.value + if Mutates(t, last, id) then 1 else 0)
  }

  lemma {:induction false} EarnedIsStored(s: System, steps: seq<Step>, id: string)
    ensures id in Run(s, steps).store.sessions <==> Earned(s, steps, id).Some?
    ensures id in Run(s, steps).store.sessions ==>
              Earned(s, steps, id) == Some(Run(s, steps).store.sessions[id].generation)
    decreases |steps|
  {
    hide Apply, Removed, Mutates;
    if steps != [] {
      var init, last := steps[..|steps| - 1], steps[|steps| - 1];
      var t := Run(s, init);
      RunSnoc(s, steps);
      EarnedIsStored(s, init, id);
      StepBirth(t, last, id);
      RemovedWereStored(t, last);
      if id in t.store.sessions && id !in Removed(t, last) { StepGeneration(t, last, id); }
    }
  }

  lemma RemovedWereStored(s: System, step: Step)
    ensures Removed(s, step) <= s.store.sessions.Keys
  {
    hide Ordered;
    if step.Reaped? {
      var order := Ordered(s.store.sessions, Settled(s.store));
      assert forall id :: id in Taken(s.store, step.limit, step.failing) ==> id in order;
    }
  }

  /** For every run, removals included: a draft is refused as stale exactly when its id is stored and has earned
      another generation than the draft carries. */
  lemma {:induction false} StaleExact(s: System, steps: seq<Step>, id: string, draft: Session, carried: nat, now: nat)
    requires Strip(id) == id != ""
    ensures Save(Run(s, steps).store, id, draft, Some(carried), now).1
            == if Earned(s, steps, id).Some? && Earned(s, steps, id).value != carried then Stale else Done
  {
    EarnedIsStored(s, steps, id);
  }

  // ------------------------------------------------------------ an old draft overwrites a reopened session

  const OPEN_A: Opening := Opening("a", {}, {}, 0, false, false, false)
  const CLOSE_A: Command := Command(Some("a"), "close", false, None, None, false, 0, false)
  const FRESH_A: Session := Session("open", 1, IDLE, false, None, 0)
  const CLOSED_A: Session := Session("closed", 2, IDLE, false, Some(0), 0)

  /** Closed, removed and opened again. */
  function SecondLife(): seq<Step> {
    CloseSections("a", CLOSE_A) + ([Reaped(0, {})] + OpenSections(OPEN_A))
  }

  lemma OpensFresh(s: Store)
    requires s == Store(map[], None)
    ensures Open(s, OPEN_A) == (Store(map["a" := FRESH_A], Some("a")), Done)
  {
    assert Strip("a") == "a";
    hide Taken, Strip, Reap, Sweep;
    CleanedKeeps(s, OPEN_A);
    assert Cleaned(s, OPEN_A).sessions == map[];
  }

  lemma ReapsClosed(session: Session)
    requires Terminal(session.state) && !session.Reconcilable() && !session.evidence
    ensures Reap(Store(map["a" := session], None), 0, {}) == Store(map[], None)
  {
    hide Before, Ordered;
    var s := Store(map["a" := session], None);
    assert Settled(s) == {"a"};
    var order := Ordered(s.sessions, Settled(s));
    assert |order| == 1 && order[..1] == order;
    assert "a" in order && Taken(s, 0, {}) == {"a"};
  }

  lemma ClosesFresh()
    ensures Record(Store(map["a" := FRESH_A], Some("a")), CLOSE_A).0 == Store(map["a" := CLOSED_A], None)
  {
  }

  lemma ReapsOne(s: Store, limit: int, failing: set<string>)
    ensures Run(System(s, Free), [Reaped(limit, failing)]) == System(Reap(s, limit, failing), Free)
  {
    hide Reap;
    var step := Reaped(limit, failing);
    assert [step][1..] == [];
    assert Run(System(s, Free), [step]) == Run(Apply(System(s, Free), step), []);
  }

  lemma SavesOver(s: Store, draft: Session)
    requires "a" in s.sessions && s.sessions["a"].generation == 1
    ensures Save(s, "a", draft, Some(1), 1).1 == Done
  {
    assert Strip("a") == "a";
  }

  lemma CloseMutates(s: System, rest: seq<Step>)
    requires s.stage.Free? && "a" in s.store.sessions
    ensures Mutations(s, CloseSections("a", CLOSE_A) + rest, "a") > 0
  {
    var steps := CloseSections("a", CLOSE_A) + rest;
    assert steps[0] == CloseBegins("a", CLOSE_A) && steps[1..][0] == CloseSaves;
    var t := Apply(s, steps[0]);
    assert Mutations(s, steps, "a") == Mutations(t, steps[1..], "a") && Mutates(t, CloseSaves, "a");
  }

  /** Opened, read, closed, removed, opened again: the draft read in the first life overwrites the session of the
      second one. */
  lemma OldDraftOverwrites()
    ensures var first := Run(System(Store(map[], None), Free), OpenSections(OPEN_A));
            var second := Run(first, SecondLife());
            && "a" in first.store.sessions && "a" in second.store.sessions
            && Mutations(first, SecondLife(), "a") > 0
            && var read := first.store.sessions["a"];
               Save(second.store, "a", read.(state := "ready"), Some(read.generation), 1).1 == Done
  {
    hide Open, Record, Reap, Run, Mutations, Save, Strip, OpenSections, CloseSections;
    var none, life := Store(map[], None), Store(map["a" := FRESH_A], Some("a"));
    OpensFresh(none);
    OpenInOnePiece(none, OPEN_A);
    ClosesFresh();
    CloseInOnePiece(life, "a", CLOSE_A);
    ReapsClosed(CLOSED_A);
    ReapsOne(Store(map["a" := CLOSED_A], None), 0, {});
    RunOn(System(life, Free), CloseSections("a", CLOSE_A), [Reaped(0, {})] + OpenSections(OPEN_A));
    RunOn(System(Store(map["a" := CLOSED_A], None), Free), [Reaped(0, {})], OpenSections(OPEN_A));
    CloseMutates(System(life, Free), [Reaped(0, {})] + OpenSections(OPEN_A));
    SavesOver(life, FRESH_A.(state := "ready"));
  }
}
