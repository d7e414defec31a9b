/** Interactive sessions: admission, lifecycle, generation and the reaper (app/interactive_session_manager.py). */
module Sessions {
  import opened Text

  const MAX_SETTLED_SESSIONS: int := 100

  predicate Terminal(state: string) {
    state == "closed" || state == "failed"
  }

  /** The pending-work marks of live_runtime and of metadata.local_cli_v1. */
  datatype Runtime = Runtime(reconciliationPending: bool, commandPending: bool, cliReconciliationPending: bool,
      cliCommandPending: bool)

  const IDLE := Runtime(false, false, false, false)

  datatype Session = Session(state: string, generation: nat, runtime: Runtime, evidence: bool, closedAt: Option<nat>,
      updatedAt: nat)
  {
    predicate Live() { !Terminal(state) }

    /** _has_reconcilable_runtime */
    predicate Reconcilable() {
      state == "timed_out_pending_reconciliation" || runtime.reconciliationPending || runtime.commandPending
      || runtime.cliReconciliationPending || runtime.cliCommandPending
    }

    function Anchor(): nat { if closedAt.Some? then closedAt.value else updatedAt }
  }

  /** The stored session files and the active record. */
  datatype Store = Store(sessions: map<string, Session>, active: Option<string>)

  datatype Outcome = Done | NoSession | NotFound | EmptyId | AlreadyOpen | Exists | Stale | Broken

  // ------------------------------------------------------------ saving

  /** _save_session_locked: the stored generation is the one counted up; a draft that carries another one is stale. */
  function SavedOver(draft: Session, current: Option<Session>, now: nat): Session {
    draft.(generation := (if current.Some? then current.value.generation else 0) + 1, updatedAt := now)
  }

  predicate StaleDraft(carried: Option<nat>, current: Option<Session>) {
    current.Some? && carried.Some? && carried.value != current.value.generation
  }

  function Stored(s: Store, id: string): Option<Session> {
    if id in s.sessions then Some(s.sessions[id]) else None
  }

  /** _save_session */
  function Save(s: Store, id: string, draft: Session, carried: Option<nat>, now: nat): (Store, Outcome) {
    if Strip(id) == "" then (s, EmptyId)
    else if StaleDraft(carried, Stored(s, Strip(id))) then (s, Stale)
    else (s.(sessions := s.sessions[Strip(id) := SavedOver(draft, Stored(s, Strip(id)), now)]), Done)
  }

  // ------------------------------------------------------------ update and record

  function WithRuntime(session: Session, runtime: Option<Runtime>): Session {
    if runtime.Some? then session.(runtime := runtime.value) else session
  }

  /** update_session; runtime is what the merged mappings amount to. */
  function Update(s: Store, id: string, state: Option<string>, runtime: Option<Runtime>, now: nat): (Store, Outcome) {
    if id !in s.sessions then (s, NotFound)
    else
      var session := WithRuntime(s.sessions[id], runtime);
      var draft := if state.Some? then session.(state := state.value) else session;
      (s.(sessions := s.sessions[id := SavedOver(draft, Some(s.sessions[id]), now)]), Done)
  }

  /** The arguments of record_command that matter here; fault is an exception after the save and before the active
      record is cleared. */
  datatype Command = Command(id: Option<string>, name: string, failed: bool, state: Option<string>,
      runtime: Option<Runtime>,
                             verify: bool, now: nat, fault: bool)

  /** The session a command is for: the one named, else the active one. */
  function Resolved(s: Store, id: Option<string>): Option<string> {
    if id.Some? && id.value != "" then id else s.active
  }

  function RecordedState(state: string, c: Command): string {
    if c.failed then "failed"
    else if c.state.Some? then c.state.value
    else if c.name == "close" then "closed"
    else if !Terminal(state) then "ready"
    else state
  }

  function RecordedSession(session: Session, c: Command): Session {
    WithRuntime(session, c.runtime).(state := RecordedState(session.state, c), evidence := session.evidence || c.verify,
                                     closedAt := if c.name == "close" then Some(c.now) else session.closedAt)
  }

  /** record_command's save of a stored session. */
  function RecordSaved(s: Store, id: string, c: Command): Store
    requires id in s.sessions
  {
    s.(sessions := s.sessions[id := SavedOver(RecordedSession(s.sessions[id], c), Some(s.sessions[id]), c.now)])
  }

  /** record_command, when nothing else happens between its lock sections */
  function Record(s: Store, c: Command): (Store, Outcome) {
    match Resolved(s, c.id)
    case None => (s, NoSession)
    case Some(id) =>
      if id !in s.sessions then (s, NotFound)
      else
        var saved := RecordSaved(s, id, c);
        if c.name == "close" && !c.fault && s.active == Some(id) then (saved.(active := None), Done)
        else (saved, if c.fault then Broken else Done)
  }

  // ------------------------------------------------------------ the reaper

  /** Sessions the reaper may remove. */
  function Settled(s: Store): set<string> {
    set id | id in s.sessions && s.active != Some(id) && Terminal(s.sessions[id].state)
             && !s.sessions[id].Reconcilable() && !s.sessions[id].evidence
  }

  /** Oldest anchor first, then by name. */
  predicate Before(sessions: map<string, Session>, a: string, b: string)
    requires a in sessions && b in sessions
  {
    sessions[a].Anchor() < sessions[b].Anchor() || (sessions[a].Anchor() == sessions[b].Anchor() && Le(a, b))
  }

  predicate First(sessions: map<string, Session>, id: string, ids: set<string>)
    requires ids <= sessions.Keys
  {
    id in ids && forall other :: other in ids ==> Before(sessions, id, other)
  }

  lemma {:induction false} FirstExists(sessions: map<string, Session>, ids: set<string>)
    requires ids <= sessions.Keys && ids != {}
    ensures exists id :: First(sessions, id, ids)
    ensures forall a, b :: First(sessions, a, ids) && First(sessions, b, ids) ==> a == b
  {
    forall a, b | First(sessions, a, ids) && First(sessions, b, ids) ensures a == b {
      assert Before(sessions, a, b) && Before(sessions, b, a);
      LeAntisymmetric(a, b);
    }
    var x :| x in ids;
    var rest := ids - {x};
    LeTotal(x, x);
    if rest == {} {
      assert ids == {x};
      assert First(sessions, x, ids);
    } else {
      FirstExists(sessions, rest);
      var y :| First(sessions, y, rest);
      LeTotal(x, y);
      if Before(sessions, x, y) {
        forall other | other in ids ensures Before(sessions, x, other) {
          if other != x { BeforeTransitive(sessions, x, y, other); }
        }
        assert First(sessions, x, ids);
      } else {
        assert First(sessions, y, ids);
      }
    }
  }

  lemma BeforeTransitive(sessions: map<string, Session>, a: string, b: string, c: string)
    requires a in sessions && b in sessions && c in sessions && Before(sessions, a, b) && Before(sessions, b, c)
    ensures Before(sessions, a, c)
  {
    if Le(a, b) && Le(b, c) { LeTransitive(a, b, c); }
  }

  /** Distinct stored ids, oldest first. */
  predicate Sorted(sessions: map<string, Session>, order: seq<string>) {
    forall i, j :: 0 <= i < j < |order| ==>
        order[i] != order[j] && order[i] in sessions && order[j] in sessions && Before(sessions, order[i], order[j])
  }

  lemma SortedMore(sessions: map<string, Session>, ids: set<string>, id: string, later: seq<string>)
    requires ids <= sessions.Keys && First(sessions, id, ids) && Sorted(sessions, later)
    requires forall other :: other in later <==> other in ids - {id}
    ensures Sorted(sessions, [id] + later)
    ensures forall other :: other in [id] + later <==> other in ids
  {
    var order := [id] + later;
    assert forall k :: 1 <= k < |order| ==> order[k] == later[k - 1] && order[k] in later;
  }

  /** settled.sort(...) */
  function Ordered(sessions: map<string, Session>, ids: set<string>): (order: seq<string>)
    requires ids <= sessions.Keys
    ensures |order| == |ids|
    ensures forall id :: id in order <==> id in ids
    ensures Sorted(sessions, order)
  {
    if ids == {} then []
    else
      FirstExists(sessions, ids);
      var id :| id in ids && First(sessions, id, ids);
      var later := Ordered(sessions, ids - {id});
      SortedMore(sessions, ids, id, later);
      [id] + later
  }

  function Excess(count: nat, limit: int): nat {
    if limit < 0 || count <= limit then 0 else count - limit
  }

  function Among(order: seq<string>): set<string> {
    set id | id in order
  }

  /** What the reaper takes: the oldest beyond the limit, except where removal fails. */
  function Taken(s: Store, limit: int, failing: set<string>): set<string> {
    var order := Ordered(s.sessions, Settled(s));
    Among(order[..Excess(|order|, limit)]) - failing
  }

  /** _reap_settled_sessions */
  function Reap(s: Store, limit: int, failing: set<string>): Store {
    s.(sessions := s.sessions - Taken(s, limit, failing))
  }

  /** The expiry sweep: evidence of terminal sessions whose retention has run out. */
  function Sweep(s: Store, expired: set<string>): Store {
    s.(sessions := map id | id in s.sessions ::
         if id in expired && Terminal(s.sessions[id].state) then s.sessions[id].(evidence := false) else s.sessions[id])
  }

  // ------------------------------------------------------------ opening

  /** What open_session is told and meets: ids whose evidence expired, directories that cannot be removed, the pending
      marks of the metadata, and whether it breaks off between the save and the active-record write. */
  datatype Opening = Opening(id: string, expired: set<string>, failing: set<string>, now: nat, fault: bool,
                             cliReconciliation: bool, cliCommand: bool)

  /** The session an open stores. */
  function NewSession(o: Opening): Session {
    var runtime := Runtime(false, false, o.cliReconciliation, o.cliCommand);
    SavedOver(Session("open", 0, runtime, false, None, o.now), None, o.now)
  }

  function Cleaned(s: Store, o: Opening): Store {
    Reap(Sweep(s, o.expired), MAX_SETTLED_SESSIONS, o.failing)
  }

  predicate ActiveIsLive(s: Store) {
    s.active.Some? && s.active.value in s.sessions && s.sessions[s.active.value].Live()
  }

  /** open_session, when nothing else happens between its lock sections */
  function Open(s: Store, o: Opening): (Store, Outcome) {
    var id, base := Strip(o.id), Cleaned(s, o);
    if id == "" then (base, EmptyId)
    else if ActiveIsLive(base) then (base, AlreadyOpen)
    else if id in base.sessions then (base, Exists)
    else
      var saved := base.(sessions := base.sessions[id := NewSession(o)]);
      if o.fault then (saved, Broken) else (saved.(active := Some(id)), Done)
  }

  // ------------------------------------------------------------ what the reaper keeps

  /** The reaper never removes the active, a live, a reconcilable or an evidence-holding session, and changes no
      other. */
  lemma ReapKeeps(s: Store, limit: int, failing: set<string>)
    ensures Reap(s, limit, failing).active == s.active
    ensures forall id :: id in Reap(s, limit, failing).sessions ==>
        id in s.sessions && Reap(s, limit, failing).sessions[id] == s.sessions[id]
    ensures forall id | id in s.sessions && (s.active == Some(id) || s.sessions[id].Live()) ::
              id in Reap(s, limit, failing).sessions
    ensures forall id | id in s.sessions && (s.sessions[id].Reconcilable() || s.sessions[id].evidence) ::
              id in Reap(s, limit, failing).sessions
  {
    hide Ordered, Before;
    var order := Ordered(s.sessions, Settled(s));
    assert forall id :: id in Taken(s, limit, failing) ==> id in order;
  }

  lemma LateOrFailing(order: seq<string>, n: nat, failing: set<string>, id: string)
    requires n <= |order| && id in order && id !in Among(order[..n]) - failing
    ensures id in order[n..] || id in failing
  {
    var j :| 0 <= j < |order| && order[j] == id;
    if j >= n { assert order[n..][j - n] == id; } else { assert order[..n][j] == id; }
  }

  /** It takes the oldest: whatever it removes comes before every settled session it keeps and could have removed. */
  lemma ReapTakesOldest(s: Store, limit: int, failing: set<string>, gone: string, kept: string)
    requires gone in s.sessions && gone !in Reap(s, limit, failing).sessions
    requires kept in Settled(s) && kept in Reap(s, limit, failing).sessions && kept !in failing
    ensures gone in Settled(s) && Before(s.sessions, gone, kept) && gone != kept
  {
    hide Before, Ordered, Settled;
    var order := Ordered(s.sessions, Settled(s));
    var n := Excess(|order|, limit);
    LateOrFailing(order, n, failing, kept);
    var i :| 0 <= i < n && order[i] == gone;
    var j :| 0 <= j < |order[n..]| && order[n..][j] == kept;
    assert order[n + j] == kept;
  }

  /** Afterwards no more settled sessions are left than the limit and the failed removals. */
  lemma ReapBounds(s: Store, limit: nat, failing: set<string>)
    ensures |Settled(Reap(s, limit, failing))| <= limit + |failing|
  {
    var order := Ordered(s.sessions, Settled(s));
    hide Before, Ordered, Session.Reconcilable;
    var n := Excess(|order|, limit);
    var late := Among(order[n..]);
    DistinctCount(order[n..]);
    var after := Reap(s, limit, failing);
    forall id | id in Settled(after) ensures id in late + failing {
      assert id in Settled(s);
      LateOrFailing(order, n, failing, id);
    }
    SubsetCount(Settled(after), late + failing);
  }

  lemma {:induction false} DistinctCount(s: seq<string>)
    ensures |Among(s)| <= |s|
  {
    if s != [] {
      DistinctCount(s[1..]);
      assert Among(s) == {s[0]} + Among(s[1..]);
    }
  }

  lemma SubsetCount(a: set<string>, b: set<string>)
    requires a <= b
    ensures |a| <= |b|
  {
    assert b == a + (b - a);
  }

  lemma SweepKeeps(s: Store, expired: set<string>)
    ensures Sweep(s, expired).active == s.active && Sweep(s, expired).sessions.Keys == s.sessions.Keys
    ensures forall id :: id in s.sessions ==>
              Sweep(s, expired).sessions[id].(evidence := true) == s.sessions[id].(evidence := true)
    ensures forall id :: id in s.sessions && s.sessions[id].Live() ==> Sweep(s, expired).sessions[id] == s.sessions[id]
  {
  }

  // ------------------------------------------------------------ admission

  /** The open gets as far as its save. */
  predicate OpenAdmits(s: Store, o: Opening) {
    Strip(o.id) != "" && !ActiveIsLive(s) && Strip(o.id) !in Cleaned(s, o).sessions
  }

  /** Cleaning up does not touch the active session, so admission can be judged before it. */
  lemma AdmissionBefore(s: Store, o: Opening)
    ensures ActiveIsLive(Cleaned(s, o)) <==> ActiveIsLive(s)
    ensures Open(s, o).1 == Broken <==> o.fault && OpenAdmits(s, o)
    ensures Open(s, o).1 == Done <==> !o.fault && OpenAdmits(s, o)
  {
    hide Reap, Sweep, Strip;
    SweepKeeps(s, o.expired);
    ReapKeeps(Sweep(s, o.expired), MAX_SETTLED_SESSIONS, o.failing);
  }

  /** Cleaning up takes no live session away and changes none of them. */
  lemma CleanedKeeps(s: Store, o: Opening)
    ensures Cleaned(s, o).active == s.active && Cleaned(s, o).sessions.Keys <= s.sessions.Keys
    ensures forall id | id in s.sessions && s.sessions[id].Live() ::
              id in Cleaned(s, o).sessions && Cleaned(s, o).sessions[id] == s.sessions[id]
    ensures ActiveIsLive(Cleaned(s, o)) <==> ActiveIsLive(s)
  {
    hide Reap, Sweep;
    SweepKeeps(s, o.expired);
    ReapKeeps(Sweep(s, o.expired), MAX_SETTLED_SESSIONS, o.failing);
  }

  /** An open takes no live session away, and one that gets as far as its save adds a live one. */
  lemma OpenKeepsLive(s: Store, o: Opening)
    ensures forall id | id in s.sessions && s.sessions[id].Live() ::
              id in Open(s, o).0.sessions && Open(s, o).0.sessions[id].Live()
    ensures Cleaned(s, o).sessions.Keys <= s.sessions.Keys
    ensures Open(s, o).0.sessions.Keys <= s.sessions.Keys + {Strip(o.id)}
    ensures Open(s, o).1 == Broken || Open(s, o).1 == Done ==>
              Strip(o.id) in Open(s, o).0.sessions && Open(s, o).0.sessions[Strip(o.id)].Live()
    ensures Open(s, o).1 == Broken && s.active != Some(Strip(o.id)) ==> !ActiveIsLive(Open(s, o).0)
  {
    hide Strip, Cleaned;
    CleanedKeeps(s, o);
  }

  /** An open that breaks off after its save leaves a live session the active record does not name, and the next open
      under another unused id is not refused: two sessions are live. */
  lemma BrokenOpenAdmitsSecond(s: Store, first: Opening, second: Opening)
    requires Open(s, first).1 == Broken && s.active != Some(Strip(first.id))
    requires Strip(second.id) != "" && Strip(second.id) !in Open(s, first).0.sessions && !second.fault
    ensures var one, two := Open(s, first).0, Open(Open(s, first).0, second);
            && two.1 == Done
            && Strip(first.id) in two.0.sessions && two.0.sessions[Strip(first.id)].Live()
            && Strip(second.id) in two.0.sessions && two.0.sessions[Strip(second.id)].Live()
  {
    hide Strip, Cleaned, Open, Session.Live;
    var one := Open(s, first).0;
    OpenKeepsLive(s, first);
    OpenKeepsLive(one, second);
    AdmissionBefore(s, first);
    AdmissionBefore(one, second);
    assert !ActiveIsLive(one);
  }

  /** The case at its smallest: starting from nothing. */
  lemma TwoLiveFromNothing()
    ensures var one := Open(Store(map[], None), Opening("a", {}, {}, 0, true, false, false)).0;
            var two := Open(one, Opening("b", {}, {}, 0, false, false, false)).0;
            "a" in two.sessions && two.sessions["a"].Live() && "b" in two.sessions && two.sessions["b"].Live()
  {
    var none, first, second := Store(map[], None), Opening("a", {}, {}, 0, true, false, false),
        Opening("b", {}, {}, 0, false, false, false);
    assert Strip("a") == "a" && Strip("b") == "b";
    hide Strip, Cleaned, Open, Session.Live;
    OpenKeepsLive(none, first);
    AdmissionBefore(none, first);
    BrokenOpenAdmitsSecond(none, first, second);
  }

  /** A command without an explicit state never brings a terminal session back. */
  lemma TerminalAbsorbs(s: Store, c: Command)
    requires var id := Resolved(s, c.id); id.Some? && id.value in s.sessions && Terminal(s.sessions[id.value].state)
    requires c.state.None?
    ensures var id := Resolved(s, c.id).value;
            var was, now := s.sessions[id].state, Record(s, c).0.sessions[id].state;
            Terminal(now) && (now != was ==> now == if c.failed then "failed" else "closed")
  {
  }

  /** A reopened id starts again at generation 1, so the condition that it was never removed cannot be dropped. */
  lemma ReopenRestarts(s: Store, o: Opening, draft: Session, now: nat)
    requires Open(s, o).1 == Done
    ensures var after, id := Open(s, o).0, Strip(o.id);
            id in after.sessions && after.sessions[id].generation == 1
            && (Strip(id) == id ==> Save(after, id, draft, Some(1), now).1 == Done)
  {
  }

  // ------------------------------------------------------------ the manager

  class SessionManager {
    var sessions: map<string, Session>
    var active: Option<string>

    ghost function State(): Store
      reads this
    {
      Store(sessions, active)
    }

    constructor (sessions: map<string, Session>, active: Option<string>)
      ensures State() == Store(sessions, active)
    {
      this.sessions, this.active := sessions, active;
    }

    /** _save_session_locked */
    method SaveLocked(id: string, draft: Session, carried: Option<nat>, now: nat) returns (outcome: Outcome)
      modifies this`sessions
      ensures outcome == if StaleDraft(carried, Stored(old(State()), id)) then Stale else Done
      ensures sessions == if outcome.Stale? then old(sessions)
          else old(sessions)[id := SavedOver(draft, Stored(old(State()), id), now)]
    {
      var generation := 0;
      if id in sessions {
        generation := sessions[id].generation;
        if carried.Some? && carried.value != generation { return Stale; }
      }
      sessions := sessions[id := draft.(generation := generation + 1, updatedAt := now)];
      outcome := Done;
    }

    /** _save_session */
    method SaveSession(id: string, draft: Session, carried: Option<nat>, now: nat) returns (outcome: Outcome)
      modifies this`sessions
      ensures (State(), outcome) == Save(old(State()), id, draft, carried, now)
    {
      var key := Strip(id);
      if key == "" { return EmptyId; }
      outcome := SaveLocked(key, draft, carried, now);
    }

    /** update_session: the copied session carries the generation it was read at. */
    method UpdateSession(id: string, state: Option<string>, runtime: Option<Runtime>, now: nat)
        returns (outcome: Outcome)
      modifies this`sessions
      ensures (State(), outcome) == Update(old(State()), id, state, runtime, now)
    {
      if id !in sessions { return NotFound; }
      var session := sessions[id];
      if runtime.Some? { session := session.(runtime := runtime.value); }
      if state.Some? { session := session.(state := state.value); }
      outcome := SaveLocked(id, session, Some(session.generation), now);
    }

    /** record_command's changes to the loaded session. */
    method Compose(stored: Session, c: Command) returns (session: Session)
      ensures session == RecordedSession(stored, c)
    {
      session := stored;
      if c.runtime.Some? { session := session.(runtime := c.runtime.value); }
      if c.verify { session := session.(evidence := true); }
      if c.failed { session := session.(state := "failed"); }
      else if c.state.Some? { session := session.(state := c.state.value); }
      else if c.name == "close" { session := session.(state := "closed"); }
      else if !Terminal(session.state) { session := session.(state := "ready"); }
      if c.name == "close" { session := session.(closedAt := Some(c.now)); }
    }

    /** record_command */
    method RecordCommand(c: Command) returns (outcome: Outcome)
      modifies this
      ensures (State(), outcome) == Record(old(State()), c)
    {
      var resolved := if c.id.Some? && c.id.value != "" then c.id else active;
      if resolved.None? { return NoSession; }
      var id := resolved.value;
      if id !in sessions { return NotFound; }
      var session := Compose(sessions[id], c);
      outcome := SaveLocked(id, session, Some(session.generation), c.now);
      if c.fault { return Broken; }
      if c.name == "close" && active == Some(id) { active := None; }
    }

    /** The expiry sweep over the terminal sessions whose retention has run out. */
    method SweepExpired(expired: set<string>)
      modifies this`sessions
      ensures State() == Sweep(old(State()), expired)
    {
      var todo := sessions.Keys;
      while todo != {}
        invariant todo <= sessions.Keys == old(sessions).Keys
        invariant forall id :: id in todo ==> sessions[id] == old(sessions)[id]
        invariant forall id :: id in sessions && id !in todo ==>
                  sessions[id] == Sweep(old(State()), expired).sessions[id]
      {
        var id :| id in todo;
        if id in expired && Terminal(sessions[id].state) {
          sessions := sessions[id := sessions[id].(evidence := false)];
        }
        todo := todo - {id};
      }
    }

    /** The reaper's pass over the session directories. */
    method CollectSettled() returns (settled: set<string>)
      ensures settled == Settled(State())
    {
      hide Session.Reconcilable, Session.Live;
      settled := {};
      var todo := sessions.Keys;
      while todo != {}
        invariant todo <= sessions.Keys && settled == Settled(State()) - todo
      {
        var id :| id in todo;
        if active != Some(id) && Terminal(sessions[id].state) && !sessions[id].Reconcilable()
            && !sessions[id].evidence {
          settled := settled + {id};
        }
        todo := todo - {id};
      }
    }

    /** The reaper's removals, in order; a directory that cannot be removed stays. */
    method RemoveEach(order: seq<string>, failing: set<string>) returns (reaped: nat)
      requires (forall a, b :: 0 <= a < b < |order| ==> order[a] != order[b]) && forall a :: 0 <= a < |order| ==>
          order[a] in sessions
      modifies this`sessions
      ensures sessions == old(sessions) - (Among(order) - failing) && reaped == |Among(order) - failing|
    {
      reaped := 0;
      ghost var gone := {};
      for i := 0 to |order|
        invariant gone == Among(order[..i]) - failing && reaped == |gone|
        invariant sessions == old(sessions) - gone
      {
        TakeOne(order, i, failing);
        if order[i] !in failing {
          gone, reaped := gone + {order[i]}, reaped + 1;
          sessions := sessions - {order[i]};
        }
      }
      assert order[..|order|] == order;
    }

    /** _reap_settled_sessions: collect, sort, remove the excess. */
    method ReapSettled(limit: int, failing: set<string>) returns (reaped: nat)
      modifies this`sessions
      ensures State() == Reap(old(State()), limit, failing)
      ensures reaped == |Taken(old(State()), limit, failing)|
    {
      hide Before, Session.Reconcilable, Session.Live, Among;
      if limit < 0 {
        NothingAmong();
        return 0;
      }
      var settled := CollectSettled();
      var order := Ordered(sessions, settled);
      var excess := if |order| > limit then |order| - limit else 0;
      reaped := RemoveEach(order[..excess], failing);
    }

    /** open_session: clean up, then admit, save and publish. */
    method OpenSession(o: Opening) returns (outcome: Outcome)
      modifies this
      ensures (State(), outcome) == Open(old(State()), o)
    {
      SweepExpired(o.expired);
      var _ := ReapSettled(MAX_SETTLED_SESSIONS, o.failing);
      var id := Strip(o.id);
      if id == "" { return EmptyId; }
      if active.Some? && active.value in sessions && sessions[active.value].Live() { return AlreadyOpen; }
      if id in sessions { return Exists; }
      var runtime := Runtime(false, false, o.cliReconciliation, o.cliCommand);
      outcome := SaveLocked(id, Session("open", 0, runtime, false, None, o.now), None, o.now);
      if o.fault { return Broken; }
      active := Some(id);
    }
  }

  lemma TakeOne(order: seq<string>, i: nat, failing: set<string>)
    requires i < |order| && forall a, b :: 0 <= a < b < |order| ==> order[a] != order[b]
    ensures var was, now := Among(order[..i]) - failing, Among(order[..i + 1]) - failing;
            if order[i] in failing then now == was else order[i] !in was && now == was + {order[i]}
  {
    assert order[..i + 1] == order[..i] + [order[i]];
  }

  lemma NothingAmong()
    ensures Among([]) == {}
  {
  }
}
