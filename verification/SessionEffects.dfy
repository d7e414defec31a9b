/** What one session operation does to the stored sessions, field by field (app/interactive_session_manager.py). */
module SessionEffects {
  import opened Text
  import opened Sessions

  /** Only the session under this id may differ. */
  ghost predicate OthersKept(s: Store, t: Store, id: string) {
    && t.sessions.Keys == s.sessions.Keys + {id}
    && forall other :: other in s.sessions && other != id ==> t.sessions[other] == s.sessions[other]
  }

  // ------------------------------------------------------------ commands

  /** The id a command is for: its own, or else the one of the active record. */
  predicate For(s: Store, c: Command, id: string) {
    if c.id.Some? && c.id.value != "" then c.id.value == id else s.active == Some(id)
  }

  /** A recorded command fails the session when it failed, else gives it the state it names, else closes it when it is a
      close, else makes a live session ready and leaves a settled one as it is. */
  function StateAfter(was: string, c: Command): string {
    if c.failed then "failed"
    else match c.state
      case Some(named) => named
      case None => if c.name == "close" then "closed" else if was in {"closed", "failed"} then was else "ready"
  }

  lemma RecordExactly(s: Store, c: Command, id: string)
    requires For(s, c, id)
    ensures id !in s.sessions ==> Record(s, c) == (s, NotFound)
    ensures id in s.sessions ==>
              var was, (t, outcome) := s.sessions[id], Record(s, c);
              && OthersKept(s, t, id) && outcome == (if c.fault then Broken else Done)
              && t.active == (if c.name == "close" && !c.fault && s.active == Some(id) then None else s.active)
              && t.sessions[id].state == StateAfter(was.state, c)
              && t.sessions[id].generation == was.generation + 1 && t.sessions[id].updatedAt == c.now
              && t.sessions[id].runtime == (if c.runtime.Some? then c.runtime.value else was.runtime)
              && t.sessions[id].evidence == (was.evidence || c.verify)
              && t.sessions[id].closedAt == (if c.name == "close" then Some(c.now) else was.closedAt)
  {
  }

  /** A command for no session at all changes nothing. */
  lemma NobodyToRecord(s: Store, c: Command)
    ensures Record(s, c).1 == NoSession <==> forall id :: !For(s, c, id)
    ensures Record(s, c).1 == NoSession ==> Record(s, c).0 == s
  {
    if c.id.Some? && c.id.value != "" { assert For(s, c, c.id.value); }
    else if s.active.Some? { assert For(s, c, s.active.value); }
  }

  lemma UpdateExactly(s: Store, id: string, state: Option<string>, runtime: Option<Runtime>, now: nat)
    ensures id !in s.sessions ==> Update(s, id, state, runtime, now) == (s, NotFound)
    ensures id in s.sessions ==>
              var was, (t, outcome) := s.sessions[id], Update(s, id, state, runtime, now);
              && OthersKept(s, t, id) && outcome == Done && t.active == s.active
              && t.sessions[id].state == (if state.Some? then state.value else was.state)
              && t.sessions[id].generation == was.generation + 1 && t.sessions[id].updatedAt == now
              && t.sessions[id].runtime == (if runtime.Some? then runtime.value else was.runtime)
              && t.sessions[id].evidence == was.evidence && t.sessions[id].closedAt == was.closedAt
  {
  }

  predicate Savable(s: Store, id: string, carried: Option<nat>) {
    id != "" && (id in s.sessions && carried.Some? ==> carried.value == s.sessions[id].generation)
  }

  /** A save under a blank id is refused; one that carries another generation than the stored one is stale; any other is
      stored one generation up, a new session at 1. */
  lemma SaveExactly(s: Store, id: string, draft: Session, carried: Option<nat>, now: nat)
    ensures Strip(id) == "" ==> Save(s, id, draft, carried, now) == (s, EmptyId)
    ensures Strip(id) != "" && !Savable(s, Strip(id), carried) ==> Save(s, id, draft, carried, now) == (s, Stale)
    ensures Savable(s, Strip(id), carried) ==>
              var (t, outcome) := Save(s, id, draft, carried, now);
              && outcome == Done && t.active == s.active && OthersKept(s, t, Strip(id))
              && t.sessions[Strip(id)] == draft.(updatedAt := now,
                   generation := if Strip(id) in s.sessions then s.sessions[Strip(id)].generation + 1 else 1)
  {
    hide Strip;
  }

  // ------------------------------------------------------------ the reaper

  /** A session the reaper may take: settled, not the active one, with nothing pending and no evidence to keep. */
  predicate Removable(s: Store, id: string) {
    && id in s.sessions && s.active != Some(id)
    && var it := s.sessions[id];
       && it.state in {"closed", "failed"} && !it.evidence
       && !it.runtime.reconciliationPending && !it.runtime.commandPending
       && !it.runtime.cliReconciliationPending && !it.runtime.cliCommandPending
  }

  lemma SettledExactly(s: Store)
    ensures forall id :: id in Settled(s) <==> Removable(s, id)
  {
  }

  function Age(it: Session): nat {
    match it.closedAt case Some(at) => at case None => it.updatedAt
  }

  /** Closed, or last saved, earlier; among equals the smaller id. */
  predicate Older(s: Store, a: string, b: string)
    requires a in s.sessions && b in s.sessions
  {
    Age(s.sessions[a]) < Age(s.sessions[b]) || (Age(s.sessions[a]) == Age(s.sessions[b]) && a != b && Le(a, b))
  }

  /** The removable sessions older than this one. */
  ghost function Elders(s: Store, id: string): set<string>
    requires id in s.sessions
  {
    set other | other in s.sessions && Removable(s, other) && Older(s, other, id)
  }

  lemma PlaceInOrder(s: Store, order: seq<string>, i: nat)
    requires i < |order| && Sorted(s.sessions, order) && (forall id :: id in order <==> Removable(s, id))
    ensures order[i] in s.sessions && Elders(s, order[i]) == Among(order[..i])
  {
    assert Removable(s, order[i]);
    forall other ensures other in Elders(s, order[i]) <==> other in Among(order[..i]) {
      if other in order[..i] {
        var j :| 0 <= j < i && order[j] == other;
        assert Removable(s, other);
      }
      if other in Elders(s, order[i]) {
        var j :| 0 <= j < |order| && order[j] == other;
        if i < j { NotBoth(s, order[i], other); }
        assert order[..i][j] == other;
      }
    }
  }

  lemma NotBoth(s: Store, a: string, b: string)
    requires a in s.sessions && b in s.sessions && Before(s.sessions, a, b)
    ensures !Older(s, b, a)
  {
    if Le(a, b) && Le(b, a) { LeAntisymmetric(a, b); }
  }

  lemma {:induction false} DistinctAmong(order: seq<string>)
    requires forall i, j :: 0 <= i < j < |order| ==> order[i] != order[j]
    ensures |Among(order)| == |order|
  {
    if order == [] {
      assert Among(order) == {};
    } else {
      var n := |order| - 1;
      DistinctAmong(order[..n]);
      assert Among(order) == Among(order[..n]) + {order[n]};
    }
  }

  /** How many removable sessions there are. */
  ghost function Removables(s: Store): set<string> {
    set id | id in s.sessions && Removable(s, id)
  }

  /** The reaper takes a session exactly when it is removable, its directory can be removed, and it is among the oldest
      of the removable ones beyond the limit; all others stay as they are. */
  lemma ReapExactly(s: Store, limit: nat, failing: set<string>)
    ensures Reap(s, limit, failing).active == s.active
    ensures forall id :: id in Reap(s, limit, failing).sessions <==>
        id in s.sessions && !(Removable(s, id) && id !in failing && |Elders(s, id)| + limit < |Removables(s)|)
    ensures forall id :: id in Reap(s, limit, failing).sessions ==>
              Reap(s, limit, failing).sessions[id] == s.sessions[id]
  {
    hide Ordered, Sorted, Removable;
    var order := Ordered(s.sessions, Settled(s));
    SettledExactly(s);
    assert Removables(s) == Settled(s);
    assert Sorted(s.sessions, order);
    forall id | id in s.sessions
      ensures id in Taken(s, limit, failing) <==>
                Removable(s, id) && id !in failing && |Elders(s, id)| + limit < |Removables(s)|
    {
      TakenExactly(s, limit, failing, order, id);
    }
  }

  lemma TakenExactly(s: Store, limit: nat, failing: set<string>, order: seq<string>, id: string)
    requires id in s.sessions && order == Ordered(s.sessions, Settled(s)) && |order| == |Removables(s)|
    requires forall other :: other in order <==> Removable(s, other)
    ensures id in Taken(s, limit, failing) <==>
              Removable(s, id) && id !in failing && |Elders(s, id)| + limit < |Removables(s)|
  {
    hide Ordered, Removable, Elders;
    var n := Excess(|order|, limit);
    assert Sorted(s.sessions, order);
    if id in order {
      var i :| 0 <= i < |order| && order[i] == id;
      PlaceInOrder(s, order, i);
      DistinctAmong(order[..i]);
      if id in order[..n] {
        var j :| 0 <= j < n && order[j] == id;
        assert i == j;
      }
      if i < n { assert order[..n][i] == id; }
    } else {
      assert id !in order[..n];
    }
  }

  /** A negative limit keeps everything. */
  lemma NoLimit(s: Store, limit: int, failing: set<string>)
    requires limit < 0
    ensures Reap(s, limit, failing) == s
  {
    assert Taken(s, limit, failing) == {};
    assert s.sessions - {} == s.sessions;
  }

  lemma SweepExactly(s: Store, expired: set<string>)
    ensures Sweep(s, expired).active == s.active && Sweep(s, expired).sessions.Keys == s.sessions.Keys
    ensures forall id :: id in s.sessions ==>
        Sweep(s, expired).sessions[id] == if id in expired && s.sessions[id].state in {"closed", "failed"}
                                          then s.sessions[id].(evidence := false) else s.sessions[id]
  {
  }

  // ------------------------------------------------------------ opening

  /** The session a successful open stores. */
  function Opened(o: Opening): Session {
    Session("open", 1, Runtime(false, false, o.cliReconciliation, o.cliCommand), false, None, o.now)
  }

  /** The active record names a session that is neither closed nor failed. */
  predicate SomeoneActive(s: Store) {
    match s.active
    case None => false
    case Some(id) => id in s.sessions && s.sessions[id].state !in {"closed", "failed"}
  }

  /** An open sweeps and reaps down to 100 settled sessions; then a blank id, a live active session or a taken id is
      refused, in that order; else the new session is stored at generation 1 and becomes the active one. */
  lemma OpenExactly(s: Store, o: Opening)
    ensures var base, id := Reap(Sweep(s, o.expired), 100, o.failing), Strip(o.id);
            Open(s, o) == if id == "" then (base, EmptyId)
                          else if SomeoneActive(base) then (base, AlreadyOpen)
                          else if id in base.sessions then (base, Exists)
                          else (Store(base.sessions[id := Opened(o)], if o.fault then base.active else Some(id)),
                                if o.fault then Broken else Done)
  {
    hide Reap, Sweep, Strip;
  }
}
