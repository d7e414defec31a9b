/** The ref-counted path locks and the atomic JSON updates under them, as steps of any number of threads and processes
    (app/atomic_json.py). */
module PathLocks {
  import opened Text

  type Object = map<string, string>

  /** What a file holds: one whole JSON object, or something else. */
  datatype Content = Whole(value: Object) | Torn

  /** A locked operation; an updater that raises or returns no strict JSON object is None. */
  datatype Op = Update(updater: Object -> Option<Object>, default: Object) | Write(payload: Object) | Read

  /** How a call's body ended: whether it got past its replace, whether it returned rather than raised, and the object
      it then returned (a write returns none, nor does a read of an absent file). */
  datatype End = End(replaced: bool, ok: bool, value: Option<Object>)

  const NOTHING_DONE := End(false, false, None)

  /** Where a call stands between entering and leaving path_lock. */
  datatype Pc =
    | Waiting                          // registered, not yet holding the thread lock
    | Locked                           // thread lock held
    | Filed                            // file lock held too
    | Loaded(current: Object)          // current object read
    | Writing(next: Object, flushed: bool) // temporary file being written
    | Replaced(next: Object)           // destination replaced, to be read back and compared
    | Closing(end: End)                // body over, by return or exception; file lock still held
    | Unfiled(end: End)                // file lock released or never taken
    | Leaving(end: End)                // thread lock released, still registered

  predicate HoldsThread(pc: Pc) { !pc.Waiting? && !pc.Leaving? }
  predicate HoldsFile(pc: Pc) { pc.Filed? || pc.Loaded? || pc.Writing? || pc.Replaced? || pc.Closing? }

  /** The call has replaced its destination. */
  predicate Past(pc: Pc) {
    match pc
    case Replaced(_) => true
    case Closing(end) => end.replaced
    case Unfiled(end) => end.replaced
    case Leaving(end) => end.replaced
    case _ => false
  }

  /** One call under path_lock; a thread may have several open at once. */
  datatype Frame = Frame(process: nat, thread: nat, key: string, lock: nat, op: Op, pc: Pc)

  datatype Entry = Entry(lock: nat, users: nat)
  datatype Owner = Owner(thread: nat, depth: nat)

  type Frames = map<nat, Frame>

  /** A path as one process's registry knows it. */
  datatype Place = Place(process: nat, key: string)

  function Slot(f: Frame): Place {
    Place(f.process, f.key)
  }

  /** One replace of a destination, by one call. */
  datatype Commit = Commit(id: nat, key: string, op: Op)

  /** A call that has left path_lock, by return or exception. */
  datatype Outcome = Outcome(key: string, op: Op, end: End)

  /** Lock registries, re-entrant locks and file locks, calls in flight, files, the commits so far in order, every
      call ever made with the number of commits before it, and how those that are over ended. */
  datatype State = State(registry: map<Place, Entry>, nextLock: nat, owner: map<nat, Owner>, frames: Frames,
                         fileLock: map<string, nat>, disk: map<string, Content>, temps: map<nat, Content>,
                         log: seq<Commit>, entered: map<nat, nat>, over: map<nat, Outcome>)

  // ------------------------------------------------------------ sequential meaning

  /** The object an update starts from; None when the file cannot be parsed. */
  function Current(disk: map<string, Content>, key: string, op: Op): Option<Object> {
    if op.Write? then Some(map[])
    else if op.Read? then None
    else if key !in disk then Some(op.default)
    else if disk[key].Whole? then Some(disk[key].value)
    else None
  }

  function Result(op: Op, current: Object): Option<Object> {
    match op
    case Write(payload) => Some(payload)
    case Update(updater, _) => updater(current)
    case Read => None
  }

  /** What a read finds in a file that can be parsed. */
  function Found(disk: map<string, Content>, key: string): Option<Object> {
    if key in disk && disk[key].Whole? then Some(disk[key].value) else None
  }

  /** One operation on its own. */
  function Alone(disk: map<string, Content>, key: string, op: Op): map<string, Content> {
    match Current(disk, key, op)
    case None => disk
    case Some(current) =>
      match Result(op, current)
      case None => disk
      case Some(next) => disk[key := Whole(next)]
  }

  /** Operations one after another. */
  function Replay(disk: map<string, Content>, log: seq<Commit>): map<string, Content> {
    if log == [] then disk else Alone(Replay(disk, log[..|log| - 1]), log[|log| - 1].key, log[|log| - 1].op)
  }

  // ------------------------------------------------------------ steps

  datatype Step =
    | Enter(id: nat, process: nat, thread: nat, key: string, op: Op)
    | Acquire(id: nat) | Abandon(id: nat)
    | AcquireFile(id: nat) | GiveUpFile(id: nat)
    | Look(id: nat) | Load(id: nat) | Compute(id: nat) | Flush(id: nat) | Replace(id: nat) | Verify(id: nat)
    | Fail(id: nat) | ReleaseFile(id: nat) | Release(id: nat) | Leave(id: nat)
    | Crash(process: nat)

  function At(s: State, id: nat, pc: Pc): State
    requires id in s.frames
  {
    s.(frames := s.frames[id := s.frames[id].(pc := pc)])
  }

  /** The registry after one more user, and the lock that user shares. */
  function Joined(registry: map<Place, Entry>, nextLock: nat, slot: Place): (map<Place, Entry>, nat) {
    if slot in registry then (registry[slot := Entry(registry[slot].lock, registry[slot].users + 1)],
        registry[slot].lock)
    else (registry[slot := Entry(nextLock, 1)], nextLock)
  }

  /** The registry after a user left: counted down, or the entry removed with its last user. */
  function Parted(registry: map<Place, Entry>, slot: Place, lock: nat): map<Place, Entry> {
    if slot in registry && registry[slot].lock == lock then
      if registry[slot].users <= 1 then registry - {slot} else registry[slot := Entry(lock, registry[slot].users - 1)]
    else registry
  }

  /** Threads are of one process each. */
  predicate ThreadFits(frames: Frames, process: nat, thread: nat) {
    forall f :: f in frames && frames[f].thread == thread ==> frames[f].process == process
  }

  predicate Enabled(s: State, step: Step) {
    match step
    case Enter(id, process, thread, key, op) => id !in s.entered && id !in s.frames && id !in s.temps
        && ThreadFits(s.frames, process, thread)
    case Crash(process) => true
    case _ =>
      step.id in s.frames
      && var f := s.frames[step.id];
         match step
         case Acquire(_) => f.pc.Waiting? && (f.lock !in s.owner || s.owner[f.lock].thread == f.thread)
         case Abandon(_) => f.pc.Waiting?
         case AcquireFile(_) => f.pc.Locked? && f.key !in s.fileLock
         case GiveUpFile(_) => f.pc.Locked?
         case Look(_) => f.pc.Filed? && f.op.Read? && (f.key in s.disk ==> s.disk[f.key].Whole?)
         case Load(_) => f.pc.Filed? && Current(s.disk, f.key, f.op).Some?
         case Compute(_) => f.pc.Loaded? && Result(f.op, f.pc.current).Some?
         case Flush(_) => f.pc.Writing? && !f.pc.flushed
         case Replace(_) => f.pc.Writing? && f.pc.flushed && step.id in s.temps
         case Verify(_) => f.pc.Replaced?
         case Fail(_) => HoldsFile(f.pc)
         case ReleaseFile(_) => f.pc.Closing?
         case Release(_) => f.pc.Unfiled? && f.lock in s.owner
         case Leave(_) => f.pc.Leaving?
         case _ => false
  }

  /** The calls a crash leaves: those of the other processes. */
  function Surviving(frames: Frames, process: nat): Frames {
    map f | f in frames && frames[f].process != process :: frames[f]
  }

  /** The operating system drops a crashed process's locks. */
  function OwnersAfterCrash(owner: map<nat, Owner>, frames: Frames, process: nat): map<nat, Owner> {
    map l | l in owner && !UsedBy(frames, l, process) :: owner[l]
  }

  function FilesAfterCrash(fileLock: map<string, nat>, frames: Frames, process: nat): map<string, nat> {
    map k | k in fileLock && fileLock[k] in frames && frames[fileLock[k]].process != process :: fileLock[k]
  }

  /** Some call of the process uses the lock. */
  predicate UsedBy(frames: Frames, lock: nat, process: nat) {
    exists f :: f in frames && frames[f].lock == lock && frames[f].process == process
  }

  function Do(s: State, step: Step): State
    requires Enabled(s, step)
  {
    match step
    case Enter(id, process, thread, key, op) =>
      var (registry, lock) := Joined(s.registry, s.nextLock, Place(process, key));
      s.(registry := registry, nextLock := if lock == s.nextLock then s.nextLock + 1 else s.nextLock,
         frames := s.frames[id := Frame(process, thread, key, lock, op, Waiting)], entered := s.entered[id := |s.log|])
    case Acquire(id) =>
      var f := s.frames[id];
      var depth := if f.lock in s.owner then s.owner[f.lock].depth + 1 else 1;
      At(s, id, Locked).(owner := s.owner[f.lock := Owner(f.thread, depth)])
    case Abandon(id) => At(s, id, Leaving(NOTHING_DONE))
    case AcquireFile(id) => At(s, id, Filed).(fileLock := s.fileLock[s.frames[id].key := id])
    case GiveUpFile(id) => At(s, id, Unfiled(NOTHING_DONE))
    case Look(id) => At(s, id, Closing(End(false, true, Found(s.disk, s.frames[id].key))))
    case Load(id) => At(s, id, Loaded(Current(s.disk, s.frames[id].key, s.frames[id].op).value))
    case Compute(id) =>
      At(s, id, Writing(Result(s.frames[id].op, s.frames[id].pc.current).value, false)).(temps := s.temps[id := Torn])
    case Flush(id) =>
      At(s, id, Writing(s.frames[id].pc.next, true)).(temps := s.temps[id := Whole(s.frames[id].pc.next)])
    case Replace(id) =>
      At(s, id, Replaced(s.frames[id].pc.next)).(disk := s.disk[s.frames[id].key := s.temps[id]],
          temps := s.temps - {id},
                           log := s.log + [Commit(id, s.frames[id].key, s.frames[id].op)])
    case Verify(id) =>
      At(s, id, Closing(End(true, true, if s.frames[id].op.Update? then Some(s.frames[id].pc.next) else None)))
    case Fail(id) => At(s, id, Closing(End(Past(s.frames[id].pc), false, None))).(temps := s.temps - {id})
    case ReleaseFile(id) => At(s, id, Unfiled(s.frames[id].pc.end)).(fileLock := s.fileLock - {s.frames[id].key})
    case Release(id) =>
      var lock := s.frames[id].lock;
      At(s, id, Leaving(s.frames[id].pc.end)).(owner := if s.owner[lock].depth <= 1 then s.owner - {lock}
                                   else s.owner[lock := Owner(s.owner[lock].thread, s.owner[lock].depth - 1)])
    case Leave(id) =>
      var f := s.frames[id];
      s.(registry := Parted(s.registry, Slot(f), f.lock), frames := s.frames - {id},
          over := s.over[id := Outcome(f.key, f.op, f.pc.end)])
    case Crash(process) =>
      s.(registry := RegistryAfterCrash(s.registry, process),
         owner := OwnersAfterCrash(s.owner, s.frames, process),
         frames := Surviving(s.frames, process),
         fileLock := FilesAfterCrash(s.fileLock, s.frames, process))
  }

  // ------------------------------------------------------------ invariants

  /** Calls registered for one path of one process. */
  function Users(frames: Frames, slot: Place): set<nat> {
    set f | f in frames && Slot(frames[f]) == slot
  }

  /** Calls inside one lock. */
  function Holders(frames: Frames, lock: nat): set<nat> {
    set f | f in frames && frames[f].lock == lock && HoldsThread(frames[f].pc)
  }

  type Registry = map<Place, Entry>

  /** The registry counts exactly the current users, keeps an entry only while used, and all users share its lock. */
  ghost predicate Counted(registry: Registry, frames: Frames) {
    && (forall slot :: slot in registry <==> Users(frames, slot) != {})
    && (forall slot :: slot in registry ==> registry[slot].users == |Users(frames, slot)|)
    && (forall f :: f in frames ==> Slot(frames[f]) in registry && registry[Slot(frames[f])].lock == frames[f].lock)
  }

  /** Locks are never shared between paths and never reused. */
  ghost predicate LocksApart(registry: Registry, nextLock: nat) {
    && (forall slot :: slot in registry ==> registry[slot].lock < nextLock)
    && (forall p, q :: p in registry && q in registry && registry[p].lock == registry[q].lock ==> p == q)
  }

  /** A lock is owned exactly while some call is inside it, by that call's thread, as deep as it has calls inside. */
  ghost predicate Owned(owner: map<nat, Owner>, frames: Frames) {
    && (forall l :: l in owner <==> Holders(frames, l) != {})
    && (forall l :: l in owner ==> owner[l].depth == |Holders(frames, l)|)
    && (forall l, f :: l in owner && f in Holders(frames, l) ==> frames[f].thread == owner[l].thread)
  }

  /** The file lock of a path names the one call that holds it. */
  ghost predicate FilesHeld(fileLock: map<string, nat>, frames: Frames) {
    && (forall k :: k in fileLock ==>
       fileLock[k] in frames && frames[fileLock[k]].key == k && HoldsFile(frames[fileLock[k]].pc))
    && (forall f :: f in frames && HoldsFile(frames[f].pc) ==>
       frames[f].key in fileLock && fileLock[frames[f].key] == f)
  }

  /** What a call has read or computed is what the file says, and a flushed temporary file is whole. */
  ghost predicate FrameCurrent(disk: map<string, Content>, temps: map<nat, Content>, id: nat, f: Frame) {
    match f.pc
    case Loaded(current) => Current(disk, f.key, f.op) == Some(current)
    case Writing(next, flushed) =>
      && Current(disk, f.key, f.op).Some? && Result(f.op, Current(disk, f.key, f.op).value) == Some(next)
      && (flushed ==> id in temps && temps[id] == Whole(next))
    case _ => true
  }

  ghost predicate UpToDate(disk: map<string, Content>, temps: map<nat, Content>, frames: Frames) {
    forall f :: f in frames ==> FrameCurrent(disk, temps, f, frames[f])
  }

  ghost predicate Invariant(s: State, initial: map<string, Content>) {
    && Counted(s.registry, s.frames) && LocksApart(s.registry, s.nextLock) && Owned(s.owner, s.frames)
    && FilesHeld(s.fileLock, s.frames) && UpToDate(s.disk, s.temps, s.frames) && s.disk == Replay(initial, s.log)
  }

  ghost predicate Initial(s: State) {
    s.registry == map[] && s.owner == map[] && s.frames == map[] && s.fileLock == map[] && s.log == []
    && s.entered == map[] && s.over == map[]
  }

  // ------------------------------------------------------------ the registry's books

  function Moved(frames: Frames, id: nat, pc: Pc): Frames
    requires id in frames
  {
    frames[id := frames[id].(pc := pc)]
  }

  lemma UsersEnter(frames: Frames, id: nat, f: Frame)
    requires id !in frames
    ensures forall p :: Users(frames[id := f], p) == if p == Slot(f) then Users(frames, p) + {id} else Users(frames, p)
    ensures forall p :: id !in Users(frames, p)
  {
    forall p ensures Users(frames[id := f], p) == if p == Slot(f) then Users(frames, p) + {id} else Users(frames, p) { }
  }

  lemma UsersLeave(frames: Frames, id: nat)
    requires id in frames
    ensures forall p :: Users(frames - {id}, p) == if p == Slot(frames[id]) then Users(frames, p) - {id}
              else Users(frames, p)
    ensures id in Users(frames, Slot(frames[id])) && forall f :: f in frames ==> f in Users(frames, Slot(frames[f]))
  {
    forall p ensures Users(frames - {id}, p) == if p == Slot(frames[id]) then Users(frames, p) - {id}
        else Users(frames, p) { }
  }

  function JoinedAs(registry: Registry, f: Frame): Registry {
    registry[Slot(f) := Entry(f.lock, (if Slot(f) in registry then registry[Slot(f)].users else 0) + 1)]
  }

  lemma CountedEnter(registry: Registry, frames: Frames, id: nat, f: Frame)
    requires Counted(registry, frames) && id !in frames
    requires Slot(f) in registry ==> f.lock == registry[Slot(f)].lock
    ensures Counted(JoinedAs(registry, f), frames[id := f])
  {
    hide Users;
    UsersEnter(frames, id, f);
    var r, now, slot := JoinedAs(registry, f), frames[id := f], Slot(f);
    var others := Users(frames, slot);
    assert |others + {id}| == |others| + 1 && id in others + {id};
    assert slot !in registry ==> |others| == 0;
    assert r[slot].users == |Users(now, slot)| && Users(now, slot) != {};
    forall p ensures p in r <==> Users(now, p) != {} { assert p != slot ==> Users(now, p) == Users(frames, p); }
    forall p | p in r ensures r[p].users == |Users(now, p)| { assert p != slot ==>
        p in registry && r[p] == registry[p]; }
    forall g | g in now ensures Slot(now[g]) in r
        && r[Slot(now[g])].lock == now[g].lock { assert g != id ==> now[g] == frames[g]; }
  }

  lemma ApartEnter(registry: Registry, nextLock: nat, f: Frame)
    requires LocksApart(registry, nextLock)
    requires f.lock == if Slot(f) in registry then registry[Slot(f)].lock else nextLock
    ensures LocksApart(JoinedAs(registry, f), if f.lock == nextLock then nextLock + 1 else nextLock)
  {
  }

  lemma CountedLeave(registry: Registry, frames: Frames, id: nat)
    requires Counted(registry, frames) && id in frames
    ensures Counted(Parted(registry, Slot(frames[id]), frames[id].lock), frames - {id})
  {
    hide Users;
    UsersLeave(frames, id);
    var slot := Slot(frames[id]);
    var now := frames - {id};
    var rest := Users(frames, slot) - {id};
    assert Users(frames, slot) == rest + {id};
    assert |rest| == |Users(frames, slot)| - 1;
    assert |rest| == 0 <==> rest == {};
    forall f | f in now ensures Slot(now[f]) in Parted(registry, slot, frames[id].lock) {
      assert f in Users(frames, Slot(frames[f]));
      if Slot(now[f]) == slot { assert f in rest; }
    }
  }

  lemma ApartLeave(registry: Registry, nextLock: nat, slot: Place, lock: nat)
    requires LocksApart(registry, nextLock)
    ensures LocksApart(Parted(registry, slot, lock), nextLock)
  {
  }

  lemma CountedMoved(registry: Registry, frames: Frames, id: nat, pc: Pc)
    requires Counted(registry, frames) && id in frames
    ensures Counted(registry, Moved(frames, id, pc))
  {
    forall slot ensures Users(Moved(frames, id, pc), slot) == Users(frames, slot) { }
  }

  function RegistryAfterCrash(registry: Registry, process: nat): Registry {
    map slot | slot in registry && slot.process != process :: registry[slot]
  }

  lemma CountedCrash(registry: Registry, frames: Frames, process: nat)
    requires Counted(registry, frames)
    ensures Counted(RegistryAfterCrash(registry, process), Surviving(frames, process))
  {
    forall slot ensures Users(Surviving(frames, process), slot) == if slot.process == process then {}
        else Users(frames, slot) { }
  }

  lemma ApartCrash(registry: Registry, nextLock: nat, process: nat)
    requires LocksApart(registry, nextLock)
    ensures LocksApart(RegistryAfterCrash(registry, process), nextLock)
  {
  }

  // ------------------------------------------------------------ the locks' books

  lemma OwnedMoved(owner: map<nat, Owner>, frames: Frames, id: nat, pc: Pc)
    requires Owned(owner, frames) && id in frames && HoldsThread(pc) == HoldsThread(frames[id].pc)
    ensures Owned(owner, Moved(frames, id, pc))
  {
    forall l ensures Holders(Moved(frames, id, pc), l) == Holders(frames, l) { }
  }

  lemma OwnedEnter(owner: map<nat, Owner>, frames: Frames, id: nat, f: Frame)
    requires Owned(owner, frames) && id !in frames && !HoldsThread(f.pc)
    ensures Owned(owner, frames[id := f])
  {
    forall l ensures Holders(frames[id := f], l) == Holders(frames, l) { }
  }

  lemma OwnedLeave(owner: map<nat, Owner>, frames: Frames, id: nat)
    requires Owned(owner, frames) && id in frames && !HoldsThread(frames[id].pc)
    ensures Owned(owner, frames - {id})
  {
    forall l ensures Holders(frames - {id}, l) == Holders(frames, l) { }
  }

  lemma HoldersElsewhere(frames: Frames, id: nat, pc: Pc)
    requires id in frames
    ensures forall m :: m != frames[id].lock ==> Holders(Moved(frames, id, pc), m) == Holders(frames, m)
  {
    forall m | m != frames[id].lock ensures Holders(Moved(frames, id, pc), m) == Holders(frames, m) { }
  }

  lemma HoldersHere(frames: Frames, id: nat, pc: Pc)
    requires id in frames
    ensures var here := Holders(frames, frames[id].lock);
            && here <= frames.Keys && (id in here <==> HoldsThread(frames[id].pc))
            && Holders(Moved(frames, id, pc), frames[id].lock) == if HoldsThread(pc) then here + {id} else here - {id}
  {
  }

  /** Taking the lock: one holder more. */
  lemma OwnedAcquire(owner: map<nat, Owner>, frames: Frames, id: nat, pc: Pc)
    requires Owned(owner, frames) && id in frames && !HoldsThread(frames[id].pc) && HoldsThread(pc)
    requires frames[id].lock !in owner || owner[frames[id].lock].thread == frames[id].thread
    ensures var l := frames[id].lock;
            Owned(owner[l := Owner(frames[id].thread, (if l in owner then owner[l].depth else 0) + 1)],
                Moved(frames, id, pc))
  {
    hide Holders, Owned;
    HoldersElsewhere(frames, id, pc);
    HoldersHere(frames, id, pc);
    var l := frames[id].lock;
    OwnedAt(owner, frames, l);
    var others := Holders(frames, l);
    assert |others + {id}| == |others| + 1;
    OwnedByHolders(owner, frames, l, Moved(frames, id, pc), others + {id},
                   owner[l := Owner(frames[id].thread, (if l in owner then owner[l].depth else 0) + 1)]);
  }

  lemma OwnedAt(owner: map<nat, Owner>, frames: Frames, l: nat)
    requires Owned(owner, frames)
    ensures l in owner <==> Holders(frames, l) != {}
    ensures l in owner ==> owner[l].depth == |Holders(frames, l)| && forall f :: f in Holders(frames, l) ==>
        f in frames && frames[f].thread == owner[l].thread
  {
  }

  lemma HoldersKnown(frames: Frames)
    ensures forall m, f :: f in Holders(frames, m) ==> f in frames
  {
  }

  /** Books kept right at one lock and untouched elsewhere stay right. */
  lemma OwnedByHolders(owner: map<nat, Owner>, frames: Frames, l: nat, now: Frames, inside: set<nat>,
        owner': map<nat, Owner>)
    requires Owned(owner, frames) && now.Keys == frames.Keys
            && (forall f :: f in frames ==> now[f].thread == frames[f].thread)
    requires (forall m :: m != l ==> Holders(now, m) == Holders(frames, m)) && Holders(now, l) == inside
            && inside <= frames.Keys
    requires forall m :: m != l ==> (m in owner' <==> m in owner) && (m in owner ==> owner'[m] == owner[m])
    requires (l in owner' <==> inside != {})
        && (l in owner' ==> owner'[l].depth == |inside| && forall f :: f in inside ==>
           now[f].thread == owner'[l].thread)
    ensures Owned(owner', now)
  {
    HoldersKnown(frames);
    hide Holders;
    forall m, f | m in owner' && f in Holders(now, m) ensures now[f].thread == owner'[m].thread {
      if m != l { assert f in Holders(frames, m); }
    }
  }

  lemma OwnedRelease(owner: map<nat, Owner>, frames: Frames, id: nat, pc: Pc)
    requires Owned(owner, frames) && id in frames && HoldsThread(frames[id].pc) && !HoldsThread(pc)
    ensures var l := frames[id].lock;
            l in owner
            && Owned(if owner[l].depth <= 1 then owner - {l}
                else owner[l := Owner(owner[l].thread, owner[l].depth - 1)], Moved(frames, id, pc))
  {
    HoldersElsewhere(frames, id, pc);
    HoldersHere(frames, id, pc);
    var l := frames[id].lock;
    OwnedAt(owner, frames, l);
    var all := Holders(frames, l);
    hide Holders, Owned;
    var rest := all - {id};
    assert all == rest + {id} && |rest| == |all| - 1;
    assert |rest| == 0 <==> rest == {};
    OwnedByHolders(owner, frames, l, Moved(frames, id, pc), rest,
                   if owner[l].depth <= 1 then owner - {l} else owner[l := Owner(owner[l].thread, owner[l].depth - 1)]);
  }

  lemma HoldersCrash(registry: Registry, nextLock: nat, frames: Frames, process: nat, l: nat)
    requires Counted(registry, frames) && LocksApart(registry, nextLock)
    ensures Holders(Surviving(frames, process), l) == if UsedBy(frames, l, process) then {} else Holders(frames, l)
  {
    if UsedBy(frames, l, process) {
      var g :| g in frames && frames[g].lock == l && frames[g].process == process;
      forall f | f in frames && frames[f].lock == l ensures frames[f].process == process {
        SharedLockSharedSlot(registry, nextLock, frames, f, g);
      }
    }
  }

  lemma SharedLockSharedSlot(registry: Registry, nextLock: nat, frames: Frames, f: nat, g: nat)
    requires Counted(registry, frames) && LocksApart(registry, nextLock) && f in frames && g in frames
        && frames[f].lock == frames[g].lock
    ensures Slot(frames[f]) == Slot(frames[g])
  {
    hide Users;
    assert registry[Slot(frames[f])].lock == registry[Slot(frames[g])].lock;
  }

  lemma OwnedCrash(registry: Registry, nextLock: nat, owner: map<nat, Owner>, frames: Frames, process: nat)
    requires Counted(registry, frames) && LocksApart(registry, nextLock) && Owned(owner, frames)
    ensures Owned(OwnersAfterCrash(owner, frames, process), Surviving(frames, process))
  {
    hide Counted, LocksApart, Owned, OwnersAfterCrash;
    var now := Surviving(frames, process);
    forall l ensures Holders(now, l) == if UsedBy(frames, l, process) then {} else Holders(frames, l) {
      HoldersCrash(registry, nextLock, frames, process, l);
    }
    OwnersLeft(owner, frames, process);
  }

  lemma OwnersLeft(owner: map<nat, Owner>, frames: Frames, process: nat)
    requires Owned(owner, frames)
    requires forall l :: Holders(Surviving(frames, process), l) == if UsedBy(frames, l, process) then {}
              else Holders(frames, l)
    ensures Owned(OwnersAfterCrash(owner, frames, process), Surviving(frames, process))
  {
    var now := Surviving(frames, process);
    forall l, f | f in Holders(now, l) ensures f in now && now[f] == frames[f] { }
    hide Holders, UsedBy;
  }

  // ------------------------------------------------------------ file locks and what was read under them

  /** Moving a call that neither holds nor takes the file lock. */
  lemma FilesMoved(fileLock: map<string, nat>, disk: map<string, Content>, temps: map<nat, Content>, frames: Frames,
      id: nat, pc: Pc)
    requires FilesHeld(fileLock, frames) && UpToDate(disk, temps, frames) && id in frames
    requires !HoldsFile(frames[id].pc) && !HoldsFile(pc)
    ensures FilesHeld(fileLock, Moved(frames, id, pc)) && UpToDate(disk, temps, Moved(frames, id, pc))
  {
  }

  /** Moving the holder of a file lock while it keeps it. */
  lemma FilesKept(fileLock: map<string, nat>, frames: Frames, id: nat, pc: Pc)
    requires FilesHeld(fileLock, frames) && id in frames && HoldsFile(frames[id].pc) && HoldsFile(pc)
    ensures FilesHeld(fileLock, Moved(frames, id, pc))
  {
  }

  /** A change to one call's own temporary file and position leaves every other call current. */
  lemma CurrentMoved(disk: map<string, Content>, temps: map<nat, Content>, frames: Frames, id: nat, pc: Pc,
      temps': map<nat, Content>)
    requires UpToDate(disk, temps, frames) && id in frames && FrameCurrent(disk, temps', id, frames[id].(pc := pc))
    requires forall f :: f != id ==> (f in temps <==> f in temps') && (f in temps ==> temps'[f] == temps[f])
    ensures UpToDate(disk, temps', Moved(frames, id, pc))
  {
    var now := Moved(frames, id, pc);
    forall f | f in now ensures FrameCurrent(disk, temps', f, now[f]) {
      if f != id { assert FrameCurrent(disk, temps, f, frames[f]); }
    }
  }

  /** Replacing a path's file disturbs no other call: nobody else has read or computed for that path. */
  lemma CurrentReplaced(fileLock: map<string, nat>, disk: map<string, Content>, temps: map<nat, Content>,
        frames: Frames,
      id: nat, content: Content, next: Object)
    requires FilesHeld(fileLock, frames) && UpToDate(disk, temps, frames) && id in frames && HoldsFile(frames[id].pc)
    ensures UpToDate(disk[frames[id].key := content], temps - {id}, Moved(frames, id, Replaced(next)))
  {
    var now, key := Moved(frames, id, Replaced(next)), frames[id].key;
    forall f | f in now ensures FrameCurrent(disk[key := content], temps - {id}, f, now[f]) {
      if f != id {
        assert FrameCurrent(disk, temps, f, frames[f]);
        assert HoldsFile(frames[f].pc) ==> frames[f].key != key;
      }
    }
  }

  lemma FilesLocked(fileLock: map<string, nat>, frames: Frames, id: nat, pc: Pc)
    requires FilesHeld(fileLock, frames) && id in frames && !HoldsFile(frames[id].pc) && HoldsFile(pc)
        && frames[id].key !in fileLock
    ensures FilesHeld(fileLock[frames[id].key := id], Moved(frames, id, pc))
  {
  }

  lemma FilesUnlocked(fileLock: map<string, nat>, frames: Frames, id: nat, pc: Pc)
    requires FilesHeld(fileLock, frames) && id in frames && HoldsFile(frames[id].pc) && !HoldsFile(pc)
    ensures FilesHeld(fileLock - {frames[id].key}, Moved(frames, id, pc))
  {
  }

  lemma CurrentAt(disk: map<string, Content>, temps: map<nat, Content>, frames: Frames, id: nat)
    requires UpToDate(disk, temps, frames) && id in frames
    ensures FrameCurrent(disk, temps, id, frames[id])
  {
  }

  lemma FilesEnter(fileLock: map<string, nat>, disk: map<string, Content>, temps: map<nat, Content>, frames: Frames,
      id: nat, f: Frame)
    requires FilesHeld(fileLock, frames) && UpToDate(disk, temps, frames) && id !in frames && f.pc.Waiting?
    ensures FilesHeld(fileLock, frames[id := f]) && UpToDate(disk, temps, frames[id := f])
  {
  }

  lemma FilesLeave(fileLock: map<string, nat>, disk: map<string, Content>, temps: map<nat, Content>,
        frames: Frames, id: nat)
    requires FilesHeld(fileLock, frames) && UpToDate(disk, temps, frames) && id in frames && !HoldsFile(frames[id].pc)
    ensures FilesHeld(fileLock, frames - {id}) && UpToDate(disk, temps, frames - {id})
  {
  }

  lemma FilesCrash(fileLock: map<string, nat>, disk: map<string, Content>, temps: map<nat, Content>,
        frames: Frames, process: nat)
    requires FilesHeld(fileLock, frames) && UpToDate(disk, temps, frames)
    ensures FilesHeld(FilesAfterCrash(fileLock, frames, process), Surviving(frames, process))
        && UpToDate(disk, temps, Surviving(frames, process))
  {
  }

  // ------------------------------------------------------------ every step keeps the invariant

  /** What an Enter step does: one more user of the path's lock, and a waiting call. */
  lemma DoEnter(s: State, step: Step) returns (f: Frame)
    requires step.Enter? && Enabled(s, step)
    ensures var slot := Place(step.process, step.key);
            f == Frame(step.process, step.thread, step.key, if slot in s.registry then s.registry[slot].lock
                else s.nextLock, step.op, Waiting)
    ensures var t := Do(s, step);
            t == s.(registry := JoinedAs(s.registry, f), nextLock := if f.lock == s.nextLock then s.nextLock
                + 1 else s.nextLock,
                    frames := s.frames[step.id := f], entered := s.entered[step.id := |s.log|])
  {
    var slot := Place(step.process, step.key);
    var lock := if slot in s.registry then s.registry[slot].lock else s.nextLock;
    f := Frame(step.process, step.thread, step.key, lock, step.op, Waiting);
  }

  lemma EnterKeeps(s: State, step: Step, initial: map<string, Content>)
    requires Invariant(s, initial) && step.Enter? && Enabled(s, step)
    ensures Invariant(Do(s, step), initial)
  {
    hide Counted, LocksApart, Owned, FilesHeld, UpToDate, Do, JoinedAs, ThreadFits;
    var f := DoEnter(s, step);
    CountedEnter(s.registry, s.frames, step.id, f);
    ApartEnter(s.registry, s.nextLock, f);
    OwnedEnter(s.owner, s.frames, step.id, f);
    FilesEnter(s.fileLock, s.disk, s.temps, s.frames, step.id, f);
  }

  lemma LeaveKeeps(s: State, step: Step, initial: map<string, Content>)
    requires Invariant(s, initial) && step.Leave? && Enabled(s, step)
    ensures Invariant(Do(s, step), initial)
  {
    hide Counted, LocksApart, Owned, FilesHeld, UpToDate;
    CountedLeave(s.registry, s.frames, step.id);
    ApartLeave(s.registry, s.nextLock, Slot(s.frames[step.id]), s.frames[step.id].lock);
    OwnedLeave(s.owner, s.frames, step.id);
    FilesLeave(s.fileLock, s.disk, s.temps, s.frames, step.id);
  }

  lemma AcquireKeeps(s: State, step: Step, initial: map<string, Content>)
    requires Invariant(s, initial) && step.Acquire? && Enabled(s, step)
    ensures Invariant(Do(s, step), initial)
  {
    hide Counted, LocksApart, Owned, FilesHeld, UpToDate;
    CountedMoved(s.registry, s.frames, step.id, Locked);
    OwnedAcquire(s.owner, s.frames, step.id, Locked);
    FilesMoved(s.fileLock, s.disk, s.temps, s.frames, step.id, Locked);
  }

  lemma ReleaseKeeps(s: State, step: Step, initial: map<string, Content>)
    requires Invariant(s, initial) && step.Release? && Enabled(s, step)
    ensures Invariant(Do(s, step), initial)
  {
    hide Counted, LocksApart, Owned, FilesHeld, UpToDate;
    CountedMoved(s.registry, s.frames, step.id, Leaving(s.frames[step.id].pc.end));
    OwnedRelease(s.owner, s.frames, step.id, Leaving(s.frames[step.id].pc.end));
    FilesMoved(s.fileLock, s.disk, s.temps, s.frames, step.id, Leaving(s.frames[step.id].pc.end));
  }

  lemma AbandonKeeps(s: State, step: Step, initial: map<string, Content>)
    requires Invariant(s, initial) && step.Abandon? && Enabled(s, step)
    ensures Invariant(Do(s, step), initial)
  {
    hide Counted, LocksApart, Owned, FilesHeld, UpToDate;
    CountedMoved(s.registry, s.frames, step.id, Leaving(NOTHING_DONE));
    OwnedMoved(s.owner, s.frames, step.id, Leaving(NOTHING_DONE));
    FilesMoved(s.fileLock, s.disk, s.temps, s.frames, step.id, Leaving(NOTHING_DONE));
  }

  lemma CrashKeeps(s: State, step: Step, initial: map<string, Content>)
    requires Invariant(s, initial) && step.Crash? && Enabled(s, step)
    ensures Invariant(Do(s, step), initial)
  {
    hide Counted, LocksApart, Owned, FilesHeld, UpToDate;
    CountedCrash(s.registry, s.frames, step.process);
    ApartCrash(s.registry, s.nextLock, step.process);
    OwnedCrash(s.registry, s.nextLock, s.owner, s.frames, step.process);
    FilesCrash(s.fileLock, s.disk, s.temps, s.frames, step.process);
  }

  /** Taking and giving back the file lock. */
  lemma FileLockKeeps(s: State, step: Step, initial: map<string, Content>)
    requires Invariant(s, initial) && (step.AcquireFile? || step.GiveUpFile? || step.ReleaseFile?) && Enabled(s, step)
    ensures Invariant(Do(s, step), initial)
  {
    hide Counted, LocksApart, Owned, FilesHeld, UpToDate;
    var pc := Do(s, step).frames[step.id].pc;
    CountedMoved(s.registry, s.frames, step.id, pc);
    OwnedMoved(s.owner, s.frames, step.id, pc);
    CurrentMoved(s.disk, s.temps, s.frames, step.id, pc, s.temps);
    if step.AcquireFile? { FilesLocked(s.fileLock, s.frames, step.id, pc); }
    else if step.ReleaseFile? { FilesUnlocked(s.fileLock, s.frames, step.id, pc); }
    else { FilesMoved(s.fileLock, s.disk, s.temps, s.frames, step.id, pc); }
  }

  /** Reading, computing, writing the temporary file, and failing: the file itself is untouched. */
  lemma WorkKeeps(s: State, step: Step, initial: map<string, Content>)
    requires Invariant(s, initial)
            && (step.Look? || step.Load? || step.Compute? || step.Flush? || step.Verify? || step.Fail?)
               && Enabled(s, step)
    ensures Invariant(Do(s, step), initial)
  {
    hide Counted, LocksApart, Owned, FilesHeld, UpToDate;
    var t := Do(s, step);
    var pc := t.frames[step.id].pc;
    CurrentAt(s.disk, s.temps, s.frames, step.id);
    CountedMoved(s.registry, s.frames, step.id, pc);
    OwnedMoved(s.owner, s.frames, step.id, pc);
    FilesKept(s.fileLock, s.frames, step.id, pc);
    CurrentMoved(s.disk, s.temps, s.frames, step.id, pc, t.temps);
    assert t.frames == Moved(s.frames, step.id, pc);
  }

  /** A replace commits exactly what the operation alone would have written. */
  lemma ReplaceKeeps(s: State, step: Step, initial: map<string, Content>)
    requires Invariant(s, initial) && step.Replace? && Enabled(s, step)
    ensures Invariant(Do(s, step), initial)
  {
    hide Counted, LocksApart, Owned, FilesHeld, UpToDate;
    var t, f := Do(s, step), s.frames[step.id];
    CurrentAt(s.disk, s.temps, s.frames, step.id);
    CountedMoved(s.registry, s.frames, step.id, Replaced(f.pc.next));
    OwnedMoved(s.owner, s.frames, step.id, Replaced(f.pc.next));
    FilesKept(s.fileLock, s.frames, step.id, Replaced(f.pc.next));
    CurrentReplaced(s.fileLock, s.disk, s.temps, s.frames, step.id, s.temps[step.id], f.pc.next);
    assert t.log[..|t.log| - 1] == s.log;
    assert Alone(s.disk, f.key, f.op) == s.disk[f.key := Whole(f.pc.next)];
  }

  lemma StepKeeps(s: State, step: Step, initial: map<string, Content>)
    requires Invariant(s, initial) && Enabled(s, step)
    ensures Invariant(Do(s, step), initial)
  {
    hide Invariant, Do;
    match step
    case Enter(_, _, _, _, _) => EnterKeeps(s, step, initial);
    case Leave(_) => LeaveKeeps(s, step, initial);
    case Acquire(_) => AcquireKeeps(s, step, initial);
    case Release(_) => ReleaseKeeps(s, step, initial);
    case Abandon(_) => AbandonKeeps(s, step, initial);
    case Crash(_) => CrashKeeps(s, step, initial);
    case Replace(_) => ReplaceKeeps(s, step, initial);
    case AcquireFile(_) => FileLockKeeps(s, step, initial);
    case GiveUpFile(_) => FileLockKeeps(s, step, initial);
    case ReleaseFile(_) => FileLockKeeps(s, step, initial);
    case _ => WorkKeeps(s, step, initial);
  }

  // ------------------------------------------------------------ whole runs

  /** A run: every step enabled where it is taken. */
  ghost predicate Run(s: State, steps: seq<Step>, t: State)
    decreases |steps|
  {
    if steps == [] then s == t else Enabled(s, steps[0]) && Run(Do(s, steps[0]), steps[1..], t)
  }

  lemma {:induction false} RunKeeps(s: State, steps: seq<Step>, t: State, initial: map<string, Content>)
    requires Run(s, steps, t) && Invariant(s, initial)
    ensures Invariant(t, initial)
    decreases |steps|
  {
    if steps != [] {
      StepKeeps(s, steps[0], initial);
      RunKeeps(Do(s, steps[0]), steps[1..], t, initial);
    }
  }

  lemma InitialInvariant(s: State)
    requires Initial(s)
    ensures Invariant(s, s.disk)
  {
    forall slot ensures Users(s.frames, slot) == {} { }
    forall l ensures Holders(s.frames, l) == {} { }
  }

  /** Two calls inside one path of one process belong to one thread. */
  ghost predicate ThreadsExclude(frames: Frames) {
    forall f, g :: f in frames && g in frames && HoldsThread(frames[f].pc) && HoldsThread(frames[g].pc)
        && Slot(frames[f]) == Slot(frames[g])
      ==> frames[f].thread == frames[g].thread
  }

  /** At most one call, of any process, holds a path's file lock. */
  ghost predicate FilesExclude(frames: Frames) {
    forall f, g ::
      (f in frames && g in frames && HoldsFile(frames[f].pc) && HoldsFile(frames[g].pc)
          && frames[f].key == frames[g].key) ==>
        f == g
  }

  lemma OwnersExclude(registry: Registry, owner: map<nat, Owner>, frames: Frames)
    requires Counted(registry, frames) && Owned(owner, frames)
    ensures ThreadsExclude(frames)
  {
    forall f, g | f in frames && g in frames && HoldsThread(frames[f].pc) && HoldsThread(frames[g].pc)
        && Slot(frames[f]) == Slot(frames[g])
      ensures frames[f].thread == frames[g].thread
    {
      var l := frames[f].lock;
      assert f in Holders(frames, l) && g in Holders(frames, l);
    }
  }

  /** In every reachable state, crashes included: the registry counts the current users; two threads are never inside
      one path of a process; one call at most holds a path's file lock; and the files are those of the committed
      operations run one after another. */
  lemma ReachableStates(s: State, steps: seq<Step>, t: State)
    requires Initial(s) && Run(s, steps, t)
    ensures Counted(t.registry, t.frames) && ThreadsExclude(t.frames) && FilesExclude(t.frames)
    ensures t.disk == Replay(s.disk, t.log)
  {
    InitialInvariant(s);
    RunKeeps(s, steps, t, s.disk);
    OwnersExclude(t.registry, t.owner, t.frames);
  }

  /** The k-th commit put this content there: the object its operation made of what the earlier commits had left. */
  ghost predicate WroteBy(initial: map<string, Content>, log: seq<Commit>, k: nat, key: string, content: Content)
    requires k < |log|
  {
    var c := log[k];
    var current := Current(Replay(initial, log[..k]), key, c.op);
    && c.key == key && current.Some? && Result(c.op, current.value).Some?
    && content == Whole(Result(c.op, current.value).value)
  }

  /** A path's file only ever holds what it held at the start or one whole object, the result of a logged operation. */
  lemma {:induction false} FilesWhole(initial: map<string, Content>, log: seq<Commit>, key: string)
    requires key in Replay(initial, log)
    ensures (key in initial && Replay(initial, log)[key] == initial[key])
            || exists k: nat :: k < |log| && WroteBy(initial, log, k, key, Replay(initial, log)[key])
  {
    if log != [] {
      var n := |log| - 1;
      var before, c := Replay(initial, log[..n]), log[n];
      if c.key == key && Current(before, key, c.op).Some? && Result(c.op, Current(before, key, c.op).value).Some? {
        assert WroteBy(initial, log, n, key, Replay(initial, log)[key]);
      } else {
        assert Replay(initial, log)[key] == before[key];
        FilesWhole(initial, log[..n], key);
        if exists k: nat :: k < n && WroteBy(initial, log[..n], k, key, before[key]) {
          var k: nat :| k < n && WroteBy(initial, log[..n], k, key, before[key]);
          assert log[..n][..k] == log[..k];
          assert WroteBy(initial, log, k, key, before[key]);
        }
      }
    }
  }

  // ------------------------------------------------------------ every call in the log at most once

  ghost predicate Logged(log: seq<Commit>, id: nat) {
    exists i :: 0 <= i < |log| && log[i].id == id
  }

  /** No call commits twice, and commits are of calls that were made. */
  ghost predicate LogApart(log: seq<Commit>, entered: map<nat, nat>) {
    && (forall i :: 0 <= i < |log| ==> log[i].id in entered)
    && forall i, j :: 0 <= i < j < |log| ==> log[i].id != log[j].id
  }

  /** A call in flight is in the log exactly when it is past its replace, with its own path and operation. */
  ghost predicate FramesLogged(log: seq<Commit>, frames: Frames) {
    && (forall f :: f in frames ==> (Logged(log, f) <==> Past(frames[f].pc)))
    && forall i :: 0 <= i < |log| && log[i].id in frames ==>
        log[i].key == frames[log[i].id].key && log[i].op == frames[log[i].id].op
  }

  /** So is a call that is over; one that returned is past its replace, or a read. */
  ghost predicate OverLogged(log: seq<Commit>, over: map<nat, Outcome>) {
    && (forall f :: f in over ==>
       (Logged(log, f) <==> over[f].end.replaced) && (over[f].end.ok ==> over[f].end.replaced || over[f].op.Read?))
    && forall i :: 0 <= i < |log| && log[i].id in over ==>
       log[i].key == over[log[i].id].key && log[i].op == over[log[i].id].op
  }

  /** A body that returned got past its replace, or is a read. */
  predicate EndRight(op: Op, pc: Pc) {
    match pc
    case Closing(end) => end.ok ==> end.replaced || op.Read?
    case Unfiled(end) => end.ok ==> end.replaced || op.Read?
    case Leaving(end) => end.ok ==> end.replaced || op.Read?
    case _ => true
  }

  ghost predicate EndsRight(frames: Frames) {
    forall f :: f in frames ==> EndRight(frames[f].op, frames[f].pc)
  }

  ghost predicate Booked(s: State) {
    && s.frames.Keys <= s.entered.Keys && s.over.Keys <= s.entered.Keys && s.frames.Keys !! s.over.Keys
    && LogApart(s.log, s.entered) && FramesLogged(s.log, s.frames) && OverLogged(s.log, s.over) && EndsRight(s.frames)
  }

  lemma LoggedMore(log: seq<Commit>, c: Commit, id: nat)
    ensures Logged(log + [c], id) <==> Logged(log, id) || c.id == id
  {
    if Logged(log, id) {
      var i :| 0 <= i < |log| && log[i].id == id;
      assert (log + [c])[i].id == id;
    }
    if c.id == id { assert (log + [c])[|log|].id == id; }
    if Logged(log + [c], id) && c.id != id {
      var i :| 0 <= i < |log + [c]| && (log + [c])[i].id == id;
      assert log[i].id == id;
    }
  }

  /** Moving a call without its getting past its replace, or back. */
  lemma BookedMoved(s: State, t: State, id: nat, pc: Pc)
    requires Booked(s) && id in s.frames && Past(pc) == Past(s.frames[id].pc)
    requires EndRight(s.frames[id].op, pc)
    requires t.frames == Moved(s.frames, id, pc) && t.log == s.log && t.entered == s.entered && t.over == s.over
    ensures Booked(t)
  {
    hide Logged, LogApart, OverLogged;
  }

  lemma BookedReplace(s: State, t: State, id: nat, pc: Pc)
    requires Booked(s) && id in s.frames && !Past(s.frames[id].pc) && pc.Replaced?
    requires t.frames == Moved(s.frames, id, pc) && t.log == s.log + [Commit(id, s.frames[id].key, s.frames[id].op)]
    requires t.entered == s.entered && t.over == s.over
    ensures Booked(t)
  {
    var c := Commit(id, s.frames[id].key, s.frames[id].op);
    forall f ensures Logged(t.log, f) <==> Logged(s.log, f) || f == id { LoggedMore(s.log, c, f); }
    assert !Logged(s.log, id);
    forall i, j | 0 <= i < j < |t.log| ensures t.log[i].id != t.log[j].id {
      assert t.log[i] == s.log[i];
      assert j < |s.log| ==> t.log[j] == s.log[j];
      assert s.log[i].id == id ==> Logged(s.log, id);
    }
    hide Logged;
    assert FramesLogged(t.log, t.frames);
    assert OverLogged(t.log, t.over);
  }

  lemma BookedEnter(s: State, t: State, id: nat, f: Frame)
    requires Booked(s) && id !in s.entered && !Past(f.pc) && EndRight(f.op, f.pc)
    requires t.frames == s.frames[id := f] && t.log == s.log && t.entered == s.entered[id := |s.log|]
            && t.over == s.over
    ensures Booked(t)
  {
    assert !Logged(s.log, id);
  }

  lemma BookedLeave(s: State, t: State, id: nat)
    requires Booked(s) && id in s.frames && s.frames[id].pc.Leaving?
    requires t.frames == s.frames - {id} && t.log == s.log && t.entered == s.entered
    requires t.over == s.over[id := Outcome(s.frames[id].key, s.frames[id].op, s.frames[id].pc.end)]
    ensures Booked(t)
  {
    hide Logged, LogApart;
  }

  lemma BookedCrash(s: State, process: nat)
    requires Booked(s)
    ensures Booked(Do(s, Crash(process)))
  {
    hide Logged, LogApart, OverLogged;
  }

  lemma BookedKeeps(s: State, step: Step)
    requires Booked(s) && Enabled(s, step)
    ensures Booked(Do(s, step))
  {
    hide Booked;
    var t := Do(s, step);
    match step
    case Enter(id, process, thread, key, op) => BookedEnter(s, t, id, t.frames[id]);
    case Leave(id) => BookedLeave(s, t, id);
    case Replace(id) => BookedReplace(s, t, id, t.frames[id].pc);
    case Crash(process) => BookedCrash(s, process);
    case _ => BookedOther(s, step);
  }

  lemma BookedOther(s: State, step: Step)
    requires Booked(s) && Enabled(s, step) && !step.Enter? && !step.Leave? && !step.Replace? && !step.Crash?
    ensures Booked(Do(s, step))
  {
    hide Booked;
    BookedEnds(s, step.id);
    BookedMoved(s, Do(s, step), step.id, Do(s, step).frames[step.id].pc);
  }

  lemma BookedEnds(s: State, id: nat)
    requires Booked(s) && id in s.frames
    ensures EndRight(s.frames[id].op, s.frames[id].pc)
  {
  }

  lemma {:induction false} RunBooked(s: State, steps: seq<Step>, t: State)
    requires Run(s, steps, t) && Booked(s)
    ensures Booked(t)
    decreases |steps|
  {
    if steps != [] {
      BookedKeeps(s, steps[0]);
      RunBooked(Do(s, steps[0]), steps[1..], t);
    }
  }

  /** In every reachable state a call that returned is in the log exactly once, with its own path and operation; one
      that raised is there exactly when it had replaced its file; and the files are the logged operations run one
      after another. */
  lemma SuccessfulCallsLogged(s: State, steps: seq<Step>, t: State, id: nat)
    requires Initial(s) && Run(s, steps, t) && id in t.over
    ensures t.over[id].end.ok ==> t.over[id].end.replaced || t.over[id].op.Read?
    ensures t.over[id].end.replaced
            <==> exists i :: 0 <= i < |t.log| && t.log[i] == Commit(id, t.over[id].key, t.over[id].op)
    ensures forall i, j :: 0 <= i < j < |t.log| ==> t.log[i].id != t.log[j].id
    ensures t.disk == Replay(s.disk, t.log)
  {
    assert Booked(s);
    RunBooked(s, steps, t);
    ReachableStates(s, steps, t);
    if t.over[id].end.replaced {
      assert Logged(t.log, id);
      var i :| 0 <= i < |t.log| && t.log[i].id == id;
      assert t.log[i] == Commit(id, t.over[id].key, t.over[id].op);
    } else {
      assert !Logged(t.log, id);
    }
  }

  // ------------------------------------------------------------ the registry object

  /** The module-level registry of one process; each method is one critical section under its guard. The calls it
      serves are known to the proof only. */
  class LockTable {
    const process: nat
    var entries: Registry
    var nextLock: nat
    ghost var calls: Frames

    constructor (process: nat)
      ensures this.process == process && calls == map[] && Valid()
    {
      this.process := process;
      entries, nextLock, calls := map[], 0, map[];
      new;
      forall slot ensures Users(calls, slot) == {} { }
    }

    /** The table counts the calls of each path, all of which share its lock, and no two paths share one. */
    ghost predicate Valid()
      reads this
    {
      Counted(entries, calls) && LocksApart(entries, nextLock) && forall f :: f in calls ==> calls[f].process == process
    }

    /** Before the lock is taken: the new call shares the lock of the path's other calls, and no other path has that
        lock. */
    method Enter(key: string, ghost id: nat, ghost thread: nat, ghost op: Op) returns (lock: nat)
      requires Valid() && id !in calls
      modifies this
      ensures Valid() && calls == old(calls)[id := Frame(process, thread, key, lock, op, Waiting)]
      ensures forall f :: f in old(calls) ==> (calls[f].lock == lock <==> calls[f].key == key)
      ensures (entries, lock) == Joined(old(entries), old(nextLock), Place(process, key))
      ensures nextLock == if Place(process, key) in old(entries) then old(nextLock) else old(nextLock) + 1
    {
      hide Users, Counted, LocksApart;
      var slot := Place(process, key);
      if slot !in entries {
        lock := nextLock;
        entries := entries[slot := Entry(lock, 1)];
        nextLock := nextLock + 1;
      } else {
        lock := entries[slot].lock;
        entries := entries[slot := Entry(lock, entries[slot].users + 1)];
      }
      ghost var f := Frame(process, thread, key, lock, op, Waiting);
      TableEnter(old(entries), old(nextLock), calls, id, f);
      calls := calls[id := f];
    }

    /** After the lock is released: the call is gone, and the path's entry with it when it was the last one. */
    method Leave(key: string, lock: nat, ghost id: nat)
      requires Valid() && id in calls && calls[id].key == key && calls[id].lock == lock
      modifies this
      ensures Valid() && calls == old(calls) - {id}
      ensures Place(process, key) in entries <==> exists f :: f in calls && calls[f].key == key
      ensures entries == Parted(old(entries), Place(process, key), lock) && nextLock == old(nextLock)
    {
      hide Users, Counted, LocksApart;
      var slot := Place(process, key);
      TableLeave(entries, nextLock, calls, id);
      if slot in entries && entries[slot].lock == lock {
        if entries[slot].users <= 1 {
          entries := entries - {slot};
        } else {
          entries := entries[slot := Entry(lock, entries[slot].users - 1)];
        }
      }
      calls := calls - {id};
    }
  }

  /** A joining call gets the lock of the calls for its own path and of no others. */
  lemma SharedExactly(registry: Registry, nextLock: nat, frames: Frames, f: Frame)
    requires Counted(registry, frames) && LocksApart(registry, nextLock)
    requires f.lock == if Slot(f) in registry then registry[Slot(f)].lock else nextLock
    ensures forall g :: g in frames ==> (frames[g].lock == f.lock <==> Slot(frames[g]) == Slot(f))
  {
    hide Users;
    forall g | g in frames ensures frames[g].lock == f.lock <==> Slot(frames[g]) == Slot(f) {
      assert registry[Slot(frames[g])].lock == frames[g].lock;
    }
  }

  /** One more call in the table. */
  lemma TableEnter(registry: Registry, nextLock: nat, frames: Frames, id: nat, f: Frame)
    requires Counted(registry, frames) && LocksApart(registry, nextLock) && id !in frames
    requires f.lock == if Slot(f) in registry then registry[Slot(f)].lock else nextLock
    ensures Counted(JoinedAs(registry, f), frames[id := f])
    ensures LocksApart(JoinedAs(registry, f), if Slot(f) in registry then nextLock else nextLock + 1)
    ensures forall g :: g in frames ==> (frames[g].lock == f.lock <==> Slot(frames[g]) == Slot(f))
  {
    CountedEnter(registry, frames, id, f);
    ApartEnter(registry, nextLock, f);
    SharedExactly(registry, nextLock, frames, f);
  }

  /** One call less in the table. */
  lemma TableLeave(registry: Registry, nextLock: nat, frames: Frames, id: nat)
    requires Counted(registry, frames) && LocksApart(registry, nextLock) && id in frames
    ensures var slot, lock := Slot(frames[id]), frames[id].lock;
            && Counted(Parted(registry, slot, lock), frames - {id})
               && LocksApart(Parted(registry, slot, lock), nextLock)
            && (slot in Parted(registry, slot, lock) <==> exists f :: f in frames - {id} && Slot(frames[f]) == slot)
  {
    var slot, lock, left := Slot(frames[id]), frames[id].lock, frames - {id};
    CountedLeave(registry, frames, id);
    ApartLeave(registry, nextLock, slot, lock);
    UsedExactly(Parted(registry, slot, lock), left, slot);
    hide Counted, LocksApart, Parted, Users;
    assert forall f :: f in left ==> left[f] == frames[f];
  }

  lemma UsedExactly(registry: Registry, frames: Frames, slot: Place)
    requires Counted(registry, frames)
    ensures slot in registry <==> exists f :: f in frames && Slot(frames[f]) == slot
  {
    if slot in registry {
      var f :| f in Users(frames, slot);
    } else {
      assert forall f :: f in frames && Slot(frames[f]) == slot ==> f in Users(frames, slot);
    }
  }
}
