/**
  scripts/taskhub_destructive_lock.py as a protocol between processes: `flock` on the inode a path
  names, with removal of a stale file from the path. One event is one system call (or one
  uninterruptible group of them); any interleaving of any number of processes is a run.
 */
module DestructiveLock {
  import opened Prelude

  type Pid = nat
  type Inode = nat

  /** Where a process is in `acquire_destructive_lock`, with the inode its file descriptor refers to. */
  datatype Phase =
    | Idle
    | CleanupOpened(ino: Inode)
    | CleanupLocked(ino: Inode)
    | CleanupStale(ino: Inode)
    | CleanupUnlinked(ino: Inode)
    | ReadyToOpen
    | Opened(ino: Inode)
    | Locked(ino: Inode)
    | Emptied(ino: Inode)
    | Inside(ino: Inode)
  {
    predicate HoldsFlock() {
      CleanupLocked? || CleanupStale? || CleanupUnlinked? || Locked? || Emptied? || Inside?
    }

    /** Between an open and the flock on what was opened. */
    predicate BetweenOpenAndFlock() {
      CleanupOpened? || Opened?
    }

    /** Has an open descriptor that was not yet detached from the path by its own unlink. */
    predicate Attached() {
      BetweenOpenAndFlock() || (HoldsFlock() && !CleanupUnlinked?)
    }
  }

  /** `payload` maps an inode to the pid its content names; no entry means unreadable or empty. */
  datatype State = State(path: Option<Inode>, next: Inode, holder: map<Inode, Pid>, payload: map<Inode, Pid>,
                         procs: map<Pid, Phase>)

  datatype Event =
    | Spawn(p: Pid) | Die(p: Pid)
    | SkipCleanup(p: Pid) | OpenForCleanup(p: Pid) | TryCleanupLock(p: Pid) | Judge(p: Pid)
    | Unlink(p: Pid) | FailUnlink(p: Pid) | EndCleanup(p: Pid)
    | Open(p: Pid) | TryLock(p: Pid)
    | Truncate(p: Pid) | WritePayload(p: Pid) | FailTruncate(p: Pid) | FailWrite(p: Pid) | FailSync(p: Pid)
    | Leave(p: Pid)

  function Init(): (s: State) {
    State(None, 0, map[], map[], map[])
  }

  function Release(s: State, i: Inode): (t: State) {
    s.(holder := s.holder - {i})
  }

  function Goto(s: State, p: Pid, phase: Phase): (t: State) {
    s.(procs := s.procs[p := phase])
  }

  /** The stale-lock judgement: the payload names a pid and no such process exists. */
  predicate RecordedProcessAbsent(s: State, i: Inode) {
    i in s.payload && s.payload[i] !in s.procs
  }

  /** One step, or None when the event is not enabled. */
  function Step(s: State, e: Event): (t: Option<State>) {
    if e.Spawn? then
      if e.p in s.procs then None else Some(Goto(s, e.p, Idle))
    else if e.p !in s.procs then None
    else
      var here := s.procs[e.p];
      match e
      case Spawn(_) => None
      case Die(p) =>
        // the kernel drops the lock with the last descriptor
        Some((if here.HoldsFlock() then Release(s, here.ino) else s).(procs := s.procs - {p}))
      case SkipCleanup(p) => if here.Idle? then Some(Goto(s, p, ReadyToOpen)) else None
      case OpenForCleanup(p) =>
        if here.Idle? && s.path.Some? then Some(Goto(s, p, CleanupOpened(s.path.value))) else None
      case TryCleanupLock(p) =>
        if !here.CleanupOpened? then None
        else if here.ino in s.holder then Some(Goto(s, p, ReadyToOpen))
        else Some(Goto(s.(holder := s.holder[here.ino := p]), p, CleanupLocked(here.ino)))
      case Judge(p) =>
        if !here.CleanupLocked? then None
        else if RecordedProcessAbsent(s, here.ino) then Some(Goto(s, p, CleanupStale(here.ino)))
        else Some(Goto(Release(s, here.ino), p, ReadyToOpen))
      case Unlink(p) =>
        // unlink acts on the path, whatever inode it names by now
        if here.CleanupStale? then Some(Goto(s.(path := None), p, CleanupUnlinked(here.ino))) else None
      case FailUnlink(p) =>
        // an OSError of unlink ends the cleanup; the path is kept and the caller goes on to acquire
        if here.CleanupStale? then Some(Goto(Release(s, here.ino), p, ReadyToOpen)) else None
      case EndCleanup(p) =>
        if here.CleanupUnlinked? then Some(Goto(Release(s, here.ino), p, ReadyToOpen)) else None
      case Open(p) =>
        if !here.ReadyToOpen? then None
        else if s.path.Some? then Some(Goto(s, p, Opened(s.path.value)))
        else Some(Goto(s.(path := Some(s.next), next := s.next + 1), p, Opened(s.next)))
      case TryLock(p) =>
        if !here.Opened? then None
        else if here.ino in s.holder then Some(Goto(s, p, Idle))
        else Some(Goto(s.(holder := s.holder[here.ino := p]), p, Locked(here.ino)))
      case Truncate(p) =>
        if here.Locked? then Some(Goto(s.(payload := s.payload - {here.ino}), p, Emptied(here.ino))) else None
      case WritePayload(p) =>
        if here.Emptied? then Some(Goto(s.(payload := s.payload[here.ino := p]), p, Inside(here.ino))) else None
      case FailTruncate(p) =>
        // whatever fails, the lock is given up; the file keeps what it holds by then
        if here.Locked? then Some(Goto(Release(s, here.ino), p, Idle)) else None
      case FailWrite(p) =>
        if here.Emptied? then Some(Goto(Release(s, here.ino), p, Idle)) else None
      case FailSync(p) =>
        if here.Emptied? then Some(Goto(Release(s, here.ino).(payload := s.payload[here.ino := p]), p, Idle)) else None
      case Leave(p) =>
        if here.Inside? then Some(Goto(Release(s, here.ino), p, Idle)) else None
  }

  function Run(s: State, events: seq<Event>): (t: Option<State>)
    decreases |events|
  {
    if events == [] then Some(s)
    else match Step(s, events[0])
      case None => None
      case Some(t) => Run(t, events[1..])
  }

  // ----- exclusion per inode -----

  /** The kernel's lock table and the processes' own view agree, and no descriptor refers to a future inode. */
  ghost predicate FlockInv(s: State) {
    && (forall i | i in s.holder :: s.holder[i] in s.procs && s.procs[s.holder[i]].HoldsFlock() && s.procs[s.holder[i]].ino == i)
    && (forall p | p in s.procs && s.procs[p].HoldsFlock() :: s.procs[p].ino in s.holder && s.holder[s.procs[p].ino] == p)
    && (forall p | p in s.procs && s.procs[p].Attached() :: s.procs[p].ino < s.next)
    && (forall i | i in s.holder :: i < s.next)
    && (s.path.Some? ==> s.path.value < s.next)
  }

  lemma InvMove(s: State, p: Pid, to: Phase)
    requires FlockInv(s) && p in s.procs
    requires to.HoldsFlock() == s.procs[p].HoldsFlock() && (to.HoldsFlock() ==> to.ino == s.procs[p].ino)
    requires to.Attached() ==> to.ino < s.next
    ensures FlockInv(Goto(s, p, to))
  {
  }

  lemma InvGain(s: State, p: Pid, to: Phase)
    requires FlockInv(s) && p in s.procs && !s.procs[p].HoldsFlock()
    requires to.HoldsFlock() && to.ino !in s.holder && to.ino < s.next
    ensures FlockInv(Goto(s.(holder := s.holder[to.ino := p]), p, to))
  {
  }

  lemma InvDrop(s: State, p: Pid, to: Phase)
    requires FlockInv(s) && p in s.procs && s.procs[p].HoldsFlock() && (to.Idle? || to.ReadyToOpen?)
    ensures FlockInv(Goto(Release(s, s.procs[p].ino), p, to))
    ensures FlockInv(Release(s, s.procs[p].ino).(procs := s.procs - {p}))
  {
  }

  lemma FlockInvCleanupStep(s: State, e: Event)
    requires FlockInv(s) && Step(s, e).Some?
    requires e.OpenForCleanup? || e.TryCleanupLock? || e.Judge? || e.Unlink? || e.FailUnlink? || e.EndCleanup?
    ensures FlockInv(Step(s, e).value)
  {
    var p, t := e.p, Step(s, e).value;
    if e.Judge? && !RecordedProcessAbsent(s, s.procs[p].ino) {
      InvDrop(s, p, ReadyToOpen);
    } else if e.FailUnlink? || e.EndCleanup? {
      InvDrop(s, p, ReadyToOpen);
    } else if e.TryCleanupLock? && s.procs[p].ino !in s.holder {
      InvGain(s, p, t.procs[p]);
    } else {
      InvMove(s.(path := t.path), p, t.procs[p]);
    }
  }

  lemma FlockInvGiveUpStep(s: State, e: Event)
    requires FlockInv(s) && Step(s, e).Some? && (e.FailTruncate? || e.FailWrite? || e.FailSync? || e.Leave?)
    ensures FlockInv(Step(s, e).value)
  {
    InvDrop(s.(payload := Step(s, e).value.payload), e.p, Idle);
  }

  lemma FlockInvAcquireStep(s: State, e: Event)
    requires FlockInv(s) && Step(s, e).Some? && (e.Open? || e.TryLock? || e.Truncate? || e.WritePayload?)
    ensures FlockInv(Step(s, e).value)
  {
    var p, t := e.p, Step(s, e).value;
    if e.TryLock? && s.procs[p].ino !in s.holder {
      InvGain(s, p, t.procs[p]);
    } else {
      InvMove(t.(procs := s.procs), p, t.procs[p]);
    }
  }

  lemma FlockInvStep(s: State, e: Event)
    requires FlockInv(s) && Step(s, e).Some?
    ensures FlockInv(Step(s, e).value)
  {
    if e.Spawn? {
    } else if e.Die? {
      if s.procs[e.p].HoldsFlock() { InvDrop(s, e.p, Idle); }
    } else if e.SkipCleanup? {
      InvMove(s, e.p, ReadyToOpen);
    } else if e.OpenForCleanup? || e.TryCleanupLock? || e.Judge? || e.Unlink? || e.FailUnlink? || e.EndCleanup? {
      FlockInvCleanupStep(s, e);
    } else if e.FailTruncate? || e.FailWrite? || e.FailSync? || e.Leave? {
      FlockInvGiveUpStep(s, e);
    } else {
      FlockInvAcquireStep(s, e);
    }
  }

  lemma {:induction false} FlockInvRun(s: State, events: seq<Event>)
    requires FlockInv(s) && Run(s, events).Some?
    ensures FlockInv(Run(s, events).value)
    decreases |events|
  {
    if events != [] {
      FlockInvStep(s, events[0]);
      FlockInvRun(Step(s, events[0]).value, events[1..]);
    }
  }

  /** Over every interleaving, process death included, at most one process holds the lock on an inode. */
  lemma FlockExclusion(events: seq<Event>, p: Pid, q: Pid)
    requires Run(Init(), events).Some?
    ensures var s := Run(Init(), events).value;
            (p in s.procs && q in s.procs && s.procs[p].HoldsFlock() && s.procs[q].HoldsFlock()
             && s.procs[p].ino == s.procs[q].ino)
            ==> p == q
  {
    FlockInvRun(Init(), events);
  }

  // ----- exclusion on the path -----

  /** The file a process has open names that process; it will not judge such a file stale. */
  predicate NamesItself(s: State, q: Pid)
    requires q in s.procs && s.procs[q].Attached()
  {
    s.procs[q].ino in s.payload && s.payload[s.procs[q].ino] == q
  }

  /**
    No unlink falls between another process's open and its flock; both opens of the protocol count, except a cleanup
    open of a file that names the opening process itself.
   */
  ghost predicate UnlinkUndisturbed(s: State, e: Event) {
    e.Unlink? ==> forall q | q in s.procs && q != e.p && s.procs[q].BetweenOpenAndFlock() ::
      s.procs[q].CleanupOpened? && NamesItself(s, q)
  }

  ghost predicate RunUndisturbed(s: State, events: seq<Event>)
    requires Run(s, events).Some?
    decreases |events|
  {
    events == [] || (UnlinkUndisturbed(s, events[0]) && RunUndisturbed(Step(s, events[0]).value, events[1..]))
  }

  /** Every attached descriptor refers to the inode the path names, or to one whose cleanup will come to nothing. */
  ghost predicate PathInv(s: State) {
    forall p | p in s.procs && s.procs[p].Attached() ::
      s.path == Some(s.procs[p].ino) || ((s.procs[p].CleanupOpened? || s.procs[p].CleanupLocked?) && NamesItself(s, p))
  }

  lemma PathInvUnlink(s: State, e: Event)
    requires FlockInv(s) && PathInv(s) && Step(s, e).Some? && e.Unlink? && UnlinkUndisturbed(s, e)
    ensures PathInv(Step(s, e).value)
  {
  }

  lemma PathInvCleanup(s: State, e: Event)
    requires FlockInv(s) && PathInv(s) && Step(s, e).Some?
    requires e.OpenForCleanup? || e.TryCleanupLock? || e.Judge? || e.FailUnlink? || e.EndCleanup?
    ensures PathInv(Step(s, e).value)
  {
  }

  lemma PathInvAcquire(s: State, e: Event)
    requires FlockInv(s) && PathInv(s) && Step(s, e).Some?
    requires e.Open? || e.TryLock? || e.FailTruncate? || e.FailWrite? || e.Leave?
    ensures PathInv(Step(s, e).value)
  {
  }

  /** Only the file the path names is written to. */
  lemma PathInvPayload(s: State, e: Event)
    requires FlockInv(s) && PathInv(s) && Step(s, e).Some? && (e.Truncate? || e.WritePayload? || e.FailSync?)
    ensures PathInv(Step(s, e).value)
  {
  }

  lemma PathInvStep(s: State, e: Event)
    requires FlockInv(s) && PathInv(s) && Step(s, e).Some? && UnlinkUndisturbed(s, e)
    ensures PathInv(Step(s, e).value)
  {
    if e.Unlink? {
      PathInvUnlink(s, e);
    } else if e.OpenForCleanup? || e.TryCleanupLock? || e.Judge? || e.FailUnlink? || e.EndCleanup? {
      PathInvCleanup(s, e);
    } else if e.Truncate? || e.WritePayload? || e.FailSync? {
      PathInvPayload(s, e);
    } else if !e.Spawn? && !e.Die? && !e.SkipCleanup? {
      PathInvAcquire(s, e);
    }
  }

  lemma {:induction false} PathInvRun(s: State, events: seq<Event>)
    requires FlockInv(s) && PathInv(s) && Run(s, events).Some? && RunUndisturbed(s, events)
    ensures FlockInv(Run(s, events).value) && PathInv(Run(s, events).value)
    decreases |events|
  {
    if events != [] {
      FlockInvStep(s, events[0]);
      PathInvStep(s, events[0]);
      PathInvRun(Step(s, events[0]).value, events[1..]);
    }
  }

  ghost predicate TwoInside(s: State) {
    exists p, q :: p in s.procs && q in s.procs && p != q && s.procs[p].Inside? && s.procs[q].Inside?
  }

  /** At most one process is in the with-block in every run that meets the side condition. */
  lemma WithBlockExclusion(events: seq<Event>)
    requires Run(Init(), events).Some? && RunUndisturbed(Init(), events)
    ensures !TwoInside(Run(Init(), events).value)
  {
    PathInvRun(Init(), events);
  }

  // ----- the side condition cannot be dropped -----

  /** What a process judged stale still names another process: nobody else can write to a file it has locked. */
  ghost predicate StaleInv(s: State) {
    forall p | p in s.procs && s.procs[p].CleanupStale? :: s.procs[p].ino in s.payload && s.payload[s.procs[p].ino] != p
  }

  lemma StaleInvStep(s: State, e: Event)
    requires FlockInv(s) && StaleInv(s) && Step(s, e).Some?
    ensures StaleInv(Step(s, e).value)
  {
  }

  lemma {:induction false} StaleInvRun(s: State, events: seq<Event>)
    requires FlockInv(s) && StaleInv(s) && Run(s, events).Some?
    ensures StaleInv(Run(s, events).value)
    decreases |events|
  {
    if events != [] {
      FlockInvStep(s, events[0]);
      StaleInvStep(s, events[0]);
      StaleInvRun(Step(s, events[0]).value, events[1..]);
    }
  }

  ghost predicate Reaches(s: State, t: State) {
    exists events :: Run(s, events) == Some(t)
  }

  lemma ReachesSelf(s: State)
    ensures Reaches(s, s)
  {
    assert Run(s, []) == Some(s);
  }

  /** Put one more event in front of a run. */
  lemma Prepend(s: State, e: Event, t: State)
    requires Step(s, e).Some? && Reaches(Step(s, e).value, t)
    ensures Reaches(s, t)
  {
    var events :| Run(Step(s, e).value, events) == Some(t);
    assert ([e] + events)[1..] == events;
    assert Run(s, [e] + events) == Some(t);
  }

  /** A process that has just locked a file always gets into the with-block. */
  lemma LockedEnters(s: State, p: Pid)
    requires p in s.procs && s.procs[p].Locked?
    ensures Reaches(s, Goto(s.(payload := s.payload[s.procs[p].ino := p]), p, Inside(s.procs[p].ino)))
  {
    var i := s.procs[p].ino;
    var s1 := Step(s, Truncate(p)).value;
    var s2 := Step(s1, WritePayload(p)).value;
    assert (s.payload - {i})[i := p] == s.payload[i := p];
    assert s2 == Goto(s.(payload := s.payload[i := p]), p, Inside(i));
    ReachesSelf(s2);
    Prepend(s1, WritePayload(p), s2);
    Prepend(s, Truncate(p), s2);
  }

  /** From `ReadyToOpen` on an empty path a process always gets into the with-block. */
  lemma EntersAlone(s: State, p: Pid)
    requires FlockInv(s) && p in s.procs && s.procs[p].ReadyToOpen? && s.path.None?
    ensures Reaches(s, Entered(s, p))
  {
    var s1 := Step(s, Open(p)).value;
    var s2 := Step(s1, TryLock(p)).value;
    LockedEnters(s2, p);
    assert Goto(s2.(payload := s2.payload[s.next := p]), p, Inside(s.next)) == Entered(s, p);
    Prepend(s1, TryLock(p), Entered(s, p));
    Prepend(s, Open(p), Entered(s, p));
  }

  /** The same when the file at the path exists and nobody holds it: it is locked and overwritten. */
  lemma EntersFree(s: State, p: Pid)
    requires p in s.procs && s.procs[p].ReadyToOpen? && s.path.Some? && s.path.value !in s.holder
    ensures var i := s.path.value;
            Reaches(s, s.(holder := s.holder[i := p], payload := s.payload[i := p], procs := s.procs[p := Inside(i)]))
  {
    var i := s.path.value;
    var goal := s.(holder := s.holder[i := p], payload := s.payload[i := p], procs := s.procs[p := Inside(i)]);
    var s1 := Step(s, Open(p)).value;
    var s2 := Step(s1, TryLock(p)).value;
    LockedEnters(s2, p);
    assert Goto(s2.(payload := s2.payload[i := p]), p, Inside(i)) == goal;
    Prepend(s1, TryLock(p), goal);
    Prepend(s, Open(p), goal);
  }

  /** And when somebody holds it, the attempt ends without entering and changes nothing but where the process is. */
  lemma BusyRefused(s: State, p: Pid)
    requires p in s.procs && s.procs[p].ReadyToOpen? && s.path.Some? && s.path.value in s.holder
    ensures Run(s, [Open(p), TryLock(p)]) == Some(s.(procs := s.procs[p := Idle]))
  {
    var s1 := Step(s, Open(p)).value;
    assert [Open(p), TryLock(p)][1..] == [TryLock(p)] && [TryLock(p)][1..] == [];
    assert s.procs[p := Opened(s.path.value)][p := Idle] == s.procs[p := Idle];
    assert Run(s1, [TryLock(p)]) == Some(Step(s1, TryLock(p)).value);
  }

  /** Leaving the with-block, or dying anywhere, frees the inode and leaves the file as it is. */
  lemma LeaveFrees(s: State, p: Pid)
    requires FlockInv(s) && p in s.procs && s.procs[p].Inside?
    ensures var i := s.procs[p].ino;
            && Step(s, Leave(p)) == Some(s.(holder := s.holder - {i}, procs := s.procs[p := Idle]))
            && Step(s, Die(p)) == Some(s.(holder := s.holder - {i}, procs := s.procs - {p}))
            && i in s.holder
  {
  }

  /** Hand-over: after the process inside leaves or dies, one that waits at the open can come inside on the same inode. */
  lemma HandOver(s: State, p: Pid, q: Pid)
    requires FlockInv(s) && p in s.procs && q in s.procs && s.procs[p].Inside? && s.procs[q].ReadyToOpen?
    requires s.path == Some(s.procs[p].ino)
    ensures var i := s.procs[p].ino;
            && Reaches(s, s.(holder := s.holder[i := q], payload := s.payload[i := q],
                             procs := s.procs[p := Idle][q := Inside(i)]))
            && Reaches(s, s.(holder := s.holder[i := q], payload := s.payload[i := q],
                             procs := (s.procs - {p})[q := Inside(i)]))
  {
    var i := s.procs[p].ino;
    LeaveFrees(s, p);
    var left, dead := Step(s, Leave(p)).value, Step(s, Die(p)).value;
    EntersFree(left, q);
    EntersFree(dead, q);
    assert (s.holder - {i})[i := q] == s.holder[i := q];
    Prepend(s, Leave(p), s.(holder := s.holder[i := q], payload := s.payload[i := q],
                            procs := s.procs[p := Idle][q := Inside(i)]));
    Prepend(s, Die(p), s.(holder := s.holder[i := q], payload := s.payload[i := q],
                          procs := (s.procs - {p})[q := Inside(i)]));
  }

  /** The clean-up of one process up to its judgement. */
  function Cleanup(p: Pid): (events: seq<Event>) {
    [OpenForCleanup(p), TryCleanupLock(p), Judge(p)]
  }

  /**
    The clean-up, exactly: on a file nobody holds it goes on to the removal if and only if the file names a process
    that no longer exists; otherwise, and on a file somebody holds, it gives up and leaves everything as it was.
   */
  lemma CleanupExactly(s: State, p: Pid)
    requires p in s.procs && s.procs[p].Idle? && s.path.Some?
    ensures var i := s.path.value;
            if i in s.holder then Run(s, Cleanup(p)[..2]) == Some(s.(procs := s.procs[p := ReadyToOpen]))
            else if i in s.payload && s.payload[i] !in s.procs then
              Run(s, Cleanup(p)) == Some(s.(holder := s.holder[i := p], procs := s.procs[p := CleanupStale(i)]))
            else Run(s, Cleanup(p)) == Some(s.(procs := s.procs[p := ReadyToOpen]))
  {
    var i := s.path.value;
    var s1 := Step(s, OpenForCleanup(p)).value;
    var s2 := Step(s1, TryCleanupLock(p)).value;
    assert Cleanup(p)[..2] == [OpenForCleanup(p), TryCleanupLock(p)];
    assert [OpenForCleanup(p), TryCleanupLock(p)][1..] == [TryCleanupLock(p)] && [TryCleanupLock(p)][1..] == [];
    assert Cleanup(p)[1..] == [TryCleanupLock(p), Judge(p)];
    assert [TryCleanupLock(p), Judge(p)][1..] == [Judge(p)] && [Judge(p)][1..] == [];
    assert Run(s1, [TryCleanupLock(p)]) == Some(s2);
    CleanupStates(s, p);
    if i !in s.holder {
      assert Run(s2, [Judge(p)]) == Some(Step(s2, Judge(p)).value);
      assert Run(s1, Cleanup(p)[1..]) == Run(s2, [Judge(p)]);
    }
  }

  lemma CleanupStates(s: State, p: Pid)
    requires p in s.procs && s.procs[p].Idle? && s.path.Some?
    ensures var i := s.path.value;
            var s1 := Step(s, OpenForCleanup(p)).value;
            var s2 := Step(s1, TryCleanupLock(p)).value;
            if i in s.holder then s2 == s.(procs := s.procs[p := ReadyToOpen])
            else if i in s.payload && s.payload[i] !in s.procs then
              Step(s2, Judge(p)) == Some(s.(holder := s.holder[i := p], procs := s.procs[p := CleanupStale(i)]))
            else Step(s2, Judge(p)) == Some(s.(procs := s.procs[p := ReadyToOpen]))
  {
    var i := s.path.value;
    var s1 := Step(s, OpenForCleanup(p)).value;
    var s2 := Step(s1, TryCleanupLock(p)).value;
    assert s1.procs.Keys == s.procs.Keys;
    assert i !in s.holder ==> s2.procs.Keys == s.procs.Keys && s.holder[i := p] - {i} == s.holder;
    assert s.procs[p := CleanupOpened(i)][p := ReadyToOpen] == s.procs[p := ReadyToOpen];
    var locked := s.procs[p := CleanupOpened(i)][p := CleanupLocked(i)];
    assert locked[p := ReadyToOpen] == s.procs[p := ReadyToOpen] && locked[p := CleanupStale(i)] == s.procs[p := CleanupStale(i)];
  }

  /** A stale file is taken off the path, and the process is then free to acquire anew. */
  lemma StaleRemoved(s: State, p: Pid)
    requires p in s.procs && s.procs[p].CleanupStale?
    ensures Run(s, [Unlink(p), EndCleanup(p)])
            == Some(s.(path := None, holder := s.holder - {s.procs[p].ino}, procs := s.procs[p := ReadyToOpen]))
  {
    var s1 := Step(s, Unlink(p)).value;
    assert [Unlink(p), EndCleanup(p)][1..] == [EndCleanup(p)] && [EndCleanup(p)][1..] == [];
    assert s.procs[p := CleanupUnlinked(s.procs[p].ino)][p := ReadyToOpen] == s.procs[p := ReadyToOpen];
    assert Run(s1, [EndCleanup(p)]) == Some(Step(s1, EndCleanup(p)).value);
  }

  function Entered(s: State, p: Pid): (t: State) {
    State(Some(s.next), s.next + 1, s.holder[s.next := p], s.payload[s.next := p], s.procs[p := Inside(s.next)])
  }

  lemma EnteredInv(s: State, p: Pid)
    requires FlockInv(s) && p in s.procs && s.procs[p].ReadyToOpen?
    ensures FlockInv(Entered(s, p))
  {
  }

  lemma ReachesTransitive(s: State, t: State, u: State)
    requires Reaches(s, t) && Reaches(t, u)
    ensures Reaches(s, u)
  {
    var events :| Run(s, events) == Some(t);
    ReachesAfter(s, events, u);
  }

  lemma {:induction false} ReachesAfter(s: State, events: seq<Event>, u: State)
    requires Run(s, events).Some? && Reaches(Run(s, events).value, u)
    ensures Reaches(s, u)
    decreases |events|
  {
    if events != [] {
      ReachesAfter(Step(s, events[0]).value, events[1..], u);
      Prepend(s, events[0], u);
    }
  }

  /**
    Every unlink that lands between another process's acquiring open and its flock can be continued to
    a state with two processes in the with-block.
   */
  lemma DisturbedOpenBreaksExclusion(s: State, p: Pid, q: Pid) returns (broken: State)
    requires FlockInv(s) && PathInv(s)
    requires p in s.procs && q in s.procs && p != q && s.procs[p].CleanupStale? && s.procs[q].Opened?
    ensures Reaches(Step(s, Unlink(p)).value, broken) && TwoInside(broken)
  {
    var s0 := Step(s, Unlink(p)).value;
    FlockInvStep(s, Unlink(p));
    var s1 := Step(s0, EndCleanup(p)).value;
    FlockInvStep(s0, EndCleanup(p));
    broken := OldFileEnters(s1, p, q);
    Prepend(s0, EndCleanup(p), broken);
  }

  /** One process locks the file that is gone from the path, the other one a new one. */
  lemma OldFileEnters(s: State, p: Pid, q: Pid) returns (broken: State)
    requires FlockInv(s) && p in s.procs && q in s.procs && p != q && s.path.None?
    requires s.procs[p].ReadyToOpen? && s.procs[q].Opened? && s.procs[q].ino !in s.holder
    ensures Reaches(s, broken) && TwoInside(broken)
  {
    var s1 := Step(s, TryLock(q)).value;
    FlockInvStep(s, TryLock(q));
    var s2 := Goto(s1.(payload := s1.payload[s1.procs[q].ino := q]), q, Inside(s1.procs[q].ino));
    LockedEnters(s1, q);
    InvMove(s1.(payload := s2.payload), q, Inside(s1.procs[q].ino));
    broken := Entered(s2, p);
    EntersAlone(s2, p);
    ReachesTransitive(s1, s2, broken);
    Prepend(s, TryLock(q), broken);
    assert broken.procs[p].Inside? && broken.procs[q].Inside?;
  }

  /** A process that still holds the unlinked file open for cleanup unlinks the new one and enters as well. */
  lemma LateCleanupEnters(s: State, p: Pid, q: Pid) returns (broken: State)
    requires FlockInv(s) && p in s.procs && q in s.procs && p != q
    requires s.procs[p].Inside? && s.procs[q].CleanupOpened? && s.procs[q].ino !in s.holder
    requires RecordedProcessAbsent(s, s.procs[q].ino)
    ensures Reaches(s, broken) && TwoInside(broken)
  {
    var s1 := Step(s, TryCleanupLock(q)).value;
    FlockInvStep(s, TryCleanupLock(q));
    var s2 := Step(s1, Judge(q)).value;
    FlockInvStep(s1, Judge(q));
    broken := LateUnlinkEnters(s2, p, q);
    Prepend(s1, Judge(q), broken);
    Prepend(s, TryCleanupLock(q), broken);
  }

  lemma LateUnlinkEnters(s: State, p: Pid, q: Pid) returns (broken: State)
    requires FlockInv(s) && p in s.procs && q in s.procs && p != q && s.procs[p].Inside? && s.procs[q].CleanupStale?
    ensures Reaches(s, broken) && TwoInside(broken)
  {
    var s1 := Step(s, Unlink(q)).value;
    FlockInvStep(s, Unlink(q));
    var s2 := Step(s1, EndCleanup(q)).value;
    FlockInvStep(s1, EndCleanup(q));
    broken := Entered(s2, q);
    EntersAlone(s2, q);
    Prepend(s1, EndCleanup(q), broken);
    Prepend(s, Unlink(q), broken);
    assert broken.procs[p].Inside? && broken.procs[q].Inside?;
  }

  /** If the process the old file names exists again, it can die first. */
  lemma RecordedDies(s: State, p: Pid, q: Pid) returns (broken: State)
    requires FlockInv(s) && p in s.procs && q in s.procs && p != q
    requires s.procs[p].Inside? && s.procs[q].CleanupOpened? && s.procs[q].ino !in s.holder
    requires s.procs[q].ino in s.payload && s.payload[s.procs[q].ino] != p && s.payload[s.procs[q].ino] != q
    ensures Reaches(s, broken) && TwoInside(broken)
  {
    var r := s.payload[s.procs[q].ino];
    if r in s.procs {
      FlockInvStep(s, Die(r));
      broken := LateCleanupEnters(Step(s, Die(r)).value, p, q);
      Prepend(s, Die(r), broken);
    } else {
      broken := LateCleanupEnters(s, p, q);
    }
  }

  /** The same for an unlink between another process's cleanup open and its flock, unless the file names that process. */
  lemma DisturbedCleanupBreaksExclusion(s: State, p: Pid, q: Pid) returns (broken: State)
    requires FlockInv(s) && PathInv(s) && StaleInv(s)
    requires p in s.procs && q in s.procs && p != q && s.procs[p].CleanupStale? && s.procs[q].CleanupOpened?
    requires !NamesItself(s, q)
    ensures Reaches(Step(s, Unlink(p)).value, broken) && TwoInside(broken)
  {
    var s0 := Step(s, Unlink(p)).value;
    FlockInvStep(s, Unlink(p));
    var s1 := Step(s0, EndCleanup(p)).value;
    FlockInvStep(s0, EndCleanup(p));
    var s2 := Entered(s1, p);
    EntersAlone(s1, p);
    EnteredInv(s1, p);
    broken := RecordedDies(s2, p, q);
    ReachesTransitive(s1, s2, broken);
    Prepend(s0, EndCleanup(p), broken);
  }

  /**
    The side condition is exact: the first unlink of any run that violates it can be continued to a state with two
    processes in the with-block.
   */
  lemma DisturbedUnlinkBreaksExclusion(events: seq<Event>, p: Pid) returns (broken: State)
    requires Run(Init(), events).Some? && RunUndisturbed(Init(), events)
    requires var s := Run(Init(), events).value; Step(s, Unlink(p)).Some? && !UnlinkUndisturbed(s, Unlink(p))
    ensures Reaches(Step(Run(Init(), events).value, Unlink(p)).value, broken) && TwoInside(broken)
  {
    var s := Run(Init(), events).value;
    PathInvRun(Init(), events);
    StaleInvRun(Init(), events);
    var q :| q in s.procs && q != p && s.procs[q].BetweenOpenAndFlock() && !(s.procs[q].CleanupOpened? && NamesItself(s, q));
    if s.procs[q].Opened? {
      broken := DisturbedOpenBreaksExclusion(s, p, q);
    } else {
      broken := DisturbedCleanupBreaksExclusion(s, p, q);
    }
  }

  // Process 1 dies in the with-block; 2 and 3 arrive, 2 judges the file stale while 3 has it open.

  function InsideAlone(): (s: State) {
    State(Some(0), 1, map[0 := 1], map[0 := 1], map[1 := Inside(0)])
  }

  function TwoArrived(): (s: State) {
    State(Some(0), 1, map[], map[0 := 1], map[2 := Idle, 3 := Idle])
  }

  function TwoLooking(): (s: State) {
    State(Some(0), 1, map[], map[0 := 1], map[2 := CleanupOpened(0), 3 := ReadyToOpen])
  }

  function StaleAndOpened(): (s: State) {
    State(Some(0), 1, map[0 := 2], map[0 := 1], map[2 := CleanupStale(0), 3 := Opened(0)])
  }

  lemma FirstInside()
    ensures Reaches(Init(), InsideAlone())
  {
    var a0 := Step(Init(), Spawn(1)).value;
    var a1 := Step(a0, SkipCleanup(1)).value;
    assert Entered(a1, 1) == InsideAlone();
    EntersAlone(a1, 1);
    Prepend(a0, SkipCleanup(1), InsideAlone());
    Prepend(Init(), Spawn(1), InsideAlone());
  }

  lemma TwoArrive()
    ensures Reaches(InsideAlone(), TwoArrived())
  {
    var a0 := Step(InsideAlone(), Die(1)).value;
    var a1 := Step(a0, Spawn(2)).value;
    var a2 := Step(a1, Spawn(3)).value;
    assert a2 == TwoArrived();
    ReachesSelf(a2);
    Prepend(a1, Spawn(3), a2);
    Prepend(a0, Spawn(2), a2);
    Prepend(InsideAlone(), Die(1), a2);
  }

  lemma TwoLook()
    ensures Reaches(TwoArrived(), TwoLooking())
  {
    var a0 := Step(TwoArrived(), OpenForCleanup(2)).value;
    var a1 := Step(a0, SkipCleanup(3)).value;
    assert a1 == TwoLooking();
    ReachesSelf(a1);
    Prepend(a0, SkipCleanup(3), a1);
    Prepend(TwoArrived(), OpenForCleanup(2), a1);
  }

  lemma StaleWhileOpened()
    ensures Reaches(TwoLooking(), StaleAndOpened())
  {
    var a0 := Step(TwoLooking(), TryCleanupLock(2)).value;
    var a1 := Step(a0, Judge(2)).value;
    var a2 := Step(a1, Open(3)).value;
    assert a2 == StaleAndOpened();
    ReachesSelf(a2);
    Prepend(a1, Open(3), a2);
    Prepend(a0, Judge(2), a2);
    Prepend(TwoLooking(), TryCleanupLock(2), a2);
  }

  lemma ThenBothInside() returns (broken: State)
    ensures Reaches(StaleAndOpened(), broken) && TwoInside(broken)
  {
    var s := StaleAndOpened();
    broken := DisturbedOpenBreaksExclusion(s, 2, 3);
    Prepend(s, Unlink(2), broken);
  }

  /** The condition is violated in reachable states: a complete run from the initial state to two processes inside. */
  lemma ExclusionFailsWithoutCondition()
    ensures exists s :: Reaches(Init(), s) && TwoInside(s)
  {
    FirstInside();
    TwoArrive();
    TwoLook();
    StaleWhileOpened();
    var broken := ThenBothInside();
    ReachesTransitive(TwoLooking(), StaleAndOpened(), broken);
    ReachesTransitive(TwoArrived(), TwoLooking(), broken);
    ReachesTransitive(InsideAlone(), TwoArrived(), broken);
    ReachesTransitive(Init(), InsideAlone(), broken);
  }
}
