/**
  The try / except / finally discipline of `run_backup` in scripts/taskhub_backup_orchestrator.py: which exit is
  taken and what is left behind, for every combination of failing steps, and over series of calls.
 */
module BackupExit {
  import opened Prelude

  /** Exception classes as far as the handlers tell them apart; an interrupt is not an `Exception`. */
  datatype Kind = Usage | Runtime | OsError | OtherError | Interrupt

  /** Where the exception that leaves the call was raised. */
  datatype Origin = Body | PartUnlink | Cleanup | Restart

  datatype Exit = Returned | Raised(kind: Kind, origin: Origin)

  /**
    What the call can change. `tar` and `tmp` are the newest call's own tar file and temporary directory; `restarts`
    counts attempts to start the services again.
   */
  datatype World<C> = World(
    output: Option<C>, part: Option<C>, tar: bool, tmp: bool, healthy: bool, restarts: nat)

  /**
    Which steps raise, and what. `leftover` is what the `.part` file holds when encryption fails; `tarMade` says
    whether a failing tar creation had already made the file.
   */
  datatype Faults<C> = Faults(
    stop: Option<Kind>, stage: Option<Kind>, tar: Option<Kind>, tarMade: bool,
    encrypt: Option<Kind>, leftover: Option<C>, tarUnlink: Option<Kind>,
    publish: Option<Kind>, digest: Option<Kind>,
    partUnlink: Option<Kind>, cleanup: Option<Kind>, restart: Option<Kind>)

  /** A call whose arguments were accepted; `stops` is phase-5 mode without `skip_service_stop`. */
  datatype Call<C> = Call(faults: Faults<C>, archive: C, stops: bool)

  // ----- conditions on the failing steps -----

  predicate ReachesTar<C>(c: Call<C>) {
    (c.stops ==> c.faults.stop.None?) && c.faults.stage.None?
  }

  predicate ReachesEncrypt<C>(c: Call<C>) {
    ReachesTar(c) && c.faults.tar.None?
  }

  /** No step before the rename raises, nor the rename itself. */
  predicate Publishes<C>(c: Call<C>) {
    ReachesEncrypt(c) && c.faults.encrypt.None? && c.faults.tarUnlink.None? && c.faults.publish.None?
  }

  predicate AllSucceed<C>(c: Call<C>) {
    Publishes(c) && c.faults.digest.None? && c.faults.cleanup.None? && (c.stops ==> c.faults.restart.None?)
  }

  /** The first failure; the inner `finally` lets a failing tar removal replace a failing encryption. */
  function First<C>(c: Call<C>): (r: Option<Kind>) {
    var f := c.faults;
    if !ReachesEncrypt(c) then if c.stops && f.stop.Some? then f.stop else if f.stage.Some? then f.stage else f.tar
    else if f.tarUnlink.Some? then f.tarUnlink
    else if f.encrypt.Some? then f.encrypt
    else if f.publish.Some? then f.publish
    else f.digest
  }

  /** An except clause runs. */
  predicate Handled<C>(c: Call<C>) {
    First(c).Some? && !First(c).value.Interrupt?
  }

  /** The cleanup ends without leaving the finally block. */
  predicate CleanupEnds<C>(c: Call<C>) {
    c.faults.cleanup.None? || c.faults.cleanup.value.OsError?
  }

  /** The finally block lets the exit through: what it raises itself is swallowed in favour of a handled failure. */
  predicate LetsThrough<C>(c: Call<C>) {
    && (c.faults.cleanup.None? || (c.faults.cleanup.value.OsError? && Handled(c)))
    && (!c.stops || c.faults.restart.None? || (c.faults.restart.value.Runtime? && Handled(c)))
  }

  // ----- the discipline -----

  /** The output path holds its old content or the complete archive, and the latter exactly if the rename ran. */
  ghost predicate OutputWhole<C>(before: World<C>, c: Call<C>, after: World<C>) {
    after.output == if Publishes(c) then Some(c.archive) else before.output
  }

  /** Once a stop was attempted, a restart is attempted, exactly unless the cleanup ends with more than an OS error. */
  ghost predicate RestartFollowsStop<C>(before: World<C>, c: Call<C>, after: World<C>) {
    && after.restarts == before.restarts + (if c.stops && CleanupEnds(c) then 1 else 0)
    && (after.healthy <==> if c.stops then CleanupEnds(c) && c.faults.restart.None? else before.healthy)
  }

  /** Exactly what the call leaves behind. */
  ghost predicate LeavesExactly<C>(before: World<C>, c: Call<C>, after: World<C>) {
    var f := c.faults;
    && (after.tmp <==> f.cleanup.Some?)
    && (after.tar <==> ReachesTar(c) && if f.tar.Some? then f.tarMade else f.tarUnlink.Some?)
    && after.part == (if Publishes(c) || (Handled(c) && f.partUnlink.None?) then None
                      else if !ReachesEncrypt(c) then before.part
                      else if f.encrypt.None? then Some(c.archive) else f.leftover)
  }

  /** A normal return means that every step succeeded, and the other way round. */
  ghost predicate ReturnsExactly<C>(before: World<C>, c: Call<C>, after: World<C>, exit: Exit) {
    && (exit == Returned <==> AllSucceed(c))
    && (exit == Returned ==>
          after == World(Some(c.archive), None, false, false,
                         before.healthy || c.stops, before.restarts + if c.stops then 1 else 0))
  }

  /** Exactly when the first failure is the one reported, and as what; otherwise a later block's failure is. */
  ghost predicate FirstReported<C>(c: Call<C>, exit: Exit) {
    First(c).Some? ==>
      var k := First(c).value;
      && (exit == Raised(if k.Usage? || k.Interrupt? then k else Runtime, Body)
          <==> LetsThrough(c) && (k.Interrupt? || c.faults.partUnlink.None?))
      && (exit.Raised? && exit.origin.PartUnlink? <==> LetsThrough(c) && !k.Interrupt? && c.faults.partUnlink.Some?)
  }

  ghost predicate Disciplined<C>(before: World<C>, c: Call<C>, after: World<C>, exit: Exit) {
    && OutputWhole(before, c, after) && RestartFollowsStop(before, c, after) && LeavesExactly(before, c, after)
    && ReturnsExactly(before, c, after, exit) && FirstReported(c, exit)
  }

  // ----- the call -----

  class BackupRun<C(==)> {
    var world: World<C>

    constructor (w: World<C>)
      ensures world == w
    {
      world := w;
    }

    /** The try block, from the fresh temporary directory on. */
    method Attempt(c: Call<C>) returns (raised: Option<Kind>)
      modifies this
      ensures raised == First(c) && OutputWhole(old(world), c, world)
      ensures world.tmp && world.restarts == old(world.restarts) && world.healthy == (old(world.healthy) && !c.stops)
      ensures world.tar <==> ReachesTar(c) && if c.faults.tar.Some? then c.faults.tarMade else c.faults.tarUnlink.Some?
      ensures !ReachesEncrypt(c) ==> world.part == old(world.part)
      ensures ReachesEncrypt(c) && !Publishes(c)
              ==> world.part == if c.faults.encrypt.None? then Some(c.archive) else c.faults.leftover
      ensures Publishes(c) ==> world.part == None
    {
      var f := c.faults;
      world := world.(tmp := true, tar := false);
      if c.stops {
        world := world.(healthy := false);
        if f.stop.Some? { return f.stop; }
      }
      if f.stage.Some? { return f.stage; }
      if f.tar.Some? {
        world := world.(tar := f.tarMade);
        return f.tar;
      }
      world := world.(tar := true);
      if f.encrypt.None? {
        world := world.(part := Some(c.archive));
      } else {
        world := world.(part := f.leftover);
      }
      raised := f.encrypt;
      if f.tarUnlink.None? {
        world := world.(tar := false);
      } else {
        raised := f.tarUnlink;
      }
      if raised.Some? { return; }
      if f.publish.Some? { return f.publish; }
      world := world.(output := world.part, part := None);
      raised := f.digest;
    }

    /** The finally block; `pending` is the exit it may let through, `primary` whether an except clause set it. */
    method Finish(c: Call<C>, primary: bool, pending: Exit) returns (exit: Exit)
      requires primary == Handled(c)
      requires pending.Raised? ==> pending.origin.Body? || pending.origin.PartUnlink?
      modifies this
      ensures LetsThrough(c) ==> exit == pending
      ensures !LetsThrough(c) ==> exit.Raised? && (exit.origin.Cleanup? || exit.origin.Restart?)
      ensures world.output == old(world.output) && world.part == old(world.part) && world.tar == old(world.tar)
      ensures world.tmp <==> c.faults.cleanup.Some?
      ensures world.restarts == old(world.restarts) + if c.stops && CleanupEnds(c) then 1 else 0
      ensures world.healthy <==> if c.stops && CleanupEnds(c) then c.faults.restart.None? else old(world.healthy)
    {
      var f, cleanupFailed := c.faults, false;
      if f.cleanup.None? {
        world := world.(tmp := false);
      } else {
        world := world.(tmp := true);
        if !f.cleanup.value.OsError? { return Raised(f.cleanup.value, Cleanup); }
        cleanupFailed := true;
      }
      if c.stops {
        world := world.(restarts := world.restarts + 1, healthy := f.restart.None?);
        if f.restart.Some? {
          if f.restart.value.Runtime? {
            if !primary { return Raised(Runtime, Restart); }
          } else {
            return Raised(f.restart.value, Restart);
          }
        }
      }
      if cleanupFailed && !primary { return Raised(Runtime, Cleanup); }
      exit := pending;
    }

    /** try, except and finally together. */
    method Run(c: Call<C>) returns (exit: Exit)
      modifies this
      ensures Disciplined(old(world), c, world, exit)
    {
      var primary := false;
      var raised := Attempt(c);
      exit := Returned;
      if raised.Some? {
        if raised.value.Interrupt? {
          exit := Raised(Interrupt, Body);
        } else {
          primary := true;
          if c.faults.partUnlink.Some? {
            exit := Raised(c.faults.partUnlink.value, PartUnlink);
          } else {
            world := world.(part := None);
            exit := Raised(if raised.value.Usage? then Usage else Runtime, Body);
          }
        }
      }
      exit := Finish(c, primary, exit);
    }
  }

  // ----- series of calls -----

  /** Calls one after the other, on the same output path and services. */
  ghost predicate Series<C(!new)>(worlds: seq<World<C>>, calls: seq<Call<C>>, exits: seq<Exit>) {
    && |worlds| == |calls| + 1 && |exits| == |calls|
    && forall i | 0 <= i < |calls| :: Disciplined(worlds[i], calls[i], worlds[i + 1], exits[i])
  }

  lemma SeriesInit<C(!new)>(worlds: seq<World<C>>, calls: seq<Call<C>>, exits: seq<Exit>)
    requires Series(worlds, calls, exits) && calls != []
    ensures var n := |calls| - 1;
            && Series(worlds[..n + 1], calls[..n], exits[..n])
            && worlds[..n + 1][0] == worlds[0] && worlds[..n + 1][n] == worlds[n]
            && Disciplined(worlds[n], calls[n], worlds[n + 1], exits[n])
  {
  }

  /** The archive of the last call that got as far as the rename. */
  function LastPublished<C>(calls: seq<Call<C>>, before: Option<C>): (r: Option<C>) {
    if calls == [] then before
    else
      var c := calls[|calls| - 1];
      if Publishes(c) then Some(c.archive) else LastPublished(calls[..|calls| - 1], before)
  }

  /** However the calls fail, the output path always holds the last published archive, whole. */
  lemma {:induction false} SeriesKeepsWholeArchive<C(!new)>(worlds: seq<World<C>>, calls: seq<Call<C>>, exits: seq<Exit>)
    requires Series(worlds, calls, exits)
    ensures worlds[|calls|].output == LastPublished(calls, worlds[0].output)
    decreases |calls|
  {
    if calls != [] {
      var n := |calls| - 1;
      SeriesInit(worlds, calls, exits);
      SeriesKeepsWholeArchive(worlds[..n + 1], calls[..n], exits[..n]);
    }
  }

  /** As a caller sees it: after a normal return the output is that call's archive until another call renames. */
  lemma {:induction false} ReturnedArchiveStays<C(!new)>(worlds: seq<World<C>>, calls: seq<Call<C>>, exits: seq<Exit>, i: nat)
    requires Series(worlds, calls, exits) && i < |calls| && exits[i] == Returned
    requires forall j | i < j < |calls| :: !Publishes(calls[j])
    ensures worlds[|calls|].output == Some(calls[i].archive)
    decreases |calls|
  {
    var n := |calls| - 1;
    SeriesInit(worlds, calls, exits);
    if i < n { ReturnedArchiveStays(worlds[..n + 1], calls[..n], exits[..n], i); }
  }

  /** Whether the services are up after a series: what the last call that stopped them made of it. */
  predicate HealthyAfter<C>(calls: seq<Call<C>>, before: bool) {
    if calls == [] then before
    else
      var c := calls[|calls| - 1];
      if c.stops then CleanupEnds(c) && c.faults.restart.None? else HealthyAfter(calls[..|calls| - 1], before)
  }

  /** Stops whose call reached the restart. */
  function Restarting<C>(calls: seq<Call<C>>): (n: nat) {
    if calls == [] then 0
    else
      var c := calls[|calls| - 1];
      Restarting(calls[..|calls| - 1]) + if c.stops && CleanupEnds(c) then 1 else 0
  }

  lemma {:induction false} SeriesRestarts<C(!new)>(worlds: seq<World<C>>, calls: seq<Call<C>>, exits: seq<Exit>)
    requires Series(worlds, calls, exits)
    ensures worlds[|calls|].restarts == worlds[0].restarts + Restarting(calls)
    ensures worlds[|calls|].healthy <==> HealthyAfter(calls, worlds[0].healthy)
    decreases |calls|
  {
    if calls != [] {
      var n := |calls| - 1;
      SeriesInit(worlds, calls, exits);
      SeriesRestarts(worlds[..n + 1], calls[..n], exits[..n]);
    }
  }
}
