/**
  scripts/taskhub_restore_orchestrator.py: `run_restore` and its rollback as a transaction over three
  stores (artifacts directory, PostgreSQL, Redis).

  Every external command may fail, and a failing command may have taken effect or left its target in
  any state. The choices are collected in a fault schedule, so "for every failure point" is a
  quantifier over schedules and a violating run is a concrete schedule.
 */
module RestoreTransaction {
  import opened Prelude
  import opened ArtifactMerkle

  // ----- stores -----

  /** Database objects by name. */
  type Db = map<string, Data>

  datatype Redis = Redis(up: bool, memory: Data, dump: Option<Data>, aof: Option<Data>)

  datatype Host = Host(artifacts: Option<Tree>, db: Db, redis: Redis, appsUp: bool)

  datatype Archive = Archive(artifacts: Tree, db: Db, redis: Data)

  /** What a stopped Redis would load: the append-only file if there is one, otherwise dump.rdb. */
  function Load(dump: Option<Data>, aof: Option<Data>): (d: Data) {
    if aof.Some? then aof.value else if dump.Some? then dump.value else ""
  }

  function Content(r: Redis): (d: Data) {
    if r.up then r.memory else Load(r.dump, r.aof)
  }

  /** While Redis runs, an append-only file holds what is in memory. */
  predicate Consistent(r: Redis) {
    r.up && r.aof.Some? ==> r.aof.value == r.memory
  }

  /** `pg_restore --clean --if-exists --single-transaction` drops and recreates the objects of the dump only. */
  function PgRestore(db: Db, dump: Db): (r: Db) {
    db + dump
  }

  function Shutdown(r: Redis, saves: bool): (s: Redis) {
    if r.up then r.(up := false, dump := if saves then Some(r.memory) else r.dump) else r
  }

  function Boot(r: Redis, aofOn: bool): (s: Redis) {
    if r.up then r
    else
      var d := Load(r.dump, r.aof);
      r.(up := true, memory := d, aof := if aofOn then Some(d) else r.aof)
  }

  // ----- fault schedules -----

  /** A command that works, or fails with or without having taken effect. */
  datatype Step = Done | Broke(tookEffect: bool)

  /** A copy or removal that works, or fails leaving anything behind. */
  datatype Copy<T> = Copied | CopyBroke(left: T)

  /** `shutil.move` of the append-only directory: one rename, or a copy followed by a removal. */
  datatype AofMove = Moved | Refused | CopyTorn(copied: nat) | RemovalTorn(left: Option<Data>)

  /** What an interrupted copy has written. */
  function Torn(d: Data, copied: nat): (r: Data) {
    if copied < |d| then d[..copied] else d
  }

  /** Application services that fail their health check may already have written. */
  datatype Writes = Writes(artifacts: Option<Tree>, db: Db, redis: Data, dump: Option<Data>)
  datatype AppStart = Healthy | Unhealthy(wrote: Writes)

  datatype RollbackFaults = RollbackFaults(
    stopApps: bool, startPostgres: bool,
    clear: Copy<Option<Tree>>, copyBack: Copy<Option<Tree>>,
    pgRestore: Step, stopRedis: Step, saves: bool,
    redisFiles: Copy<Redis>, startRedis: Step, aofOn: bool,
    startApps: AppStart)

  datatype Faults = Faults(
    preflight: bool, stopApps: bool, mkdir: bool, move: bool,
    pgDump: bool, save: Step, copyRdb: bool, writeManifest: bool,
    place: Copy<Option<Tree>>, pgRestore: Step, stopRedis: Step, saves: bool,
    aofMove: AofMove, placeRdb: Copy<Option<Data>>, startRedis: Step, aofOn: bool,
    alembic: bool, startApps: AppStart,
    rollback: RollbackFaults)

  /** Applications change the rows of existing objects; creating objects is left to migrations. */
  function Rows(db: Db, written: Db): (r: Db)
    ensures r.Keys == db.Keys
  {
    map o | o in db :: if o in written then written[o] else db[o]
  }

  /** Application writes reach all three stores; a running Redis keeps its append-only file in step. */
  function ApplyWrites(h: Host, w: Writes): (r: Host) {
    Host(w.artifacts, Rows(h.db, w.db),
         if h.redis.up
         then h.redis.(memory := w.redis, dump := w.dump,
                       aof := if h.redis.aof.Some? then Some(w.redis) else None)
         else h.redis,
         h.appsUp)
  }

  // ----- snapshot and its manifest -----

  datatype Target = Target(project: string, composeFile: string, dsn: map<string, string>, redisEndpoint: string,
                           artifactsDir: string, containerPath: string, pgMajor: string)

  /** One entry of the manifest's component table; `present` is None when it is not a boolean. */
  datatype ComponentSpec = ComponentSpec(present: Option<bool>, sha256: Option<string>)

  datatype Manifest = Manifest(version: int, snapshotId: string, target: Target, components: map<string, ComponentSpec>)

  datatype Snapshot = Snapshot(artifacts: Option<Tree>, dbDump: Option<Db>, redisDump: Option<Data>,
                               aofBackup: Option<Data>, manifest: Option<Manifest>)

  /** What a component digest is taken over. */
  datatype Component = DbComponent(db: Db) | RedisComponent(rdb: Data) | TreeComponent(tree: Tree)

  datatype Env = Env(sameVolume: bool, target: Target, snapshotId: string, shaDb: Db -> string, sha: Data -> string,
                     order: Order)

  function Digest(c: Component, e: Env): (d: string) {
    match c
    case DbComponent(db) => e.shaDb(db)
    case RedisComponent(rdb) => e.sha(rdb)
    case TreeComponent(tree) => e.sha(MerkleText(tree, e.order, e.sha))
  }

  const DB_NAME := "pre_restore_pg_dump.dump"
  const RDB_NAME := "pre_restore_dump.rdb"
  const TREE_NAME := "artifacts"

  /** The component of that name in the snapshot directory, if it exists. */
  function ComponentOf(s: Snapshot, name: string): (c: Option<Component>) {
    if name == DB_NAME then (if s.dbDump.Some? then Some(DbComponent(s.dbDump.value)) else None)
    else if name == RDB_NAME then (if s.redisDump.Some? then Some(RedisComponent(s.redisDump.value)) else None)
    else if s.artifacts.Some? then Some(TreeComponent(s.artifacts.value)) else None
  }

  function SpecOf(s: Snapshot, name: string, e: Env): (c: ComponentSpec) {
    var component := ComponentOf(s, name);
    if component.Some? then ComponentSpec(Some(true), Some(Digest(component.value, e))) else ComponentSpec(Some(false), None)
  }

  function WriteManifest(s: Snapshot, e: Env): (m: Manifest) {
    Manifest(1, e.snapshotId, e.target,
             map[DB_NAME := SpecOf(s, DB_NAME, e),
                 RDB_NAME := SpecOf(s, RDB_NAME, e),
                 TREE_NAME := SpecOf(s, TREE_NAME, e)])
  }

  predicate VerifyBinding(m: Manifest, target: Target, preRestoreTs: string) {
    m.version == 1 && m.snapshotId == preRestoreTs && m.target == target
  }

  predicate VerifyComponent(s: Snapshot, name: string, spec: ComponentSpec, e: Env) {
    match spec.present
    case Some(true) =>
      var component := ComponentOf(s, name);
      component.Some? && spec.sha256 == Some(Digest(component.value, e))
    case Some(false) => true
    case None => false
  }

  predicate VerifyComponents(s: Snapshot, m: Manifest, e: Env) {
    && m.components.Keys == {DB_NAME, RDB_NAME, TREE_NAME}
    && forall name | name in m.components :: VerifyComponent(s, name, m.components[name], e)
  }

  // ----- rollback -----

  datatype Attempt = Attempt(host: Host, ok: bool)

  function StartApps(h: Host, start: AppStart): (a: Attempt) {
    match start
    case Healthy => Attempt(h.(appsUp := true), true)
    case Unhealthy(w) => Attempt(ApplyWrites(h.(appsUp := true), w), false)
  }

  function RollbackRedis(h: Host, dump: Data, aofBackup: Option<Data>, f: RollbackFaults): (a: Attempt) {
    match f.stopRedis
    case Broke(took) => Attempt(if took then h.(redis := Shutdown(h.redis, f.saves)) else h, false)
    case Done =>
      var stopped := Shutdown(h.redis, f.saves);
      match f.redisFiles
      case CopyBroke(left) => Attempt(h.(redis := stopped.(dump := left.dump, aof := left.aof)), false)
      case Copied =>
        var placed := stopped.(dump := Some(dump), aof := aofBackup);
        match f.startRedis
        case Broke(took) => Attempt(h.(redis := if took then Boot(placed, f.aofOn) else placed), false)
        case Done => Attempt(h.(redis := Boot(placed, f.aofOn)), true)
  }

  function RollbackDb(h: Host, dump: Db, f: RollbackFaults): (a: Attempt) {
    match f.pgRestore
    case Broke(took) => Attempt(if took then h.(db := PgRestore(h.db, dump)) else h, false)
    case Done => Attempt(h.(db := PgRestore(h.db, dump)), true)
  }

  function RollbackArtifacts(h: Host, s: Snapshot, f: RollbackFaults): (a: Attempt) {
    if h.artifacts.Some? && f.clear.CopyBroke? then Attempt(h.(artifacts := f.clear.left), false)
    else if s.artifacts.Some? && f.copyBack.CopyBroke? then Attempt(h.(artifacts := f.copyBack.left), false)
    else Attempt(h.(artifacts := s.artifacts), true)
  }

  function Rollback(h: Host, s: Snapshot, f: RollbackFaults): (a: Attempt) {
    if !f.stopApps then Attempt(h, false)
    else if !f.startPostgres then Attempt(h.(appsUp := false), false)
    else
      var a1 := RollbackArtifacts(h.(appsUp := false), s, f);
      if !a1.ok then a1
      else if s.dbDump.None? then StartApps(a1.host, f.startApps)
      else
        var a2 := RollbackDb(a1.host, s.dbDump.value, f);
        if !a2.ok then a2
        else
          var a3 := if s.redisDump.None? then a2 else RollbackRedis(a2.host, s.redisDump.value, s.aofBackup, f);
          if !a3.ok then a3 else StartApps(a3.host, f.startApps)
  }

  // ----- restore -----

  datatype Progress = Progress(host: Host, snap: Option<Snapshot>, ok: bool)

  /** A snapshot directory just after its registration: the artifacts moved in, nothing else yet. */
  function Registered(h: Host): (s: Snapshot) {
    Snapshot(Some(if h.artifacts.Some? then h.artifacts.value else map[]), None, None, None, None)
  }

  function TakeSnapshot(h: Host, e: Env, f: Faults): (p: Progress) {
    if !f.mkdir || (h.artifacts.Some? && !f.move) then Progress(h, None, false)
    else
      var h1 := h.(artifacts := None);
      var s1 := Registered(h);
      if !f.pgDump then Progress(h1, Some(s1), false)
      else
        var s2 := s1.(dbDump := Some(h.db));
        // SAVE is executed inside the Redis container, so it can only work on a running Redis
        var saved := h1.(redis := h1.redis.(dump := Some(h1.redis.memory)));
        if !h1.redis.up then Progress(h1, Some(s2), false)
        else if f.save.Broke? then Progress(if f.save.tookEffect then saved else h1, Some(s2), false)
        else if !f.copyRdb then Progress(saved, Some(s2), false)
        else
          var s3 := s2.(redisDump := saved.redis.dump);
          if !f.writeManifest then Progress(saved, Some(s3), false)
          else Progress(saved, Some(s3.(manifest := Some(WriteManifest(s3, e)))), true)
  }

  /** Step 7 on a stopped Redis: set the append-only directory aside, then put the archive's dump in place. */
  function PlaceRedis(h: Host, s: Snapshot, rdb: Data, sameVolume: bool, f: Faults): (p: Progress) {
    var r := h.redis;
    var move := if r.aof.None? then Moved else if sameVolume && !f.aofMove.Moved? then Refused else f.aofMove;
    match move
    case Refused => Progress(h, Some(s), false)
    case CopyTorn(k) => Progress(h, Some(s.(aofBackup := Some(Torn(r.aof.value, k)))), false)
    case RemovalTorn(left) => Progress(h.(redis := r.(aof := left)), Some(s.(aofBackup := r.aof)), false)
    case Moved =>
      var s' := if r.aof.Some? then s.(aofBackup := r.aof) else s;
      match f.placeRdb
      case CopyBroke(left) => Progress(h.(redis := r.(aof := None, dump := left)), Some(s'), false)
      case Copied => Progress(h.(redis := r.(aof := None, dump := Some(rdb))), Some(s'), true)
  }

  /** Steps 8 to 10. */
  function BringUp(h: Host, s: Snapshot, f: Faults): (p: Progress) {
    if f.startRedis.Broke? then
      Progress(if f.startRedis.tookEffect then h.(redis := Boot(h.redis, f.aofOn)) else h, Some(s), false)
    else
      var h1 := h.(redis := Boot(h.redis, f.aofOn));
      if !f.alembic then Progress(h1, Some(s), false)
      else
        var a := StartApps(h1, f.startApps);
        Progress(a.host, Some(s), a.ok)
  }

  /** Steps 4 to 10, after a complete snapshot. */
  function ApplyArchive(h: Host, s: Snapshot, arc: Archive, sameVolume: bool, f: Faults): (p: Progress) {
    if f.place.CopyBroke? then Progress(h.(artifacts := f.place.left), Some(s), false)
    else
      var h1 := h.(artifacts := Some(arc.artifacts));
      var h2 := h1.(db := PgRestore(h1.db, arc.db));
      if f.pgRestore.Broke? then Progress(if f.pgRestore.tookEffect then h2 else h1, Some(s), false)
      else
        var h3 := h2.(redis := Shutdown(h2.redis, f.saves));
        if f.stopRedis.Broke? then Progress(if f.stopRedis.tookEffect then h3 else h2, Some(s), false)
        else
          var p := PlaceRedis(h3, s, arc.redis, sameVolume, f);
          if p.ok && p.snap.Some? then BringUp(p.host, p.snap.value, f) else p
  }

  /** The body of the try block of run_restore. */
  function TryRestore(h: Host, arc: Archive, e: Env, f: Faults): (p: Progress) {
    if !f.preflight || !f.stopApps then Progress(h, None, false)
    else
      var p := TakeSnapshot(h.(appsUp := false), e, f);
      if p.ok && p.snap.Some? then ApplyArchive(p.host, p.snap.value, arc, e.sameVolume, f) else p
  }

  datatype Exit = Completed | Raised | RollbackFailed

  datatype Run = Run(host: Host, snap: Option<Snapshot>, exit: Exit)

  /** run_restore: the try block, and the except block that rolls back once a snapshot is registered. */
  function RunRestore(h: Host, arc: Archive, e: Env, f: Faults): (r: Run) {
    var p := TryRestore(h, arc, e, f);
    if p.ok then Run(p.host, p.snap, Completed)
    else if p.snap.None? then Run(p.host, None, Raised)
    else
      var a := Rollback(p.host, p.snap.value, f.rollback);
      Run(a.host, p.snap, if a.ok then Raised else RollbackFailed)
  }

  // ----- which exit is taken -----

  /** Every check and step up to the registration of the snapshot directory succeeds. */
  predicate Registers(h: Host, f: Faults) {
    f.preflight && f.stopApps && f.mkdir && (h.artifacts.Some? ==> f.move)
  }

  predicate SnapshotSteps(h: Host, f: Faults) {
    f.pgDump && h.redis.up && f.save.Done? && f.copyRdb && f.writeManifest
  }

  predicate InstallSteps(h: Host, f: Faults) {
    && f.place.Copied? && f.pgRestore.Done? && f.stopRedis.Done? && (h.redis.aof.Some? ==> f.aofMove.Moved?)
    && f.placeRdb.Copied? && f.startRedis.Done? && f.alembic && f.startApps.Healthy?
  }

  predicate EveryStep(h: Host, f: Faults) {
    Registers(h, f) && SnapshotSteps(h, f) && InstallSteps(h, f)
  }

  /** Every step of a rollback that has something to do succeeds. */
  predicate RollbackSteps(h: Host, s: Snapshot, f: RollbackFaults) {
    && f.stopApps && f.startPostgres
    && (h.artifacts.Some? ==> f.clear.Copied?) && (s.artifacts.Some? ==> f.copyBack.Copied?)
    && (s.dbDump.Some? ==> f.pgRestore.Done?)
    && (s.dbDump.Some? && s.redisDump.Some? ==> f.stopRedis.Done? && f.redisFiles.Copied? && f.startRedis.Done?)
    && f.startApps.Healthy?
  }

  lemma SnapshotExactly(h: Host, e: Env, f: Faults)
    ensures var p := TakeSnapshot(h, e, f);
            && (p.snap.Some? <==> f.mkdir && (h.artifacts.Some? ==> f.move))
            && (p.ok <==> p.snap.Some? && SnapshotSteps(h, f))
            && (p.ok ==> p.host.redis.aof == h.redis.aof)
            && (p.snap.None? ==> p.host == h)
  {
  }

  lemma ApplyExactly(h: Host, s: Snapshot, arc: Archive, sameVolume: bool, f: Faults)
    ensures var p := ApplyArchive(h, s, arc, sameVolume, f); p.snap.Some? && (p.ok <==> InstallSteps(h, f))
  {
  }

  /** A rollback completes exactly if every step it has to take succeeds. */
  lemma RollbackExactly(h: Host, s: Snapshot, f: RollbackFaults)
    ensures Rollback(h, s, f).ok <==> RollbackSteps(h, s, f)
  {
  }

  lemma TryExactly(h: Host, arc: Archive, e: Env, f: Faults)
    ensures var p := TryRestore(h, arc, e, f);
            && (p.snap.Some? <==> Registers(h, f))
            && (p.ok <==> EveryStep(h, f))
            && (p.snap.None? ==> p.host == if f.preflight && f.stopApps then h.(appsUp := false) else h)
  {
    var g := h.(appsUp := false);
    SnapshotExactly(g, e, f);
    var p := TakeSnapshot(g, e, f);
    if p.snap.Some? { ApplyExactly(p.host, p.snap.value, arc, e.sameVolume, f); }
  }

  /**
    The exit of every run, for every schedule: completed exactly if every check and step succeeds; otherwise the rollback
    decides, if a snapshot was registered. A failing check of the archive or the target leaves everything alone.
   */
  lemma ExitExactly(h: Host, arc: Archive, e: Env, f: Faults)
    ensures var r := RunRestore(h, arc, e, f);
            var p := TryRestore(h, arc, e, f);
            && (r.exit.Completed? <==> EveryStep(h, f))
            && (p.snap.Some? <==> Registers(h, f))
            && (r.exit.RollbackFailed?
                <==> !EveryStep(h, f) && Registers(h, f) && !RollbackSteps(p.host, p.snap.value, f.rollback))
            && (!Registers(h, f) ==> r == Run(if f.preflight && f.stopApps then h.(appsUp := false) else h, None, Raised))
            && (!f.preflight ==> r == Run(h, None, Raised))
  {
    TryExactly(h, arc, e, f);
    var p := TryRestore(h, arc, e, f);
    if p.snap.Some? { RollbackExactly(p.host, p.snap.value, f.rollback); }
  }

  // ----- all or nothing -----

  /** The same directory, except that an absent one may have come back empty. */
  predicate SameArtifacts(before: Option<Tree>, after: Option<Tree>) {
    after == before || (before.None? && after == Some(map[]))
  }

  predicate Undone(before: Host, after: Host) {
    && SameArtifacts(before.artifacts, after.artifacts)
    && after.db == before.db
    && Content(after.redis) == Content(before.redis)
  }

  predicate Applied(arc: Archive, after: Host) {
    && after.artifacts == Some(arc.artifacts)
    && after.db == arc.db
    && Content(after.redis) == arc.redis
  }

  /** What a rollback from `s` needs to know to give `h` back. */
  predicate Holds(s: Snapshot, h: Host) {
    && s.artifacts.Some? && SameArtifacts(h.artifacts, s.artifacts)
    && (s.dbDump.Some? ==> s.dbDump.value == h.db)
    && (s.redisDump.Some? ==> s.dbDump.Some? && Load(s.redisDump, s.aofBackup) == Content(h.redis))
  }

  /**
    The hidden invariant of the try block: a store differs from the original only when the snapshot
    component it is recovered from is already there.
   */
  predicate Recoverable(h: Host, p: Progress) {
    match p.snap
    case None => p.host.artifacts == h.artifacts && p.host.db == h.db && Content(p.host.redis) == Content(h.redis)
    case Some(s) =>
      && Holds(s, h)
      && p.host.db.Keys == h.db.Keys
      && (s.dbDump.None? ==> p.host.db == h.db)
      && (s.redisDump.None? ==> Content(p.host.redis) == Content(h.redis))
  }

  lemma RollbackRecovers(h: Host, p: Progress, f: RollbackFaults)
    requires p.snap.Some? && Recoverable(h, p)
    ensures Rollback(p.host, p.snap.value, f).ok ==> Undone(h, Rollback(p.host, p.snap.value, f).host)
  {
  }

  lemma SnapshotRecoverable(h: Host, e: Env, f: Faults)
    requires Consistent(h.redis)
    ensures Recoverable(h, TakeSnapshot(h, e, f))
    ensures var p := TakeSnapshot(h, e, f);
            p.ok ==> p.snap.Some? && p.snap.value.redisDump.Some? && p.host.db == h.db && h.redis.up
                     && p.host.redis == h.redis.(dump := Some(h.redis.memory)) && p.snap.value.aofBackup == None
  {
  }

  /**
    The condition a caller can check: the append-only file is on the same volume, absent or empty, and the archive
    brings no new database objects.
   */
  predicate UndoSafe(h: Host, arc: Archive, sameVolume: bool) {
    h.redis.up ==> (sameVolume || h.redis.aof.None? || h.redis.memory == "") && arc.db.Keys <= h.db.Keys
  }

  /** A complete snapshot of `h`, and an append-only file in `g` that cannot be torn into something else. */
  predicate SafeToPlace(h: Host, g: Host, s: Snapshot, sameVolume: bool) {
    && Holds(s, h) && s.redisDump.Some? && s.aofBackup.None?
    && (g.redis.aof.Some? ==> g.redis.aof.value == Content(h.redis) && (sameVolume || g.redis.aof.value == ""))
  }

  lemma PlaceRedisRecoverable(h: Host, g: Host, s: Snapshot, rdb: Data, sameVolume: bool, f: Faults)
    requires SafeToPlace(h, g, s, sameVolume)
    ensures var p := PlaceRedis(g, s, rdb, sameVolume, f);
            p.snap.Some? && Holds(p.snap.value, h) && p.snap.value.redisDump.Some? && p.host.db == g.db
  {
  }

  lemma BringUpRecoverable(h: Host, g: Host, s: Snapshot, f: Faults)
    requires Holds(s, h) && s.redisDump.Some? && g.db.Keys == h.db.Keys
    ensures Recoverable(h, BringUp(g, s, f))
  {
  }

  lemma ApplyRecoverable(h: Host, g: Host, s: Snapshot, arc: Archive, sameVolume: bool, f: Faults)
    requires SafeToPlace(h, g, s, sameVolume) && g.db == h.db && arc.db.Keys <= h.db.Keys
    ensures Recoverable(h, ApplyArchive(g, s, arc, sameVolume, f))
  {
    var h2 := g.(artifacts := Some(arc.artifacts), db := PgRestore(g.db, arc.db));
    assert h2.db.Keys == h.db.Keys;
    if f.place.Copied? && f.pgRestore.Done? && f.stopRedis.Done? {
      InstalledRecoverable(h, h2.(redis := Shutdown(h2.redis, f.saves)), s, arc.redis, sameVolume, f);
    }
  }

  lemma InstalledRecoverable(h: Host, g: Host, s: Snapshot, rdb: Data, sameVolume: bool, f: Faults)
    requires SafeToPlace(h, g, s, sameVolume) && g.db.Keys == h.db.Keys
    ensures var p := PlaceRedis(g, s, rdb, sameVolume, f);
            p.snap.Some? && Recoverable(h, if p.ok then BringUp(p.host, p.snap.value, f) else p)
  {
    PlaceRedisRecoverable(h, g, s, rdb, sameVolume, f);
    var p := PlaceRedis(g, s, rdb, sameVolume, f);
    BringUpRecoverable(h, p.host, p.snap.value, f);
  }

  lemma TryRecoverable(h: Host, arc: Archive, e: Env, f: Faults)
    requires Consistent(h.redis) && UndoSafe(h, arc, e.sameVolume)
    ensures Recoverable(h, TryRestore(h, arc, e, f))
  {
    if f.preflight && f.stopApps {
      var g := h.(appsUp := false);
      SnapshotRecoverable(g, e, f);
      var p := TakeSnapshot(g, e, f);
      if p.ok {
        ApplyRecoverable(h, p.host, p.snap.value, arc, e.sameVolume, f);
      }
    }
  }

  /** Every run that raises without a failed rollback leaves all three stores as they were. */
  lemma RestoreUndone(h: Host, arc: Archive, e: Env, f: Faults)
    requires Consistent(h.redis) && UndoSafe(h, arc, e.sameVolume)
    ensures var r := RunRestore(h, arc, e, f); r.exit.Raised? ==> Undone(h, r.host)
  {
    TryRecoverable(h, arc, e, f);
    var p := TryRestore(h, arc, e, f);
    if !p.ok && p.snap.Some? { RollbackRecovers(h, p, f.rollback); }
  }

  // A schedule on which nothing fails.
  const NO_ROLLBACK_FAULTS := RollbackFaults(true, true, Copied, Copied, Done, Done, false, Copied, Done, false, Healthy)
  const NO_FAULTS := Faults(true, true, true, true, true, Done, true, true, Copied, Done, Done, false, Moved, Copied, Done,
                           false, true, Healthy, NO_ROLLBACK_FAULTS)

  /** A torn copy of the append-only directory is taken for a backup of it. */
  lemma TornAofBreaksUndo(h: Host, arc: Archive, e: Env)
    requires Consistent(h.redis) && h.redis.up && !e.sameVolume && h.redis.aof.Some? && h.redis.memory != ""
    ensures exists f :: RunRestore(h, arc, e, f).exit.Raised? && !Undone(h, RunRestore(h, arc, e, f).host)
  {
    var f := NO_FAULTS.(aofMove := CopyTorn(0));
    var r := RunRestore(h, arc, e, f);
    assert r.exit.Raised? && Content(r.host.redis) == "";
  }

  /** What a snapshot that is taken without a fault holds and leaves. */
  lemma SnapshotTaken(h: Host, e: Env, f: Faults)
    requires h.redis.up && f.mkdir && f.move && f.pgDump && f.save.Done? && f.copyRdb && f.writeManifest
    ensures var p := TakeSnapshot(h, e, f); p.ok && p.snap.Some? && p.host.db == h.db && p.snap.value.dbDump == Some(h.db)
  {
  }

  /** A migration check that fails after everything else went well. */
  lemma ArchiveInstalled(h: Host, s: Snapshot, arc: Archive, sameVolume: bool, f: Faults)
    requires f.place.Copied? && f.pgRestore.Done? && f.stopRedis.Done? && f.aofMove.Moved? && f.placeRdb.Copied?
    requires f.startRedis.Done? && !f.alembic
    ensures var p := ApplyArchive(h, s, arc, sameVolume, f);
            !p.ok && p.snap.Some? && p.snap.value.dbDump == s.dbDump && p.host.db == PgRestore(h.db, arc.db)
  {
  }

  lemma NoFaultRollsBack(h: Host, s: Snapshot)
    ensures Rollback(h, s, NO_ROLLBACK_FAULTS).ok
  {
  }

  lemma TryFailsLate(h: Host, arc: Archive, e: Env, f: Faults)
    requires h.redis.up && f == NO_FAULTS.(alembic := false)
    ensures var p := TryRestore(h, arc, e, f);
            !p.ok && p.snap.Some? && p.snap.value.dbDump == Some(h.db) && p.host.db == PgRestore(h.db, arc.db)
  {
    var g := h.(appsUp := false);
    SnapshotTaken(g, e, f);
    var p := TakeSnapshot(g, e, f);
    ArchiveInstalled(p.host, p.snap.value, arc, e.sameVolume, f);
  }

  /** An object only the archive holds survives the rollback. */
  lemma ExtraObjectBreaksUndo(h: Host, arc: Archive, e: Env)
    requires Consistent(h.redis) && h.redis.up && !(arc.db.Keys <= h.db.Keys)
    ensures exists f :: RunRestore(h, arc, e, f).exit.Raised? && !Undone(h, RunRestore(h, arc, e, f).host)
  {
    var f := NO_FAULTS.(alembic := false);
    TryFailsLate(h, arc, e, f);
    var p := TryRestore(h, arc, e, f);
    NoFaultRollsBack(p.host, p.snap.value);
    RollbackKeepsObjects(p.host, p.snap.value, f.rollback);
    var o :| o in arc.db && o !in h.db;
    assert o in p.host.db.Keys && o in RunRestore(h, arc, e, f).host.db.Keys;
  }

  /** Restore undoes itself on every fault schedule exactly when the caller-visible condition holds. */
  lemma UndoExactly(h: Host, arc: Archive, e: Env)
    requires Consistent(h.redis)
    ensures (forall f :: RunRestore(h, arc, e, f).exit.Raised? ==> Undone(h, RunRestore(h, arc, e, f).host))
            <==> UndoSafe(h, arc, e.sameVolume)
  {
    if UndoSafe(h, arc, e.sameVolume) {
      forall f ensures RunRestore(h, arc, e, f).exit.Raised? ==> Undone(h, RunRestore(h, arc, e, f).host) {
        RestoreUndone(h, arc, e, f);
      }
    } else if arc.db.Keys <= h.db.Keys {
      TornAofBreaksUndo(h, arc, e);
    } else {
      ExtraObjectBreaksUndo(h, arc, e);
    }
  }

  lemma PlaceInstalls(h: Host, s: Snapshot, rdb: Data, sameVolume: bool, f: Faults)
    ensures var p := PlaceRedis(h, s, rdb, sameVolume, f);
            p.ok ==>
              && p.host == h.(redis := h.redis.(aof := None, dump := Some(rdb)))
              && p.snap == Some(s.(aofBackup := if h.redis.aof.Some? then h.redis.aof else s.aofBackup))
  {
  }

  lemma BringUpKeeps(h: Host, s: Snapshot, f: Faults)
    ensures var p := BringUp(h, s, f);
            p.ok ==> p.host == h.(redis := Boot(h.redis, f.aofOn), appsUp := true) && p.snap == Some(s)
  {
  }

  /** What the steps after the snapshot have done when they get through. */
  lemma ApplyInstalls(h: Host, s: Snapshot, arc: Archive, sameVolume: bool, f: Faults)
    ensures var p := ApplyArchive(h, s, arc, sameVolume, f);
            p.ok ==>
              && p.host.artifacts == Some(arc.artifacts)
              && p.host.db == PgRestore(h.db, arc.db)
              && Content(p.host.redis) == arc.redis
              && p.host.appsUp
              && p.snap == Some(s.(aofBackup := if h.redis.aof.Some? then h.redis.aof else s.aofBackup))
  {
    if ApplyArchive(h, s, arc, sameVolume, f).ok {
      var stopped := Shutdown(h.redis, f.saves);
      var g := h.(artifacts := Some(arc.artifacts), db := PgRestore(h.db, arc.db), redis := stopped);
      var p := PlaceRedis(g, s, arc.redis, sameVolume, f);
      PlaceInstalls(g, s, arc.redis, sameVolume, f);
      assert p.ok && p.snap.Some?;
      BringUpKeeps(p.host, p.snap.value, f);
      BootsDump(stopped.(aof := None, dump := Some(arc.redis)), arc.redis, f.aofOn);
    }
  }

  lemma BootsDump(r: Redis, rdb: Data, aofOn: bool)
    requires !r.up && r.aof.None? && r.dump == Some(rdb)
    ensures Content(Boot(r, aofOn)) == rdb
  {
  }

  lemma SnapshotDumps(h: Host, e: Env, f: Faults)
    ensures var p := TakeSnapshot(h, e, f);
            p.ok ==> p.snap.Some? && p.snap.value.dbDump == Some(h.db) && p.snap.value.redisDump == Some(h.redis.memory)
  {
  }

  lemma SnapshotNeedsRedis(h: Host, e: Env, f: Faults)
    ensures var p := TakeSnapshot(h, e, f); p.ok ==> h.redis.up && p.host.db == h.db && p.host.redis.aof == h.redis.aof
  {
  }

  /** A completed run has installed the archive; database objects it does not name are kept. */
  lemma RestoreApplied(h: Host, arc: Archive, e: Env, f: Faults)
    ensures var r := RunRestore(h, arc, e, f);
            r.exit.Completed? ==>
              && h.redis.up
              && r.host.artifacts == Some(arc.artifacts)
              && r.host.db == PgRestore(h.db, arc.db)
              && Content(r.host.redis) == arc.redis
              && r.host.appsUp
  {
    var p := TakeSnapshot(h.(appsUp := false), e, f);
    SnapshotNeedsRedis(h.(appsUp := false), e, f);
    if p.snap.Some? { ApplyInstalls(p.host, p.snap.value, arc, e.sameVolume, f); }
  }

  lemma AppliedExactly(h: Host, arc: Archive, e: Env)
    ensures (forall f :: RunRestore(h, arc, e, f).exit.Completed? ==> Applied(arc, RunRestore(h, arc, e, f).host))
            <==> (h.redis.up ==> h.db.Keys <= arc.db.Keys)
  {
    if h.redis.up {
      var r := RunRestore(h, arc, e, NO_FAULTS);
      assert r.exit.Completed?;
      RestoreApplied(h, arc, e, NO_FAULTS);
      if o :| o in h.db && o !in arc.db { assert o in r.host.db; }
    }
    if h.redis.up ==> h.db.Keys <= arc.db.Keys {
      forall f ensures RunRestore(h, arc, e, f).exit.Completed? ==> Applied(arc, RunRestore(h, arc, e, f).host) {
        RestoreApplied(h, arc, e, f);
      }
    }
  }

  // ----- retries and the explicit rollback command -----

  /** Whatever the applications wrote, then one more rollback attempt. */
  datatype Retry = Retry(writes: Writes, faults: RollbackFaults)

  function Retries(h: Host, s: Snapshot, rs: seq<Retry>): (a: Attempt)
    decreases |rs|
  {
    if rs == [] then Attempt(h, false)
    else
      var last := rs[|rs| - 1];
      Rollback(ApplyWrites(Retries(h, s, rs[..|rs| - 1]).host, last.writes), s, last.faults)
  }

  lemma RollbackKeepsObjects(h: Host, s: Snapshot, f: RollbackFaults)
    requires s.dbDump.Some?
    ensures var a := Rollback(h, s, f);
            && h.db.Keys <= a.host.db.Keys <= h.db.Keys + s.dbDump.value.Keys
            && (a.ok ==> a.host.db.Keys == h.db.Keys + s.dbDump.value.Keys)
  {
    var a1 := RollbackArtifacts(h.(appsUp := false), s, f);
    var a2 := RollbackDb(a1.host, s.dbDump.value, f);
    assert a2.host.db == h.db || a2.host.db == PgRestore(h.db, s.dbDump.value);
    assert PgRestore(h.db, s.dbDump.value).Keys == h.db.Keys + s.dbDump.value.Keys;
  }

  lemma {:induction false} RetriesKeepObjects(h: Host, s: Snapshot, rs: seq<Retry>)
    requires s.dbDump.Some?
    ensures var a := Retries(h, s, rs);
            && h.db.Keys <= a.host.db.Keys <= h.db.Keys + s.dbDump.value.Keys
            && (a.ok ==> a.host.db.Keys == h.db.Keys + s.dbDump.value.Keys)
  {
    if rs != [] {
      RetriesKeepObjects(h, s, rs[..|rs| - 1]);
      var last := rs[|rs| - 1];
      RollbackKeepsObjects(ApplyWrites(Retries(h, s, rs[..|rs| - 1]).host, last.writes), s, last.faults);
    }
  }

  /**
    Any number of partly failed rollbacks with application writes in between, followed by one that
    completes, gives back exactly the state a complete snapshot holds; database objects outside the
    snapshot are the only thing that can stand in the way.
   */
  lemma RetriesUndo(original: Host, h: Host, s: Snapshot, rs: seq<Retry>)
    requires Holds(s, original) && s.redisDump.Some?
    requires Retries(h, s, rs).ok
    ensures Undone(original, Retries(h, s, rs).host) <==> h.db.Keys <= original.db.Keys
    ensures forall o | o in original.db :: o in Retries(h, s, rs).host.db && Retries(h, s, rs).host.db[o] == original.db[o]
  {
    RetriesKeepObjects(h, s, rs);
    var a := Retries(h, s, rs);
    var last := rs[|rs| - 1];
    var before := ApplyWrites(Retries(h, s, rs[..|rs| - 1]).host, last.writes);
    RollbackGives(original, before, s, last.faults);
    RestoredRows(before.db, original.db);
    if a.host.db == original.db { assert h.db.Keys <= original.db.Keys; }
  }

  /** What one completed rollback from a complete snapshot gives back. */
  lemma RollbackGives(original: Host, h: Host, s: Snapshot, f: RollbackFaults)
    requires Holds(s, original) && s.redisDump.Some? && Rollback(h, s, f).ok
    ensures var g := Rollback(h, s, f).host;
            && SameArtifacts(original.artifacts, g.artifacts) && Content(g.redis) == Content(original.redis)
            && g.db == PgRestore(h.db, original.db)
  {
  }

  lemma RestoredRows(db: Db, dump: Db)
    ensures forall o | o in dump :: o in PgRestore(db, dump) && PgRestore(db, dump)[o] == dump[o]
    ensures PgRestore(db, dump) == dump <==> db.Keys <= dump.Keys
  {
    if PgRestore(db, dump) == dump { assert PgRestore(db, dump).Keys == db.Keys + dump.Keys; }
  }

  /** A manifest fits every snapshot with the components it was written for. */
  lemma ManifestFits(s: Snapshot, t: Snapshot, e: Env)
    requires t.artifacts == s.artifacts && t.dbDump == s.dbDump && t.redisDump == s.redisDump
    ensures VerifyBinding(WriteManifest(s, e), e.target, e.snapshotId) && VerifyComponents(t, WriteManifest(s, e), e)
  {
    var m := WriteManifest(s, e);
    forall name | name in m.components ensures VerifyComponent(t, name, m.components[name], e) {
      assert ComponentOf(t, name) == ComponentOf(s, name);
    }
  }

  /** A snapshot that was taken to its end: complete, with the manifest written for it. */
  lemma SnapshotComplete(h: Host, e: Env, f: Faults)
    requires Consistent(h.redis) && TakeSnapshot(h, e, f).ok
    ensures var p := TakeSnapshot(h, e, f);
            && p.snap.Some? && Holds(p.snap.value, h) && p.snap.value.redisDump.Some?
            && p.snap.value.manifest == Some(WriteManifest(p.snap.value.(manifest := None), e))
  {
    SnapshotRecoverable(h, e, f);
  }

  /** A backup of the append-only file that agrees with it changes nothing. */
  lemma HoldsWithBackup(s: Snapshot, h: Host, aof: Option<Data>)
    requires Holds(s, h) && s.redisDump.Some? && (aof.Some? ==> aof.value == Content(h.redis)) && s.aofBackup.None?
    ensures Holds(s.(aofBackup := aof), h)
  {
  }

  /** The snapshot of a completed restore is complete, and its manifest passes both verifiers. */
  lemma CompletedSnapshot(h: Host, arc: Archive, e: Env, f: Faults)
    requires Consistent(h.redis) && RunRestore(h, arc, e, f).exit.Completed?
    ensures var s := RunRestore(h, arc, e, f).snap;
            && s.Some? && Holds(s.value, h) && s.value.redisDump.Some? && s.value.manifest.Some?
            && VerifyBinding(s.value.manifest.value, e.target, e.snapshotId)
            && VerifyComponents(s.value, s.value.manifest.value, e)
  {
    var g := h.(appsUp := false);
    var p := TakeSnapshot(g, e, f);
    SnapshotComplete(g, e, f);
    SnapshotRecoverable(g, e, f);
    var taken := p.snap.value;
    ApplyInstalls(p.host, taken, arc, e.sameVolume, f);
    var s := RunRestore(h, arc, e, f).snap.value;
    HoldsWithBackup(taken, h, s.aofBackup);
    ManifestFits(taken.(manifest := None), s, e);
  }

  /** Digests as the code takes them: injective on what they are given, hexadecimal, over sorted paths. */
  ghost predicate Ideal(e: Env) {
    Injective(e.shaDb) && Injective(e.sha) && OneLineDigest(e.sha) && ListsAll(e.order)
  }

  /** No line break in the name of a file or link, nor in a link's target. */
  predicate Unbroken(t: Option<Tree>) {
    t.Some? ==> Over(t.value, c => c != '\n')
  }

  /**
    A manifest pins both dumps, and the files and links of the artifacts when no name or target holds a line break.
    It covers neither directories nor the set-aside append-only directory.
   */
  lemma ManifestPins(s: Snapshot, e: Env, found: Snapshot)
    requires Ideal(e) && Unbroken(s.artifacts) && Unbroken(found.artifacts)
    requires VerifyComponents(found, WriteManifest(s, e), e)
    ensures s.dbDump.Some? ==> found.dbDump == s.dbDump
    ensures s.redisDump.Some? ==> found.redisDump == s.redisDump
    ensures s.artifacts.Some? ==> found.artifacts.Some? && Visible(found.artifacts.value) == Visible(s.artifacts.value)
  {
    var m := WriteManifest(s, e);
    assert VerifyComponent(found, DB_NAME, m.components[DB_NAME], e);
    assert VerifyComponent(found, RDB_NAME, m.components[RDB_NAME], e);
    assert VerifyComponent(found, TREE_NAME, m.components[TREE_NAME], e);
    if s.artifacts.Some? {
      MerkleInjective(s.artifacts.value, found.artifacts.value, e.order, c => c != '\n', e.sha);
    }
  }

  /** A snapshot with one more directory in its artifacts passes the component check, and is another snapshot. */
  lemma AddedDirectoryAccepted(s: Snapshot, e: Env, p: string)
    requires KeepsPlaces(e.order) && s.artifacts.Some? && p !in s.artifacts.value
    ensures var found := s.(artifacts := Some(s.artifacts.value[p := Dir]));
            VerifyComponents(found, WriteManifest(s, e), e) && found != s
  {
    DirectoryUnseen(s.artifacts.value, p, e.order, e.sha);
    var found := s.(artifacts := Some(s.artifacts.value[p := Dir]));
    var m := WriteManifest(s, e);
    forall name | name in m.components ensures VerifyComponent(found, name, m.components[name], e) {
      assert name == DB_NAME || name == RDB_NAME || name == TREE_NAME;
    }
  }

  datatype Command = Command(host: Host, code: int)

  /** The two error classes of the restore module and the exit codes they become. */
  datatype Trouble = UsageError | RuntimeError

  function Code(t: Trouble): (c: int) {
    if t.UsageError? then 2 else 1
  }

  /**
    `_cmd_restore_rollback` from the moment the lock is held; `approved` is the digest taken before it, `binding` what
    the target consistency check raises, and `trouble` what a failing rollback raises.
   */
  function CmdRestoreRollback(h: Host, s: Snapshot, approved: string, manifestSha: Manifest -> string,
                              binding: Option<Trouble>, e: Env, f: RollbackFaults, trouble: Trouble): (c: Command)
  {
    if s.manifest.None? || manifestSha(s.manifest.value) != approved then Command(h, 2)
    else if binding.Some? then Command(h, Code(binding.value))
    else if !VerifyBinding(s.manifest.value, e.target, e.snapshotId) then Command(h, 2)
    else if !VerifyComponents(s, s.manifest.value, e) then Command(h, 1)
    else
      var a := Rollback(h, s, f);
      Command(a.host, if a.ok then 0 else Code(trouble))
  }

  /**
    A completed restore can be taken back later by the rollback command, after any application writes
    and failed attempts: the command is not refused, and when it exits with 0 the original data is back
    exactly when the archive brought no database object of its own.
   */
  lemma CommandUndoesRestore(h: Host, arc: Archive, e: Env, f: Faults, rs: seq<Retry>, w: Writes,
                             manifestSha: Manifest -> string, last: RollbackFaults, trouble: Trouble)
    requires Consistent(h.redis) && RunRestore(h, arc, e, f).exit.Completed?
    ensures var r := RunRestore(h, arc, e, f);
            && r.snap.Some? && r.snap.value.manifest.Some?
            && var now := ApplyWrites(Retries(r.host, r.snap.value, rs).host, w);
               var a := Rollback(now, r.snap.value, last);
               var approved := manifestSha(r.snap.value.manifest.value);
               var c := CmdRestoreRollback(now, r.snap.value, approved, manifestSha, None, e, last, trouble);
               && c == Command(a.host, if a.ok then 0 else Code(trouble))
               && (c.code == 0 ==> (Undone(h, c.host) <==> arc.db.Keys <= h.db.Keys))
  {
    CompletedSnapshot(h, arc, e, f);
    RestoreApplied(h, arc, e, f);
    var r := RunRestore(h, arc, e, f);
    var s := r.snap.value;
    var all := rs + [Retry(w, last)];
    assert all[..|all| - 1] == rs;
    if Retries(r.host, s, all).ok { RetriesUndo(h, r.host, s, all); }
  }

  /** The manifest under the lock is the approved one and was written for this target and snapshot. */
  predicate ManifestAdmitted(s: Snapshot, approved: string, manifestSha: Manifest -> string, e: Env) {
    && s.manifest.Some? && manifestSha(s.manifest.value) == approved
    && s.manifest.value.version == 1 && s.manifest.value.snapshotId == e.snapshotId && s.manifest.value.target == e.target
  }

  /** Every component the manifest calls present exists with the digest it gives, and it speaks of all three. */
  ghost predicate ComponentsPresent(s: Snapshot, e: Env)
    requires s.manifest.Some?
  {
    var specs := s.manifest.value.components;
    && specs.Keys == {DB_NAME, RDB_NAME, TREE_NAME}
    && (forall n | n in specs :: specs[n].present.Some?)
    && (specs[DB_NAME].present.value ==> s.dbDump.Some? && specs[DB_NAME].sha256 == Some(e.shaDb(s.dbDump.value)))
    && (specs[RDB_NAME].present.value ==> s.redisDump.Some? && specs[RDB_NAME].sha256 == Some(e.sha(s.redisDump.value)))
    && (specs[TREE_NAME].present.value ==>
          s.artifacts.Some? && specs[TREE_NAME].sha256 == Some(e.sha(MerkleText(s.artifacts.value, e.order, e.sha))))
  }

  lemma ComponentsExactly(s: Snapshot, e: Env)
    requires s.manifest.Some?
    ensures VerifyComponents(s, s.manifest.value, e) <==> ComponentsPresent(s, e)
  {
    var specs := s.manifest.value.components;
    if VerifyComponents(s, s.manifest.value, e) {
      assert VerifyComponent(s, DB_NAME, specs[DB_NAME], e);
      assert VerifyComponent(s, RDB_NAME, specs[RDB_NAME], e);
      assert VerifyComponent(s, TREE_NAME, specs[TREE_NAME], e);
    }
    if ComponentsPresent(s, e) {
      forall n | n in specs ensures VerifyComponent(s, n, specs[n], e) {
        assert n == DB_NAME || n == RDB_NAME || n == TREE_NAME;
      }
    }
  }

  /**
    When the rollback command exits with 0, 1 or 2. It touches the host only if the manifest is the approved one, fits
    target and snapshot, and all its components are there; the exit code is 0 exactly if then every step succeeds.
   */
  lemma CommandExactly(h: Host, s: Snapshot, approved: string, manifestSha: Manifest -> string,
                       binding: Option<Trouble>, e: Env, f: RollbackFaults, trouble: Trouble)
    ensures var c := CmdRestoreRollback(h, s, approved, manifestSha, binding, e, f, trouble);
            var admitted := ManifestAdmitted(s, approved, manifestSha, e) && binding.None?;
            var begins := admitted && ComponentsPresent(s, e);
            && (!begins ==> c.host == h && c.code != 0)
            && (c.code == 0 <==> begins && RollbackSteps(h, s, f))
            && (begins ==> c.host == Rollback(h, s, f).host && (c.code != 0 ==> c.code == Code(trouble)))
            && (admitted && !begins ==> c.code == 1)
            && (!admitted ==> c.code == 2 || (binding == Some(RuntimeError) && c.code == 1))
            && (s.manifest.None? || manifestSha(s.manifest.value) != approved ==> c.code == 2)
  {
    if s.manifest.Some? { ComponentsExactly(s, e); }
    RollbackExactly(h, s, f);
  }

  /** A manifest replaced between approval and lock stops the command before anything is touched. */
  lemma ReplacedManifestRefused(h: Host, s: Snapshot, approved: Manifest, manifestSha: Manifest -> string,
                                binding: Option<Trouble>, e: Env, f: RollbackFaults, trouble: Trouble)
    requires Injective(manifestSha) && s.manifest != Some(approved)
    ensures CmdRestoreRollback(h, s, manifestSha(approved), manifestSha, binding, e, f, trouble) == Command(h, 2)
  {
  }

  // ----- the imperative orchestrator -----

  /** The orchestrator itself, statement by statement, with the stores it changes as fields. */
  class RestoreOrchestrator {
    var host: Host
    var preRestoreDir: Option<Snapshot>

    constructor (host: Host)
      ensures this.host == host && preRestoreDir == None
    {
      this.host := host;
      preRestoreDir := None;
    }

    method StartAppServices(start: AppStart) returns (ok: bool)
      modifies this`host
      ensures Attempt(host, ok) == StartApps(old(host), start)
    {
      host := host.(appsUp := true);
      if start.Unhealthy? {
        host := ApplyWrites(host, start.wrote);
        return false;
      }
      return true;
    }

    method CreatePreRestoreSnapshot(e: Env, f: Faults) returns (ok: bool)
      requires preRestoreDir.None?
      modifies this
      ensures Progress(host, preRestoreDir, ok) == TakeSnapshot(old(host), e, f)
      ensures Consistent(old(host.redis)) ==> Recoverable(old(host), Progress(host, preRestoreDir, ok))
      ensures ok ==> preRestoreDir.value.dbDump == Some(old(host.db))
                     && preRestoreDir.value.redisDump == Some(old(host.redis.memory))
    {
      if Consistent(host.redis) { SnapshotRecoverable(host, e, f); }
      SnapshotDumps(host, e, f);
      if !f.mkdir { return false; }
      var moved := Registered(host);
      if host.artifacts.Some? {
        if !f.move { return false; }
        host := host.(artifacts := None);
      }
      preRestoreDir := Some(moved);  // register_dir
      if !f.pgDump { return false; }
      preRestoreDir := Some(preRestoreDir.value.(dbDump := Some(host.db)));
      if !host.redis.up { return false; }
      if f.save != Broke(false) {
        host := host.(redis := host.redis.(dump := Some(host.redis.memory)));
      }
      if f.save.Broke? || !f.copyRdb { return false; }
      preRestoreDir := Some(preRestoreDir.value.(redisDump := host.redis.dump));
      if !f.writeManifest { return false; }
      preRestoreDir := Some(preRestoreDir.value.(manifest := Some(WriteManifest(preRestoreDir.value, e))));
      return true;
    }

    method PlaceRedisDump(rdb: Data, sameVolume: bool, f: Faults) returns (ok: bool)
      requires preRestoreDir.Some?
      modifies this
      ensures Progress(host, preRestoreDir, ok) == PlaceRedis(old(host), old(preRestoreDir).value, rdb, sameVolume, f)
      ensures ok ==> Load(host.redis.dump, host.redis.aof) == rdb
      ensures forall h | SafeToPlace(h, old(host), old(preRestoreDir).value, sameVolume) :: Holds(preRestoreDir.value, h)
    {
      forall h | SafeToPlace(h, host, preRestoreDir.value, sameVolume)
        ensures Holds(PlaceRedis(host, preRestoreDir.value, rdb, sameVolume, f).snap.value, h)
      {
        PlaceRedisRecoverable(h, host, preRestoreDir.value, rdb, sameVolume, f);
      }
      var aof := host.redis.aof;
      if aof.Some? {
        match f.aofMove {
          case Moved =>
          case Refused => return false;
          case CopyTorn(k) =>
            if !sameVolume { preRestoreDir := Some(preRestoreDir.value.(aofBackup := Some(Torn(aof.value, k)))); }
            return false;
          case RemovalTorn(left) =>
            if !sameVolume {
              preRestoreDir := Some(preRestoreDir.value.(aofBackup := aof));
              host := host.(redis := host.redis.(aof := left));
            }
            return false;
        }
        preRestoreDir := Some(preRestoreDir.value.(aofBackup := aof));
        host := host.(redis := host.redis.(aof := None));
      }
      ok := f.placeRdb.Copied?;
      host := host.(redis := host.redis.(dump := if ok then Some(rdb) else f.placeRdb.left));
    }

    method CopyArtifactsBack(f: RollbackFaults) returns (ok: bool)
      requires preRestoreDir.Some?
      modifies this`host
      ensures Attempt(host, ok) == RollbackArtifacts(old(host), preRestoreDir.value, f)
      ensures ok ==> host == old(host).(artifacts := preRestoreDir.value.artifacts)
    {
      if host.artifacts.Some? {
        host := host.(artifacts := if f.clear.Copied? then None else f.clear.left);
        if f.clear.CopyBroke? { return false; }
      }
      if preRestoreDir.value.artifacts.Some? {
        host := host.(artifacts := if f.copyBack.Copied? then preRestoreDir.value.artifacts else f.copyBack.left);
        if f.copyBack.CopyBroke? { return false; }
      }
      return true;
    }

    method PutRedisBack(f: RollbackFaults) returns (ok: bool)
      requires preRestoreDir.Some? && preRestoreDir.value.redisDump.Some?
      modifies this`host
      ensures Attempt(host, ok)
              == RollbackRedis(old(host), preRestoreDir.value.redisDump.value, preRestoreDir.value.aofBackup, f)
      ensures ok ==> host.redis.up && Content(host.redis) == Load(preRestoreDir.value.redisDump, preRestoreDir.value.aofBackup)
    {
      if f.stopRedis != Broke(false) { host := host.(redis := Shutdown(host.redis, f.saves)); }
      if f.stopRedis.Broke? { return false; }
      if f.redisFiles.CopyBroke? {
        host := host.(redis := host.redis.(dump := f.redisFiles.left.dump, aof := f.redisFiles.left.aof));
        return false;
      }
      host := host.(redis := host.redis.(dump := None, aof := None));
      host := host.(redis := host.redis.(dump := preRestoreDir.value.redisDump));
      if preRestoreDir.value.aofBackup.Some? {
        host := host.(redis := host.redis.(aof := preRestoreDir.value.aofBackup));
      }
      if f.startRedis != Broke(false) { host := host.(redis := Boot(host.redis, f.aofOn)); }
      return f.startRedis.Done?;
    }

    /** The snapshot directory is only read: retries find it as it was. */
    method RollbackFromPreRestoreSnapshot(f: RollbackFaults) returns (ok: bool)
      requires preRestoreDir.Some?
      modifies this`host
      ensures Attempt(host, ok) == Rollback(old(host), preRestoreDir.value, f)
      ensures ok <==> RollbackSteps(old(host), preRestoreDir.value, f)
      ensures ok ==> forall h | Recoverable(h, Progress(old(host), preRestoreDir, false)) :: Undone(h, host)
    {
      RollbackExactly(host, preRestoreDir.value, f);
      forall h | Recoverable(h, Progress(host, preRestoreDir, false))
        ensures Rollback(host, preRestoreDir.value, f).ok ==> Undone(h, Rollback(host, preRestoreDir.value, f).host)
      {
        RollbackRecovers(h, Progress(host, preRestoreDir, false), f);
      }
      if !f.stopApps { return false; }
      host := host.(appsUp := false);
      if !f.startPostgres { return false; }
      ok := CopyArtifactsBack(f);
      if !ok { return; }
      var dump := preRestoreDir.value.dbDump;
      if dump.None? {
        ok := StartAppServices(f.startApps);
        return;
      }
      if f.pgRestore != Broke(false) { host := host.(db := PgRestore(host.db, dump.value)); }
      if f.pgRestore.Broke? { return false; }
      if preRestoreDir.value.redisDump.Some? {
        ok := PutRedisBack(f);
        if !ok { return; }
      }
      ok := StartAppServices(f.startApps);
    }

    /** The try block. */
    method TrySteps(arc: Archive, e: Env, f: Faults) returns (ok: bool)
      requires preRestoreDir.None?
      modifies this
      ensures Progress(host, preRestoreDir, ok) == TryRestore(old(host), arc, e, f)
      ensures ok <==> EveryStep(old(host), f)
      ensures !f.preflight ==> host == old(host) && preRestoreDir == None
      ensures Consistent(old(host.redis)) && UndoSafe(old(host), arc, e.sameVolume) ==>
                Recoverable(old(host), Progress(host, preRestoreDir, ok))
    {
      TryExactly(host, arc, e, f);
      if Consistent(host.redis) && UndoSafe(host, arc, e.sameVolume) { TryRecoverable(host, arc, e, f); }
      if !f.preflight || !f.stopApps { return false; }
      host := host.(appsUp := false);
      ok := CreatePreRestoreSnapshot(e, f);
      if ok { ok := ApplySteps(arc, e.sameVolume, f); }
    }

    /** Steps 4 to 7. */
    method InstallArchive(arc: Archive, sameVolume: bool, f: Faults) returns (ok: bool)
      requires preRestoreDir.Some?
      modifies this
      ensures ok ==> (
                var stopped := Shutdown(old(host.redis), f.saves);
                var h := old(host).(artifacts := Some(arc.artifacts), db := PgRestore(old(host.db), arc.db), redis := stopped);
                f.place.Copied? && f.pgRestore.Done? && f.stopRedis.Done?
                && Progress(host, preRestoreDir, true) == PlaceRedis(h, old(preRestoreDir).value, arc.redis, sameVolume, f))
      ensures !ok ==> Progress(host, preRestoreDir, false)
                      == ApplyArchive(old(host), old(preRestoreDir).value, arc, sameVolume, f)
    {
      host := host.(artifacts := if f.place.Copied? then Some(arc.artifacts) else f.place.left);
      if f.place.CopyBroke? { return false; }
      if f.pgRestore != Broke(false) { host := host.(db := PgRestore(host.db, arc.db)); }
      if f.pgRestore.Broke? { return false; }
      if f.stopRedis != Broke(false) { host := host.(redis := Shutdown(host.redis, f.saves)); }
      if f.stopRedis.Broke? { return false; }
      ok := PlaceRedisDump(arc.redis, sameVolume, f);
    }

    /** Steps 4 to 10; a run that gets through them has installed the archive. */
    method ApplySteps(arc: Archive, sameVolume: bool, f: Faults) returns (ok: bool)
      requires preRestoreDir.Some?
      modifies this
      ensures Progress(host, preRestoreDir, ok) == ApplyArchive(old(host), old(preRestoreDir).value, arc, sameVolume, f)
      ensures ok ==> host.artifacts == Some(arc.artifacts) && host.db == PgRestore(old(host.db), arc.db)
                     && Content(host.redis) == arc.redis
    {
      ok := InstallArchive(arc, sameVolume, f);
      if !ok { return; }
      if f.startRedis != Broke(false) { host := host.(redis := Boot(host.redis, f.aofOn)); }
      if f.startRedis.Broke? || !f.alembic { return false; }
      ok := StartAppServices(f.startApps);
    }

    method Restore(arc: Archive, e: Env, f: Faults) returns (exit: Exit)
      requires preRestoreDir.None?
      modifies this
      ensures Run(host, preRestoreDir, exit) == RunRestore(old(host), arc, e, f)
      ensures exit.Completed? <==> EveryStep(old(host), f)
      ensures !f.preflight ==> host == old(host) && preRestoreDir == None && exit == Raised
      ensures Consistent(old(host).redis) && UndoSafe(old(host), arc, e.sameVolume) && exit.Raised? ==> Undone(old(host), host)
    {
      ExitExactly(host, arc, e, f);
      if Consistent(host.redis) && UndoSafe(host, arc, e.sameVolume) { RestoreUndone(host, arc, e, f); }
      var ok := TrySteps(arc, e, f);
      if ok { return Completed; }
      if preRestoreDir.Some? {
        ok := RollbackFromPreRestoreSnapshot(f.rollback);
        if !ok { return RollbackFailed; }
      }
      return Raised;
    }
  }
}
