/**
  Approval records: issuing (scripts/taskhub_approval_cli.py), and loading and verifying
  (scripts/taskhub_signed_approval.py). JSON printing and parsing, the canonical encoder with the signature scheme
  behind it, and the time format are library functions; what is assumed of them is `Sound`.
 */
module ApprovalRecords {
  import opened Prelude
  import Checksums

  // ----- data -----

  /** The field names of approval files. */
  const FIELD_NAMES := {
    "approval_id", "decider", "reason_summary", "signed_at", "expires_at", "drill_kind", "allowed_subcommands",
    "target_host", "signature", "backup_claim", "restore_claim", "restore_rollback_claim",
    "output_path", "include_sops_env", "skip_service_stop", "overwrite", "age_public_key_fingerprint",
    "backup_runtime_binding_fingerprint", "input_path", "archive_sha256", "target_pg_dsn_components",
    "target_redis_endpoint", "target_artifacts_dir", "target_artifacts_container_path", "target_compose_project_name",
    "target_compose_file_path", "expected_postgres_major_version", "expected_alembic_head",
    "pre_restore_ts", "pre_restore_dir", "snapshot_manifest_sha256", "host", "port", "db", "user"}

  type OtherName = s: string | s !in FIELD_NAMES witness ""

  /** Object keys: the known field names in the order above, and every other string. */
  datatype Key =
    | ApprovalId | Decider | Reason | SignedAt | ExpiresAt | DrillKind | Subcommands | TargetHost | Signature
    | Backup | Restore | Rollback
    | OutputPath | IncludeSops | SkipStop | Overwrite | AgeFingerprint | Binding
    | InputPath | ArchiveSha | Dsn | Redis | ArtifactsDir | ContainerPath | Project | ComposeFile | PgMajor | AlembicHead
    | Timestamp | SnapshotDir | ManifestSha
    | Host | Port | Database | User
    | Named(name: OtherName)

  datatype Json = Null | Bool(b: bool) | Number | Str(s: string) | List(items: seq<Json>) | Obj(fields: map<Key, Json>)

  datatype BackupClaim = BackupClaim(
    outputPath: string, includeSops: bool, skipStop: bool, overwrite: bool, ageFingerprint: string,
    binding: Option<string>)

  datatype RestoreClaim = RestoreClaim(
    inputPath: string, archiveSha: string, ageFingerprint: string, dsn: map<Key, string>, redis: string,
    artifactsDir: string, containerPath: string, project: string, composeFile: string, pgMajor: string,
    alembicHead: string, skipStop: bool)

  datatype RollbackClaim = RollbackClaim(
    timestamp: string, snapshotDir: string, manifestSha: string, dsn: map<Key, string>, redis: string,
    artifactsDir: string, containerPath: string, project: string, composeFile: string, pgMajor: string)

  datatype Record = Record(
    approvalId: string, decider: string, reason: string, signedAt: string, expiresAt: string, drillKind: string,
    subcommands: seq<string>, target: Option<string>, signature: string,
    backup: Option<BackupClaim>, restore: Option<RestoreClaim>, rollback: Option<RollbackClaim>)

  /** Times are microseconds; `shaped` is the base64 shape of a signature, 88 characters for 64 bytes. */
  datatype Lib = Lib(
    dump: Json -> string,
    load: string -> Option<Json>,
    formatTime: int -> string,
    parseTime: string -> Option<int>,
    decimal: char -> bool,
    sign: Json -> string,
    shaped: string -> bool,
    check: (Json, string) -> bool)

  const SECOND := 1_000_000
  const MAX_TTL := 48 * 3600 * SECOND
  const CLOCK_SKEW := 5 * 60 * SECOND

  /** What a time printed to the second reads back as. */
  function Truncate(t: int): (r: int) {
    t - t % SECOND
  }

  // ----- formats -----

  predicate Alnum(c: char) {
    'a' <= c <= 'z' || 'A' <= c <= 'Z' || '0' <= c <= '9'
  }

  predicate IdFormat(s: string) {
    1 <= |s| <= 128 && Alnum(s[0]) && forall i | 1 <= i < |s| :: Alnum(s[i]) || s[i] in {'.', '_', '-'}
  }

  predicate ReasonFormat(s: string) {
    1 <= |s| <= 64 && forall i | 0 <= i < |s| :: Alnum(s[i]) || s[i] in {'_', '-'}
  }

  predicate DigitsFrom(s: string, from: nat, to: nat, lib: Lib) {
    from <= to <= |s| && forall i | from <= i < to :: lib.decimal(s[i])
  }

  predicate TimeFormat(s: string, lib: Lib) {
    && |s| == 20 && s[4] == '-' && s[7] == '-' && s[10] == 'T' && s[13] == ':' && s[16] == ':' && s[19] == 'Z'
    && DigitsFrom(s, 0, 4, lib) && DigitsFrom(s, 5, 7, lib) && DigitsFrom(s, 8, 10, lib)
    && DigitsFrom(s, 11, 13, lib) && DigitsFrom(s, 14, 16, lib) && DigitsFrom(s, 17, 19, lib)
  }

  predicate StampFormat(s: string, lib: Lib) {
    && |s| >= 15 && DigitsFrom(s, 0, 8, lib) && s[8] == 'T' && DigitsFrom(s, 9, 15, lib)
    && (|s| == 15 || (|s| > 16 && s[15] == '-' && DigitsFrom(s, 16, |s|, lib)))
  }

  predicate Hex64(s: string) {
    |s| == 64 && forall c | c in s :: '0' <= c <= '9' || 'a' <= c <= 'f'
  }

  predicate PositiveNumeral(s: string) {
    s != "" && '1' <= s[0] <= '9' && forall c | c in s :: '0' <= c <= '9'
  }

  /** The time can be printed with four-digit years and read back. */
  predicate Printable(t: int, lib: Lib) {
    TimeFormat(lib.formatTime(t), lib) && lib.parseTime(lib.formatTime(t)) == Some(Truncate(t))
  }

  /** JSON text reads back; a signature has the right shape and belongs to one payload. */
  ghost predicate Sound(lib: Lib) {
    && (forall j :: lib.load(lib.dump(j)) == Some(j))
    && (forall p :: lib.shaped(lib.sign(p)))
    && (forall p, q :: lib.check(p, lib.sign(q)) <==> p == q)
  }

  // ----- claims as JSON -----

  function DsnJson(dsn: map<Key, string>): (r: Json) {
    Obj(map k | k in dsn :: Str(dsn[k]))
  }

  function Filled(j: Json): (r: bool) {
    j.Str? && j.s != ""
  }

  const DSN_KEYS := {Host, Port, Database, User}

  function ParseDsn(j: Json): (r: Option<map<Key, string>>) {
    if j.Obj? && j.fields.Keys == DSN_KEYS && forall k | k in j.fields :: Filled(j.fields[k])
    then Some(map k | k in j.fields :: j.fields[k].s)
    else None
  }

  /** The backup claim as the issuer writes it: without the runtime binding. */
  function WrittenBackup(c: BackupClaim): (r: map<Key, Json>) {
    map[AgeFingerprint := Str(c.ageFingerprint), IncludeSops := Bool(c.includeSops), OutputPath := Str(c.outputPath),
        Overwrite := Bool(c.overwrite), SkipStop := Bool(c.skipStop)]
  }

  /** The backup claim as it is signed: with the runtime binding when there is one. */
  function SignedBackup(c: BackupClaim): (r: map<Key, Json>) {
    if c.binding.Some? then WrittenBackup(c)[Binding := Str(c.binding.value)] else WrittenBackup(c)
  }

  function RestoreJson(c: RestoreClaim): (r: map<Key, Json>) {
    map[AgeFingerprint := Str(c.ageFingerprint), ArchiveSha := Str(c.archiveSha), AlembicHead := Str(c.alembicHead),
        PgMajor := Str(c.pgMajor), InputPath := Str(c.inputPath), SkipStop := Bool(c.skipStop),
        ContainerPath := Str(c.containerPath), ArtifactsDir := Str(c.artifactsDir), ComposeFile := Str(c.composeFile),
        Project := Str(c.project), Dsn := DsnJson(c.dsn), Redis := Str(c.redis)]
  }

  function RollbackJson(c: RollbackClaim): (r: map<Key, Json>) {
    map[PgMajor := Str(c.pgMajor), SnapshotDir := Str(c.snapshotDir), Timestamp := Str(c.timestamp),
        ManifestSha := Str(c.manifestSha), ContainerPath := Str(c.containerPath), ArtifactsDir := Str(c.artifactsDir),
        ComposeFile := Str(c.composeFile), Project := Str(c.project), Dsn := DsnJson(c.dsn), Redis := Str(c.redis)]
  }

  predicate BackupShape(f: map<Key, Json>) {
    && OutputPath in f && IncludeSops in f && SkipStop in f && Overwrite in f && AgeFingerprint in f
    && forall k | k in f :: k.OutputPath? || k.IncludeSops? || k.SkipStop? || k.Overwrite? || k.AgeFingerprint? || k.Binding?
  }

  function ParseBackup(j: Json): (r: Option<BackupClaim>) {
    if !j.Obj? then None
    else
      var f := j.fields;
      if !BackupShape(f) then None
      else if !Filled(f[OutputPath]) || !f[IncludeSops].Bool? || !f[SkipStop].Bool? || !f[Overwrite].Bool? then None
      else if !Filled(f[AgeFingerprint]) then None
      else
        var binding := if Binding in f then f[Binding] else Null;
        if binding != Null && !(binding.Str? && Hex64(binding.s)) then None
        else Some(BackupClaim(f[OutputPath].s, f[IncludeSops].b, f[SkipStop].b, f[Overwrite].b, f[AgeFingerprint].s,
                              if binding == Null then None else Some(binding.s)))
  }

  predicate RestoreShape(f: map<Key, Json>) {
    && InputPath in f && ArchiveSha in f && AgeFingerprint in f && Redis in f && ArtifactsDir in f && ContainerPath in f
    && Project in f && ComposeFile in f && PgMajor in f && AlembicHead in f && Dsn in f && SkipStop in f
    && forall k | k in f ::
         || k.InputPath? || k.ArchiveSha? || k.AgeFingerprint? || k.Redis? || k.ArtifactsDir? || k.ContainerPath?
         || k.Project? || k.ComposeFile? || k.PgMajor? || k.AlembicHead? || k.Dsn? || k.SkipStop?
  }

  predicate RestoreFilled(f: map<Key, Json>)
    requires RestoreShape(f)
  {
    RestoreSourceFilled(f) && RestoreTargetFilled(f)
  }

  predicate RestoreSourceFilled(f: map<Key, Json>)
    requires RestoreShape(f)
  {
    && Filled(f[InputPath]) && Filled(f[ArchiveSha]) && Filled(f[AgeFingerprint]) && Filled(f[Redis])
    && Filled(f[ArtifactsDir])
  }

  predicate RestoreTargetFilled(f: map<Key, Json>)
    requires RestoreShape(f)
  {
    && Filled(f[ContainerPath]) && Filled(f[Project]) && Filled(f[ComposeFile]) && Filled(f[PgMajor])
    && Filled(f[AlembicHead])
  }

  function ParseRestore(j: Json): (r: Option<RestoreClaim>) {
    if !j.Obj? then None
    else
      var f := j.fields;
      if !RestoreShape(f) then None
      else if !RestoreFilled(f) || !f[SkipStop].Bool? then None
      else
        var dsn := ParseDsn(f[Dsn]);
        if dsn.None? then None else Some(ReadRestore(f, dsn.value))
  }

  function ReadRestore(f: map<Key, Json>, dsn: map<Key, string>): (c: RestoreClaim)
    requires RestoreShape(f) && RestoreFilled(f) && f[SkipStop].Bool?
  {
    RestoreClaim(f[InputPath].s, f[ArchiveSha].s, f[AgeFingerprint].s, dsn, f[Redis].s, f[ArtifactsDir].s,
                 f[ContainerPath].s, f[Project].s, f[ComposeFile].s, f[PgMajor].s, f[AlembicHead].s, f[SkipStop].b)
  }

  predicate RollbackShape(f: map<Key, Json>) {
    && Timestamp in f && SnapshotDir in f && ManifestSha in f && Redis in f && ArtifactsDir in f && ContainerPath in f
    && Project in f && ComposeFile in f && PgMajor in f && Dsn in f
    && forall k | k in f ::
         || k.Timestamp? || k.SnapshotDir? || k.ManifestSha? || k.Redis? || k.ArtifactsDir? || k.ContainerPath?
         || k.Project? || k.ComposeFile? || k.PgMajor? || k.Dsn?
  }

  predicate RollbackFilled(f: map<Key, Json>)
    requires RollbackShape(f)
  {
    && Filled(f[Timestamp]) && Filled(f[SnapshotDir]) && Filled(f[ManifestSha]) && Filled(f[Redis])
    && Filled(f[ArtifactsDir]) && Filled(f[ContainerPath]) && Filled(f[Project]) && Filled(f[ComposeFile])
    && Filled(f[PgMajor])
  }

  predicate Absolute(s: string) {
    s != "" && s[0] == '/'
  }

  function ParseRollback(j: Json, lib: Lib): (r: Option<RollbackClaim>) {
    if !j.Obj? then None
    else
      var f := j.fields;
      if !RollbackShape(f) || !RollbackFilled(f) then None
      else if !Hex64(f[ManifestSha].s) then None
      else if !Absolute(f[SnapshotDir].s) || !Absolute(f[ArtifactsDir].s) then None
      else if !Absolute(f[ContainerPath].s) || !Absolute(f[ComposeFile].s) then None
      else if !PositiveNumeral(f[PgMajor].s) || !StampFormat(f[Timestamp].s, lib) then None
      else
        var dsn := ParseDsn(f[Dsn]);
        if dsn.None? || !PositiveNumeral(dsn.value[Port]) then None else Some(ReadRollback(f, dsn.value))
  }

  function ReadRollback(f: map<Key, Json>, dsn: map<Key, string>): (c: RollbackClaim)
    requires RollbackShape(f) && RollbackFilled(f)
  {
    RollbackClaim(f[Timestamp].s, f[SnapshotDir].s, f[ManifestSha].s, dsn, f[Redis].s, f[ArtifactsDir].s,
                  f[ContainerPath].s, f[Project].s, f[ComposeFile].s, f[PgMajor].s)
  }

  // ----- which claims parse -----

  predicate DsnOk(dsn: map<Key, string>) {
    dsn.Keys == DSN_KEYS && forall k | k in dsn :: dsn[k] != ""
  }

  predicate BackupOk(c: BackupClaim) {
    c.outputPath != "" && c.ageFingerprint != ""
  }

  predicate RestoreOk(c: RestoreClaim) {
    && c.inputPath != "" && c.archiveSha != "" && c.ageFingerprint != "" && c.redis != "" && c.artifactsDir != ""
    && c.containerPath != "" && c.project != "" && c.composeFile != "" && c.pgMajor != "" && c.alembicHead != ""
    && DsnOk(c.dsn)
  }

  predicate RollbackOk(c: RollbackClaim, lib: Lib) {
    && StampFormat(c.timestamp, lib) && Absolute(c.snapshotDir) && Hex64(c.manifestSha) && c.redis != ""
    && Absolute(c.artifactsDir) && Absolute(c.containerPath) && c.project != "" && Absolute(c.composeFile)
    && PositiveNumeral(c.pgMajor) && DsnOk(c.dsn) && PositiveNumeral(c.dsn[Port])
  }

  lemma DsnRoundTrip(dsn: map<Key, string>)
    ensures ParseDsn(DsnJson(dsn)) == if DsnOk(dsn) then Some(dsn) else None
  {
    var f := DsnJson(dsn).fields;
    assert f.Keys == dsn.Keys;
    assert forall k | k in f :: Filled(f[k]) <==> dsn[k] != "";
    assert (map k | k in f :: f[k].s) == dsn;
  }

  /** A written backup claim reads back without its binding, if it reads back at all. */
  lemma BackupRoundTrip(c: BackupClaim)
    ensures ParseBackup(Obj(WrittenBackup(c))) == if BackupOk(c) then Some(c.(binding := None)) else None
  {
  }

  predicate HoldsRestore(f: map<Key, Json>, c: RestoreClaim) {
    && RestoreShape(f) && f[InputPath] == Str(c.inputPath) && f[ArchiveSha] == Str(c.archiveSha)
    && f[AgeFingerprint] == Str(c.ageFingerprint) && f[Redis] == Str(c.redis) && f[ArtifactsDir] == Str(c.artifactsDir)
    && f[ContainerPath] == Str(c.containerPath) && f[Project] == Str(c.project) && f[ComposeFile] == Str(c.composeFile)
    && f[PgMajor] == Str(c.pgMajor) && f[AlembicHead] == Str(c.alembicHead) && f[Dsn] == DsnJson(c.dsn)
    && f[SkipStop] == Bool(c.skipStop)
  }

  lemma RestoreKeys(c: RestoreClaim)
    ensures RestoreShape(RestoreJson(c))
  {
  }

  lemma RestoreHeld(c: RestoreClaim)
    ensures HoldsRestore(RestoreJson(c), c)
  {
    RestoreKeys(c);
  }

  lemma HeldRestoreFilled(f: map<Key, Json>, c: RestoreClaim)
    requires HoldsRestore(f, c)
    ensures RestoreOk(c) <==> RestoreFilled(f) && DsnOk(c.dsn)
  {
    HeldSourceFilled(f, c);
    HeldTargetFilled(f, c);
  }

  lemma HeldSourceFilled(f: map<Key, Json>, c: RestoreClaim)
    requires HoldsRestore(f, c)
    ensures RestoreSourceFilled(f)
            <==> c.inputPath != "" && c.archiveSha != "" && c.ageFingerprint != "" && c.redis != "" && c.artifactsDir != ""
  {
  }

  lemma HeldTargetFilled(f: map<Key, Json>, c: RestoreClaim)
    requires HoldsRestore(f, c)
    ensures RestoreTargetFilled(f)
            <==> c.containerPath != "" && c.project != "" && c.composeFile != "" && c.pgMajor != "" && c.alembicHead != ""
  {
  }

  lemma HeldRestoreReads(f: map<Key, Json>, c: RestoreClaim)
    requires HoldsRestore(f, c) && RestoreFilled(f)
    ensures ReadRestore(f, c.dsn) == c
  {
  }

  lemma HeldRestoreParses(f: map<Key, Json>, c: RestoreClaim)
    requires HoldsRestore(f, c)
    ensures ParseRestore(Obj(f)) == if RestoreOk(c) then Some(c) else None
  {
    DsnRoundTrip(c.dsn);
    HeldRestoreFilled(f, c);
    if RestoreFilled(f) { HeldRestoreReads(f, c); }
  }

  lemma RestoreRoundTrip(c: RestoreClaim)
    ensures ParseRestore(Obj(RestoreJson(c))) == if RestoreOk(c) then Some(c) else None
  {
    RestoreHeld(c);
    HeldRestoreParses(RestoreJson(c), c);
  }

  predicate HoldsRollback(f: map<Key, Json>, c: RollbackClaim) {
    && RollbackShape(f) && f[Timestamp] == Str(c.timestamp) && f[SnapshotDir] == Str(c.snapshotDir)
    && f[ManifestSha] == Str(c.manifestSha) && f[Redis] == Str(c.redis) && f[ArtifactsDir] == Str(c.artifactsDir)
    && f[ContainerPath] == Str(c.containerPath) && f[Project] == Str(c.project) && f[ComposeFile] == Str(c.composeFile)
    && f[PgMajor] == Str(c.pgMajor) && f[Dsn] == DsnJson(c.dsn)
  }

  lemma RollbackKeys(c: RollbackClaim)
    ensures RollbackShape(RollbackJson(c))
  {
  }

  lemma RollbackHeld(c: RollbackClaim)
    ensures HoldsRollback(RollbackJson(c), c)
  {
    RollbackKeys(c);
  }

  lemma HeldRollbackReads(f: map<Key, Json>, c: RollbackClaim)
    requires HoldsRollback(f, c) && RollbackFilled(f)
    ensures ReadRollback(f, c.dsn) == c
  {
  }

  lemma HeldRollbackFilled(f: map<Key, Json>, c: RollbackClaim, lib: Lib)
    requires HoldsRollback(f, c) && RollbackOk(c, lib)
    ensures RollbackFilled(f)
  {
  }

  lemma HeldRollbackParses(f: map<Key, Json>, c: RollbackClaim, lib: Lib)
    requires HoldsRollback(f, c)
    ensures ParseRollback(Obj(f), lib) == if RollbackOk(c, lib) then Some(c) else None
  {
    DsnRoundTrip(c.dsn);
    if RollbackFilled(f) { HeldRollbackReads(f, c); }
    if RollbackOk(c, lib) { HeldRollbackFilled(f, c, lib); }
  }

  lemma RollbackRoundTrip(c: RollbackClaim, lib: Lib)
    ensures ParseRollback(Obj(RollbackJson(c)), lib) == if RollbackOk(c, lib) then Some(c) else None
  {
    RollbackHeld(c);
    HeldRollbackParses(RollbackJson(c), c, lib);
  }

  // ----- what is signed and what is written -----

  function Texts(ss: seq<string>): (r: Json) {
    List(seq(|ss|, i requires 0 <= i < |ss| => Str(ss[i])))
  }

  function OptionalText(o: Option<string>): (r: Json) {
    match o case None => Null case Some(t) => Str(t)
  }

  /** The eight fields common to both. */
  function CommonFields(r: Record): (f: map<Key, Json>) {
    map[Subcommands := Texts(r.subcommands), ApprovalId := Str(r.approvalId), Decider := Str(r.decider),
        DrillKind := Str(r.drillKind), ExpiresAt := Str(r.expiresAt), Reason := Str(r.reason),
        SignedAt := Str(r.signedAt), TargetHost := OptionalText(r.target)]
  }

  function WithClaim(f: map<Key, Json>, k: Key, claim: Option<map<Key, Json>>): (r: map<Key, Json>)
    ensures forall x :: x in f ==> x in r && (x != k ==> r[x] == f[x])
    ensures forall x :: x in r ==> x in f || x == k
  {
    if claim.Some? then f[k := Obj(claim.value)] else f
  }

  function MapOption<A, B>(o: Option<A>, f: A -> B): (r: Option<B>) {
    match o case None => None case Some(x) => Some(f(x))
  }

  function FrontFields(r: Record): (f: map<Key, Json>) {
    CommonFields(r)[Signature := Str(r.signature)]
  }

  function AddClaims(f: map<Key, Json>, backup: Option<map<Key, Json>>, restore: Option<map<Key, Json>>,
                     rollback: Option<map<Key, Json>>): (r: map<Key, Json>)
  {
    WithClaim(WithClaim(WithClaim(f, Backup, backup), Restore, restore), Rollback, rollback)
  }

  function Payload(r: Record): (j: Json) {
    Obj(AddClaims(CommonFields(r), MapOption(r.backup, SignedBackup), MapOption(r.restore, RestoreJson),
                  MapOption(r.rollback, RollbackJson)))
  }

  function FileFields(r: Record): (f: map<Key, Json>) {
    AddClaims(FrontFields(r), MapOption(r.backup, WrittenBackup), MapOption(r.restore, RestoreJson),
              MapOption(r.rollback, RollbackJson))
  }

  lemma TextsInjective(a: seq<string>, b: seq<string>)
    requires Texts(a) == Texts(b)
    ensures a == b
  {
    forall i | 0 <= i < |a| ensures i < |b| && a[i] == b[i] {
      assert Texts(a).items[i] == Str(a[i]) && Texts(b).items[i] == Str(b[i]);
    }
    assert |Texts(a).items| == |a| && |Texts(b).items| == |b|;
  }

  lemma DsnInjective(a: map<Key, string>, b: map<Key, string>)
    requires DsnJson(a) == DsnJson(b)
    ensures a == b
  {
    assert DsnJson(a).fields.Keys == a.Keys && DsnJson(b).fields.Keys == b.Keys;
    forall k | k in a ensures a[k] == b[k] {
      assert DsnJson(a).fields[k] == Str(a[k]) && DsnJson(b).fields[k] == Str(b[k]);
    }
  }

  lemma BackupInjective(a: BackupClaim, b: BackupClaim)
    requires SignedBackup(a) == SignedBackup(b)
    ensures a == b
  {
    var f, g := SignedBackup(a), SignedBackup(b);
    assert f[OutputPath] == g[OutputPath] && f[AgeFingerprint] == g[AgeFingerprint] && f[IncludeSops] == g[IncludeSops];
    assert f[Overwrite] == g[Overwrite] && f[SkipStop] == g[SkipStop];
    assert Binding in f <==> a.binding.Some?;
    assert Binding in g <==> b.binding.Some?;
    if Binding in f { assert f[Binding] == g[Binding]; }
  }

  lemma RestoreInjective(a: RestoreClaim, b: RestoreClaim)
    requires RestoreJson(a) == RestoreJson(b)
    ensures a == b
  {
    RestoreHeld(a);
    RestoreHeld(b);
    DsnInjective(a.dsn, b.dsn);
  }

  lemma RollbackInjective(a: RollbackClaim, b: RollbackClaim)
    requires RollbackJson(a) == RollbackJson(b)
    ensures a == b
  {
    RollbackHeld(a);
    RollbackHeld(b);
    DsnInjective(a.dsn, b.dsn);
  }

  predicate IsClaim(k: Key) {
    k.Backup? || k.Restore? || k.Rollback?
  }

  lemma AddClaimsFrame(f: map<Key, Json>, b: Option<map<Key, Json>>, s: Option<map<Key, Json>>, k: Option<map<Key, Json>>)
    ensures var g := AddClaims(f, b, s, k);
            && (forall x | x in f && !IsClaim(x) :: x in g && g[x] == f[x])
            && (forall x | x in g :: x in f || IsClaim(x))
  {
  }

  function ClaimJson(c: Option<map<Key, Json>>): (j: Json) {
    if c.Some? then Obj(c.value) else Null
  }

  function Get(f: map<Key, Json>, k: Key): (j: Json) {
    if k in f then f[k] else Null
  }

  lemma AddClaimsAt(f: map<Key, Json>, b: Option<map<Key, Json>>, s: Option<map<Key, Json>>, k: Option<map<Key, Json>>)
    requires forall x | x in f :: !IsClaim(x)
    ensures var g := AddClaims(f, b, s, k);
            Get(g, Backup) == ClaimJson(b) && Get(g, Restore) == ClaimJson(s) && Get(g, Rollback) == ClaimJson(k)
  {
  }

  lemma NoClaimsInFront(r: Record)
    ensures forall x | x in CommonFields(r) :: !IsClaim(x)
    ensures forall x | x in FrontFields(r) :: !IsClaim(x)
  {
  }

  lemma PayloadClaims(r: Record)
    ensures var f := Payload(r).fields;
            && Get(f, Backup) == ClaimJson(MapOption(r.backup, SignedBackup))
            && Get(f, Restore) == ClaimJson(MapOption(r.restore, RestoreJson))
            && Get(f, Rollback) == ClaimJson(MapOption(r.rollback, RollbackJson))
            && (forall k | k in CommonFields(r) :: k in f && f[k] == CommonFields(r)[k])
  {
    NoClaimsInFront(r);
    AddClaimsAt(CommonFields(r), MapOption(r.backup, SignedBackup), MapOption(r.restore, RestoreJson),
                MapOption(r.rollback, RollbackJson));
    AddClaimsFrame(CommonFields(r), MapOption(r.backup, SignedBackup), MapOption(r.restore, RestoreJson),
                   MapOption(r.rollback, RollbackJson));
  }

  lemma ClaimsInjective(a: Record, b: Record)
    requires Payload(a) == Payload(b)
    ensures a.backup == b.backup && a.restore == b.restore && a.rollback == b.rollback
  {
    PayloadClaims(a);
    PayloadClaims(b);
    if a.backup.Some? { BackupInjective(a.backup.value, b.backup.value); }
    if a.restore.Some? { RestoreInjective(a.restore.value, b.restore.value); }
    if a.rollback.Some? { RollbackInjective(a.rollback.value, b.rollback.value); }
  }

  lemma CommonInjective(a: Record, b: Record)
    requires CommonFields(a) == CommonFields(b)
    ensures a.approvalId == b.approvalId && a.decider == b.decider && a.reason == b.reason && a.signedAt == b.signedAt
    ensures a.expiresAt == b.expiresAt && a.drillKind == b.drillKind && a.subcommands == b.subcommands
    ensures a.target == b.target
  {
    var f, g := CommonFields(a), CommonFields(b);
    assert f[Subcommands] == g[Subcommands] && f[ApprovalId] == g[ApprovalId] && f[Decider] == g[Decider];
    assert f[DrillKind] == g[DrillKind] && f[ExpiresAt] == g[ExpiresAt] && f[Reason] == g[Reason];
    assert f[SignedAt] == g[SignedAt] && f[TargetHost] == g[TargetHost];
    TextsInjective(a.subcommands, b.subcommands);
  }

  lemma PayloadCommon(a: Record, b: Record)
    requires Payload(a) == Payload(b)
    ensures CommonFields(a) == CommonFields(b)
  {
    PayloadClaims(a);
    PayloadClaims(b);
    assert CommonFields(a).Keys == CommonFields(b).Keys;
  }

  /** The signed payload covers every field: equal payloads mean equal records up to the signature. */
  lemma PayloadCoversRecord(a: Record, b: Record)
    requires Payload(a) == Payload(b)
    ensures a.(signature := "") == b.(signature := "")
  {
    ClaimsInjective(a, b);
    PayloadCommon(a, b);
    CommonInjective(a, b);
  }

  // ----- loading -----

  datatype Refusal =
    | IdMalformed | NotFound | RecordMalformed | IdMismatch | DatetimeInvalid | ReasonMalformed | SignatureMalformed
    | SignedInFuture | Expired | TtlExceeded | SubcommandNotAllowed | DrillKindMismatch | TargetHostMismatch
    | BackupClaimRequired | BackupClaimMismatch | RestoreClaimRequired | RestoreClaimMismatch
    | RollbackClaimRequired | RollbackClaimMismatch | VerifyKeyUnusable | SignatureInvalid

  datatype Loading = Loaded(record: Record) | Refused(why: Refusal)

  predicate HasRequired(f: map<Key, Json>) {
    && ApprovalId in f && Decider in f && Reason in f && SignedAt in f && ExpiresAt in f && DrillKind in f
    && Subcommands in f && Signature in f
  }

  predicate Allowed(k: Key) {
    || k.ApprovalId? || k.Decider? || k.Reason? || k.SignedAt? || k.ExpiresAt? || k.DrillKind? || k.Subcommands?
    || k.Signature? || k.TargetHost? || k.Backup? || k.Restore? || k.Rollback?
  }

  predicate TextOk(f: map<Key, Json>, id: string, lib: Lib)
    requires HasRequired(f)
  {
    && f[SignedAt].Str? && TimeFormat(f[SignedAt].s, lib) && f[ExpiresAt].Str? && TimeFormat(f[ExpiresAt].s, lib)
    && f[Reason].Str? && ReasonFormat(f[Reason].s) && Filled(f[Decider]) && Filled(f[DrillKind])
    && f[Subcommands].List? && (forall i | i in f[Subcommands].items :: Filled(i))
    && (Get(f, TargetHost) == Null || Get(f, TargetHost).Str?)
    && f[Signature].Str? && lib.shaped(f[Signature].s)
    && f[ApprovalId] == Str(id)
  }

  /** The scalar fields, in the order the loader looks at them. */
  function ScalarRefusal(f: map<Key, Json>, id: string, lib: Lib): (r: Option<Refusal>)
    requires HasRequired(f)
    ensures r.None? <==> TextOk(f, id, lib)
  {
    if f[ApprovalId] != Str(id) then Some(IdMismatch)
    else if !f[SignedAt].Str? || !TimeFormat(f[SignedAt].s, lib) then Some(DatetimeInvalid)
    else if !f[ExpiresAt].Str? || !TimeFormat(f[ExpiresAt].s, lib) then Some(DatetimeInvalid)
    else if !f[Reason].Str? || !ReasonFormat(f[Reason].s) then Some(ReasonMalformed)
    else if !Filled(f[Decider]) || !Filled(f[DrillKind]) then Some(RecordMalformed)
    else if !f[Subcommands].List? || exists i | i in f[Subcommands].items :: !Filled(i) then Some(RecordMalformed)
    else if Get(f, TargetHost) != Null && !Get(f, TargetHost).Str? then Some(RecordMalformed)
    else if !f[Signature].Str? || !lib.shaped(f[Signature].s) then Some(SignatureMalformed)
    else None
  }

  /** A claim that is present must parse. */
  function ClaimAt<C>(j: Json, parsed: Option<C>): (r: Option<Option<C>>) {
    if j == Null then Some(None) else if parsed.None? then None else Some(parsed)
  }

  function ReadTexts(items: seq<Json>): (r: seq<string>)
    requires forall i | i in items :: Filled(i)
  {
    seq(|items|, i requires 0 <= i < |items| => assert items[i] in items; assert Filled(items[i]); items[i].s)
  }

  /** The record, once the scalar fields have passed and the claims have been parsed. */
  function Assemble(f: map<Key, Json>, id: string, backup: Option<Option<BackupClaim>>,
                    restore: Option<Option<RestoreClaim>>, rollback: Option<Option<RollbackClaim>>, lib: Lib): (r: Loading)
    requires HasRequired(f) && TextOk(f, id, lib)
  {
    if backup.None? || restore.None? || rollback.None? then Refused(RecordMalformed)
    else
      var target := Get(f, TargetHost);
      Loaded(Record(id, f[Decider].s, f[Reason].s, f[SignedAt].s, f[ExpiresAt].s, f[DrillKind].s,
                    ReadTexts(f[Subcommands].items), if target == Null then None else Some(target.s), f[Signature].s,
                    backup.value, restore.value, rollback.value))
  }

  function BackupAt(f: map<Key, Json>): (r: Option<Option<BackupClaim>>) {
    ClaimAt(Get(f, Backup), ParseBackup(Get(f, Backup)))
  }

  function RestoreAt(f: map<Key, Json>): (r: Option<Option<RestoreClaim>>) {
    ClaimAt(Get(f, Restore), ParseRestore(Get(f, Restore)))
  }

  function RollbackAt(f: map<Key, Json>, lib: Lib): (r: Option<Option<RollbackClaim>>) {
    ClaimAt(Get(f, Rollback), ParseRollback(Get(f, Rollback), lib))
  }

  function LoadFields(f: map<Key, Json>, id: string, lib: Lib): (r: Loading) {
    if !HasRequired(f) || exists k | k in f :: !Allowed(k) then Refused(RecordMalformed)
    else
      var refusal := ScalarRefusal(f, id, lib);
      if refusal.Some? then Refused(refusal.value)
      else Assemble(f, id, BackupAt(f), RestoreAt(f), RollbackAt(f, lib), lib)
  }

  /** `file` is the text of the record file, if there is one. */
  function Load(id: string, file: Option<string>, lib: Lib): (r: Loading) {
    if !IdFormat(id) then Refused(IdMalformed)
    else match file
      case None => Refused(NotFound)
      case Some(text) =>
        match lib.load(text)
        case Some(Obj(f)) => LoadFields(f, id, lib)
        case _ => Refused(RecordMalformed)
  }

  // ----- issuing -----

  datatype Options = Options(
    approvalId: string, decider: string, reason: string, drillKind: string, subcommands: seq<string>,
    target: Option<string>, signedAt: int, expiresAt: int,
    backup: Option<BackupClaim>, restore: Option<RestoreClaim>, rollback: Option<RollbackClaim>)

  datatype IssueRefusal =
    | BadId | BadReason | DrillMismatch | TargetRequired | Inversion | TtlTooLong | RollbackFieldMissing
    | BackupRequired | RestoreRequired | RollbackRequired | KeyUnusable

  const MIGRATION := {"backup", "migrate", "restore", "restore-rollback"}

  function DrillAllows(kind: string): (r: Option<set<string>>) {
    if kind in {"host_migration_mac_vps", "host_migration_linux_vps", "host_migration_vps_vps"} then Some(MIGRATION)
    else if kind == "backup_only" then Some({"backup"})
    else if kind == "restore_only" then Some({"restore", "restore-rollback"})
    else if kind == "age_rotate" then Some({"age-rotate"})
    else if kind == "freeze_only" then Some({"freeze"})
    else if kind == "thaw_only" then Some({"thaw"})
    else if kind == "secret_revoke" then Some({"secret-revoke"})
    else None
  }

  const DESTRUCTIVE := {"backup", "restore", "restore-rollback", "migrate", "freeze", "thaw", "age-rotate", "secret-revoke"}

  /** One subcommand, allowed by the drill kind, with a target where it needs one. */
  function SubcommandRefusal(o: Options): (r: Option<IssueRefusal>) {
    if |o.subcommands| != 1 || DrillAllows(o.drillKind).None? then Some(DrillMismatch)
    else
      var sub := o.subcommands[0];
      if sub !in DrillAllows(o.drillKind).value || sub !in DESTRUCTIVE then Some(DrillMismatch)
      else if sub == "migrate" && (o.target.None? || o.target.value == "") then Some(TargetRequired)
      else None
  }

  /** The claim the subcommand needs. */
  function IssueClaimRefusal(o: Options, lib: Lib): (r: Option<IssueRefusal>)
    requires |o.subcommands| == 1
  {
    var sub := o.subcommands[0];
    if sub == "restore-rollback" && o.rollback.Some?
       && ParseRollback(Obj(RollbackJson(o.rollback.value)), lib).None? then Some(RollbackFieldMissing)
    else if sub == "backup" && o.backup.None? then Some(BackupRequired)
    else if sub == "restore" && o.restore.None? then Some(RestoreRequired)
    else if sub == "restore-rollback" && o.rollback.None? then Some(RollbackRequired)
    else None
  }

  /** The checks before anything is signed, in the issuer's order. */
  function IssueRefusalOf(o: Options, keyUsable: bool, lib: Lib): (r: Option<IssueRefusal>) {
    if !IdFormat(o.approvalId) then Some(BadId)
    else if !ReasonFormat(o.reason) then Some(BadReason)
    else if SubcommandRefusal(o).Some? then SubcommandRefusal(o)
    else if o.signedAt >= o.expiresAt then Some(Inversion)
    else if o.expiresAt - o.signedAt > MAX_TTL then Some(TtlTooLong)
    else if IssueClaimRefusal(o, lib).Some? then IssueClaimRefusal(o, lib)
    else if !keyUsable then Some(KeyUnusable)
    else None
  }

  function Unsigned(o: Options, lib: Lib): (r: Record) {
    Record(o.approvalId, o.decider, o.reason, lib.formatTime(o.signedAt), lib.formatTime(o.expiresAt), o.drillKind,
           o.subcommands, o.target, "", o.backup, o.restore, o.rollback)
  }

  function Issued(o: Options, lib: Lib): (r: Record) {
    Unsigned(o, lib).(signature := lib.sign(Payload(Unsigned(o, lib))))
  }

  // ----- verifying -----

  /** What the caller asserts about the operation. */
  datatype Request = Request(
    subcommand: string, target: Option<string>,
    backup: Option<BackupClaim>, restore: Option<RestoreClaim>, rollback: Option<RollbackClaim>)

  function Strip(s: string): (r: string) {
    Checksums.StripLeft(Checksums.StripRight(s))
  }

  function WindowRefusal(r: Record, now: int, lib: Lib): (x: Option<Refusal>) {
    var signed, expires := lib.parseTime(r.signedAt), lib.parseTime(r.expiresAt);
    if signed.None? || expires.None? then Some(DatetimeInvalid)
    else if signed.value > now + CLOCK_SKEW then Some(SignedInFuture)
    else if expires.value <= now then Some(Expired)
    else if expires.value - signed.value > MAX_TTL then Some(TtlExceeded)
    else None
  }

  function ScopeRefusal(r: Record, q: Request): (x: Option<Refusal>) {
    if q.subcommand !in r.subcommands then Some(SubcommandNotAllowed)
    else if DrillAllows(r.drillKind).None? || exists s | s in r.subcommands :: s !in DrillAllows(r.drillKind).value
      then Some(DrillKindMismatch)
    else if q.target.None? then None
    else
      var asked, granted := Strip(q.target.value), if r.target.Some? then Strip(r.target.value) else "";
      if asked == "" || granted == "" || asked != granted then Some(TargetHostMismatch) else None
  }

  /** The backup comparison leaves the runtime binding aside; the backup itself checks that. */
  function ClaimRefusal(r: Record, q: Request): (x: Option<Refusal>) {
    if q.subcommand == "backup" then
      if q.backup.None? || r.backup.None? then Some(BackupClaimRequired)
      else if q.backup.value.(binding := None) != r.backup.value.(binding := None) then Some(BackupClaimMismatch)
      else None
    else if q.subcommand == "restore" then
      if q.restore.None? || r.restore.None? then Some(RestoreClaimRequired)
      else if q.restore != r.restore then Some(RestoreClaimMismatch)
      else None
    else if q.subcommand == "restore-rollback" then
      if q.rollback.None? || r.rollback.None? then Some(RollbackClaimRequired)
      else if q.rollback != r.rollback then Some(RollbackClaimMismatch)
      else None
    else None
  }

  function VerifyLoaded(r: Record, q: Request, now: int, keyUsable: bool, lib: Lib): (x: Option<Refusal>) {
    if WindowRefusal(r, now, lib).Some? then WindowRefusal(r, now, lib)
    else if ScopeRefusal(r, q).Some? then ScopeRefusal(r, q)
    else if ClaimRefusal(r, q).Some? then ClaimRefusal(r, q)
    else if !keyUsable then Some(VerifyKeyUnusable)
    else if !lib.check(Payload(r), r.signature) then Some(SignatureInvalid)
    else None
  }

  /** The verdict: None is "verified". */
  function Verify(id: string, q: Request, file: Option<string>, now: int, keyUsable: bool, lib: Lib): (x: Option<Refusal>) {
    match Load(id, file, lib)
    case Refused(why) => Some(why)
    case Loaded(r) => VerifyLoaded(r, q, now, keyUsable, lib)
  }

  // ----- the round trip -----

  /** The written claims and the decider are acceptable to the loader. */
  predicate Loadable(o: Options, lib: Lib) {
    && o.decider != ""
    && (o.backup.Some? ==> BackupOk(o.backup.value))
    && (o.restore.Some? ==> RestoreOk(o.restore.value))
    && (o.rollback.Some? ==> RollbackOk(o.rollback.value, lib))
  }

  function Unbound(b: Option<BackupClaim>): (r: Option<BackupClaim>) {
    match b case None => None case Some(c) => Some(c.(binding := None))
  }

  lemma FileClaims(r: Record)
    ensures var f := FileFields(r);
            && Get(f, Backup) == ClaimJson(MapOption(r.backup, WrittenBackup))
            && Get(f, Restore) == ClaimJson(MapOption(r.restore, RestoreJson))
            && Get(f, Rollback) == ClaimJson(MapOption(r.rollback, RollbackJson))
  {
    NoClaimsInFront(r);
    AddClaimsAt(FrontFields(r), MapOption(r.backup, WrittenBackup), MapOption(r.restore, RestoreJson),
                MapOption(r.rollback, RollbackJson));
  }

  predicate HoldsClaims(f: map<Key, Json>, r: Record, lib: Lib) {
    && BackupAt(f)
       == (if r.backup.Some? && !BackupOk(r.backup.value) then None else Some(Unbound(r.backup)))
    && RestoreAt(f)
       == (if r.restore.Some? && !RestoreOk(r.restore.value) then None else Some(r.restore))
    && RollbackAt(f, lib)
       == (if r.rollback.Some? && !RollbackOk(r.rollback.value, lib) then None else Some(r.rollback))
  }

  lemma BackupClaimLoads(j: Json, c: Option<BackupClaim>)
    requires j == ClaimJson(MapOption(c, WrittenBackup))
    ensures ClaimAt(j, ParseBackup(j)) == if c.Some? && !BackupOk(c.value) then None else Some(Unbound(c))
  {
    if c.Some? { BackupRoundTrip(c.value); }
  }

  lemma RestoreClaimLoads(j: Json, c: Option<RestoreClaim>)
    requires j == ClaimJson(MapOption(c, RestoreJson))
    ensures ClaimAt(j, ParseRestore(j)) == if c.Some? && !RestoreOk(c.value) then None else Some(c)
  {
    if c.Some? { RestoreRoundTrip(c.value); }
  }

  lemma RollbackClaimLoads(j: Json, c: Option<RollbackClaim>, lib: Lib)
    requires j == ClaimJson(MapOption(c, RollbackJson))
    ensures ClaimAt(j, ParseRollback(j, lib)) == if c.Some? && !RollbackOk(c.value, lib) then None else Some(c)
  {
    if c.Some? { RollbackRoundTrip(c.value, lib); }
  }

  lemma WrittenClaimsLoad(r: Record, lib: Lib)
    ensures HoldsClaims(FileFields(r), r, lib)
  {
    FileClaims(r);
    var f := FileFields(r);
    BackupClaimLoads(Get(f, Backup), r.backup);
    RestoreClaimLoads(Get(f, Restore), r.restore);
    RollbackClaimLoads(Get(f, Rollback), r.rollback, lib);
  }

  predicate HoldsScalars(f: map<Key, Json>, r: Record) {
    && HasRequired(f) && f[ApprovalId] == Str(r.approvalId)
    && f[Decider] == Str(r.decider) && f[Reason] == Str(r.reason) && f[SignedAt] == Str(r.signedAt)
    && f[ExpiresAt] == Str(r.expiresAt) && f[DrillKind] == Str(r.drillKind) && f[Signature] == Str(r.signature)
    && Get(f, TargetHost) == OptionalText(r.target)
    && f[Subcommands] == Texts(r.subcommands)
    && forall k | k in f :: Allowed(k)
  }

  lemma FrontScalars(r: Record)
    ensures HoldsScalars(FrontFields(r), r) && TargetHost in FrontFields(r)
  {
  }

  lemma ScalarsCarried(f: map<Key, Json>, g: map<Key, Json>, r: Record)
    requires HoldsScalars(f, r) && TargetHost in f
    requires (forall x | x in f && !IsClaim(x) :: x in g && g[x] == f[x]) && forall x | x in g :: x in f || IsClaim(x)
    ensures HoldsScalars(g, r)
  {
  }

  lemma WrittenScalars(r: Record)
    ensures HoldsScalars(FileFields(r), r)
  {
    FrontScalars(r);
    ScalarsCarriedOver(r);
  }

  lemma ScalarsCarriedOver(r: Record)
    requires HoldsScalars(FrontFields(r), r) && TargetHost in FrontFields(r)
    ensures HoldsScalars(FileFields(r), r)
  {
    AddClaimsFrame(FrontFields(r), MapOption(r.backup, WrittenBackup), MapOption(r.restore, RestoreJson),
                   MapOption(r.rollback, RollbackJson));
    ScalarsCarried(FrontFields(r), FileFields(r), r);
  }

  lemma TextsRead(ss: seq<string>)
    requires forall s | s in ss :: s != ""
    ensures forall i | i in Texts(ss).items :: Filled(i)
    ensures ReadTexts(Texts(ss).items) == ss
  {
    var items := Texts(ss).items;
    forall i | i in items ensures Filled(i) {
      var k :| 0 <= k < |ss| && items[k] == i;
      assert ss[k] in ss;
    }
  }

  /** What the loader demands of the fields the issuer controls. */
  predicate WellFormed(r: Record, lib: Lib) {
    && TimeFormat(r.signedAt, lib) && TimeFormat(r.expiresAt, lib) && ReasonFormat(r.reason)
    && r.drillKind != "" && (forall s | s in r.subcommands :: s != "")
    && lib.shaped(r.signature)
  }

  predicate ClaimsOk(r: Record, lib: Lib) {
    && (r.backup.Some? ==> BackupOk(r.backup.value))
    && (r.restore.Some? ==> RestoreOk(r.restore.value))
    && (r.rollback.Some? ==> RollbackOk(r.rollback.value, lib))
  }

  lemma ScalarsPass(f: map<Key, Json>, r: Record, lib: Lib)
    requires WellFormed(r, lib) && HoldsScalars(f, r)
    ensures ScalarRefusal(f, r.approvalId, lib) == if r.decider != "" then None else Some(RecordMalformed)
  {
    TextsRead(r.subcommands);
  }

  lemma AssembledBack(f: map<Key, Json>, r: Record, lib: Lib, b: Option<Option<BackupClaim>>,
                      s: Option<Option<RestoreClaim>>, k: Option<Option<RollbackClaim>>)
    requires WellFormed(r, lib) && HoldsScalars(f, r) && TextOk(f, r.approvalId, lib)
    ensures Assemble(f, r.approvalId, b, s, k, lib)
         == if b.None? || s.None? || k.None? then Refused(RecordMalformed)
            else Loaded(r.(backup := b.value, restore := s.value, rollback := k.value))
  {
  }

  /** A written record loads exactly if the loader accepts its decider and claims, and loses only the binding. */
  lemma WrittenLoads(r: Record, lib: Lib)
    requires WellFormed(r, lib)
    ensures LoadFields(FileFields(r), r.approvalId, lib)
         == if r.decider != "" && ClaimsOk(r, lib) then Loaded(r.(backup := Unbound(r.backup))) else Refused(RecordMalformed)
  {
    WrittenScalars(r);
    WrittenClaimsLoad(r, lib);
    var f := FileFields(r);
    ScalarsPass(f, r, lib);
    if r.decider != "" {
      AssembledBack(f, r, lib, BackupAt(f), RestoreAt(f), RollbackAt(f, lib));
    }
  }

  /** An issuer that does not refuse was given a known drill kind and a named subcommand. */
  lemma IssuedNames(o: Options, keyUsable: bool, lib: Lib)
    requires IssueRefusalOf(o, keyUsable, lib).None?
    ensures IdFormat(o.approvalId) && ReasonFormat(o.reason) && o.drillKind != ""
    ensures |o.subcommands| == 1 && o.subcommands[0] != ""
  {
    assert DrillAllows("").None?;
    assert "" !in DESTRUCTIVE;
  }

  lemma IssuedWellFormed(o: Options, keyUsable: bool, lib: Lib)
    requires Sound(lib) && IssueRefusalOf(o, keyUsable, lib).None?
    requires Printable(o.signedAt, lib) && Printable(o.expiresAt, lib)
    ensures WellFormed(Issued(o, lib), lib) && IdFormat(o.approvalId)
  {
    IssuedNames(o, keyUsable, lib);
  }

  /** What an issued record's file contains. */
  function FileText(r: Record, lib: Lib): (t: string) {
    lib.dump(Obj(FileFields(r)))
  }

  /** An issued record loads back exactly under `Loadable`, and then equals the issued record up to the binding. */
  lemma IssuedLoads(o: Options, keyUsable: bool, lib: Lib)
    requires Sound(lib) && IssueRefusalOf(o, keyUsable, lib).None?
    requires Printable(o.signedAt, lib) && Printable(o.expiresAt, lib)
    ensures var r := Issued(o, lib);
            Load(o.approvalId, Some(FileText(r, lib)), lib)
            == if Loadable(o, lib) then Loaded(r.(backup := Unbound(r.backup))) else Refused(RecordMalformed)
  {
    var r := Issued(o, lib);
    IssuedWellFormed(o, keyUsable, lib);
    WrittenLoads(r, lib);
    assert lib.load(FileText(r, lib)) == Some(Obj(FileFields(r)));
    assert r.approvalId == o.approvalId;
  }

  lemma PayloadIgnoresSignature(a: Record, s: string)
    ensures Payload(a.(signature := s)) == Payload(a)
  {
  }

  /** The issued signature fits a record exactly if the record is the issued one. */
  lemma SignatureBindsRecord(o: Options, r: Record, lib: Lib)
    requires Sound(lib) && r.signature == Issued(o, lib).signature
    ensures lib.check(Payload(r), r.signature) <==> r == Issued(o, lib)
  {
    var issued := Issued(o, lib);
    PayloadIgnoresSignature(Unsigned(o, lib), issued.signature);
    if Payload(r) == Payload(issued) { PayloadCoversRecord(r, issued); }
  }

  /** Printing to the second never lengthens the life of a record beyond the limit. */
  lemma TruncatedTtl(signed: int, expires: int)
    requires signed < expires && expires - signed <= MAX_TTL
    ensures Truncate(expires) - Truncate(signed) <= MAX_TTL
  {
    assert MAX_TTL == 172_800 * SECOND;
    var s, e := signed / SECOND, expires / SECOND;
    assert Truncate(signed) == s * SECOND && Truncate(expires) == e * SECOND;
    assert e <= s + 172_800;
  }

  lemma IssuedDrill(o: Options, keyUsable: bool, lib: Lib)
    requires IssueRefusalOf(o, keyUsable, lib).None?
    ensures |o.subcommands| == 1 && DrillAllows(o.drillKind).Some? && o.subcommands[0] in DrillAllows(o.drillKind).value
  {
  }

  lemma IssuedScope(o: Options, keyUsable: bool, q: Request, r: Record, lib: Lib)
    requires IssueRefusalOf(o, keyUsable, lib).None? && (q.target.None? || q.target == o.target)
    requires r.subcommands == o.subcommands && r.drillKind == o.drillKind && r.target == o.target
    requires |o.subcommands| == 1 && q.subcommand == o.subcommands[0]
    ensures ScopeRefusal(r, q) == if q.target.Some? && Strip(q.target.value) == "" then Some(TargetHostMismatch) else None
  {
    IssuedDrill(o, keyUsable, lib);
    assert forall s | s in r.subcommands :: s == o.subcommands[0];
  }

  lemma IssuedClaims(o: Options, keyUsable: bool, q: Request, r: Record, lib: Lib)
    requires IssueRefusalOf(o, keyUsable, lib).None? && |o.subcommands| == 1 && q.subcommand == o.subcommands[0]
    requires q.backup == o.backup && q.restore == o.restore && q.rollback == o.rollback
    requires r.backup == Unbound(o.backup) && r.restore == o.restore && r.rollback == o.rollback
    ensures ClaimRefusal(r, q) == None
  {
  }

  lemma IssuedInScope(o: Options, keyUsable: bool, target: Option<string>, r: Record, lib: Lib)
    requires IssueRefusalOf(o, keyUsable, lib).None? && (target.None? || target == o.target)
    requires r.subcommands == o.subcommands && r.drillKind == o.drillKind && r.target == o.target
    requires r.backup == Unbound(o.backup) && r.restore == o.restore && r.rollback == o.rollback
    ensures var q := Request(o.subcommands[0], target, o.backup, o.restore, o.rollback);
            && ScopeRefusal(r, q) == (if target.Some? && Strip(target.value) == "" then Some(TargetHostMismatch) else None)
            && ClaimRefusal(r, q) == None
  {
    IssuedDrill(o, keyUsable, lib);
    var q := Request(o.subcommands[0], target, o.backup, o.restore, o.rollback);
    IssuedScope(o, keyUsable, q, r, lib);
    IssuedClaims(o, keyUsable, q, r, lib);
  }

  lemma IssuedWindow(o: Options, keyUsable: bool, r: Record, now: int, lib: Lib)
    requires IssueRefusalOf(o, keyUsable, lib).None? && Printable(o.signedAt, lib) && Printable(o.expiresAt, lib)
    requires r.signedAt == lib.formatTime(o.signedAt) && r.expiresAt == lib.formatTime(o.expiresAt)
    ensures WindowRefusal(r, now, lib)
         == if Truncate(o.signedAt) > now + CLOCK_SKEW then Some(SignedInFuture)
            else if Truncate(o.expiresAt) <= now then Some(Expired)
            else None
  {
    TruncatedTtl(o.signedAt, o.expiresAt);
  }

  /**
    The round trip: the verdict on an issued record, for its own subcommand, claims and (when asked) target host, at
    any time. It is "verified" exactly if the decider is not empty, the claims parse, the target host is not all
    blanks, no runtime binding was attached to the backup claim, and the time is in the window.
   */
  lemma RoundTripExactly(o: Options, keyUsable: bool, target: Option<string>, now: int, lib: Lib)
    requires Sound(lib) && IssueRefusalOf(o, keyUsable, lib).None?
    requires Printable(o.signedAt, lib) && Printable(o.expiresAt, lib)
    requires target.None? || target == o.target
    ensures var q := Request(o.subcommands[0], target, o.backup, o.restore, o.rollback);
            Verify(o.approvalId, q, Some(FileText(Issued(o, lib), lib)), now, true, lib)
            == if !Loadable(o, lib) then Some(RecordMalformed)
               else if Truncate(o.signedAt) > now + CLOCK_SKEW then Some(SignedInFuture)
               else if Truncate(o.expiresAt) <= now then Some(Expired)
               else if target.Some? && Strip(target.value) == "" then Some(TargetHostMismatch)
               else if o.backup.Some? && o.backup.value.binding.Some? then Some(SignatureInvalid)
               else None
  {
    IssuedLoads(o, keyUsable, lib);
    if Loadable(o, lib) { LoadedVerdict(o, keyUsable, target, now, lib); }
  }

  lemma LoadedVerdict(o: Options, keyUsable: bool, target: Option<string>, now: int, lib: Lib)
    requires Sound(lib) && IssueRefusalOf(o, keyUsable, lib).None?
    requires Printable(o.signedAt, lib) && Printable(o.expiresAt, lib)
    requires target.None? || target == o.target
    ensures var r := Issued(o, lib);
            var q := Request(o.subcommands[0], target, o.backup, o.restore, o.rollback);
            VerifyLoaded(r.(backup := Unbound(r.backup)), q, now, true, lib)
            == if Truncate(o.signedAt) > now + CLOCK_SKEW then Some(SignedInFuture)
               else if Truncate(o.expiresAt) <= now then Some(Expired)
               else if target.Some? && Strip(target.value) == "" then Some(TargetHostMismatch)
               else if o.backup.Some? && o.backup.value.binding.Some? then Some(SignatureInvalid)
               else None
  {
    var issued := Issued(o, lib);
    var r := issued.(backup := Unbound(issued.backup));
    IssuedWindow(o, keyUsable, r, now, lib);
    IssuedInScope(o, keyUsable, target, r, lib);
    SignatureBindsRecord(o, r, lib);
    assert r == issued <==> !(o.backup.Some? && o.backup.value.binding.Some?);
  }

  /** Whatever the file says: a verified record that carries an issued signature is the issued record. */
  lemma VerifiedIsIssued(o: Options, q: Request, id: string, file: Option<string>, now: int, keyUsable: bool, lib: Lib)
    requires Sound(lib) && Verify(id, q, file, now, keyUsable, lib).None?
    requires Load(id, file, lib).record.signature == Issued(o, lib).signature
    ensures Load(id, file, lib).record == Issued(o, lib) && id == o.approvalId && q.subcommand in o.subcommands
  {
    var r := Load(id, file, lib).record;
    LoadedId(id, file, lib);
    VerdictBinds(o, q, r, now, keyUsable, lib);
  }

  lemma VerdictBinds(o: Options, q: Request, r: Record, now: int, keyUsable: bool, lib: Lib)
    requires Sound(lib) && VerifyLoaded(r, q, now, keyUsable, lib).None? && r.signature == Issued(o, lib).signature
    ensures r == Issued(o, lib) && q.subcommand in o.subcommands
  {
    SignatureBindsRecord(o, r, lib);
  }

  lemma LoadedId(id: string, file: Option<string>, lib: Lib)
    requires Load(id, file, lib).Loaded?
    ensures Load(id, file, lib).record.approvalId == id
  {
  }

  // ----- the imperative form -----

  datatype Issue = Written(record: Record) | Rejected(why: IssueRefusal) | Collision | WriteFailed

  /** The file's object, built field by field. */
  method FileObject(record: Record) returns (fields: map<Key, Json>)
    ensures fields == FileFields(record)
  {
    fields := map[ApprovalId := Str(record.approvalId), Decider := Str(record.decider), Reason := Str(record.reason),
                  SignedAt := Str(record.signedAt), ExpiresAt := Str(record.expiresAt),
                  DrillKind := Str(record.drillKind), Subcommands := Texts(record.subcommands),
                  TargetHost := OptionalText(record.target), Signature := Str(record.signature)];
    assert fields == FrontFields(record);
    fields := AttachClaims(fields, record);
  }

  method AttachClaims(front: map<Key, Json>, record: Record) returns (fields: map<Key, Json>)
    ensures fields == AddClaims(front, MapOption(record.backup, WrittenBackup), MapOption(record.restore, RestoreJson),
                                MapOption(record.rollback, RollbackJson))
  {
    fields := AttachClaim(front, Backup, MapOption(record.backup, WrittenBackup));
    fields := AttachClaim(fields, Restore, MapOption(record.restore, RestoreJson));
    fields := AttachClaim(fields, Rollback, MapOption(record.rollback, RollbackJson));
  }

  method AttachClaim(front: map<Key, Json>, key: Key, claim: Option<map<Key, Json>>) returns (fields: map<Key, Json>)
    ensures fields == WithClaim(front, key, claim)
  {
    fields := front;
    if claim.Some? { fields := fields[key := Obj(claim.value)]; }
  }

  /** The file holds a proper prefix of its content, and no other file changed. */
  ghost predicate HoldsPrefix(files: map<string, string>, before: map<string, string>, name: string, content: string) {
    exists k: nat :: k < |content| && files == before[name := content[..k]]
  }

  /** The directory of approval files. */
  class ApprovalStore {
    var files: map<string, string>

    constructor ()
      ensures files == map[]
    {
      files := map[];
    }

    /**
      Exclusive create, then write until nothing remains. `accepted` is what each write takes; a write that takes
      nothing makes the file go away again, unless that fails too.
     */
    method WriteRecord(name: string, content: string, accepted: nat -> int, unlinks: bool) returns (r: Option<bool>)
      modifies this
      ensures r.None? <==> name in old(files)
      ensures r.None? ==> files == old(files)
      ensures r == Some(true) ==> files == old(files)[name := content]
      ensures r == Some(false) ==> exists k: nat :: accepted(k) <= 0
      ensures r == Some(false) ==>
                if unlinks then files == old(files) else HoldsPrefix(files, old(files), name, content)
    {
      if name in files { return None; }
      files := files[name := ""];
      var offset, calls := 0, 0;
      while offset < |content|
        invariant 0 <= offset <= |content| && files == old(files)[name := content[..offset]]
      {
        var n := accepted(calls);
        calls := calls + 1;
        if n <= 0 {
          if unlinks {
            files := files - {name};
            assert files == old(files);
          }
          return Some(false);
        }
        offset := if offset + n < |content| then offset + n else |content|;
        files := files[name := content[..offset]];
      }
      assert content[..offset] == content;
      return Some(true);
    }

    /** Check, build, sign, build the file's object field by field, write. */
    method IssueRecord(o: Options, keyUsable: bool, accepted: nat -> int, unlinks: bool, lib: Lib) returns (r: Issue)
      modifies this
      ensures r.Rejected? <==> IssueRefusalOf(o, keyUsable, lib).Some?
      ensures r.Rejected? ==> Some(r.why) == IssueRefusalOf(o, keyUsable, lib) && files == old(files)
      ensures r.Collision? ==> files == old(files)
      ensures r.Written? ==> r.record == Issued(o, lib)
                             && files == old(files)[o.approvalId + ".signed" := FileText(r.record, lib)]
      ensures r.WriteFailed? ==>
                if unlinks then files == old(files)
                else HoldsPrefix(files, old(files), o.approvalId + ".signed", FileText(Issued(o, lib), lib))
    {
      var refusal := IssueRefusalOf(o, keyUsable, lib);
      if refusal.Some? { return Rejected(refusal.value); }
      var record := Unsigned(o, lib);
      record := record.(signature := lib.sign(Payload(record)));
      var fields := FileObject(record);
      var written := WriteRecord(o.approvalId + ".signed", lib.dump(Obj(fields)), accepted, unlinks);
      match written {
        case None => r := Collision;
        case Some(whole) => r := if whole then Written(record) else WriteFailed;
      }
    }
  }
}
