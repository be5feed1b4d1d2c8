/**
  What the approval gate accepts, exactly, for every record file, request and time: `_load_approval_record` and
  `verify_signed_approval` of scripts/taskhub_signed_approval.py, and what `issue_approval_record` of
  scripts/taskhub_approval_cli.py signs.
 */
module ApprovalVerdict {
  import opened Prelude
  import opened ApprovalRecords

  // ----- drill kinds -----

  /** The subcommands of each drill kind, pair by pair. */
  predicate Permits(kind: string, sub: string) {
    || (kind in {"host_migration_mac_vps", "host_migration_linux_vps", "host_migration_vps_vps"}
        && sub in {"backup", "migrate", "restore", "restore-rollback"})
    || (kind == "backup_only" && sub == "backup")
    || (kind == "restore_only" && sub in {"restore", "restore-rollback"})
    || (kind == "age_rotate" && sub == "age-rotate")
    || (kind == "freeze_only" && sub == "freeze")
    || (kind == "thaw_only" && sub == "thaw")
    || (kind == "secret_revoke" && sub == "secret-revoke")
  }

  lemma DrillExactly(kind: string, sub: string)
    ensures (DrillAllows(kind).Some? && sub in DrillAllows(kind).value) <==> Permits(kind, sub)
    ensures Permits(kind, sub) ==> sub in DESTRUCTIVE
  {
  }

  // ----- issuing -----

  /** The subcommand asked for is the one, is permitted, and names a target where it needs one. */
  predicate SubcommandFits(o: Options) {
    && |o.subcommands| == 1 && Permits(o.drillKind, o.subcommands[0])
    && (o.subcommands[0] == "migrate" ==> o.target.Some? && o.target.value != "")
  }

  /** The claim the subcommand needs is there; a rollback claim must also be well formed. */
  predicate ClaimFits(o: Options, lib: Lib)
    requires |o.subcommands| == 1
  {
    && (o.subcommands[0] == "backup" ==> o.backup.Some?)
    && (o.subcommands[0] == "restore" ==> o.restore.Some?)
    && (o.subcommands[0] == "restore-rollback" ==> o.rollback.Some? && RollbackOk(o.rollback.value, lib))
  }

  /** What the issuer asks for before it signs. */
  predicate Issuable(o: Options, lib: Lib) {
    && IdFormat(o.approvalId) && ReasonFormat(o.reason) && SubcommandFits(o) && ClaimFits(o, lib)
    && o.signedAt < o.expiresAt <= o.signedAt + 172_800_000_000
  }

  lemma SubcommandExactly(o: Options)
    ensures SubcommandRefusal(o).None? <==> SubcommandFits(o)
  {
    if |o.subcommands| == 1 { DrillExactly(o.drillKind, o.subcommands[0]); }
  }

  lemma IssueClaimExactly(o: Options, lib: Lib)
    requires |o.subcommands| == 1
    ensures IssueClaimRefusal(o, lib).None? <==> ClaimFits(o, lib)
  {
    if o.rollback.Some? { RollbackRoundTrip(o.rollback.value, lib); }
  }

  /** The issuer signs exactly if the key is usable and the options meet all of its conditions. */
  lemma IssuesExactly(o: Options, keyUsable: bool, lib: Lib)
    ensures IssueRefusalOf(o, keyUsable, lib).None? <==> Issuable(o, lib) && keyUsable
  {
    SubcommandExactly(o);
    if |o.subcommands| == 1 { IssueClaimExactly(o, lib); }
  }

  /** What a refusal to issue says about the options. */
  predicate IssueMeans(why: IssueRefusal, o: Options, keyUsable: bool, lib: Lib) {
    var asks := (sub: string) => |o.subcommands| == 1 && o.subcommands[0] == sub;
    match why
    case BadId => !IdFormat(o.approvalId)
    case BadReason => !ReasonFormat(o.reason)
    case DrillMismatch => |o.subcommands| != 1 || !Permits(o.drillKind, o.subcommands[0])
    case TargetRequired => asks("migrate") && (o.target.None? || o.target.value == "")
    case Inversion => o.expiresAt <= o.signedAt
    case TtlTooLong => o.expiresAt > o.signedAt + 172_800_000_000
    case RollbackFieldMissing => asks("restore-rollback") && o.rollback.Some? && !RollbackOk(o.rollback.value, lib)
    case BackupRequired => asks("backup") && o.backup.None?
    case RestoreRequired => asks("restore") && o.restore.None?
    case RollbackRequired => asks("restore-rollback") && o.rollback.None?
    case KeyUnusable => !keyUsable && Issuable(o, lib)
  }

  lemma SubcommandMeans(o: Options, keyUsable: bool, lib: Lib)
    requires SubcommandRefusal(o).Some?
    ensures IssueMeans(SubcommandRefusal(o).value, o, keyUsable, lib)
  {
    if |o.subcommands| == 1 { DrillExactly(o.drillKind, o.subcommands[0]); }
  }

  lemma IssueClaimMeans(o: Options, keyUsable: bool, lib: Lib)
    requires |o.subcommands| == 1 && IssueClaimRefusal(o, lib).Some?
    ensures IssueMeans(IssueClaimRefusal(o, lib).value, o, keyUsable, lib)
  {
    if o.rollback.Some? { RollbackRoundTrip(o.rollback.value, lib); }
  }

  /** Every refusal to issue names something that is wrong; the key is looked at last. */
  lemma IssueRefusalTells(o: Options, keyUsable: bool, lib: Lib)
    requires IssueRefusalOf(o, keyUsable, lib).Some?
    ensures IssueMeans(IssueRefusalOf(o, keyUsable, lib).value, o, keyUsable, lib)
  {
    IssuesExactly(o, true, lib);
    if SubcommandRefusal(o).Some? {
      SubcommandMeans(o, keyUsable, lib);
    } else if IssueClaimRefusal(o, lib).Some? {
      IssueClaimMeans(o, keyUsable, lib);
    }
  }

  /** What it signs is what it was given, with the times printed. */
  lemma IssuedIs(o: Options, lib: Lib)
    ensures var r := Issued(o, lib);
            && r.approvalId == o.approvalId && r.decider == o.decider && r.reason == o.reason
            && r.drillKind == o.drillKind && r.subcommands == o.subcommands && r.target == o.target
            && r.signedAt == lib.formatTime(o.signedAt) && r.expiresAt == lib.formatTime(o.expiresAt)
            && r.backup == o.backup && r.restore == o.restore && r.rollback == o.rollback
            && r.signature == lib.sign(Payload(r))
  {
    PayloadIgnoresSignature(Unsigned(o, lib), Issued(o, lib).signature);
  }

  // ----- parsing claims -----

  lemma DsnExactly(j: Json, dsn: map<Key, string>)
    ensures ParseDsn(j) == Some(dsn) <==> DsnOk(dsn) && j == DsnJson(dsn)
  {
    DsnRoundTrip(dsn);
    if ParseDsn(j) == Some(dsn) {
      var f := DsnJson(dsn).fields;
      forall k | k in j.fields ensures k in f && f[k] == j.fields[k] {}
      assert j.fields == f;
    }
  }

  /** The object holds this value at this key, if there is one. */
  predicate Holding(f: map<Key, Json>, value: Key -> Json, k: Key) {
    (k in f <==> value(k) != Null) && (k in f ==> f[k] == value(k))
  }

  lemma SameFields(f: map<Key, Json>, g: map<Key, Json>, value: Key -> Json)
    requires forall k :: Holding(f, value, k)
    requires forall k :: Holding(g, value, k)
    ensures f == g
  {
    forall k ensures k in f <==> k in g { assert Holding(f, value, k) && Holding(g, value, k); }
    forall k | k in f ensures f[k] == g[k] { assert Holding(f, value, k) && Holding(g, value, k); }
  }

  lemma RestoreIs(f: map<Key, Json>, c: RestoreClaim)
    requires HoldsRestore(f, c)
    ensures f == RestoreJson(c)
  {
    RestoreHeld(c);
    var value := (k: Key) => RestoreValue(c, k);
    forall k ensures Holding(f, value, k) { RestoreField(f, c, k); }
    forall k ensures Holding(RestoreJson(c), value, k) { RestoreField(RestoreJson(c), c, k); }
    SameFields(f, RestoreJson(c), value);
  }

  function RestoreValue(c: RestoreClaim, k: Key): (j: Json) {
    match k
    case InputPath => Str(c.inputPath) case ArchiveSha => Str(c.archiveSha) case AgeFingerprint => Str(c.ageFingerprint)
    case Redis => Str(c.redis) case ArtifactsDir => Str(c.artifactsDir) case ContainerPath => Str(c.containerPath)
    case Project => Str(c.project) case ComposeFile => Str(c.composeFile) case PgMajor => Str(c.pgMajor)
    case AlembicHead => Str(c.alembicHead) case Dsn => DsnJson(c.dsn) case SkipStop => Bool(c.skipStop)
    case _ => Null
  }

  lemma RestoreFieldHeld(f: map<Key, Json>, c: RestoreClaim, k: Key)
    requires HoldsRestore(f, c) && RestoreValue(c, k) != Null
    ensures k in f && f[k] == RestoreValue(c, k)
  {
  }

  lemma RestoreFieldKnown(f: map<Key, Json>, c: RestoreClaim, k: Key)
    requires RestoreShape(f) && k in f
    ensures RestoreValue(c, k) != Null
  {
  }

  lemma RestoreField(f: map<Key, Json>, c: RestoreClaim, k: Key)
    requires HoldsRestore(f, c)
    ensures Holding(f, x => RestoreValue(c, x), k)
  {
    if k in f { RestoreFieldKnown(f, c, k); }
    if RestoreValue(c, k) != Null { RestoreFieldHeld(f, c, k); }
  }

  lemma RollbackIs(f: map<Key, Json>, c: RollbackClaim)
    requires HoldsRollback(f, c)
    ensures f == RollbackJson(c)
  {
    RollbackHeld(c);
    var value := (k: Key) => RollbackValue(c, k);
    forall k ensures Holding(f, value, k) { RollbackField(f, c, k); }
    forall k ensures Holding(RollbackJson(c), value, k) { RollbackField(RollbackJson(c), c, k); }
    SameFields(f, RollbackJson(c), value);
  }

  function RollbackValue(c: RollbackClaim, k: Key): (j: Json) {
    match k
    case Timestamp => Str(c.timestamp) case SnapshotDir => Str(c.snapshotDir) case ManifestSha => Str(c.manifestSha)
    case Redis => Str(c.redis) case ArtifactsDir => Str(c.artifactsDir) case ContainerPath => Str(c.containerPath)
    case Project => Str(c.project) case ComposeFile => Str(c.composeFile) case PgMajor => Str(c.pgMajor)
    case Dsn => DsnJson(c.dsn)
    case _ => Null
  }

  lemma RollbackFieldHeld(f: map<Key, Json>, c: RollbackClaim, k: Key)
    requires HoldsRollback(f, c) && RollbackValue(c, k) != Null
    ensures k in f && f[k] == RollbackValue(c, k)
  {
  }

  lemma RollbackFieldKnown(f: map<Key, Json>, c: RollbackClaim, k: Key)
    requires RollbackShape(f) && k in f
    ensures RollbackValue(c, k) != Null
  {
  }

  lemma RollbackField(f: map<Key, Json>, c: RollbackClaim, k: Key)
    requires HoldsRollback(f, c)
    ensures Holding(f, x => RollbackValue(c, x), k)
  {
    if k in f { RollbackFieldKnown(f, c, k); }
    if RollbackValue(c, k) != Null { RollbackFieldHeld(f, c, k); }
  }

  /** What parsed as a restore claim holds its texts. */
  lemma ParsedRestoreHolds(f: map<Key, Json>, c: RestoreClaim)
    requires ParseRestore(Obj(f)) == Some(c)
    ensures HoldsRestore(f, c)
  {
    DsnExactly(f[Dsn], c.dsn);
  }

  lemma ParsedRollbackHolds(f: map<Key, Json>, c: RollbackClaim, lib: Lib)
    requires ParseRollback(Obj(f), lib) == Some(c)
    ensures HoldsRollback(f, c)
  {
    DsnExactly(f[Dsn], c.dsn);
  }

  /** The parser of restore claims is the exact inverse of their printer: no other object parses. */
  lemma ParseRestoreExactly(j: Json, c: RestoreClaim)
    ensures ParseRestore(j) == Some(c) <==> RestoreOk(c) && j == Obj(RestoreJson(c))
  {
    RestoreRoundTrip(c);
    if ParseRestore(j) == Some(c) {
      ParsedRestoreHolds(j.fields, c);
      RestoreIs(j.fields, c);
    }
  }

  lemma ParseRollbackExactly(j: Json, c: RollbackClaim, lib: Lib)
    ensures ParseRollback(j, lib) == Some(c) <==> RollbackOk(c, lib) && j == Obj(RollbackJson(c))
  {
    RollbackRoundTrip(c, lib);
    if ParseRollback(j, lib) == Some(c) {
      ParsedRollbackHolds(j.fields, c, lib);
      RollbackIs(j.fields, c);
    }
  }

  /** A backup claim in a file: with its binding, without one, or with a null one. */
  predicate BackupText(j: Json, c: BackupClaim) {
    && j.Obj? && BackupShape(j.fields)
    && j.fields[OutputPath] == Str(c.outputPath) && j.fields[AgeFingerprint] == Str(c.ageFingerprint)
    && j.fields[IncludeSops] == Bool(c.includeSops) && j.fields[SkipStop] == Bool(c.skipStop)
    && j.fields[Overwrite] == Bool(c.overwrite)
    && Get(j.fields, Binding) == if c.binding.Some? then Str(c.binding.value) else Null
  }

  /** What is signed is such a text; what is written leaves the binding out. */
  lemma BackupHeld(c: BackupClaim)
    ensures BackupText(Obj(SignedBackup(c)), c) && BackupText(Obj(WrittenBackup(c)), c.(binding := None))
  {
  }

  lemma ParseBackupExactly(j: Json, c: BackupClaim)
    ensures ParseBackup(j) == Some(c)
            <==> BackupOk(c) && (c.binding.Some? ==> Hex64(c.binding.value)) && BackupText(j, c)
  {
  }

  /** An admissible id names one file in the approvals directory and no other place. */
  lemma IdIsFileName(id: string)
    requires IdFormat(id)
    ensures id != "" && '/' !in id && '\\' !in id && id[0] != '.' && id[0] != '-'
  {
    forall i | 0 <= i < |id| ensures id[i] != '/' && id[i] != '\\' { assert i == 0 || i >= 1; }
  }

  // ----- loading -----

  /** A claim in the record is in the file, and none in the record is none in the file. */
  ghost predicate ClaimsInFile(f: map<Key, Json>, r: Record, lib: Lib) {
    && (if r.backup.None? then Get(f, Backup) == Null
        else BackupOk(r.backup.value) && (r.backup.value.binding.Some? ==> Hex64(r.backup.value.binding.value))
             && BackupText(Get(f, Backup), r.backup.value))
    && (if r.restore.None? then Get(f, Restore) == Null
        else RestoreOk(r.restore.value) && Get(f, Restore) == Obj(RestoreJson(r.restore.value)))
    && (if r.rollback.None? then Get(f, Rollback) == Null
        else RollbackOk(r.rollback.value, lib) && Get(f, Rollback) == Obj(RollbackJson(r.rollback.value)))
  }

  lemma BackupAtExactly(f: map<Key, Json>, b: Option<BackupClaim>)
    ensures BackupAt(f) == Some(b)
            <==> if b.None? then Get(f, Backup) == Null
                 else BackupOk(b.value) && (b.value.binding.Some? ==> Hex64(b.value.binding.value))
                      && BackupText(Get(f, Backup), b.value)
  {
    if b.Some? { ParseBackupExactly(Get(f, Backup), b.value); }
  }

  lemma RestoreAtExactly(f: map<Key, Json>, c: Option<RestoreClaim>)
    ensures RestoreAt(f) == Some(c)
            <==> if c.None? then Get(f, Restore) == Null
                 else RestoreOk(c.value) && Get(f, Restore) == Obj(RestoreJson(c.value))
  {
    if c.Some? { ParseRestoreExactly(Get(f, Restore), c.value); }
  }

  lemma RollbackAtExactly(f: map<Key, Json>, c: Option<RollbackClaim>, lib: Lib)
    ensures RollbackAt(f, lib) == Some(c)
            <==> if c.None? then Get(f, Rollback) == Null
                 else RollbackOk(c.value, lib) && Get(f, Rollback) == Obj(RollbackJson(c.value))
  {
    if c.Some? { ParseRollbackExactly(Get(f, Rollback), c.value, lib); }
  }

  lemma ClaimsExactly(f: map<Key, Json>, r: Record, lib: Lib)
    ensures (BackupAt(f) == Some(r.backup) && RestoreAt(f) == Some(r.restore) && RollbackAt(f, lib) == Some(r.rollback))
            <==> ClaimsInFile(f, r, lib)
  {
    BackupAtExactly(f, r.backup);
    RestoreAtExactly(f, r.restore);
    RollbackAtExactly(f, r.rollback, lib);
  }

  /** The object holds the scalar fields of the record, in the formats the loader asks for, and no key it does not know. */
  ghost predicate ScalarsInFile(f: map<Key, Json>, r: Record, lib: Lib) {
    HoldsScalars(f, r) && WellFormed(r, lib) && r.decider != ""
  }

  lemma TextsBack(items: seq<Json>, ss: seq<string>)
    requires forall i | i in items :: Filled(i)
    ensures ReadTexts(items) == ss <==> List(items) == Texts(ss)
    ensures forall s | s in ReadTexts(items) :: s != ""
  {
    var read := ReadTexts(items);
    forall i | 0 <= i < |items| ensures items[i] == Str(read[i]) && read[i] != "" { assert items[i] in items; }
    if read == ss {
      assert items == Texts(ss).items;
    }
    if List(items) == Texts(ss) {
      assert items == Texts(ss).items;
      assert read == ss;
    }
  }

  lemma LoadFieldsMeans(f: map<Key, Json>, id: string, r: Record, lib: Lib)
    requires LoadFields(f, id, lib) == Loaded(r)
    ensures HasRequired(f) && (forall k | k in f :: Allowed(k)) && TextOk(f, id, lib)
    ensures BackupAt(f) == Some(r.backup) && RestoreAt(f) == Some(r.restore) && RollbackAt(f, lib) == Some(r.rollback)
    ensures Assemble(f, id, Some(r.backup), Some(r.restore), Some(r.rollback), lib) == Loaded(r)
  {
  }

  lemma AssembledHolds(f: map<Key, Json>, id: string, r: Record, lib: Lib)
    requires HasRequired(f) && (forall k | k in f :: Allowed(k)) && TextOk(f, id, lib)
    requires Assemble(f, id, Some(r.backup), Some(r.restore), Some(r.rollback), lib) == Loaded(r)
    ensures r.approvalId == id && ScalarsInFile(f, r, lib)
  {
    TextsBack(f[Subcommands].items, r.subcommands);
  }

  /** A loaded record is what its file says. */
  lemma LoadedInFile(f: map<Key, Json>, id: string, r: Record, lib: Lib)
    requires LoadFields(f, id, lib) == Loaded(r)
    ensures r.approvalId == id && ScalarsInFile(f, r, lib) && ClaimsInFile(f, r, lib)
  {
    LoadFieldsMeans(f, id, r, lib);
    AssembledHolds(f, id, r, lib);
    ClaimsExactly(f, r, lib);
  }

  lemma InFileLoads(f: map<Key, Json>, r: Record, lib: Lib)
    requires ScalarsInFile(f, r, lib) && ClaimsInFile(f, r, lib)
    ensures LoadFields(f, r.approvalId, lib) == Loaded(r)
  {
    ClaimsExactly(f, r, lib);
    ScalarsPass(f, r, lib);
    AssembledAs(f, r, lib);
    LoadFieldsIs(f, r.approvalId, r.backup, r.restore, r.rollback, lib);
  }

  lemma LoadFieldsIs(f: map<Key, Json>, id: string, b: Option<BackupClaim>, s: Option<RestoreClaim>,
                     k: Option<RollbackClaim>, lib: Lib)
    requires HasRequired(f) && (forall x | x in f :: Allowed(x)) && ScalarRefusal(f, id, lib).None?
    requires BackupAt(f) == Some(b) && RestoreAt(f) == Some(s) && RollbackAt(f, lib) == Some(k)
    ensures LoadFields(f, id, lib) == Assemble(f, id, Some(b), Some(s), Some(k), lib)
  {
  }

  lemma AssembledAs(f: map<Key, Json>, r: Record, lib: Lib)
    requires HoldsScalars(f, r) && TextOk(f, r.approvalId, lib) && forall s | s in r.subcommands :: s != ""
    ensures Assemble(f, r.approvalId, Some(r.backup), Some(r.restore), Some(r.rollback), lib) == Loaded(r)
  {
    TextsRead(r.subcommands);
  }

  /** A file loads as a record exactly if it is an object that holds that record, field by field. */
  lemma LoadsExactly(id: string, file: Option<string>, r: Record, lib: Lib)
    ensures Load(id, file, lib) == Loaded(r)
            <==> && IdFormat(id) && r.approvalId == id && file.Some?
                 && lib.load(file.value).Some? && lib.load(file.value).value.Obj?
                 && ScalarsInFile(lib.load(file.value).value.fields, r, lib)
                 && ClaimsInFile(lib.load(file.value).value.fields, r, lib)
  {
    if IdFormat(id) && file.Some? && lib.load(file.value).Some? && lib.load(file.value).value.Obj? {
      var f := lib.load(file.value).value.fields;
      if LoadFields(f, id, lib) == Loaded(r) { LoadedInFile(f, id, r, lib); }
      if r.approvalId == id && ScalarsInFile(f, r, lib) && ClaimsInFile(f, r, lib) { InFileLoads(f, r, lib); }
    }
  }

  // ----- the verdict -----

  /** Signed not more than five minutes ahead, not expired, and with a life of at most 48 hours. */
  predicate InWindow(r: Record, now: int, lib: Lib) {
    && lib.parseTime(r.signedAt).Some? && lib.parseTime(r.expiresAt).Some?
    && lib.parseTime(r.signedAt).value <= now + 300_000_000
    && now < lib.parseTime(r.expiresAt).value <= lib.parseTime(r.signedAt).value + 172_800_000_000
  }

  /** The subcommand is among the record's, all of which its drill kind permits; an asked target is the record's. */
  predicate InScope(r: Record, q: Request) {
    && q.subcommand in r.subcommands && (forall s | s in r.subcommands :: Permits(r.drillKind, s))
    && (q.target.Some? ==> r.target.Some? && Strip(q.target.value) == Strip(r.target.value) != "")
  }

  /** The claim asserted for the subcommand is the recorded one; a backup's runtime binding is not compared. */
  predicate ClaimAsserted(r: Record, q: Request) {
    && (q.subcommand == "backup" ==>
          && q.backup.Some? && r.backup.Some? && q.backup.value.outputPath == r.backup.value.outputPath
          && q.backup.value.includeSops == r.backup.value.includeSops && q.backup.value.skipStop == r.backup.value.skipStop
          && q.backup.value.overwrite == r.backup.value.overwrite
          && q.backup.value.ageFingerprint == r.backup.value.ageFingerprint)
    && (q.subcommand == "restore" ==> q.restore.Some? && r.restore == q.restore)
    && (q.subcommand == "restore-rollback" ==> q.rollback.Some? && r.rollback == q.rollback)
  }

  lemma WindowExactly(r: Record, now: int, lib: Lib)
    ensures WindowRefusal(r, now, lib).None? <==> InWindow(r, now, lib)
  {
  }

  lemma ScopeExactly(r: Record, q: Request)
    ensures ScopeRefusal(r, q).None? <==> InScope(r, q)
  {
    forall s ensures (DrillAllows(r.drillKind).Some? && s in DrillAllows(r.drillKind).value) <==> Permits(r.drillKind, s) {
      DrillExactly(r.drillKind, s);
    }
    TargetExactly(r, q);
  }

  lemma TargetExactly(r: Record, q: Request)
    ensures q.target.Some? ==>
              (var asked, granted := Strip(q.target.value), if r.target.Some? then Strip(r.target.value) else "";
               !(asked == "" || granted == "" || asked != granted)
               <==> r.target.Some? && Strip(q.target.value) == Strip(r.target.value) != "")
  {
  }

  lemma AssertedExactly(r: Record, q: Request)
    ensures ClaimRefusal(r, q).None? <==> ClaimAsserted(r, q)
  {
  }

  /**
    The gate accepts exactly if the file holds a record of that id, the time is in its window, subcommand, drill kind and
    target are in its scope, the asserted claim is the recorded one, and the signature fits the whole record.
   */
  lemma VerifiedExactly(id: string, q: Request, file: Option<string>, now: int, keyUsable: bool, lib: Lib)
    ensures Verify(id, q, file, now, keyUsable, lib).None?
            <==> && Load(id, file, lib).Loaded? && keyUsable
                 && var r := Load(id, file, lib).record;
                    && InWindow(r, now, lib) && InScope(r, q) && ClaimAsserted(r, q) && lib.check(Payload(r), r.signature)
  {
    if Load(id, file, lib).Loaded? {
      var r := Load(id, file, lib).record;
      WindowExactly(r, now, lib);
      ScopeExactly(r, q);
      AssertedExactly(r, q);
    }
  }

  /** What a refusal of a loaded record says about it. */
  ghost predicate Means(why: Refusal, r: Record, q: Request, now: int, keyUsable: bool, lib: Lib) {
    var signed, expires := lib.parseTime(r.signedAt), lib.parseTime(r.expiresAt);
    match why
    case DatetimeInvalid => signed.None? || expires.None?
    case SignedInFuture => signed.Some? && signed.value > now + 300_000_000
    case Expired => expires.Some? && expires.value <= now
    case TtlExceeded => signed.Some? && expires.Some? && expires.value - signed.value > 172_800_000_000
    case SubcommandNotAllowed => q.subcommand !in r.subcommands
    case DrillKindMismatch => exists s :: s in r.subcommands && !Permits(r.drillKind, s)
    case TargetHostMismatch =>
      q.target.Some? && (r.target.Some? && Strip(r.target.value) != "" ==> Strip(q.target.value) != Strip(r.target.value))
    case BackupClaimRequired => q.subcommand == "backup" && (q.backup.None? || r.backup.None?)
    case BackupClaimMismatch => q.subcommand == "backup" && q.backup.Some? && r.backup.Some? && !ClaimAsserted(r, q)
    case RestoreClaimRequired => q.subcommand == "restore" && (q.restore.None? || r.restore.None?)
    case RestoreClaimMismatch => q.subcommand == "restore" && q.restore.Some? && r.restore.Some? && q.restore != r.restore
    case RollbackClaimRequired => q.subcommand == "restore-rollback" && (q.rollback.None? || r.rollback.None?)
    case RollbackClaimMismatch =>
      q.subcommand == "restore-rollback" && q.rollback.Some? && r.rollback.Some? && q.rollback != r.rollback
    case VerifyKeyUnusable => !keyUsable && InWindow(r, now, lib) && InScope(r, q) && ClaimAsserted(r, q)
    case SignatureInvalid =>
      && keyUsable && InWindow(r, now, lib) && InScope(r, q) && ClaimAsserted(r, q)
      && !lib.check(Payload(r), r.signature)
    case _ => false
  }

  lemma WindowMeans(r: Record, q: Request, now: int, keyUsable: bool, lib: Lib)
    requires WindowRefusal(r, now, lib).Some?
    ensures Means(WindowRefusal(r, now, lib).value, r, q, now, keyUsable, lib)
  {
  }

  lemma ScopeMeans(r: Record, q: Request, now: int, keyUsable: bool, lib: Lib)
    requires ScopeRefusal(r, q).Some?
    ensures Means(ScopeRefusal(r, q).value, r, q, now, keyUsable, lib)
  {
    forall s ensures (DrillAllows(r.drillKind).Some? && s in DrillAllows(r.drillKind).value) <==> Permits(r.drillKind, s) {
      DrillExactly(r.drillKind, s);
    }
    TargetExactly(r, q);
    assert q.subcommand in r.subcommands && DrillAllows(r.drillKind).None? ==> !Permits(r.drillKind, q.subcommand);
  }

  lemma ClaimMeans(r: Record, q: Request, now: int, keyUsable: bool, lib: Lib)
    requires ClaimRefusal(r, q).Some?
    ensures Means(ClaimRefusal(r, q).value, r, q, now, keyUsable, lib)
  {
    AssertedExactly(r, q);
  }

  /** Every refusal of a loaded record names something that is wrong with it; a bad signature is looked at last. */
  lemma RefusalTells(r: Record, q: Request, now: int, keyUsable: bool, lib: Lib)
    requires VerifyLoaded(r, q, now, keyUsable, lib).Some?
    ensures Means(VerifyLoaded(r, q, now, keyUsable, lib).value, r, q, now, keyUsable, lib)
  {
    if WindowRefusal(r, now, lib).Some? {
      WindowMeans(r, q, now, keyUsable, lib);
    } else if ScopeRefusal(r, q).Some? {
      ScopeMeans(r, q, now, keyUsable, lib);
    } else if ClaimRefusal(r, q).Some? {
      ClaimMeans(r, q, now, keyUsable, lib);
    } else {
      WindowExactly(r, now, lib);
      ScopeExactly(r, q);
      AssertedExactly(r, q);
    }
  }

  /** A verified record with an issued signature asserts nothing but what was issued. */
  lemma VerifiedAssertsIssued(o: Options, q: Request, id: string, file: Option<string>, now: int, keyUsable: bool, lib: Lib)
    requires Sound(lib) && Verify(id, q, file, now, keyUsable, lib).None?
    requires Load(id, file, lib).record.signature == Issued(o, lib).signature
    ensures q.subcommand in o.subcommands && Permits(o.drillKind, q.subcommand)
    ensures ClaimAsserted(Issued(o, lib), q) && InScope(Issued(o, lib), q) && InWindow(Issued(o, lib), now, lib)
  {
    VerifiedIsIssued(o, q, id, file, now, keyUsable, lib);
    VerifiedExactly(id, q, file, now, keyUsable, lib);
    IssuedIs(o, lib);
  }
}
