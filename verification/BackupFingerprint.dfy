/**
  The runtime-binding fingerprint of a backup: computed from the live source when an approval is issued, and again
  from private copies when the approved backup runs. Sources: `compute_full_backup_runtime_binding_fingerprint` and
  `run_backup` in scripts/taskhub_backup_orchestrator.py, `_cmd_backup_phase_5` in scripts/taskhub_admin.py.

  Other processes may rewrite the source paths between any two steps, so every read has a result of its own: an
  `IssueView` or `RunView` lists what each read of the live source happened to deliver, without any relation
  between them. The staging directory is private to the run.
 */
module BackupFingerprint {
  import opened Prelude
  import opened ArtifactTree

  datatype Lib = Lib(sha: Bytes -> string, manifest: Manifest -> string, context: Context -> string)

  ghost predicate Ideal(lib: Lib) {
    Injective(lib.sha) && Injective(lib.manifest) && Injective(lib.context)
  }

  datatype Read = Content(bytes: Bytes) | Missing | Unreadable

  datatype Options = Options(project: string, envFile: bool, includeSops: bool, pgUser: string, pgDb: string)

  /** Resolved paths, each resolved when it is used. */
  datatype Realpaths = Realpaths(compose: string, projectDir: string, artifacts: string, sops: string, env: string)

  /** What the fingerprint covers. */
  datatype Context = Context(
    project: string,
    composePath: string,
    composeSha: string,
    projectDir: string,
    artifactsPath: string,
    artifactsSha: string,
    sopsPath: Option<string>,
    sopsSha: Option<string>,
    envPath: Option<string>,
    envSha: Option<string>,
    configSha: string,
    pgUser: string,
    pgDb: string)

  function BindingContext(o: Options, at: Realpaths, composeSha: string, sopsSha: Option<string>, configSha: string,
                          envSha: Option<string>, artifactsSha: string): (c: Context)
  {
    var sopsIncluded := o.includeSops && sopsSha.Some?;
    Context(o.project, at.compose, composeSha, at.projectDir, at.artifacts, artifactsSha,
            if sopsIncluded then Some(at.sops) else None,
            if sopsIncluded then sopsSha else None,
            if o.envFile then Some(at.env) else None,
            if o.envFile then envSha else None,
            configSha, o.pgUser, o.pgDb)
  }

  // ----- issue -----

  /** What the reads at issue time delivered; `config` is the digest of the rendered compose configuration. */
  datatype IssueView = IssueView(compose: Read, sops: Read, env: Read, config: Option<string>, tree: Node, at: Realpaths)

  ghost function IssueFingerprint(o: Options, v: IssueView, lib: Lib): (r: Option<string>)
    requires v.tree.Dir?
  {
    if !v.compose.Content? then None
    else if o.includeSops && v.sops.Unreadable? then None
    else if o.envFile && !v.env.Content? then None
    else if v.config.None? then None
    else
      var m := SourceManifest(v.tree, lib.sha);
      if m.Failed? then None
      else
        var sops := if o.includeSops && v.sops.Content? then Some(lib.sha(v.sops.bytes)) else None;
        var env := if o.envFile then Some(lib.sha(v.env.bytes)) else None;
        Some(lib.context(BindingContext(o, v.at, lib.sha(v.compose.bytes), sops, v.config.value, env,
                                        lib.manifest(Manifest(m.items, m.total)))))
  }

  /** The encrypted environment file as fingerprinted at issue time. */
  function IssuedEnv(o: Options, v: IssueView): (r: Option<Bytes>) {
    if o.includeSops && v.sops.Content? then Some(v.sops.bytes) else None
  }

  // ----- the run -----

  /**
    What the run meets: reads at lock time, how many bytes each single write of a verified copy took, the artifacts
    tree the copy walk saw, the rendered configuration, and whether the unrelated steps succeed.
   */
  datatype RunView = RunView(
    compose: Read, composeTaken: nat,
    env: Read, envTaken: nat,
    sops: Read, sopsTaken: nat,
    tree: Node,
    config: Option<string>,
    at: Realpaths,
    servicesStop: bool,
    dumpsSucceed: bool)

  datatype Reason =
    | ClaimLegacy
    | ComposeUnreadable
    | ComposeCopyTampered
    | EnvUnreadable
    | PayloadUnreadable
    | ServiceStopFailed
    | ArtifactsRefused(failure: Failure)
    | StagingTampered
    | PayloadTampered
    | ConfigFailed
    | ClaimMismatch
    | DumpFailed
    | NotAllowed(path: string)

  datatype Result = Refused(reason: Reason) | Completed(files: map<string, Bytes>, env: Option<Bytes>)

  /** What a single write leaves in a fresh file. */
  function Taken(bytes: Bytes, n: nat): (r: Bytes) {
    if n < |bytes| then bytes[..n] else bytes
  }

  /** A file in the private directory and the digest recorded when it was made. */
  datatype VerifiedCopy = VerifiedCopy(bytes: Bytes, recorded: string)

  predicate Genuine(c: VerifiedCopy, lib: Lib) {
    lib.sha(c.bytes) == c.recorded
  }

  /** `files` holds exactly the regular files of the tree. */
  ghost predicate HoldsFilesOf(files: map<string, Bytes>, t: Node) {
    forall p ::
      && (p in files <==> Find(t, p).Some? && Find(t, p).value.File?)
      && (p in files ==> files[p] == Find(t, p).value.bytes)
  }

  /** `walk` meets exactly the regular files of the tree. */
  ghost predicate WalksFiles(walk: seq<string>, t: Node) {
    forall p :: p in walk <==> Find(t, p).Some? && Find(t, p).value.File?
  }

  /** The redeem-mode fingerprint, from verified copies and the staged manifest only. */
  function RedeemFingerprint(o: Options, at: Realpaths, compose: Bytes, sops: Option<VerifiedCopy>,
                             env: Option<Bytes>, configSha: string, staged: Manifest, lib: Lib): (r: string)
  {
    lib.context(BindingContext(o, at, lib.sha(compose),
                               if sops.Some? then Some(lib.sha(sops.value.bytes)) else None,
                               configSha,
                               if env.Some? then Some(lib.sha(env.value)) else None,
                               lib.manifest(staged)))
  }

  /** The copying loop of the archive step over the regular files of the staging directory, in walk order. */
  method CopyArtifactsWithAllowlist(staged: Node, walk: seq<string>, allowed: string -> bool)
    returns (refused: Option<string>, files: map<string, Bytes>)
    requires WalksFiles(walk, staged)
    ensures refused.None? <==> forall p | p in walk :: allowed(p)
    ensures refused.Some? ==> refused.value in walk && !allowed(refused.value)
    ensures refused.None? ==> HoldsFilesOf(files, staged)
  {
    files := map[];
    var i := 0;
    while i < |walk|
      invariant 0 <= i <= |walk|
      invariant forall p | p in walk[..i] :: allowed(p)
      invariant forall p :: p in files <==> p in walk[..i]
      invariant forall p | p in files :: p in walk && files[p] == Find(staged, p).value.bytes
    {
      assert walk[i] in walk && walk[..i + 1] == walk[..i] + [walk[i]];
      if !allowed(walk[i]) { return Some(walk[i]), files; }
      files := files[walk[i] := Find(staged, walk[i]).value.bytes];
      i := i + 1;
    }
    assert walk[..i] == walk;
    refused := None;
  }

  /** Lock-time copies of the three single files. */
  datatype Bound = Bound(compose: Bytes, env: Option<Bytes>, sops: Option<VerifiedCopy>)

  /** What the lock-time reads must deliver for the copies to be bound. */
  predicate LockReadsOk(o: Options, v: RunView) {
    && v.compose.Content? && v.composeTaken >= |v.compose.bytes|
    && (o.envFile ==> v.env.Content?) && (o.includeSops ==> !v.sops.Unreadable?)
  }

  function BoundOf(o: Options, v: RunView, lib: Lib): (b: Bound)
    requires v.compose.Content?
  {
    Bound(v.compose.bytes,
          if o.envFile && v.env.Content? then Some(Taken(v.env.bytes, v.envTaken)) else None,
          if o.includeSops && v.sops.Content?
          then Some(VerifiedCopy(Taken(v.sops.bytes, v.sopsTaken), lib.sha(v.sops.bytes))) else None)
  }

  /** The condition of each refusal at lock time, given that the checks before it pass. */
  predicate LockRefusal(why: Reason, o: Options, v: RunView) {
    match why
    case ComposeUnreadable => !v.compose.Content?
    case ComposeCopyTampered => v.compose.Content? && v.composeTaken < |v.compose.bytes|
    case EnvUnreadable => v.compose.Content? && v.composeTaken >= |v.compose.bytes| && o.envFile && !v.env.Content?
    case PayloadUnreadable =>
      && v.compose.Content? && v.composeTaken >= |v.compose.bytes| && (o.envFile ==> v.env.Content?)
      && o.includeSops && v.sops.Unreadable?
    case _ => false
  }

  ghost predicate StagingRefusal(why: Reason, tree: Node, sha: Bytes -> string)
    requires tree.Dir?
  {
    match why
    case ArtifactsRefused(failure) => SourceManifest(tree, sha) == Failed(failure)
    case StagingTampered =>
      var source := SourceManifest(tree, sha);
      source.Walked? && StagedManifest(Copied(tree), source.items, sha).None?
    case _ => false
  }

  predicate RedeemRefusal(why: Reason, claim: string, v: RunView, expected: string, sops: Option<VerifiedCopy>, lib: Lib) {
    match why
    case PayloadTampered => sops.Some? && !Genuine(sops.value, lib)
    case ConfigFailed => (sops.Some? ==> Genuine(sops.value, lib)) && v.config.None?
    case ClaimMismatch => (sops.Some? ==> Genuine(sops.value, lib)) && v.config.Some? && claim != expected
    case _ => false
  }

  method BindVerifiedCopies(o: Options, v: RunView, lib: Lib) returns (refused: Option<Reason>, b: Bound)
    ensures refused.None? <==> LockReadsOk(o, v)
    ensures refused.None? ==> b == BoundOf(o, v, lib)
    ensures refused.Some? ==> LockRefusal(refused.value, o, v)
  {
    b := Bound([], None, None);
    if !v.compose.Content? { return Some(ComposeUnreadable), b; }
    b := b.(compose := Taken(v.compose.bytes, v.composeTaken));
    if b.compose != v.compose.bytes { return Some(ComposeCopyTampered), b; }
    if o.envFile {
      if !v.env.Content? { return Some(EnvUnreadable), b; }
      b := b.(env := Some(Taken(v.env.bytes, v.envTaken)));
    }
    if o.includeSops {
      match v.sops {
        case Missing =>
        case Unreadable => return Some(PayloadUnreadable), b;
        case Content(bytes) =>
          b := b.(sops := Some(VerifiedCopy(Taken(bytes, v.sopsTaken), lib.sha(bytes))));
      }
    }
    refused := None;
  }

  /** The checks on staging, verified copies and fingerprint that stand between a claim and its archive. */
  ghost predicate Passed(o: Options, claim: Option<string>, v: RunView, lib: Lib)
    requires v.tree.Dir?
  {
    var source := SourceManifest(v.tree, lib.sha);
    && v.compose.Content? && (o.envFile ==> v.env.Content?)
    && source.Walked? && v.config.Some?
    && var b, m := BoundOf(o, v, lib), StagedManifest(Copied(v.tree), source.items, lib.sha);
       && m.Some? && (b.sops.Some? ==> Genuine(b.sops.value, lib))
       && claim == Some(RedeemFingerprint(o, v.at, b.compose, b.sops, b.env, v.config.value, m.value, lib))
  }

  /** Staging went through and the redeem step refused for that reason. */
  ghost predicate RedeemRefused(why: Reason, o: Options, claim: string, v: RunView, lib: Lib)
    requires v.tree.Dir?
  {
    var source := SourceManifest(v.tree, lib.sha);
    && v.compose.Content? && source.Walked?
    && var b, m := BoundOf(o, v, lib), StagedManifest(Copied(v.tree), source.items, lib.sha);
       && m.Some?
       && var config := if v.config.Some? then v.config.value else "";
          var expected := RedeemFingerprint(o, v.at, b.compose, b.sops, b.env, config, m.value, lib);
          RedeemRefusal(why, claim, v, expected, b.sops, lib)
  }

  /** The environment file in the archive: the verified copy made under the lock. */
  function ArchivedEnv(o: Options, v: RunView): (r: Option<Bytes>) {
    if o.includeSops && v.sops.Content? then Some(Taken(v.sops.bytes, v.sopsTaken)) else None
  }

  /** No write of the tree copy takes nothing. */
  ghost predicate NeverStuck(accepted: (string, nat) -> int) {
    forall p, k :: accepted(p, k) > 0
  }

  /** Copy the live tree into staging and take the staged manifest. */
  method StageArtifacts(tree: Node, sha: Bytes -> string, accepted: (string, nat) -> int)
    returns (refused: Option<Reason>, staged: Node, sidecar: seq<Item>, manifest: Manifest)
    requires tree.Dir?
    ensures refused.Some? ==> refused.value.ArtifactsRefused? || refused.value.StagingTampered?
    ensures refused.Some? && NeverStuck(accepted) ==> StagingRefusal(refused.value, tree, sha)
    ensures refused.None? ==> (
              var source := SourceManifest(tree, sha);
              source.Walked? && sidecar == source.items && staged == Copied(tree)
              && StagedManifest(staged, sidecar, sha) == Some(manifest))
    ensures NeverStuck(accepted) ==>
              (refused.None? <==> (var source := SourceManifest(tree, sha);
                                   source.Walked? && StagedManifest(Copied(tree), source.items, sha).Some?))
  {
    sidecar, manifest := [], Manifest([], 0);
    var copier := new StagingCopier();
    var failure;
    failure, staged := copier.Walk(tree, "", sha, accepted);
    if failure.Some? { return Some(ArtifactsRefused(failure.value)), staged, sidecar, manifest; }
    sidecar := copier.items;
    ghost var source := SourceManifest(tree, sha);
    assert source.Walked? && sidecar == [] + source.items == source.items;
    var m := ComputeStagedManifest(staged, sidecar, sha);
    if m.None? { return Some(StagingTampered), staged, sidecar, manifest; }
    refused, manifest := None, m.value;
  }

  /** Recompute the fingerprint from the private copies and compare it with the claim. */
  method RedeemClaim(o: Options, claim: string, v: RunView, lib: Lib, bound: Bound, staged: Node, sidecar: seq<Item>,
                     manifest: Manifest)
    returns (refused: Option<Reason>)
    requires staged.Dir? && StagedManifest(staged, sidecar, lib.sha) == Some(manifest)
    ensures refused.Some? ==> (
              var config := if v.config.Some? then v.config.value else "";
              var expected := RedeemFingerprint(o, v.at, bound.compose, bound.sops, bound.env, config, manifest, lib);
              RedeemRefusal(refused.value, claim, v, expected, bound.sops, lib))
    ensures refused.None? <==>
              && (bound.sops.Some? ==> Genuine(bound.sops.value, lib)) && v.config.Some?
              && claim == RedeemFingerprint(o, v.at, bound.compose, bound.sops, bound.env, v.config.value, manifest, lib)
  {
    if bound.sops.Some? && !Genuine(bound.sops.value, lib) { return Some(PayloadTampered); }
    if v.config.None? { return Some(ConfigFailed); }
    var again := ComputeStagedManifest(staged, sidecar, lib.sha);
    if again != Some(manifest) { assert false; }
    var expected := RedeemFingerprint(o, v.at, bound.compose, bound.sops, bound.env, v.config.value, manifest, lib);
    if claim != expected { return Some(ClaimMismatch); }
    refused := None;
  }

  /**
    The approved backup from the lock-time reads to the archive's contents. `walk` is the order in which the archive
    step meets the staged files; `accepted` is what each write of the tree copy takes.
   */
  method RunApprovedBackup(o: Options, claim: Option<string>, v: RunView, lib: Lib, allowed: string -> bool,
                           accepted: (string, nat) -> int, walk: seq<string>)
    returns (r: Result)
    requires v.tree.Dir? && WalksFiles(walk, Copied(v.tree))
    ensures r.Completed? ==>
              Passed(o, claim, v, lib) && HoldsFilesOf(r.files, Copied(v.tree)) && r.env == ArchivedEnv(o, v)
    ensures NeverStuck(accepted) ==>
              (r.Completed? <==> LockReadsOk(o, v) && v.servicesStop && Passed(o, claim, v, lib) && v.dumpsSucceed
                                 && forall p | p in walk :: allowed(p))
    ensures !LockReadsOk(o, v) ==> r.Refused? && LockRefusal(r.reason, o, v)
    ensures r.Refused? && r.reason.ClaimLegacy? <==> LockReadsOk(o, v) && claim.None?
    ensures r.Refused? && r.reason.ServiceStopFailed? <==> LockReadsOk(o, v) && claim.Some? && !v.servicesStop
    ensures r.Refused? && (r.reason.ArtifactsRefused? || r.reason.StagingTampered?) ==>
              LockReadsOk(o, v) && claim.Some? && v.servicesStop
              && (NeverStuck(accepted) ==> StagingRefusal(r.reason, v.tree, lib.sha))
    ensures r.Refused? && (r.reason.PayloadTampered? || r.reason.ConfigFailed? || r.reason.ClaimMismatch?) ==>
              LockReadsOk(o, v) && claim.Some? && v.servicesStop && RedeemRefused(r.reason, o, claim.value, v, lib)
    ensures r.Refused? && r.reason.DumpFailed? ==> Passed(o, claim, v, lib) && !v.dumpsSucceed
    ensures r.Refused? && r.reason.NotAllowed? ==>
              Passed(o, claim, v, lib) && v.dumpsSucceed && r.reason.path in walk && !allowed(r.reason.path)
  {
    var refused, bound := BindVerifiedCopies(o, v, lib);
    if refused.Some? { return Refused(refused.value); }
    if claim.None? { return Refused(ClaimLegacy); }
    if !v.servicesStop { return Refused(ServiceStopFailed); }
    var staged, sidecar, manifest;
    refused, staged, sidecar, manifest := StageArtifacts(v.tree, lib.sha, accepted);
    if refused.Some? { return Refused(refused.value); }
    refused := RedeemClaim(o, claim.value, v, lib, bound, staged, sidecar, manifest);
    if refused.Some? { return Refused(refused.value); }
    if !v.dumpsSucceed { return Refused(DumpFailed); }
    var atArchive := ComputeStagedManifest(staged, sidecar, lib.sha);
    if atArchive != Some(manifest) { assert false; }
    var denied, files := CopyArtifactsWithAllowlist(staged, walk, allowed);
    if denied.Some? { return Refused(NotAllowed(denied.value)); }
    var env := None;
    if bound.sops.Some? { env := Some(bound.sops.value.bytes); }
    return Completed(files, env);
  }

  // ----- what the fingerprint pins -----

  lemma {:induction false} FindCopied(t: Node, q: string)
    ensures Find(Copied(t), q) == (match Find(t, q) case None => None case Some(x) => Some(Copied(x)))
    decreases t
  {
    if t.Dir? && Head(q) in t.entries && Slash(q) != |q| {
      FindCopied(t.entries[Head(q)], q[Slash(q) + 1..]);
    }
  }

  lemma ItemPinsFile(items: seq<Item>, a: Node, b: Node, sha: Bytes -> string, p: string)
    requires Injective(sha)
    requires ListsAll(items, a, "", (q, x) => SourceItem(q, x, sha))
    requires ListsAll(items, b, "", (q, x) => SourceItem(q, x, sha))
    requires Find(a, p).Some? && Find(a, p).value.File?
    ensures Find(b, p).Some? && Find(b, p).value.File? && Find(b, p).value.bytes == Find(a, p).value.bytes
  {
  }

  /** Equal manifests come from trees with equal files at equal paths. */
  lemma ManifestPinsFile(a: Node, b: Node, sha: Bytes -> string, p: string)
    requires a.Dir? && b.Dir? && WellNamed(a) && WellNamed(b) && Injective(sha)
    requires SourceManifest(a, sha).Walked? && SourceManifest(b, sha).Walked?
    requires SourceManifest(a, sha).items == SourceManifest(b, sha).items
    requires Find(a, p).Some? && Find(a, p).value.File?
    ensures Find(b, p).Some? && Find(b, p).value.File? && Find(b, p).value.bytes == Find(a, p).value.bytes
  {
    SidecarCovers(a, sha);
    SidecarCovers(b, sha);
    ItemPinsFile(SourceManifest(a, sha).items, a, b, sha, p);
  }

  /** The redeemed manifest is the copied tree's own manifest. */
  lemma StagedIsSource(t: Node, sha: Bytes -> string)
    requires t.Dir? && WellNamed(t) && Injective(sha) && SourceManifest(t, sha).Walked?
    requires StagedManifest(Copied(t), SourceManifest(t, sha).items, sha).Some?
    ensures var m := SourceManifest(t, sha);
            StagedManifest(Copied(t), m.items, sha).value == Manifest(m.items, m.total)
  {
    ManifestsAgree(t, sha);
  }

  lemma ManifestPinsFiles(a: Node, b: Node, sha: Bytes -> string, files: map<string, Bytes>)
    requires a.Dir? && b.Dir? && WellNamed(a) && WellNamed(b) && Injective(sha)
    requires SourceManifest(a, sha).Walked? && SourceManifest(b, sha).Walked?
    requires SourceManifest(a, sha).items == SourceManifest(b, sha).items
    requires HoldsFilesOf(files, Copied(b))
    ensures HoldsFilesOf(files, a)
  {
    forall p
      ensures && (p in files <==> Find(a, p).Some? && Find(a, p).value.File?)
              && (p in files ==> files[p] == Find(a, p).value.bytes)
    {
      FindCopied(b, p);
      if p in files { ManifestPinsFile(b, a, sha, p); }
      if Find(a, p).Some? && Find(a, p).value.File? { ManifestPinsFile(a, b, sha, p); }
    }
  }

  /**
    An approved fingerprint pins the archive: whatever the reads at issue time and during the run delivered, if a run
    passes with the issued fingerprint, its archived files are exactly the files fingerprinted at issue time and its
    `env.encrypted` is exactly the one fingerprinted then (absent if it was absent then).
   */
  lemma FingerprintPinsArchive(issued: Options, seen: IssueView, o: Options, v: RunView, lib: Lib, files: map<string, Bytes>)
    requires Ideal(lib) && seen.tree.Dir? && v.tree.Dir? && WellNamed(seen.tree) && WellNamed(v.tree)
    requires IssueFingerprint(issued, seen, lib).Some?
    requires Passed(o, IssueFingerprint(issued, seen, lib), v, lib) && HoldsFilesOf(files, Copied(v.tree))
    ensures HoldsFilesOf(files, seen.tree)
    ensures ArchivedEnv(o, v) == IssuedEnv(issued, seen)
  {
    StagedIsSource(v.tree, lib.sha);
    var m1, m2 := SourceManifest(seen.tree, lib.sha), SourceManifest(v.tree, lib.sha);
    assert lib.manifest(Manifest(m1.items, m1.total)) == lib.manifest(Manifest(m2.items, m2.total));
    ManifestPinsFiles(seen.tree, v.tree, lib.sha, files);
    SopsPinned(issued, seen, o, v, lib);
  }

  lemma SopsPinned(issued: Options, seen: IssueView, o: Options, v: RunView, lib: Lib)
    requires Ideal(lib) && seen.tree.Dir? && v.tree.Dir?
    requires IssueFingerprint(issued, seen, lib).Some?
    requires Passed(o, IssueFingerprint(issued, seen, lib), v, lib)
    ensures ArchivedEnv(o, v) == IssuedEnv(issued, seen)
  {
  }

  /** A fingerprint is issued exactly if every read it needs delivers and the source walk gets through. */
  lemma IssuesExactly(o: Options, v: IssueView, lib: Lib)
    requires v.tree.Dir?
    ensures IssueFingerprint(o, v, lib).Some?
            <==> && v.compose.Content? && v.config.Some? && SourceManifest(v.tree, lib.sha).Walked?
                 && (o.includeSops ==> !v.sops.Unreadable?) && (o.envFile ==> v.env.Content?)
  {
  }

  /** What a fingerprint covers, apart from the artifacts tree: options, resolved paths, and what was read. */
  ghost predicate SameBinding(issued: Options, seen: IssueView, o: Options, v: RunView)
    requires issued.envFile ==> seen.env.Content?
    requires o.envFile ==> v.env.Content?
  {
    && o.project == issued.project && o.pgUser == issued.pgUser && o.pgDb == issued.pgDb
    && v.compose == seen.compose && v.config == seen.config
    && v.at.compose == seen.at.compose && v.at.projectDir == seen.at.projectDir && v.at.artifacts == seen.at.artifacts
    && ArchivedEnv(o, v) == IssuedEnv(issued, seen) && (IssuedEnv(issued, seen).Some? ==> v.at.sops == seen.at.sops)
    && o.envFile == issued.envFile
    && (o.envFile ==> Taken(v.env.bytes, v.envTaken) == seen.env.bytes && v.at.env == seen.at.env)
  }

  /** Equal contexts, read field by field. */
  lemma ContextPins(issued: Options, seen: IssueView, o: Options, v: RunView, manifest: string, staged: string, lib: Lib)
    requires Injective(lib.sha) && seen.compose.Content? && v.compose.Content? && seen.config.Some? && v.config.Some?
    requires (issued.envFile ==> seen.env.Content?) && (o.envFile ==> v.env.Content?)
    requires BoundOf(o, v, lib).sops.Some? ==> Genuine(BoundOf(o, v, lib).sops.value, lib)
    ensures var b := BoundOf(o, v, lib);
            var sops := if issued.includeSops && seen.sops.Content? then Some(lib.sha(seen.sops.bytes)) else None;
            var env := if issued.envFile then Some(lib.sha(seen.env.bytes)) else None;
            BindingContext(issued, seen.at, lib.sha(seen.compose.bytes), sops, seen.config.value, env, manifest)
            == BindingContext(o, v.at, lib.sha(b.compose),
                              if b.sops.Some? then Some(lib.sha(b.sops.value.bytes)) else None, v.config.value,
                              if b.env.Some? then Some(lib.sha(b.env.value)) else None, staged)
            <==> SameBinding(issued, seen, o, v) && manifest == staged
  {
  }

  /** The run's own reads and copies are usable. */
  ghost predicate Usable(o: Options, v: RunView, lib: Lib) {
    && v.compose.Content? && v.config.Some? && (o.envFile ==> v.env.Content?)
    && (BoundOf(o, v, lib).sops.Some? ==> Genuine(BoundOf(o, v, lib).sops.value, lib))
  }

  /** The fingerprint the run computes for the tree it staged. */
  ghost function RunFingerprint(o: Options, v: RunView, m: Manifest, lib: Lib): (r: string)
    requires v.compose.Content? && v.config.Some?
  {
    var b := BoundOf(o, v, lib);
    RedeemFingerprint(o, v.at, b.compose, b.sops, b.env, v.config.value, m, lib)
  }

  lemma PassedMeans(o: Options, claim: Option<string>, v: RunView, lib: Lib)
    requires v.tree.Dir? && WellNamed(v.tree) && Injective(lib.sha)
    ensures var m := SourceManifest(v.tree, lib.sha);
            Passed(o, claim, v, lib)
            <==> Usable(o, v, lib) && m.Walked? && Steady(v.tree)
                 && claim == Some(RunFingerprint(o, v, Manifest(m.items, m.total), lib))
  {
    if SourceManifest(v.tree, lib.sha).Walked? { ManifestsAgree(v.tree, lib.sha); }
  }

  /** An issued fingerprint is the one a run computes exactly if the trees' manifests and the bindings agree. */
  lemma FingerprintsAgree(issued: Options, seen: IssueView, o: Options, v: RunView, m: Manifest, n: Manifest, lib: Lib)
    requires Ideal(lib) && seen.tree.Dir? && IssueFingerprint(issued, seen, lib).Some? && Usable(o, v, lib)
    requires SourceManifest(seen.tree, lib.sha) == Walked(m.items, m.total)
    ensures (issued.envFile ==> seen.env.Content?)
            && (IssueFingerprint(issued, seen, lib) == Some(RunFingerprint(o, v, n, lib))
                <==> SameBinding(issued, seen, o, v) && m == n)
  {
    IssuesExactly(issued, seen, lib);
    ContextPins(issued, seen, o, v, lib.manifest(m), lib.manifest(n), lib);
  }

  /**
    What an issued fingerprint pins, exactly: a run passes with it if and only if it staged the fingerprinted tree down
    to every mode, size and content, its copies are whole, and all else the fingerprint covers is as it was at issue
    time.
   */
  lemma PassesExactly(issued: Options, seen: IssueView, o: Options, v: RunView, lib: Lib)
    requires Ideal(lib) && seen.tree.Dir? && v.tree.Dir? && WellNamed(seen.tree) && WellNamed(v.tree)
    requires IssueFingerprint(issued, seen, lib).Some?
    ensures issued.envFile ==> seen.env.Content?
    ensures Passed(o, IssueFingerprint(issued, seen, lib), v, lib)
            <==> && Usable(o, v, lib) && Steady(v.tree)
                 && v.tree.entries == seen.tree.entries
                 && SameBinding(issued, seen, o, v)
  {
    IssuesExactly(issued, seen, lib);
    PassedMeans(o, IssueFingerprint(issued, seen, lib), v, lib);
    var m1, m2 := SourceManifest(seen.tree, lib.sha), SourceManifest(v.tree, lib.sha);
    if m2.Walked? { SameManifestExactly(seen.tree, v.tree, lib.sha); }
    if v.tree.entries == seen.tree.entries { EntriesTellManifest(seen.tree, v.tree, lib.sha); }
    if Usable(o, v, lib) && m2.Walked? {
      FingerprintsAgree(issued, seen, o, v, Manifest(m1.items, m1.total), Manifest(m2.items, m2.total), lib);
    }
  }

  /** A run that sees at rest what was fingerprinted at issue time passes the fingerprint check. */
  lemma UnchangedSourcePasses(o: Options, seen: IssueView, v: RunView, lib: Lib)
    requires Ideal(lib) && seen.tree.Dir? && WellNamed(seen.tree) && Steady(seen.tree)
    requires IssueFingerprint(o, seen, lib).Some?
    requires v.compose == seen.compose && v.env == seen.env && v.sops == seen.sops && v.tree == seen.tree
    requires v.config == seen.config && v.at == seen.at
    requires o.envFile ==> v.envTaken >= |v.env.bytes|
    requires o.includeSops && v.sops.Content? ==> v.sopsTaken >= |v.sops.bytes|
    ensures Passed(o, IssueFingerprint(o, seen, lib), v, lib)
  {
    ManifestsAgree(seen.tree, lib.sha);
  }
}
