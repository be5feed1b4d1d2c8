/**
  The `backup` command of scripts/taskhub_admin.py in phase-5 mode: the approval gate, then the approved backup with the
  runtime binding of the verified record. The issuer leaves that binding out of the file it writes, so the two halves
  do not fit: no approved backup ever completes from a file the issuer wrote.
 */
module IssuedBackup {
  import opened Prelude
  import opened ArtifactTree
  import Approvals = ApprovalRecords
  import Runs = BackupFingerprint

  datatype Outcome = GateRefused(why: Approvals.Refusal) | Ran(result: Runs.Result)

  /** What the caller asserts about its backup. */
  function Asked(claim: Approvals.BackupClaim, target: Option<string>): (q: Approvals.Request) {
    Approvals.Request("backup", target, Some(claim), None, None)
  }

  /** The file is one `IssueRecord` writes, whatever it was asked to issue. */
  ghost predicate IssuerWrote(file: Option<string>, lib: Approvals.Lib) {
    exists o: Approvals.Options :: file == Some(Approvals.FileText(Approvals.Issued(o, lib), lib))
  }

  lemma LoadedBackup(f: map<Approvals.Key, Approvals.Json>, id: string, lib: Approvals.Lib)
    requires Approvals.LoadFields(f, id, lib).Loaded?
    ensures Approvals.BackupAt(f) == Some(Approvals.LoadFields(f, id, lib).record.backup)
  {
  }

  lemma TextLoads(r: Approvals.Record, f: map<Approvals.Key, Approvals.Json>, id: string, lib: Approvals.Lib)
    requires lib.load(lib.dump(Approvals.Obj(f))) == Some(Approvals.Obj(f)) && f == Approvals.FileFields(r)
    ensures var loading := Approvals.Load(id, Some(Approvals.FileText(r, lib)), lib);
            loading.Loaded? ==> loading == Approvals.LoadFields(f, id, lib)
  {
  }

  /** A backup claim loaded from such a file has no runtime binding. */
  lemma WrittenUnbound(r: Approvals.Record, id: string, lib: Approvals.Lib)
    requires Approvals.Sound(lib) && Approvals.Load(id, Some(Approvals.FileText(r, lib)), lib).Loaded?
    ensures Approvals.Load(id, Some(Approvals.FileText(r, lib)), lib).record.backup == Approvals.Unbound(r.backup)
  {
    var f := Approvals.FileFields(r);
    TextLoads(r, f, id, lib);
    LoadedBackup(f, id, lib);
    Approvals.FileClaims(r);
    Approvals.BackupClaimLoads(Approvals.Get(f, Approvals.Backup), r.backup);
  }

  /** The gate lets a file of the issuer through only to hand on a claim without a binding. */
  lemma IssuedGivesNoBinding(id: string, q: Approvals.Request, file: Option<string>, now: int, keyUsable: bool,
                             lib: Approvals.Lib)
    requires Approvals.Sound(lib) && IssuerWrote(file, lib) && q.subcommand == "backup"
    requires Approvals.Verify(id, q, file, now, keyUsable, lib).None?
    ensures Approvals.Load(id, file, lib).record.backup.Some?
            && Approvals.Load(id, file, lib).record.backup.value.binding == None
  {
    var o: Approvals.Options :| file == Some(Approvals.FileText(Approvals.Issued(o, lib), lib));
    WrittenUnbound(Approvals.Issued(o, lib), id, lib);
  }

  /** The gate and the run; the claim comes from the verified record, never from the caller. */
  method BackupCommand(id: string, claim: Approvals.BackupClaim, target: Option<string>, file: Option<string>, now: int,
                       keyUsable: bool, lib: Approvals.Lib, o: Runs.Options, v: Runs.RunView, digests: Runs.Lib,
                       allowed: string -> bool, accepted: (string, nat) -> int, walk: seq<string>)
    returns (r: Outcome)
    requires v.tree.Dir? && Runs.WalksFiles(walk, Copied(v.tree))
    ensures var verdict := Approvals.Verify(id, Asked(claim, target), file, now, keyUsable, lib);
            if verdict.Some? then r == GateRefused(verdict.value) else r.Ran?
    ensures r.Ran? && r.result.Completed? ==>
              Runs.Passed(o, Approvals.Load(id, file, lib).record.backup.value.binding, v, digests)
              && Runs.HoldsFilesOf(r.result.files, Copied(v.tree))
    ensures r.Ran? && Runs.NeverStuck(accepted) ==>
              (r.result.Completed? <==>
                 && Runs.LockReadsOk(o, v) && v.servicesStop && v.dumpsSucceed && (forall p | p in walk :: allowed(p))
                 && Runs.Passed(o, Approvals.Load(id, file, lib).record.backup.value.binding, v, digests))
    ensures Approvals.Sound(lib) && IssuerWrote(file, lib) && r.Ran? ==> !r.result.Completed?
    ensures Approvals.Sound(lib) && IssuerWrote(file, lib) && r.Ran? && Runs.LockReadsOk(o, v) ==>
              r.result == Runs.Refused(Runs.ClaimLegacy)
  {
    var verdict := Approvals.Verify(id, Asked(claim, target), file, now, keyUsable, lib);
    if verdict.Some? { return GateRefused(verdict.value); }
    var record := Approvals.Load(id, file, lib).record;
    var result := Runs.RunApprovedBackup(o, record.backup.value.binding, v, digests, allowed, accepted, walk);
    ghost var written := Approvals.Sound(lib) && IssuerWrote(file, lib);
    if written {
      IssuedGivesNoBinding(id, Asked(claim, target), file, now, keyUsable, lib);
    }
    return Ran(result);
  }
}
