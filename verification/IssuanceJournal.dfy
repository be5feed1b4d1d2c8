/**
  scripts/taskhub_approval_issuance.py: the approval issuance journal. Each entry is checked against its
  predecessor only; what that means for a whole journal is proved here.
 */
module IssuanceJournal {
  import opened Prelude

  datatype Attestation = Attestation(source: string, value: int, previousValue: int)

  datatype Entry = Entry(
    approvalId: string, claimHash: string, issuedAt: string, sequence: int, previousIssuedAt: string,
    issuer: string, previousHash: string, keyFingerprint: string, keyStatus: string,
    clock: Attestation, signature: string)

  /** The signed and hashed part of an entry: everything but the signature. */
  datatype Payload = Payload(
    approvalId: string, claimHash: string, issuedAt: string, sequence: int, previousIssuedAt: string,
    issuer: string, previousHash: string, keyFingerprint: string, keyStatus: string, clock: Attestation)

  /**
    The functions the module takes from elsewhere: NFC normalisation of strings, the hex digest of a
    canonical payload, and the strict UTC timestamp parser (microseconds).
   */
  datatype Lib = Lib(nfc: string -> string, sha: Payload -> string, parse: string -> Option<int>)

  const GENESIS_PREVIOUS_ISSUED_AT := "1970-01-01T00:00:00Z"
  const SKEW_TOLERANCE := 5_000_000
  const CLOCK_SOURCES := {"linux_clock_monotonic", "tpm_clock", "trusted_time_attestation"}

  /** Digests are lower-case hex, which NFC leaves alone; the canonical encoder and SHA-256 are injective. */
  ghost predicate Ideal(lib: Lib) {
    Injective(lib.sha) && forall p :: lib.nfc(lib.sha(p)) == lib.sha(p)
  }

  function Canonical(e: Entry, nfc: string -> string): (p: Payload) {
    Payload(nfc(e.approvalId), nfc(e.claimHash), nfc(e.issuedAt), e.sequence, nfc(e.previousIssuedAt),
            nfc(e.issuer), nfc(e.previousHash), nfc(e.keyFingerprint), nfc(e.keyStatus),
            e.clock.(source := nfc(e.clock.source)))
  }

  /** The six reason codes the check can return. */
  datatype Reason =
    KeyNotActive | ClockSourceUnavailable | EntryInvalid | SequenceSkip | ChainHashMismatch | MonotonicRegression

  datatype Verdict = Accepted | Rejected(reason: Reason)

  /** verify_issuance_chain_invariants, check by check. */
  function Verify(e: Entry, previous: Option<Entry>, lib: Lib): (v: Verdict) {
    if e.keyStatus != "active" then Rejected(KeyNotActive)
    else if e.clock.source !in CLOCK_SOURCES then
      Rejected(ClockSourceUnavailable)
    else if lib.parse(e.issuedAt).None? then Rejected(EntryInvalid)
    else match previous
      case None => VerifyGenesis(e, lib)
      case Some(p) => VerifySuccessor(e, p, lib)
  }

  function VerifyGenesis(e: Entry, lib: Lib): (v: Verdict) {
    if e.sequence != 1 then Rejected(SequenceSkip)
    else if e.previousHash != ZERO_HASH then Rejected(ChainHashMismatch)
    else if e.previousIssuedAt != GENESIS_PREVIOUS_ISSUED_AT then
      Rejected(ChainHashMismatch)
    else if lib.parse(e.previousIssuedAt).None? then
      Rejected(EntryInvalid)
    else if e.clock.value <= e.clock.previousValue then
      Rejected(MonotonicRegression)
    else Accepted
  }

  function VerifySuccessor(e: Entry, p: Entry, lib: Lib): (v: Verdict)
    requires lib.parse(e.issuedAt).Some?
  {
    if e.sequence != p.sequence + 1 then Rejected(SequenceSkip)
    else if lib.parse(p.issuedAt).None? then Rejected(EntryInvalid)
    else if lib.parse(p.issuedAt).value - lib.parse(e.issuedAt).value > SKEW_TOLERANCE then
      Rejected(MonotonicRegression)
    else if e.clock.value <= e.clock.previousValue then
      Rejected(MonotonicRegression)
    else if e.clock.previousValue != p.clock.value then
      Rejected(MonotonicRegression)
    else if e.previousHash != lib.sha(Canonical(p, lib.nfc)) then
      Rejected(ChainHashMismatch)
    else if e.previousIssuedAt != p.issuedAt then Rejected(ChainHashMismatch)
    else Accepted
  }

  /** The digest the chain carries: over the normal forms of all fields but the signature. */
  function ChainHash(p: Entry, lib: Lib): (h: string) {
    lib.sha(Payload(lib.nfc(p.approvalId), lib.nfc(p.claimHash), lib.nfc(p.issuedAt), p.sequence, lib.nfc(p.previousIssuedAt),
                    lib.nfc(p.issuer), lib.nfc(p.previousHash), lib.nfc(p.keyFingerprint), lib.nfc(p.keyStatus),
                    Attestation(lib.nfc(p.clock.source), p.clock.value, p.clock.previousValue)))
  }

  /** An entry by itself: an active key, a permitted clock that moved, and a readable time. */
  predicate EntrySound(e: Entry, lib: Lib) {
    && e.keyStatus == "active" && e.clock.source in {"linux_clock_monotonic", "tpm_clock", "trusted_time_attestation"}
    && e.clock.previousValue < e.clock.value && lib.parse(e.issuedAt).Some?
  }

  /** An entry after its predecessor, or at the start. */
  predicate EntryFollows(e: Entry, previous: Option<Entry>, lib: Lib) {
    match previous
    case None =>
      && e.sequence == 1 && e.previousHash == ZERO_HASH && e.previousIssuedAt == "1970-01-01T00:00:00Z"
      && lib.parse(e.previousIssuedAt).Some?
    case Some(p) =>
      && e.sequence == p.sequence + 1 && e.clock.previousValue == p.clock.value
      && lib.parse(e.issuedAt).Some? && lib.parse(p.issuedAt).Some?
      && lib.parse(p.issuedAt).value - 5_000_000 <= lib.parse(e.issuedAt).value
      && e.previousHash == ChainHash(p, lib) && e.previousIssuedAt == p.issuedAt
  }

  /** The check accepts an entry exactly if it is sound and follows its predecessor. */
  lemma AcceptsExactly(e: Entry, previous: Option<Entry>, lib: Lib)
    ensures Verify(e, previous, lib) == Accepted <==> EntrySound(e, lib) && EntryFollows(e, previous, lib)
  {
  }

  /** What a rejection says about the entry. */
  predicate Means(why: Reason, e: Entry, previous: Option<Entry>, lib: Lib) {
    match why
    case KeyNotActive => e.keyStatus != "active"
    case ClockSourceUnavailable => e.clock.source !in {"linux_clock_monotonic", "tpm_clock", "trusted_time_attestation"}
    case EntryInvalid =>
      lib.parse(e.issuedAt).None? || lib.parse(if previous.Some? then previous.value.issuedAt else e.previousIssuedAt).None?
    case SequenceSkip => e.sequence != if previous.Some? then previous.value.sequence + 1 else 1
    case ChainHashMismatch =>
      if previous.Some? then e.previousHash != ChainHash(previous.value, lib) || e.previousIssuedAt != previous.value.issuedAt
      else e.previousHash != ZERO_HASH || e.previousIssuedAt != "1970-01-01T00:00:00Z"
    case MonotonicRegression =>
      || e.clock.value <= e.clock.previousValue
      || (previous.Some? && e.clock.previousValue != previous.value.clock.value)
      || (previous.Some? && lib.parse(e.issuedAt).Some? && lib.parse(previous.value.issuedAt).Some?
          && lib.parse(e.issuedAt).value < lib.parse(previous.value.issuedAt).value - 5_000_000)
  }

  /** Every rejection names something that is wrong with the entry. */
  lemma RejectionTells(e: Entry, previous: Option<Entry>, lib: Lib)
    requires Verify(e, previous, lib).Rejected?
    ensures Means(Verify(e, previous, lib).reason, e, previous, lib)
  {
  }

  /** Equal fields, up to the spelling of strings; signatures may differ. */
  predicate SameEntry(e: Entry, f: Entry, nfc: string -> string) {
    && nfc(e.approvalId) == nfc(f.approvalId) && nfc(e.claimHash) == nfc(f.claimHash) && nfc(e.issuedAt) == nfc(f.issuedAt)
    && e.sequence == f.sequence && nfc(e.previousIssuedAt) == nfc(f.previousIssuedAt) && nfc(e.issuer) == nfc(f.issuer)
    && nfc(e.previousHash) == nfc(f.previousHash) && nfc(e.keyFingerprint) == nfc(f.keyFingerprint)
    && nfc(e.keyStatus) == nfc(f.keyStatus) && nfc(e.clock.source) == nfc(f.clock.source)
    && e.clock.value == f.clock.value && e.clock.previousValue == f.clock.previousValue
  }

  /** The hashed payload covers every field but the signature, and only their normal forms. */
  lemma CanonicalPins(e: Entry, f: Entry, nfc: string -> string)
    ensures Canonical(e, nfc) == Canonical(f, nfc) <==> SameEntry(e, f, nfc)
  {
  }

  /** A journal every entry of which was accepted after the one before it. */
  ghost predicate AcceptedJournal(es: seq<Entry>, lib: Lib) {
    forall i | 0 <= i < |es| :: AcceptedAt(es, i, lib)
  }

  predicate AcceptedAt(es: seq<Entry>, i: nat, lib: Lib)
    requires i < |es|
  {
    Verify(es[i], Previous(es, i), lib) == Accepted
  }

  function Previous(es: seq<Entry>, i: nat): (p: Option<Entry>)
    requires i < |es|
  {
    if i == 0 then None else Some(es[i - 1])
  }

  /** What one accepted step says about an entry and its predecessor. */
  lemma StepFacts(es: seq<Entry>, i: nat, lib: Lib)
    requires AcceptedJournal(es, lib) && i < |es|
    ensures lib.parse(es[i].issuedAt).Some?
    ensures i == 0 ==> es[i].sequence == 1
    ensures i > 0 ==> Follows(es[i], es[i - 1], lib)
  {
    assert AcceptedAt(es, i, lib);
  }

  predicate Follows(e: Entry, p: Entry, lib: Lib) {
    && e.sequence == p.sequence + 1
    && p.clock.value == e.clock.previousValue < e.clock.value
    && lib.parse(e.issuedAt).Some? && lib.parse(p.issuedAt).Some?
    && lib.parse(p.issuedAt).value - lib.parse(e.issuedAt).value <= SKEW_TOLERANCE
    && e.previousHash == lib.sha(Canonical(p, lib.nfc))
    && e.previousIssuedAt == p.issuedAt
  }

  /** Entry i carries sequence number i + 1. */
  lemma {:induction false} SequenceNumbers(es: seq<Entry>, i: nat, lib: Lib)
    requires AcceptedJournal(es, lib) && i < |es|
    ensures es[i].sequence == i + 1
  {
    StepFacts(es, i, lib);
    if i > 0 { SequenceNumbers(es, i - 1, lib); }
  }

  /** Clock attestation values strictly increase along the whole journal. */
  lemma {:induction false} ClockIncreases(es: seq<Entry>, i: nat, j: nat, lib: Lib)
    requires AcceptedJournal(es, lib) && i < j < |es|
    ensures es[i].clock.value < es[j].clock.value
  {
    StepFacts(es, j, lib);
    if i < j - 1 { ClockIncreases(es, i, j - 1, lib); }
  }

  /** Wall time may fall back by at most five seconds per entry. */
  lemma {:induction false} WallTimeBound(es: seq<Entry>, i: nat, j: nat, lib: Lib)
    requires AcceptedJournal(es, lib) && i <= j < |es|
    ensures lib.parse(es[i].issuedAt).Some? && lib.parse(es[j].issuedAt).Some?
    ensures lib.parse(es[j].issuedAt).value >= lib.parse(es[i].issuedAt).value - SKEW_TOLERANCE * (j - i)
  {
    StepFacts(es, j, lib);
    if i < j { WallTimeBound(es, i, j - 1, lib); }
  }

  /** Any accepted entry may be re-dated to exactly five seconds before its predecessor. */
  lemma RedatedAccepted(e: Entry, p: Entry, t: string, lib: Lib)
    requires AcceptedJournal([p], lib) && Verify(e, Some(p), lib) == Accepted
    requires lib.parse(p.issuedAt).Some? && lib.parse(t) == Some(lib.parse(p.issuedAt).value - SKEW_TOLERANCE)
    ensures AcceptedJournal([p, e.(issuedAt := t)], lib)
  {
    var es := [p, e.(issuedAt := t)];
    assert AcceptedAt([p], 0, lib);
    assert AcceptedAt(es, 0, lib) && AcceptedAt(es, 1, lib);
  }

  function Genesis(issuedAt: string, previousHash: string): (e: Entry) {
    Entry("", "", issuedAt, 1, GENESIS_PREVIOUS_ISSUED_AT, "", previousHash, "", "active", Attestation("tpm_clock", 1, 0), "")
  }

  function Successor(p: Entry, issuedAt: string, lib: Lib): (e: Entry) {
    Entry("", "", issuedAt, p.sequence + 1, p.issuedAt, "", lib.sha(Canonical(p, lib.nfc)), "", "active",
          Attestation("tpm_clock", p.clock.value + 1, p.clock.value), "")
  }

  /** `n` times five seconds before `t`. */
  function Back(t: int, n: nat): (u: int) {
    if n == 0 then t else Back(t, n - 1) - SKEW_TOLERANCE
  }

  lemma {:induction false} BackIs(t: int, n: nat)
    ensures Back(t, n) == t - SKEW_TOLERANCE * n
  {
    if n > 0 { BackIs(t, n - 1); }
  }

  /** A journal of `n + 1` entries, each dated five seconds before the one before it. */
  function FallingBack(n: nat, t: int, stamp: int -> string, lib: Lib): (es: seq<Entry>)
    ensures |es| == n + 1
  {
    if n == 0 then [Genesis(stamp(t), ZERO_HASH)]
    else FallingBack(n - 1, t, stamp, lib)
         + [Successor(FallingBack(n - 1, t, stamp, lib)[n - 1], stamp(Back(t, n)), lib)]
  }

  /** The times of that journal are printed so that they parse back. */
  ghost predicate Prints(stamp: int -> string, t: int, n: nat, lib: Lib) {
    forall k: nat | k <= n :: lib.parse(stamp(Back(t, k))) == Some(Back(t, k))
  }

  lemma {:induction false} FallingBackDates(n: nat, k: nat, t: int, stamp: int -> string, lib: Lib)
    requires k <= n
    ensures FallingBack(n, t, stamp, lib)[k].issuedAt == stamp(Back(t, k))
    decreases n
  {
    if k < n { FallingBackDates(n - 1, k, t, stamp, lib); }
  }

  /** An entry made to follow an accepted one, five seconds back. */
  lemma SuccessorAccepted(p: Entry, issuedAt: string, lib: Lib)
    requires lib.parse(p.issuedAt).Some? && lib.parse(issuedAt) == Some(lib.parse(p.issuedAt).value - SKEW_TOLERANCE)
    ensures Verify(Successor(p, issuedAt, lib), Some(p), lib) == Accepted
  {
  }

  lemma GenesisAccepted(issuedAt: string, lib: Lib)
    requires lib.parse(GENESIS_PREVIOUS_ISSUED_AT).Some? && lib.parse(issuedAt).Some?
    ensures AcceptedJournal([Genesis(issuedAt, ZERO_HASH)], lib)
  {
    assert AcceptedAt([Genesis(issuedAt, ZERO_HASH)], 0, lib);
  }

  lemma JournalGrows(es: seq<Entry>, e: Entry, lib: Lib)
    requires AcceptedJournal(es, lib) && es != [] && Verify(e, Some(es[|es| - 1]), lib) == Accepted
    ensures AcceptedJournal(es + [e], lib)
  {
    var more := es + [e];
    forall i | 0 <= i < |more| ensures AcceptedAt(more, i, lib) {
      assert i < |es| ==> AcceptedAt(es, i, lib) && Previous(more, i) == Previous(es, i);
    }
  }

  lemma FallsBackOnceMore(es: seq<Entry>, issuedAt: string, lib: Lib)
    requires AcceptedJournal(es, lib) && es != [] && lib.parse(es[|es| - 1].issuedAt).Some?
    requires lib.parse(issuedAt) == Some(lib.parse(es[|es| - 1].issuedAt).value - SKEW_TOLERANCE)
    ensures AcceptedJournal(es + [Successor(es[|es| - 1], issuedAt, lib)], lib)
  {
    SuccessorAccepted(es[|es| - 1], issuedAt, lib);
    JournalGrows(es, Successor(es[|es| - 1], issuedAt, lib), lib);
  }

  lemma {:induction false} FallingBackAccepted(n: nat, t: int, stamp: int -> string, lib: Lib)
    requires lib.parse(GENESIS_PREVIOUS_ISSUED_AT).Some? && Prints(stamp, t, n, lib)
    ensures AcceptedJournal(FallingBack(n, t, stamp, lib), lib)
  {
    assert lib.parse(stamp(Back(t, n))).Some?;
    if n == 0 {
      GenesisAccepted(stamp(t), lib);
    } else {
      FallingBackAccepted(n - 1, t, stamp, lib);
      FallingBackDates(n - 1, n - 1, t, stamp, lib);
      FallsBackOnceMore(FallingBack(n - 1, t, stamp, lib), stamp(Back(t, n)), lib);
    }
  }

  /** The bound is reached at every distance: one journal meets it with equality between any two of its entries. */
  lemma WallTimeBoundTight(n: nat, t: int, stamp: int -> string, i: nat, j: nat, lib: Lib)
    requires lib.parse(GENESIS_PREVIOUS_ISSUED_AT).Some? && Prints(stamp, t, n, lib)
    requires i <= j <= n
    ensures AcceptedJournal(FallingBack(n, t, stamp, lib), lib)
    ensures var es := FallingBack(n, t, stamp, lib);
            && lib.parse(es[i].issuedAt).Some?
            && lib.parse(es[j].issuedAt) == Some(lib.parse(es[i].issuedAt).value - SKEW_TOLERANCE * (j - i))
  {
    FallingBackAccepted(n, t, stamp, lib);
    FallingBackDates(n, i, t, stamp, lib);
    FallingBackDates(n, j, t, stamp, lib);
    BackIs(t, i);
    BackIs(t, j);
    assert SKEW_TOLERANCE * (j - i) == SKEW_TOLERANCE * j - SKEW_TOLERANCE * i;
  }

  lemma EntryInPlace(es: seq<Entry>, fs: seq<Entry>, k: nat, lib: Lib)
    requires AcceptedJournal(es, lib) && AcceptedJournal(fs, lib)
    requires k < |fs| && fs[k] in es
    ensures k < |es| && fs[k] == es[k]
  {
    SequenceNumbers(fs, k, lib);
    var i :| 0 <= i < |es| && es[i] == fs[k];
    SequenceNumbers(es, i, lib);
  }

  /** Nothing but a prefix of a journal can be rebuilt from its entries: no reordering, gap or splice is accepted. */
  lemma OnlyPrefixes(es: seq<Entry>, fs: seq<Entry>, lib: Lib)
    requires AcceptedJournal(es, lib) && AcceptedJournal(fs, lib)
    requires forall f | f in fs :: f in es
    ensures |fs| <= |es| && fs == es[..|fs|]
  {
    if fs != [] { EntryInPlace(es, fs, |fs| - 1, lib); }
    forall k | 0 <= k < |fs| ensures fs[k] == es[k] { EntryInPlace(es, fs, k, lib); }
  }

  /** Equal payloads at a position mean equal payloads one position earlier: the chain hash carries them over. */
  lemma PayloadBefore(a: seq<Entry>, b: seq<Entry>, n: nat, lib: Lib)
    requires Ideal(lib) && AcceptedJournal(a, lib) && AcceptedJournal(b, lib)
    requires 0 < n < |a| && n < |b| && Canonical(a[n], lib.nfc) == Canonical(b[n], lib.nfc)
    ensures Canonical(a[n - 1], lib.nfc) == Canonical(b[n - 1], lib.nfc)
  {
    StepFacts(a, n, lib);
    StepFacts(b, n, lib);
    var pa := Canonical(a[n - 1], lib.nfc);
    var pb := Canonical(b[n - 1], lib.nfc);
    assert lib.nfc(lib.sha(pa)) == lib.nfc(lib.sha(pb));
    assert lib.sha(pa) == lib.sha(pb);
  }

  lemma {:induction false} PayloadsBefore(a: seq<Entry>, b: seq<Entry>, n: nat, i: nat, lib: Lib)
    requires Ideal(lib) && AcceptedJournal(a, lib) && AcceptedJournal(b, lib)
    requires i <= n < |a| && n < |b| && Canonical(a[n], lib.nfc) == Canonical(b[n], lib.nfc)
    ensures Canonical(a[i], lib.nfc) == Canonical(b[i], lib.nfc)
    decreases n
  {
    if i < n {
      PayloadBefore(a, b, n, lib);
      PayloadsBefore(a, b, n - 1, i, lib);
    }
  }

  /** The last entry determines the whole journal: equal fields in the last entries mean equal fields everywhere. */
  lemma LastDeterminesJournal(a: seq<Entry>, b: seq<Entry>, lib: Lib)
    requires Ideal(lib) && AcceptedJournal(a, lib) && AcceptedJournal(b, lib)
    requires a != [] && b != []
    requires SameEntry(a[|a| - 1], b[|b| - 1], lib.nfc)
    ensures |a| == |b|
    ensures forall i | 0 <= i < |a| :: SameEntry(a[i], b[i], lib.nfc)
  {
    CanonicalPins(a[|a| - 1], b[|b| - 1], lib.nfc);
    SequenceNumbers(a, |a| - 1, lib);
    SequenceNumbers(b, |b| - 1, lib);
    forall i | 0 <= i < |a| ensures SameEntry(a[i], b[i], lib.nfc) {
      PayloadsBefore(a, b, |a| - 1, i, lib);
      CanonicalPins(a[i], b[i], lib.nfc);
    }
  }

  /** Signatures are outside the chain: replacing any of them changes no verdict. */
  lemma SignaturesOutsideChain(es: seq<Entry>, sigs: seq<string>, lib: Lib)
    requires |sigs| == |es|
    ensures AcceptedJournal(Resigned(es, sigs), lib) <==> AcceptedJournal(es, lib)
  {
    var rs := Resigned(es, sigs);
    forall i | 0 <= i < |es| ensures Verify(rs[i], Previous(rs, i), lib) == Verify(es[i], Previous(es, i), lib) {
      if i > 0 { assert Canonical(rs[i - 1], lib.nfc) == Canonical(es[i - 1], lib.nfc); }
    }
    if AcceptedJournal(rs, lib) {
      forall i | 0 <= i < |es| ensures AcceptedAt(es, i, lib) { assert AcceptedAt(rs, i, lib); }
    } else if AcceptedJournal(es, lib) {
      forall i | 0 <= i < |es| ensures AcceptedAt(rs, i, lib) { assert AcceptedAt(es, i, lib); }
    }
  }

  function Resigned(es: seq<Entry>, sigs: seq<string>): (rs: seq<Entry>)
    requires |sigs| == |es|
  {
    seq(|es|, i requires 0 <= i < |es| => es[i].(signature := sigs[i]))
  }

  // ----- signing -----

  /** An ideal Ed25519 key pair: the public key accepts exactly the signatures the private key makes. */
  ghost predicate KeyPair(sign: Payload -> string, check: (string, Payload) -> bool) {
    forall s, p :: check(s, p) <==> s == sign(p)
  }

  function SignEntry(unsigned: Entry, sign: Payload -> string, nfc: string -> string): (e: Entry) {
    unsigned.(signature := sign(Canonical(unsigned, nfc)))
  }

  function CheckSignature(e: Entry, check: (string, Payload) -> bool, nfc: string -> string): (ok: bool) {
    check(e.signature, Canonical(e, nfc))
  }

  /** A signed entry verifies, keeps its payload and its chain verdict, and no other payload verifies under its signature. */
  lemma SignThenCheck(unsigned: Entry, other: Entry, previous: Option<Entry>, sign: Payload -> string,
                      check: (string, Payload) -> bool, lib: Lib)
    requires KeyPair(sign, check) && Injective(sign)
    ensures var e := SignEntry(unsigned, sign, lib.nfc);
            && CheckSignature(e, check, lib.nfc)
            && e.(signature := unsigned.signature) == unsigned
            && Verify(e, previous, lib) == Verify(unsigned, previous, lib)
            && (other.signature == e.signature && CheckSignature(other, check, lib.nfc)
                ==> SameEntry(other, e, lib.nfc))
  {
    CanonicalPins(other, SignEntry(unsigned, sign, lib.nfc), lib.nfc);
  }
}
