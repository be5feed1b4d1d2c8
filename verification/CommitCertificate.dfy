/**
  scripts/taskhub_active_registry.py: the two-phase-commit certificate. `verify_commit_marker_invariants`
  runs a fixed sequence of checks over lists; here it is shown to decide an order-free specification.
 */
module CommitCertificate {
  import opened Prelude
  import opened StringOrder

  datatype HostSignature = HostSignature(hostId: string, signer: string, confirmedAt: string, signature: string)

  /** The marker fields that go into the finalization preimage. */
  datatype Bound = Bound(
    commitClaimHash: string, committedAt: string, approvalClaimHash: string, approvalId: string, cutoverId: string,
    leaseSnapshot: string, fleetSnapshot: string, leaseAcquiredAt: string, leaseExpiresAt: string,
    requiredHostIdsHash: string, sourcePrepareHash: string, targetPrepareHash: string)

  datatype Marker = Marker(bound: Bound, hostSignatures: seq<HostSignature>, preimageHash: string)

  /** What a host signs: its confirmation bound to the preimage. */
  datatype Confirmation = Confirmation(confirmedAt: string, preimageHash: string, hostId: string, signer: string)

  type Key = string

  datatype Lookup = Found(key: Key) | Unknown | Raised

  /** The test-only sentinel, or a real resolver from (host, signer) to a public key. */
  datatype Resolver = AcceptUnverified | Resolve(lookup: (string, string) -> Lookup)

  /** NFC, the digests over canonical bytes, the timestamp parser (microseconds) and Ed25519 verification. */
  datatype Lib = Lib(nfc: string -> string, shaIds: seq<string> -> string, shaBound: Bound -> string,
                     parse: string -> Option<int>, verify: (Key, string, Confirmation) -> bool)

  function Normalised(ids: seq<string>, nfc: string -> string): (r: seq<string>)
    ensures |r| == |ids| && forall i | 0 <= i < |ids| :: r[i] == nfc(ids[i])
  {
    seq(|ids|, i requires 0 <= i < |ids| => nfc(ids[i]))
  }

  function CanonicalBound(b: Bound, nfc: string -> string): (r: Bound) {
    Bound(nfc(b.commitClaimHash), nfc(b.committedAt), nfc(b.approvalClaimHash), nfc(b.approvalId), nfc(b.cutoverId),
          nfc(b.leaseSnapshot), nfc(b.fleetSnapshot), nfc(b.leaseAcquiredAt), nfc(b.leaseExpiresAt),
          nfc(b.requiredHostIdsHash), nfc(b.sourcePrepareHash), nfc(b.targetPrepareHash))
  }

  function ConfirmationOf(h: HostSignature, preimageHash: string, nfc: string -> string): (c: Confirmation) {
    Confirmation(nfc(h.confirmedAt), nfc(preimageHash), nfc(h.hostId), nfc(h.signer))
  }

  // ----- the host-id digest -----

  /** The digest of a duplicate-free host list; None stands for the ValueError on a duplicate. */
  ghost function HostIdsHash(ids: seq<string>, lib: Lib): (h: Option<string>) {
    if Distinct(ids) then Some(lib.shaIds(Normalised(Sort(ids), lib.nfc))) else None
  }

  method ComputeRequiredHostIdsHash(ids: seq<string>, lib: Lib) returns (h: Option<string>)
    ensures h == HostIdsHash(ids, lib)
  {
    var seen: set<string> := {};
    for i := 0 to |ids|
      invariant Distinct(ids[..i])
      invariant seen == set k | 0 <= k < i :: ids[k]
    {
      if ids[i] in seen { return None; }
      seen := seen + {ids[i]};
    }
    assert ids[..|ids|] == ids;
    return Some(lib.shaIds(Normalised(Sort(ids), lib.nfc)));
  }

  lemma DistinctCounts<T>(s: seq<T>, i: nat)
    requires Distinct(s) && i < |s|
    ensures multiset(s)[s[i]] == 1
  {
    var before, after := s[..i], s[i + 1..];
    assert s == before + [s[i]] + after;
    assert s[i] !in before && s[i] !in after;
    assert multiset(s) == multiset(before) + multiset{s[i]} + multiset(after);
  }

  lemma RepeatCounts<T>(s: seq<T>, i: nat, j: nat)
    requires i < j < |s| && s[i] == s[j]
    ensures multiset(s)[s[i]] >= 2
  {
    var before, after := s[..j], s[j + 1..];
    assert s == before + [s[j]] + after;
    assert before[i] in before;
    assert multiset(s) == multiset(before) + multiset{s[j]} + multiset(after);
  }

  lemma DistinctByMultiset<T>(s: seq<T>)
    ensures Distinct(s) <==> forall x | x in multiset(s) :: multiset(s)[x] == 1
  {
    if Distinct(s) {
      forall x | x in multiset(s) ensures multiset(s)[x] == 1 {
        var i :| 0 <= i < |s| && s[i] == x;
        DistinctCounts(s, i);
      }
    } else {
      var i, j :| 0 <= i < j < |s| && s[i] == s[j];
      RepeatCounts(s, i, j);
    }
  }

  /** The digest does not depend on the order of the list. */
  lemma HashIgnoresOrder(a: seq<string>, b: seq<string>, lib: Lib)
    requires multiset(a) == multiset(b)
    ensures HostIdsHash(a, lib) == HostIdsHash(b, lib)
  {
    DistinctByMultiset(a);
    DistinctByMultiset(b);
    SortSameContents(a, b);
  }

  ghost predicate InjectiveOn(nfc: string -> string, stock: iset<string>) {
    forall x, y | x in stock && y in stock && nfc(x) == nfc(y) :: x == y
  }

  ghost predicate ListOver(ids: seq<string>, stock: iset<string>) {
    forall x | x in ids :: x in stock
  }

  /** Equal digests of host lists over a stock of ids force equal hosts. */
  ghost predicate Pins(stock: iset<string>, lib: Lib) {
    forall a, b |
      && ListOver(a, stock) && ListOver(b, stock)
      && HostIdsHash(a, lib).Some? && HostIdsHash(a, lib) == HostIdsHash(b, lib) ::
      multiset(a) == multiset(b)
  }

  /** Equal digests mean equal hosts when the ids that occur have distinct normal forms. */
  lemma HashPinsHosts(a: seq<string>, b: seq<string>, stock: iset<string>, lib: Lib)
    requires Injective(lib.shaIds) && InjectiveOn(lib.nfc, stock) && ListOver(a, stock) && ListOver(b, stock)
    requires HostIdsHash(a, lib).Some? && HostIdsHash(a, lib) == HostIdsHash(b, lib)
    ensures multiset(a) == multiset(b)
    ensures (set x | x in a) == (set x | x in b)
  {
    assert Normalised(Sort(a), lib.nfc) == Normalised(Sort(b), lib.nfc);
    SortedAlike(a, b, stock, lib.nfc);
    assert forall x :: x in a <==> x in multiset(a);
    assert forall x :: x in b <==> x in multiset(b);
  }

  lemma SortedAlike(a: seq<string>, b: seq<string>, stock: iset<string>, nfc: string -> string)
    requires InjectiveOn(nfc, stock) && ListOver(a, stock) && ListOver(b, stock)
    requires Normalised(Sort(a), nfc) == Normalised(Sort(b), nfc)
    ensures Sort(a) == Sort(b)
  {
    var x, y := Sort(a), Sort(b);
    assert |x| == |Normalised(x, nfc)| == |y|;
    forall i | 0 <= i < |x| ensures x[i] == y[i] {
      MemberOf(x, a, i);
      MemberOf(y, b, i);
      assert nfc(x[i]) == Normalised(x, nfc)[i] == Normalised(y, nfc)[i] == nfc(y[i]);
    }
  }

  /** Two spellings of one NFC form give different host sets the same digest. */
  lemma HashConfusesSpellings(x: string, y: string, lib: Lib)
    requires x != y && lib.nfc(x) == lib.nfc(y)
    ensures HostIdsHash([x], lib) == HostIdsHash([y], lib) != None && multiset([x]) != multiset([y])
  {
    assert Sort([x]) == [x] && Sort([y]) == [y];
    assert Normalised([x], lib.nfc) == Normalised([y], lib.nfc);
    assert x in multiset([x]) && x !in multiset([y]);
  }

  /** For any stock of ids: the digest pins the hosts exactly if the ids of the stock have distinct normal forms. */
  lemma HashPinsExactly(stock: iset<string>, lib: Lib)
    requires Injective(lib.shaIds)
    ensures Pins(stock, lib) <==> InjectiveOn(lib.nfc, stock)
  {
    if InjectiveOn(lib.nfc, stock) {
      forall a, b | ListOver(a, stock) && ListOver(b, stock)
                    && HostIdsHash(a, lib).Some? && HostIdsHash(a, lib) == HostIdsHash(b, lib)
        ensures multiset(a) == multiset(b)
      {
        HashPinsHosts(a, b, stock, lib);
      }
    } else {
      var x, y :| x in stock && y in stock && lib.nfc(x) == lib.nfc(y) && x != y;
      HashConfusesSpellings(x, y, lib);
      assert ListOver([x], stock) && ListOver([y], stock);
    }
  }

  /** In particular for NFC-normal ids. */
  lemma NormalIdsPinned(lib: Lib)
    requires Injective(lib.shaIds)
    ensures Pins((iset x | lib.nfc(x) == x), lib)
  {
    HashPinsExactly((iset x | lib.nfc(x) == x), lib);
  }

  // ----- the sequence of checks -----

  datatype Reason = RequiredHashMismatch | PartialConfirmation | OutsideLeaseWindow | CommittedAfterWindow | FinalizationInvalid

  datatype Verdict = Accept | Reject(reason: Reason)

  ghost predicate HostsDistinct(sigs: seq<HostSignature>) {
    forall i, j | 0 <= i < j < |sigs| :: sigs[i].hostId != sigs[j].hostId
  }

  function Hosts(sigs: seq<HostSignature>): (hs: set<string>) {
    set h | h in sigs :: h.hostId
  }

  predicate AllParse(sigs: seq<HostSignature>, parse: string -> Option<int>) {
    forall h | h in sigs :: parse(h.confirmedAt).Some?
  }

  function Times(sigs: seq<HostSignature>, parse: string -> Option<int>): (ts: seq<int>)
    requires AllParse(sigs, parse)
    ensures |ts| == |sigs| && forall i | 0 <= i < |sigs| :: ts[i] == parse(sigs[i].confirmedAt).value
  {
    seq(|sigs|, i requires 0 <= i < |sigs| => parse(sigs[i].confirmedAt).value)
  }

  function MaxOf(ts: seq<int>): (m: int)
    requires ts != []
    ensures m in ts && forall t | t in ts :: t <= m
  {
    if |ts| == 1 then ts[0]
    else
      assert ts == [ts[0]] + ts[1..];
      var r := MaxOf(ts[1..]);
      if ts[0] < r then r else ts[0]
  }

  function MinOf(ts: seq<int>): (m: int)
    requires ts != []
    ensures m in ts && forall t | t in ts :: m <= t
  {
    if |ts| == 1 then ts[0]
    else
      assert ts == [ts[0]] + ts[1..];
      var r := MinOf(ts[1..]);
      if r < ts[0] then r else ts[0]
  }

  predicate SignatureValid(h: HostSignature, preimageHash: string, lookup: (string, string) -> Lookup, lib: Lib) {
    var found := lookup(h.hostId, h.signer);
    found.Found? && lib.verify(found.key, h.signature, ConfirmationOf(h, preimageHash, lib.nfc))
  }

  /** The checks in the order of the code. */
  ghost function Decide(m: Marker, ids: seq<string>, resolver: Resolver, skew: int, lib: Lib): (v: Verdict) {
    if HostIdsHash(ids, lib) != Some(m.bound.requiredHostIdsHash) then Reject(RequiredHashMismatch)
    else if !HostsDistinct(m.hostSignatures) then Reject(PartialConfirmation)
    else if Hosts(m.hostSignatures) != set x | x in ids then Reject(PartialConfirmation)
    else if m.hostSignatures == [] then Reject(PartialConfirmation)
    else DecideTiming(m, resolver, skew, lib)
  }

  ghost function DecideTiming(m: Marker, resolver: Resolver, skew: int, lib: Lib): (v: Verdict)
    requires m.hostSignatures != []
  {
    var acquired, expires, committed := lib.parse(m.bound.leaseAcquiredAt), lib.parse(m.bound.leaseExpiresAt), lib.parse(m.bound.committedAt);
    if acquired.None? || expires.None? || committed.None? || !AllParse(m.hostSignatures, lib.parse) then Reject(OutsideLeaseWindow)
    else
      var ts := Times(m.hostSignatures, lib.parse);
      if exists t | t in ts :: t < acquired.value - skew || t >= expires.value then Reject(OutsideLeaseWindow)
      else if committed.value < MaxOf(ts) then Reject(CommittedAfterWindow)
      else if !(committed.value < expires.value) then Reject(OutsideLeaseWindow)
      else if committed.value - MaxOf(ts) > skew then Reject(CommittedAfterWindow)
      else if acquired.value - MinOf(ts) > skew then Reject(OutsideLeaseWindow)
      else if lib.shaBound(CanonicalBound(m.bound, lib.nfc)) != m.preimageHash then Reject(FinalizationInvalid)
      else if resolver.AcceptUnverified? then Accept
      else if forall h | h in m.hostSignatures :: SignatureValid(h, m.preimageHash, resolver.lookup, lib) then Accept
      else Reject(FinalizationInvalid)
  }

  /** verify_commit_marker_invariants with its loops; check (5) is there and never taken. */
  method VerifyCommitMarker(m: Marker, ids: seq<string>, resolver: Resolver, skew: int, lib: Lib) returns (v: Verdict)
    ensures v == Decide(m, ids, resolver, skew, lib)
  {
    var expected := ComputeRequiredHostIdsHash(ids, lib);
    if expected.None? { return Reject(RequiredHashMismatch); }
    if m.bound.requiredHostIdsHash != expected.value { return Reject(RequiredHashMismatch); }
    var sigs := m.hostSignatures;
    var seen: set<string> := {};
    for i := 0 to |sigs|
      invariant HostsDistinct(sigs[..i])
      invariant seen == set k | 0 <= k < i :: sigs[k].hostId
    {
      if sigs[i].hostId in seen { return Reject(PartialConfirmation); }
      seen := seen + {sigs[i].hostId};
    }
    assert sigs[..|sigs|] == sigs;
    if Hosts(sigs) != set x | x in ids { return Reject(PartialConfirmation); }
    if sigs == [] { return Reject(PartialConfirmation); }
    v := VerifyTiming(m, resolver, skew, lib);
  }

  method ParseConfirmations(sigs: seq<HostSignature>, parse: string -> Option<int>) returns (ts: Option<seq<int>>)
    ensures ts == if AllParse(sigs, parse) then Some(Times(sigs, parse)) else None
  {
    var out: seq<int> := [];
    for i := 0 to |sigs|
      invariant |out| == i
      invariant forall k | 0 <= k < i :: parse(sigs[k].confirmedAt) == Some(out[k])
    {
      assert sigs[i] in sigs;
      var t := parse(sigs[i].confirmedAt);
      if t.None? { return None; }
      out := out + [t.value];
    }
    assert AllParse(sigs, parse) && out == Times(sigs, parse);
    return Some(out);
  }

  method AllInWindow(ts: seq<int>, from: int, until: int) returns (ok: bool)
    ensures ok <==> forall t | t in ts :: from <= t < until
  {
    for i := 0 to |ts|
      invariant forall k | 0 <= k < i :: from <= ts[k] < until
    {
      assert ts[i] in ts;
      if ts[i] < from || ts[i] >= until { return false; }
    }
    return true;
  }

  method AllSignaturesValid(sigs: seq<HostSignature>, preimageHash: string, lookup: (string, string) -> Lookup, lib: Lib)
    returns (ok: bool)
    ensures ok <==> forall h | h in sigs :: SignatureValid(h, preimageHash, lookup, lib)
  {
    for i := 0 to |sigs|
      invariant forall k | 0 <= k < i :: SignatureValid(sigs[k], preimageHash, lookup, lib)
    {
      assert sigs[i] in sigs;
      var found := lookup(sigs[i].hostId, sigs[i].signer);
      if !found.Found? { return false; }
      if !lib.verify(found.key, sigs[i].signature, ConfirmationOf(sigs[i], preimageHash, lib.nfc)) { return false; }
    }
    return true;
  }

  method VerifyTiming(m: Marker, resolver: Resolver, skew: int, lib: Lib) returns (v: Verdict)
    requires m.hostSignatures != []
    ensures v == DecideTiming(m, resolver, skew, lib)
  {
    var acquired := lib.parse(m.bound.leaseAcquiredAt);
    var expires := lib.parse(m.bound.leaseExpiresAt);
    var committed := lib.parse(m.bound.committedAt);
    if acquired.None? || expires.None? || committed.None? { return Reject(OutsideLeaseWindow); }
    var confirmations := ParseConfirmations(m.hostSignatures, lib.parse);
    if confirmations.None? { return Reject(OutsideLeaseWindow); }
    var ts := confirmations.value;
    var inWindow := AllInWindow(ts, acquired.value - skew, expires.value);
    if !inWindow { return Reject(OutsideLeaseWindow); }
    if committed.value < MaxOf(ts) { return Reject(CommittedAfterWindow); }
    if !(committed.value < expires.value) { return Reject(OutsideLeaseWindow); }
    if committed.value - MaxOf(ts) > skew { return Reject(CommittedAfterWindow); }
    if acquired.value - MinOf(ts) > skew { assert false; }  // check (5)
    var preimageHash := lib.shaBound(CanonicalBound(m.bound, lib.nfc));
    if preimageHash != m.preimageHash { return Reject(FinalizationInvalid); }
    if resolver.AcceptUnverified? { return Accept; }
    var valid := AllSignaturesValid(m.hostSignatures, preimageHash, resolver.lookup, lib);
    return if valid then Accept else Reject(FinalizationInvalid);
  }

  // ----- the declarative specification -----

  /** Each required host signs exactly once, and nobody else does. */
  ghost predicate EachSignsOnce(ids: multiset<string>, sigs: multiset<HostSignature>) {
    && (forall x | x in ids :: ids[x] == 1)
    && (forall h | h in sigs :: sigs[h] == 1 && h.hostId in ids)
    && (forall h, g | h in sigs && g in sigs && h.hostId == g.hostId :: h == g)
    && (forall x | x in ids :: exists h :: h in sigs && h.hostId == x)
  }

  /** Confirmations in the lease window, the commit after all of them, before expiry and close to one of them. */
  ghost predicate Timely(b: Bound, sigs: multiset<HostSignature>, skew: int, parse: string -> Option<int>) {
    && parse(b.leaseAcquiredAt).Some? && parse(b.leaseExpiresAt).Some? && parse(b.committedAt).Some?
    && parse(b.committedAt).value < parse(b.leaseExpiresAt).value
    && (forall h | h in sigs ::
          && parse(h.confirmedAt).Some?
          && parse(b.leaseAcquiredAt).value - skew <= parse(h.confirmedAt).value < parse(b.leaseExpiresAt).value
          && parse(h.confirmedAt).value <= parse(b.committedAt).value)
    && (exists h :: h in sigs && parse(h.confirmedAt).Some? && parse(b.committedAt).value - parse(h.confirmedAt).value <= skew)
  }

  /** The digest is that of the normal forms of all twelve bound fields. */
  predicate Finalizes(preimageHash: string, b: Bound, lib: Lib) {
    preimageHash == lib.shaBound(Bound(
      lib.nfc(b.commitClaimHash), lib.nfc(b.committedAt), lib.nfc(b.approvalClaimHash), lib.nfc(b.approvalId),
      lib.nfc(b.cutoverId), lib.nfc(b.leaseSnapshot), lib.nfc(b.fleetSnapshot), lib.nfc(b.leaseAcquiredAt),
      lib.nfc(b.leaseExpiresAt), lib.nfc(b.requiredHostIdsHash), lib.nfc(b.sourcePrepareHash),
      lib.nfc(b.targetPrepareHash)))
  }

  /** The key found for this host and signer verifies the signature over time, preimage, host and signer. */
  predicate Confirms(h: HostSignature, preimageHash: string, lookup: (string, string) -> Lookup, lib: Lib) {
    && lookup(h.hostId, h.signer).Found?
    && lib.verify(lookup(h.hostId, h.signer).key, h.signature,
                  Confirmation(lib.nfc(h.confirmedAt), lib.nfc(preimageHash), lib.nfc(h.hostId), lib.nfc(h.signer)))
  }

  /** What a certificate is, without any order: hosts and signatures are multisets. */
  ghost predicate Certificate(b: Bound, preimageHash: string, ids: multiset<string>, hostIdsHash: Option<string>,
                              sigs: multiset<HostSignature>, lookup: (string, string) -> Lookup, skew: int, lib: Lib)
  {
    && hostIdsHash == Some(b.requiredHostIdsHash)
    && EachSignsOnce(ids, sigs)
    && Timely(b, sigs, skew, lib.parse)
    && Finalizes(preimageHash, b, lib)
    && forall h | h in sigs :: Confirms(h, preimageHash, lookup, lib)
  }

  lemma OnceFromLists(ids: seq<string>, sigs: seq<HostSignature>)
    requires Distinct(ids) && HostsDistinct(sigs) && Hosts(sigs) == set x | x in ids
    ensures EachSignsOnce(multiset(ids), multiset(sigs))
  {
    DistinctByMultiset(ids);
    assert Distinct(sigs);
    DistinctByMultiset(sigs);
    forall h | h in multiset(sigs) ensures h.hostId in multiset(ids) {
      assert h in sigs && h.hostId in Hosts(sigs);
    }
    forall x | x in multiset(ids) ensures exists h :: h in multiset(sigs) && h.hostId == x {
      assert x in ids && x in Hosts(sigs);
      var h :| h in sigs && h.hostId == x;
      assert h in multiset(sigs);
    }
    forall h, g | h in multiset(sigs) && g in multiset(sigs) && h.hostId == g.hostId ensures h == g {
      var i :| 0 <= i < |sigs| && sigs[i] == h;
      var j :| 0 <= j < |sigs| && sigs[j] == g;
    }
  }

  lemma OnceToLists(ids: seq<string>, sigs: seq<HostSignature>)
    requires EachSignsOnce(multiset(ids), multiset(sigs))
    ensures Distinct(ids) && HostsDistinct(sigs) && Hosts(sigs) == set x | x in ids
  {
    DistinctByMultiset(ids);
    DistinctByMultiset(sigs);
    forall i, j | 0 <= i < j < |sigs| ensures sigs[i].hostId != sigs[j].hostId {
      assert sigs[i] in multiset(sigs) && sigs[j] in multiset(sigs);
    }
    forall x ensures x in Hosts(sigs) <==> x in ids {
      if x in ids {
        assert x in multiset(ids);
        var h :| h in multiset(sigs) && h.hostId == x;
        assert h in sigs;
      }
      if x in Hosts(sigs) {
        var h :| h in sigs && h.hostId == x;
        assert h in multiset(sigs);
      }
    }
  }

  lemma OnceExactly(ids: seq<string>, sigs: seq<HostSignature>)
    ensures (Distinct(ids) && HostsDistinct(sigs) && Hosts(sigs) == set x | x in ids)
            <==> EachSignsOnce(multiset(ids), multiset(sigs))
  {
    if EachSignsOnce(multiset(ids), multiset(sigs)) {
      OnceToLists(ids, sigs);
    } else if Distinct(ids) && HostsDistinct(sigs) && Hosts(sigs) == set x | x in ids {
      OnceFromLists(ids, sigs);
    }
  }

  /** `Timely` on the list of parsed confirmation times. */
  ghost predicate TimesInOrder(ts: seq<int>, acquired: int, expires: int, committed: int, skew: int) {
    && committed < expires
    && (forall t | t in ts :: acquired - skew <= t < expires && t <= committed)
    && (exists t :: t in ts && committed - t <= skew)
  }

  /** The code compares with the latest confirmation only. */
  lemma LatestDecides(ts: seq<int>, acquired: int, expires: int, committed: int, skew: int)
    requires ts != []
    ensures TimesInOrder(ts, acquired, expires, committed, skew)
            <==> && (forall t | t in ts :: acquired - skew <= t < expires)
                 && MaxOf(ts) <= committed < expires && committed - MaxOf(ts) <= skew
  {
  }

  lemma TimesOfSignatures(sigs: seq<HostSignature>, parse: string -> Option<int>)
    requires AllParse(sigs, parse)
    ensures forall h | h in sigs :: parse(h.confirmedAt).value in Times(sigs, parse)
    ensures forall t | t in Times(sigs, parse) :: exists h :: h in sigs && parse(h.confirmedAt).value == t
  {
  }

  lemma TimelyByTimes(b: Bound, sigs: seq<HostSignature>, skew: int, parse: string -> Option<int>)
    requires parse(b.leaseAcquiredAt).Some? && parse(b.leaseExpiresAt).Some? && parse(b.committedAt).Some?
    ensures Timely(b, multiset(sigs), skew, parse)
            <==> AllParse(sigs, parse)
                 && TimesInOrder(Times(sigs, parse), parse(b.leaseAcquiredAt).value, parse(b.leaseExpiresAt).value,
                                 parse(b.committedAt).value, skew)
  {
    assert forall h :: h in sigs <==> h in multiset(sigs);
    if AllParse(sigs, parse) { TimesOfSignatures(sigs, parse); }
  }

  lemma TimelyExactly(m: Marker, lookup: (string, string) -> Lookup, skew: int, lib: Lib)
    requires m.hostSignatures != []
    ensures DecideTiming(m, Resolve(lookup), skew, lib) == Accept
            <==> (Timely(m.bound, multiset(m.hostSignatures), skew, lib.parse)
                  && Finalizes(m.preimageHash, m.bound, lib)
                  && forall h | h in m.hostSignatures :: Confirms(h, m.preimageHash, lookup, lib))
    ensures DecideTiming(m, Resolve(lookup), skew, lib) == Reject(FinalizationInvalid)
            <==> (Timely(m.bound, multiset(m.hostSignatures), skew, lib.parse)
                  && !(Finalizes(m.preimageHash, m.bound, lib)
                       && forall h | h in m.hostSignatures :: Confirms(h, m.preimageHash, lookup, lib)))
    ensures DecideTiming(m, AcceptUnverified, skew, lib) == Accept
            <==> Timely(m.bound, multiset(m.hostSignatures), skew, lib.parse) && Finalizes(m.preimageHash, m.bound, lib)
  {
    assert forall h | h in m.hostSignatures ::
        SignatureValid(h, m.preimageHash, lookup, lib) == Confirms(h, m.preimageHash, lookup, lib);
    var a, e, c := lib.parse(m.bound.leaseAcquiredAt), lib.parse(m.bound.leaseExpiresAt), lib.parse(m.bound.committedAt);
    if a.Some? && e.Some? && c.Some? {
      TimelyByTimes(m.bound, m.hostSignatures, skew, lib.parse);
      if AllParse(m.hostSignatures, lib.parse) {
        LatestDecides(Times(m.hostSignatures, lib.parse), a.value, e.value, c.value, skew);
      }
    }
  }

  /** The checks before the timing ones, without their lists. */
  lemma DecideMeans(m: Marker, ids: seq<string>, resolver: Resolver, skew: int, lib: Lib)
    ensures Decide(m, ids, resolver, skew, lib) == Accept
            <==> && HostIdsHash(ids, lib) == Some(m.bound.requiredHostIdsHash)
                 && EachSignsOnce(multiset(ids), multiset(m.hostSignatures))
                 && m.hostSignatures != [] && DecideTiming(m, resolver, skew, lib) == Accept
  {
    OnceExactly(ids, m.hostSignatures);
  }

  lemma UntimelyEmpty(b: Bound, skew: int, parse: string -> Option<int>)
    ensures !Timely(b, multiset([]), skew, parse)
  {
  }

  /** With a real resolver the check accepts exactly the certificates. */
  lemma AcceptsExactlyCertificates(m: Marker, ids: seq<string>, lookup: (string, string) -> Lookup, skew: int, lib: Lib)
    ensures Decide(m, ids, Resolve(lookup), skew, lib) == Accept
            <==> Certificate(m.bound, m.preimageHash, multiset(ids), HostIdsHash(ids, lib),
                             multiset(m.hostSignatures), lookup, skew, lib)
  {
    DecideMeans(m, ids, Resolve(lookup), skew, lib);
    if m.hostSignatures != [] {
      assert forall h :: h in m.hostSignatures <==> h in multiset(m.hostSignatures);
      TimelyExactly(m, lookup, skew, lib);
    } else {
      UntimelyEmpty(m.bound, skew, lib.parse);
    }
  }

  /** Without signature checks it accepts exactly what is a certificate up to the signatures. */
  lemma UnverifiedExactly(m: Marker, ids: seq<string>, skew: int, lib: Lib)
    ensures Decide(m, ids, AcceptUnverified, skew, lib) == Accept
            <==> && HostIdsHash(ids, lib) == Some(m.bound.requiredHostIdsHash)
                 && EachSignsOnce(multiset(ids), multiset(m.hostSignatures))
                 && Timely(m.bound, multiset(m.hostSignatures), skew, lib.parse)
                 && Finalizes(m.preimageHash, m.bound, lib)
  {
    DecideMeans(m, ids, AcceptUnverified, skew, lib);
    if m.hostSignatures != [] {
      TimelyExactly(m, (_, _) => Unknown, skew, lib);
    } else {
      UntimelyEmpty(m.bound, skew, lib.parse);
    }
  }

  /** Which kind of refusal, in terms of the certificate: wrong host list, wrong signers, or a preimage or signature. */
  lemma RejectsExactly(m: Marker, ids: seq<string>, lookup: (string, string) -> Lookup, skew: int, lib: Lib)
    ensures var v := Decide(m, ids, Resolve(lookup), skew, lib);
            var hashed := HostIdsHash(ids, lib) == Some(m.bound.requiredHostIdsHash);
            var once := EachSignsOnce(multiset(ids), multiset(m.hostSignatures)) && m.hostSignatures != [];
            && (v == Reject(RequiredHashMismatch) <==> !hashed)
            && (v == Reject(PartialConfirmation) <==> hashed && !once)
            && (v == Reject(FinalizationInvalid)
                <==> && hashed && once && Timely(m.bound, multiset(m.hostSignatures), skew, lib.parse)
                     && !(Finalizes(m.preimageHash, m.bound, lib)
                          && forall h | h in m.hostSignatures :: Confirms(h, m.preimageHash, lookup, lib)))
  {
    OnceExactly(ids, m.hostSignatures);
    if m.hostSignatures != [] { TimelyExactly(m, lookup, skew, lib); }
  }

  /** Reordering hosts or signatures never changes whether a marker is accepted. */
  lemma VerdictIgnoresOrder(m: Marker, n: Marker, ids: seq<string>, jds: seq<string>, lookup: (string, string) -> Lookup,
                            skew: int, lib: Lib)
    requires multiset(ids) == multiset(jds) && multiset(m.hostSignatures) == multiset(n.hostSignatures)
    requires n.bound == m.bound && n.preimageHash == m.preimageHash
    ensures Decide(m, ids, Resolve(lookup), skew, lib) == Accept <==> Decide(n, jds, Resolve(lookup), skew, lib) == Accept
  {
    AcceptsExactlyCertificates(m, ids, lookup, skew, lib);
    AcceptsExactlyCertificates(n, jds, lookup, skew, lib);
    HashIgnoresOrder(ids, jds, lib);
  }

  /** The twelve bound fields have the same normal forms. */
  predicate SameBound(b: Bound, c: Bound, nfc: string -> string) {
    && nfc(b.commitClaimHash) == nfc(c.commitClaimHash) && nfc(b.committedAt) == nfc(c.committedAt)
    && nfc(b.approvalClaimHash) == nfc(c.approvalClaimHash) && nfc(b.approvalId) == nfc(c.approvalId)
    && nfc(b.cutoverId) == nfc(c.cutoverId) && nfc(b.leaseSnapshot) == nfc(c.leaseSnapshot)
    && nfc(b.fleetSnapshot) == nfc(c.fleetSnapshot) && nfc(b.leaseAcquiredAt) == nfc(c.leaseAcquiredAt)
    && nfc(b.leaseExpiresAt) == nfc(c.leaseExpiresAt) && nfc(b.requiredHostIdsHash) == nfc(c.requiredHostIdsHash)
    && nfc(b.sourcePrepareHash) == nfc(c.sourcePrepareHash) && nfc(b.targetPrepareHash) == nfc(c.targetPrepareHash)
  }

  /** Accepted certificates with one preimage digest agree on each of the twelve bound fields, and on the hosts. */
  lemma CertificatePins(m: Marker, n: Marker, ids: seq<string>, jds: seq<string>, lookup: (string, string) -> Lookup,
                        skew: int, lib: Lib)
    requires Injective(lib.shaBound) && Injective(lib.shaIds)
    requires InjectiveOn(lib.nfc, (iset x | x in ids || x in jds))
    requires forall x :: lib.nfc(lib.shaIds(x)) == lib.shaIds(x)
    requires Decide(m, ids, Resolve(lookup), skew, lib) == Accept && Decide(n, jds, Resolve(lookup), skew, lib) == Accept
    requires m.preimageHash == n.preimageHash
    ensures SameBound(m.bound, n.bound, lib.nfc)
    ensures multiset(ids) == multiset(jds)
  {
    AcceptsExactlyCertificates(m, ids, lookup, skew, lib);
    AcceptsExactlyCertificates(n, jds, lookup, skew, lib);
    assert lib.nfc(m.bound.requiredHostIdsHash) == lib.nfc(n.bound.requiredHostIdsHash);
    HashPinsHosts(ids, jds, (iset x | x in ids || x in jds), lib);
  }

  /** Changing any bound field of an accepted marker, beyond its spelling, makes it a marker that is refused. */
  lemma TamperedRefused(m: Marker, b: Bound, ids: seq<string>, jds: seq<string>, resolver: Resolver, other: Resolver,
                        skew: int, lib: Lib)
    requires Injective(lib.shaBound) && Decide(m, ids, resolver, skew, lib) == Accept && !SameBound(m.bound, b, lib.nfc)
    ensures Decide(m.(bound := b), jds, other, skew, lib) != Accept
  {
    AcceptedFinalizes(m, ids, resolver, skew, lib);
    if Decide(m.(bound := b), jds, other, skew, lib) == Accept {
      AcceptedFinalizes(m.(bound := b), jds, other, skew, lib);
    }
  }

  lemma AcceptedFinalizes(m: Marker, ids: seq<string>, resolver: Resolver, skew: int, lib: Lib)
    requires Decide(m, ids, resolver, skew, lib) == Accept
    ensures Finalizes(m.preimageHash, m.bound, lib)
  {
  }

  /** A signature verifies over one confirmation only. */
  ghost predicate IdealSignatures(lib: Lib) {
    forall k, s, c, d :: lib.verify(k, s, c) && lib.verify(k, s, d) ==> c == d
  }

  /** A host signature made for one time, preimage, host and signer fits no other. */
  lemma ConfirmationPins(h: HostSignature, g: HostSignature, p: string, q: string, lookup: (string, string) -> Lookup,
                         again: (string, string) -> Lookup, lib: Lib)
    requires IdealSignatures(lib) && h.signature == g.signature
    requires SignatureValid(h, p, lookup, lib) && SignatureValid(g, q, again, lib)
    requires lookup(h.hostId, h.signer) == again(g.hostId, g.signer)
    ensures lib.nfc(h.confirmedAt) == lib.nfc(g.confirmedAt) && lib.nfc(p) == lib.nfc(q)
    ensures lib.nfc(h.hostId) == lib.nfc(g.hostId) && lib.nfc(h.signer) == lib.nfc(g.signer)
  {
    assert Confirms(h, p, lookup, lib) && Confirms(g, q, again, lib);
  }
}
