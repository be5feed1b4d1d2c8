/**
  scripts/taskhub_active_registry.py: `allocate_next_epoch`, an append-only hash-chained journal plus a
  counter that is replaced by an atomic rename, with crashes at any point of an allocation.
 */
module EpochAllocator {
  import opened Prelude
  import opened TailSearch

  datatype Entry = Entry(epoch: nat, issuedAt: string, hostId: string, signer: string, previousHash: string, signature: string)

  /** The hashed part of an entry. */
  datatype Payload = Payload(epoch: nat, issuedAt: string, hostId: string, signer: string, previousHash: string)

  function PayloadOf(e: Entry): (p: Payload) {
    Payload(e.epoch, e.issuedAt, e.hostId, e.signer, e.previousHash)
  }

  /**
    JSON line encoding, line judgement (JSON, schema and signature), payload digest and signing. `hexHash` is the
    shape of a digest, 64 hexadecimal characters; `nfc` is applied to every string before it is digested.
   */
  datatype Lib = Lib(enc: Entry -> Bytes, read: Reader<Entry>, sha: Payload -> string, sign: Payload -> string,
                     hexHash: string -> bool, nfc: string -> string)

  function NormalForm(p: Payload, lib: Lib): (q: Payload) {
    Payload(p.epoch, lib.nfc(p.issuedAt), lib.nfc(p.hostId), lib.nfc(p.signer), lib.nfc(p.previousHash))
  }

  /** What `_is_structurally_valid_journal_entry` asks of an entry. */
  predicate Schema(e: Entry, lib: Lib) {
    e.issuedAt != "" && e.hostId != "" && e.signer != "" && e.signature != "" && lib.hexHash(e.previousHash)
  }

  predicate Signed(e: Entry, lib: Lib) {
    e.signature == lib.sign(PayloadOf(e))
  }

  /** What survives a crash. A counter whose self-digest does not match makes every allocation raise. */
  datatype Store = Store(journal: Option<Bytes>, counter: Option<nat>)

  datatype Request = Request(issuedAt: string, hostId: string, signer: string)

  /** No field is empty; the allocator does not ask for this. */
  predicate Complete(q: Request) {
    q.issuedAt != "" && q.hostId != "" && q.signer != ""
  }

  /** How an allocation ends: before anything is written, inside the append, before the rename, or normally. */
  datatype Fate = CrashBefore | CrashCreated | Torn(written: nat) | CrashBeforeRename | Finished

  datatype Call = Call(request: Request, fate: Fate)

  datatype Allocation = Allocation(store: Store, returned: Option<nat>)

  function File(st: Store): (f: Bytes) {
    if st.journal.Some? then st.journal.value else []
  }

  function CounterEpoch(st: Store): (n: nat) {
    if st.counter.Some? then st.counter.value else 0
  }

  /** The entry an allocation signs, from the counter and the journal's tail. */
  function NewEntry(counter: nat, tail: Option<Entry>, q: Request, lib: Lib): (e: Entry) {
    var epoch := Max(counter, if tail.Some? then tail.value.epoch else 0) + 1;
    var previous := if tail.Some? then lib.sha(PayloadOf(tail.value)) else ZERO_HASH;
    var payload := Payload(epoch, q.issuedAt, q.hostId, q.signer, previous);
    Entry(epoch, q.issuedAt, q.hostId, q.signer, previous, lib.sign(payload))
  }

  function Line(e: Entry, lib: Lib): (l: Bytes) {
    lib.enc(e) + [NEWLINE]
  }

  /** A proper prefix: an append cut short never writes the final newline. */
  function Cut(line: Bytes, n: nat): (l: Bytes)
    requires line != []
    ensures |l| < |line| && l == line[..|l|]
  {
    if n < |line| then line[..n] else line[..|line| - 1]
  }

  function Allocate(st: Store, c: Call, lib: Lib): (a: Allocation) {
    var file := File(st);
    var tail := Search(file, lib.read);
    if file != [] && tail.None? then Allocation(st, None)  // no valid tail: refuse to restart the chain
    else Proceed(st, tail, c, lib)
  }

  /** How many bytes of the new line reach the file. */
  function Written(line: Bytes, fate: Fate): (n: nat)
    requires line != []
    ensures n <= |line|
  {
    match fate
    case CrashBefore => 0
    case CrashCreated => 0
    case Torn(_) => |Cut(line, fate.written)|
    case _ => |line|
  }

  /** The rest of an allocation, once the journal's tail is known. */
  function Proceed(st: Store, tail: Option<Entry>, c: Call, lib: Lib): (a: Allocation) {
    var file := File(st);
    var e := NewEntry(CounterEpoch(st), tail, c.request, lib);
    var line := Line(e, lib);
    match c.fate
    case CrashBefore => Allocation(st, None)
    case CrashCreated => Allocation(st.(journal := Some(file)), None)
    case Torn(n) => Allocation(st.(journal := Some(file + Cut(line, n))), None)
    case CrashBeforeRename => Allocation(st.(journal := Some(file + line)), None)
    case Finished => Allocation(Store(Some(file + line), Some(e.epoch)), Some(e.epoch))
  }

  const EMPTY := Store(None, None)

  function After(st: Store, calls: seq<Call>, lib: Lib): (t: Store)
    decreases |calls|
  {
    if calls == [] then st else After(Allocate(st, calls[0], lib).store, calls[1..], lib)
  }

  /** The epochs a run hands out. */
  function Returned(st: Store, calls: seq<Call>, lib: Lib): (es: seq<nat>)
    decreases |calls|
  {
    if calls == [] then []
    else
      var a := Allocate(st, calls[0], lib);
      var rest := Returned(a.store, calls[1..], lib);
      if a.returned.Some? then [a.returned.value] + rest else rest
  }

  // ----- returned epochs -----

  ghost predicate Increasing(es: seq<nat>) {
    forall i, j | 0 <= i < j < |es| :: es[i] < es[j]
  }

  lemma CounterMoves(st: Store, c: Call, lib: Lib)
    ensures var a := Allocate(st, c, lib);
            if a.returned.Some? then a.returned.value == CounterEpoch(a.store) > CounterEpoch(st)
            else CounterEpoch(a.store) == CounterEpoch(st)
  {
  }

  lemma {:induction false} ReturnedAboveCounter(st: Store, calls: seq<Call>, lib: Lib)
    ensures forall i | 0 <= i < |Returned(st, calls, lib)| :: Returned(st, calls, lib)[i] > CounterEpoch(st)
    decreases |calls|
  {
    if calls != [] {
      CounterMoves(st, calls[0], lib);
      ReturnedAboveCounter(Allocate(st, calls[0], lib).store, calls[1..], lib);
    }
  }

  /** Whatever crashes, and whatever the journal holds, returned epochs strictly increase. */
  lemma {:induction false} ReturnedStrictlyIncrease(st: Store, calls: seq<Call>, lib: Lib)
    ensures Increasing(Returned(st, calls, lib))
    decreases |calls|
  {
    if calls != [] {
      var next := Allocate(st, calls[0], lib).store;
      CounterMoves(st, calls[0], lib);
      ReturnedStrictlyIncrease(next, calls[1..], lib);
      ReturnedAboveCounter(next, calls[1..], lib);
    }
  }

  // ----- lines and pieces of lines -----

  /** A piece of a journal line: the first `k` bytes of an encoded entry. */
  datatype Fragment = Fragment(e: Entry, k: nat)

  function Glue(parts: seq<Fragment>, lib: Lib): (l: Bytes) {
    if parts == [] then []
    else Glue(parts[..|parts| - 1], lib)
         + (var p := parts[|parts| - 1]; if p.k <= |lib.enc(p.e)| then lib.enc(p.e)[..p.k] else lib.enc(p.e))
  }

  ghost predicate Real(parts: seq<Fragment>, lib: Lib) {
    forall p | p in parts :: 0 < p.k <= |lib.enc(p.e)|
  }

  /**
    Facts about one-line JSON objects that all begin with the same key: an encoded entry holds no newline, a signed one
    is read back exactly if it meets the schema, and neither a proper prefix of one nor several pieces glued together
    are an entry. Digests and signatures have the shape the schema asks for.
   */
  ghost predicate Framing(lib: Lib) {
    && (forall e: Entry :: |lib.enc(e)| > 0 && NEWLINE !in lib.enc(e))
    && (forall e: Entry :: Signed(e, lib) ==> lib.read(lib.enc(e)) == if Schema(e, lib) then Some(e) else None)
    && lib.read([]) == None
    && (forall parts :: Real(parts, lib) && |parts| >= 2 ==> lib.read(Glue(parts, lib)) == None)
    && (forall e: Entry, k :: 0 < k < |lib.enc(e)| ==> lib.read(lib.enc(e)[..k]) == None)
    && lib.hexHash(ZERO_HASH) && (forall p :: lib.hexHash(lib.sha(p)) && lib.sign(p) != "")
  }

  /**
    Whatever is read from a remainder of a glued line meets the schema and is the entry of one of the line's pieces,
    which is all there: inside a one-line object with quoted strings no other object begins.
   */
  ghost predicate Remainders(lib: Lib) {
    forall parts, s | Real(parts, lib) && 0 <= s <= |Glue(parts, lib)| && lib.read(Glue(parts, lib)[s..]).Some? ::
      Supplies(parts, lib.read(Glue(parts, lib)[s..]).value, lib)
  }

  ghost predicate Supplies(parts: seq<Fragment>, e: Entry, lib: Lib) {
    Schema(e, lib) && exists p :: p in parts && p.e == e && p.k == |lib.enc(e)|
  }

  /** Payloads share a digest exactly if they have the same normal form; no digest is the initial hash. */
  ghost predicate IdealHash(lib: Lib) {
    && (forall p, q :: lib.sha(p) == lib.sha(q) <==> NormalForm(p, lib) == NormalForm(q, lib))
    && forall p :: lib.sha(p) != ZERO_HASH
  }

  /** The valid lines of a file, in file order. */
  function ValidLines(lines: seq<Bytes>, read: Reader<Entry>): (es: seq<Entry>) {
    if lines == [] then []
    else
      var before := ValidLines(lines[..|lines| - 1], read);
      var last := read(lines[|lines| - 1]);
      if last.Some? then before + [last.value] else before
  }

  ghost predicate Rising(es: seq<Entry>) {
    forall i, j | 0 <= i < j < |es| :: es[i].epoch < es[j].epoch
  }

  ghost predicate Linked(es: seq<Entry>, lib: Lib) {
    && (es != [] ==> es[0].previousHash == ZERO_HASH)
    && (forall i | 0 < i < |es| :: es[i].previousHash == lib.sha(PayloadOf(es[i - 1])))
  }

  ghost predicate Chained(es: seq<Entry>, lib: Lib) {
    Rising(es) && Linked(es, lib)
  }

  function Valid(file: Bytes, lib: Lib): (es: seq<Entry>) {
    ValidLines(Split(file), lib.read)
  }

  /** The unterminated end of a file. */
  function Last(file: Bytes): (l: Bytes) {
    Split(file)[|Split(file)| - 1]
  }

  /** It is glued from pieces of entries, or empty. */
  ghost predicate GluedTail(file: Bytes, lib: Lib) {
    exists parts :: Real(parts, lib) && Last(file) == Glue(parts, lib)
  }

  ghost predicate JournalInv(file: Bytes, lib: Lib) {
    Chained(Valid(file, lib), lib) && GluedTail(file, lib)
  }

  /** Replacing the last of several pieces leaves the first one alone. */
  lemma ConsSnoc(x: Bytes, rest: seq<Bytes>, y: Bytes)
    requires |rest| > 0
    ensures [x] + (rest[..|rest| - 1] + [y]) == ([x] + rest)[..|rest|] + [y]
  {
  }

  lemma {:induction false} SplitPiece(file: Bytes, d: Bytes)
    requires NEWLINE !in d
    ensures var lines := Split(file);
            Split(file + d) == lines[..|lines| - 1] + [lines[|lines| - 1] + d]
    decreases |file|
  {
    if file == [] {
      SplitUnbroken(d);
      assert file + d == d;
    } else {
      SplitPiece(file[1..], d);
      assert (file + d)[1..] == file[1..] + d;
      SplitPieceStep(file[0], Split(file[1..]), d);
    }
  }

  /** What one more byte in front does to the pieces. */
  function PutFront(b: Byte, rest: seq<Bytes>): (lines: seq<Bytes>)
    requires |rest| > 0
    ensures |lines| > 0
  {
    if b == NEWLINE then [[]] + rest else [[b] + rest[0]] + rest[1..]
  }

  lemma SplitPieceStep(b: Byte, rest: seq<Bytes>, d: Bytes)
    requires |rest| > 0
    ensures var k, lines := |rest| - 1, PutFront(b, rest);
            PutFront(b, rest[..k] + [rest[k] + d]) == lines[..|lines| - 1] + [lines[|lines| - 1] + d]
  {
    var k := |rest| - 1;
    if b == NEWLINE {
      ConsSnoc([], rest, rest[k] + d);
    } else if k == 0 {
      assert [b] + (rest[0] + d) == ([b] + rest[0]) + d;
    } else {
      ConsSnoc([b] + rest[0], rest[1..], rest[k] + d);
      assert (rest[..k] + [rest[k] + d])[1..] == rest[1..][..k - 1] + [rest[k] + d];
    }
  }

  lemma {:induction false} SplitTerminated(s: Bytes)
    ensures Split(s + [NEWLINE]) == Split(s) + [[]]
  {
    if s == [] {
      assert Split([NEWLINE][1..]) == [[]];
      assert [] + [NEWLINE] == [NEWLINE];
    } else {
      SplitTerminated(s[1..]);
      assert (s + [NEWLINE])[1..] == s[1..] + [NEWLINE];
    }
  }

  lemma ValidLinesSnoc(lines: seq<Bytes>, l: Bytes, read: Reader<Entry>)
    ensures ValidLines(lines + [l], read)
            == ValidLines(lines, read) + (if read(l).Some? then [read(l).value] else [])
  {
  }

  lemma {:induction false} LastValidIsLast(lines: seq<Bytes>, read: Reader<Entry>)
    ensures var es := ValidLines(lines, read);
            LastValid(lines, read) == if es == [] then None else Some(es[|es| - 1])
  {
    if lines != [] { LastValidIsLast(lines[..|lines| - 1], read); }
  }

  lemma GlueNonEmpty(parts: seq<Fragment>, lib: Lib)
    requires Real(parts, lib) && parts != []
    ensures Glue(parts, lib) != []
  {
    var p := parts[|parts| - 1];
    assert p in parts && |lib.enc(p.e)[..p.k]| == p.k;
  }

  /** Gluing one more piece onto a line: what is read from the longer line. */
  lemma GluedRead(parts: seq<Fragment>, e: Entry, k: nat, lib: Lib)
    requires Framing(lib) && Real(parts, lib) && 0 < k <= |lib.enc(e)| && Signed(e, lib)
    ensures var l := Glue(parts, lib) + lib.enc(e)[..k];
            && Real(parts + [Fragment(e, k)], lib) && l == Glue(parts + [Fragment(e, k)], lib)
            && lib.read(l) == if parts == [] && k == |lib.enc(e)| && Schema(e, lib) then Some(e) else None
  {
    var more := parts + [Fragment(e, k)];
    assert more[..|more| - 1] == parts;
    if parts == [] {
      assert Glue(parts, lib) + lib.enc(e)[..k] == lib.enc(e)[..k];
      assert lib.enc(e)[..|lib.enc(e)|] == lib.enc(e);
    }
  }

  // ----- what an append does to the valid lines -----

  /** The whole entry stands on a line of its own, and the schema admits it. */
  predicate Landed(last: Bytes, e: Entry, k: nat, lib: Lib) {
    last == [] && k >= |lib.enc(e)| && Schema(e, lib)
  }

  /** What the last line and the rest hold after an append, in terms of what is read from the longer last line. */
  lemma PieceLines(file: Bytes, init: seq<Bytes>, last: Bytes, d: Bytes, read: Reader<Entry>)
    requires NEWLINE !in d && Split(file) == init + [last]
    ensures Last(file + d) == last + d
    ensures ValidLines(Split(file + d), read)
            == ValidLines(init, read) + (if read(last + d).Some? then [read(last + d).value] else [])
  {
    SplitPiece(file, d);
    assert Split(file + d) == init + [last + d];
    ValidLinesSnoc(init, last + d, read);
  }

  lemma WholeLines(file: Bytes, init: seq<Bytes>, last: Bytes, d: Bytes, read: Reader<Entry>)
    requires NEWLINE !in d && read([]) == None && Split(file) == init + [last]
    ensures Last(file + d + [NEWLINE]) == []
    ensures ValidLines(Split(file + d + [NEWLINE]), read)
            == ValidLines(init, read) + (if read(last + d).Some? then [read(last + d).value] else [])
  {
    var none: Bytes := [];
    PieceLines(file, init, last, d, read);
    SplitTerminated(file + d);
    ValidLinesSnoc(Split(file + d), none, read);
  }

  lemma EmptyTailGlued(file: Bytes, lib: Lib)
    requires Last(file) == []
    ensures GluedTail(file, lib)
  {
    var none: seq<Fragment> := [];
    assert Real(none, lib) && Glue(none, lib) == [];
  }

  function Before(file: Bytes): (init: seq<Bytes>) {
    Split(file)[..|Split(file)| - 1]
  }

  lemma LinesOf(file: Bytes)
    ensures Split(file) == Before(file) + [Last(file)]
  {
  }

  /** What is read from a glued last line made longer, and that it is still glued. */
  lemma LongerRead(last: Bytes, parts: seq<Fragment>, e: Entry, k: nat, lib: Lib) returns (more: seq<Fragment>)
    requires Framing(lib) && Signed(e, lib) && Real(parts, lib) && last == Glue(parts, lib) && 0 < k <= |lib.enc(e)|
    ensures lib.read(last + lib.enc(e)[..k]) == if k == |lib.enc(e)| && Landed(last, e, k, lib) then Some(e) else None
    ensures Real(more, lib) && last + lib.enc(e)[..k] == Glue(more, lib)
  {
    if parts != [] { GlueNonEmpty(parts, lib); }
    GluedRead(parts, e, k, lib);
    more := parts + [Fragment(e, k)];
  }

  lemma PartAppended(file: Bytes, e: Entry, k: nat, lib: Lib)
    requires Framing(lib) && Signed(e, lib) && GluedTail(file, lib) && 0 < k <= |lib.enc(e)|
    ensures GluedTail(file + lib.enc(e)[..k], lib)
    ensures Valid(file + lib.enc(e)[..k], lib)
            == ValidLines(Before(file), lib.read) + (if Landed(Last(file), e, k, lib) then [e] else [])
  {
    var parts :| Real(parts, lib) && Last(file) == Glue(parts, lib);
    var more := LongerRead(Last(file), parts, e, k, lib);
    LinesOf(file);
    PieceLines(file, Before(file), Last(file), lib.enc(e)[..k], lib.read);
  }

  /** The whole entry after a glued last line is read only if that line was empty. */
  lemma WholeRead(last: Bytes, parts: seq<Fragment>, e: Entry, lib: Lib)
    requires Framing(lib) && Signed(e, lib) && Real(parts, lib) && last == Glue(parts, lib)
    ensures lib.read(last + lib.enc(e)) == if last == [] && Schema(e, lib) then Some(e) else None
  {
    var enc := lib.enc(e);
    assert enc[..|enc|] == enc;
    var more := LongerRead(last, parts, e, |enc|, lib);
  }

  lemma WholeValid(file: Bytes, e: Entry, lib: Lib)
    requires NEWLINE !in lib.enc(e) && lib.read([]) == None
    requires lib.read(Last(file) + lib.enc(e)) == if Last(file) == [] && Schema(e, lib) then Some(e) else None
    ensures Last(file + Line(e, lib)) == []
    ensures Valid(file + Line(e, lib), lib)
            == ValidLines(Before(file), lib.read) + (if Last(file) == [] && Schema(e, lib) then [e] else [])
  {
    LinesOf(file);
    assert file + Line(e, lib) == file + lib.enc(e) + [NEWLINE];
    WholeLines(file, Before(file), Last(file), lib.enc(e), lib.read);
  }

  lemma WholeAppended(file: Bytes, e: Entry, lib: Lib)
    requires Framing(lib) && Signed(e, lib) && GluedTail(file, lib)
    ensures GluedTail(file + Line(e, lib), lib)
    ensures Valid(file + Line(e, lib), lib)
            == ValidLines(Before(file), lib.read) + (if Last(file) == [] && Schema(e, lib) then [e] else [])
  {
    var parts :| Real(parts, lib) && Last(file) == Glue(parts, lib);
    WholeRead(Last(file), parts, e, lib);
    WholeValid(file, e, lib);
    EmptyTailGlued(file + Line(e, lib), lib);
  }

  /** Any part of a new line after the old bytes: the entry is added if it landed, and the old last line's entry is gone. */
  lemma AppendExactly(file: Bytes, e: Entry, k: nat, lib: Lib)
    requires Framing(lib) && GluedTail(file, lib) && Signed(e, lib) && 0 < k <= |Line(e, lib)|
    ensures GluedTail(file + Line(e, lib)[..k], lib)
    ensures Valid(file + Line(e, lib)[..k], lib)
            == ValidLines(Before(file), lib.read) + (if Landed(Last(file), e, k, lib) then [e] else [])
  {
    if k <= |lib.enc(e)| {
      PartAppended(file, e, k, lib);
      assert Line(e, lib)[..k] == lib.enc(e)[..k];
    } else {
      WholeAppended(file, e, lib);
      assert Line(e, lib)[..k] == Line(e, lib);
    }
  }

  lemma ProceedAppends(st: Store, tail: Option<Entry>, c: Call, lib: Lib)
    ensures var line := Line(NewEntry(CounterEpoch(st), tail, c.request, lib), lib);
            File(Proceed(st, tail, c, lib).store) == File(st) + line[..Written(line, c.fate)]
  {
    var line := Line(NewEntry(CounterEpoch(st), tail, c.request, lib), lib);
    assert line[..|line|] == line && File(st) + line[..0] == File(st);
  }

  // ----- the chain, exactly -----

  predicate SamePayload(a: Option<Entry>, b: Option<Entry>, lib: Lib) {
    (a.Some? <==> b.Some?) && (a.Some? ==> NormalForm(PayloadOf(a.value), lib) == NormalForm(PayloadOf(b.value), lib))
  }

  function LastOf(es: seq<Entry>): (e: Option<Entry>) {
    if es == [] then None else Some(es[|es| - 1])
  }

  lemma ExtendsExactly(es: seq<Entry>, e: Entry, lib: Lib)
    requires Chained(es, lib)
    ensures Chained(es + [e], lib)
            <==> if es == [] then e.previousHash == ZERO_HASH
                 else es[|es| - 1].epoch < e.epoch && e.previousHash == lib.sha(PayloadOf(es[|es| - 1]))
  {
    var all := es + [e];
    if Chained(all, lib) && es != [] { assert all[|es| - 1] == es[|es| - 1] && all[|es|] == e; }
    if es == [] { assert all == [e]; }
  }

  lemma NewEntryExtends(es: seq<Entry>, counter: nat, tail: Option<Entry>, q: Request, lib: Lib)
    requires Chained(es, lib) && IdealHash(lib)
    ensures Chained(es + [NewEntry(counter, tail, q, lib)], lib) <==> SamePayload(tail, LastOf(es), lib)
  {
    ExtendsExactly(es, NewEntry(counter, tail, q, lib), lib);
  }

  lemma ScanIsLast(file: Bytes, lib: Lib)
    requires lib.read([]) == None
    ensures Scan(file, lib.read) == LastOf(Valid(file, lib))
  {
    LastValidIsLast(Split(file), lib.read);
    if file == [] { NothingInEmpty(lib.read); }
  }

  lemma NothingInEmpty(read: Reader<Entry>)
    requires read([]) == None
    ensures ValidLines(Split([]), read) == []
  {
    assert ValidLines([[]], read) == [] by { assert ValidLines([[]][..0], read) == []; }
  }

  lemma PrefixChained(es: seq<Entry>, n: nat, lib: Lib)
    requires Chained(es, lib) && n <= |es|
    ensures Chained(es[..n], lib)
  {
  }

  /** The call is not refused, and its entry lands on a line of its own. */
  predicate Lands(st: Store, c: Call, lib: Lib) {
    var tail := Search(File(st), lib.read);
    var e := NewEntry(CounterEpoch(st), tail, c.request, lib);
    (File(st) == [] || tail.Some?) && Landed(Last(File(st)), e, Written(Line(e, lib), c.fate), lib)
  }

  /** Whenever the entry lands, the windowed search has found what one scan of the whole file finds. */
  predicate SearchesWell(st: Store, c: Call, lib: Lib) {
    Lands(st, c, lib) ==> SamePayload(Search(File(st), lib.read), Scan(File(st), lib.read), lib)
  }

  /** The schema admits a new entry exactly if no field of the request is empty. */
  lemma NewEntrySchema(counter: nat, tail: Option<Entry>, q: Request, lib: Lib)
    requires Framing(lib)
    ensures Schema(NewEntry(counter, tail, q, lib), lib) <==> Complete(q)
  {
  }

  /** For a call that finishes: its request has no empty field and the file ends in a newline or is empty. */
  lemma FinishedLands(st: Store, q: Request, lib: Lib)
    requires Framing(lib)
    ensures Lands(st, Call(q, Finished), lib)
            <==> (File(st) == [] || Search(File(st), lib.read).Some?) && Last(File(st)) == [] && Complete(q)
  {
    NewEntrySchema(CounterEpoch(st), Search(File(st), lib.read), q, lib);
  }

  lemma ProceedExactly(st: Store, tail: Option<Entry>, c: Call, lib: Lib)
    requires Framing(lib) && IdealHash(lib) && JournalInv(File(st), lib)
    ensures var e := NewEntry(CounterEpoch(st), tail, c.request, lib);
            var after := File(Proceed(st, tail, c, lib).store);
            && GluedTail(after, lib)
            && (Chained(Valid(after, lib), lib)
                <==> (Landed(Last(File(st)), e, Written(Line(e, lib), c.fate), lib)
                      ==> SamePayload(tail, LastOf(Valid(File(st), lib)), lib)))
  {
    var file, e := File(st), NewEntry(CounterEpoch(st), tail, c.request, lib);
    var k := Written(Line(e, lib), c.fate);
    ProceedAppends(st, tail, c, lib);
    LinesOf(file);
    if k == 0 {
      assert file + Line(e, lib)[..k] == file;
    } else {
      AppendExactly(file, e, k, lib);
      LandingExactly(Before(file), Last(file), tail, CounterEpoch(st), c.request, k, lib);
    }
  }

  /** Replacing the last line's entry by the new one, if that landed. */
  lemma LandingExactly(init: seq<Bytes>, last: Bytes, tail: Option<Entry>, counter: nat, q: Request, k: nat, lib: Lib)
    requires IdealHash(lib) && lib.read([]) == None && Chained(ValidLines(init + [last], lib.read), lib)
    ensures var e := NewEntry(counter, tail, q, lib);
            var landed := Landed(last, e, k, lib);
            Chained(ValidLines(init, lib.read) + (if landed then [e] else []), lib)
            <==> (landed ==> SamePayload(tail, LastOf(ValidLines(init + [last], lib.read)), lib))
  {
    var es := ValidLines(init + [last], lib.read);
    ValidLinesSnoc(init, last, lib.read);
    if Landed(last, NewEntry(counter, tail, q, lib), k, lib) {
      assert ValidLines(init, lib.read) == es;
      NewEntryExtends(es, counter, tail, q, lib);
    } else {
      var before := ValidLines(init, lib.read);
      assert before + [] == before && before == es[..|before|];
      PrefixChained(es, |before|, lib);
    }
  }

  /** One call keeps the valid lines a chain exactly if its search went well. */
  lemma StepExactly(st: Store, c: Call, lib: Lib)
    requires Framing(lib) && IdealHash(lib) && JournalInv(File(st), lib)
    ensures var after := File(Allocate(st, c, lib).store);
            GluedTail(after, lib) && (Chained(Valid(after, lib), lib) <==> SearchesWell(st, c, lib))
  {
    ProceedExactly(st, Search(File(st), lib.read), c, lib);
    ScanIsLast(File(st), lib);
  }

  /** The valid lines are a chain now and after every call. */
  ghost predicate ChainedThroughout(st: Store, calls: seq<Call>, lib: Lib)
    decreases |calls|
  {
    Chained(Valid(File(st), lib), lib)
    && (calls == [] || ChainedThroughout(Allocate(st, calls[0], lib).store, calls[1..], lib))
  }

  predicate SearchesWellThroughout(st: Store, calls: seq<Call>, lib: Lib)
    decreases |calls|
  {
    calls == []
    || (SearchesWell(st, calls[0], lib) && SearchesWellThroughout(Allocate(st, calls[0], lib).store, calls[1..], lib))
  }

  /**
    The exact condition over whole runs, with crashes before, inside and after each append: from any journal whose valid
    lines are chained, they stay chained after every call if and only if every call whose entry landed on a line of its
    own had found, in its windows, the entry one scan of the whole file finds.
   */
  lemma {:induction false} RunExactly(st: Store, calls: seq<Call>, lib: Lib)
    requires Framing(lib) && IdealHash(lib) && JournalInv(File(st), lib)
    ensures ChainedThroughout(st, calls, lib) <==> SearchesWellThroughout(st, calls, lib)
    decreases |calls|
  {
    if calls != [] {
      StepExactly(st, calls[0], lib);
      if SearchesWell(st, calls[0], lib) {
        RunExactly(Allocate(st, calls[0], lib).store, calls[1..], lib);
      } else {
        ChainedNow(Allocate(st, calls[0], lib).store, calls[1..], lib);
      }
    }
  }

  lemma ChainedNow(st: Store, calls: seq<Call>, lib: Lib)
    ensures ChainedThroughout(st, calls, lib) ==> Chained(Valid(File(st), lib), lib)
  {
  }

  lemma EmptyInv(lib: Lib)
    requires lib.read([]) == None
    ensures JournalInv(File(EMPTY), lib)
  {
    NothingInEmpty(lib.read);
    EmptyTailGlued([], lib);
  }

  /** No tail search of the run starts a window at a joint between glued pieces. */
  ghost predicate CleanRun(st: Store, calls: seq<Call>, lib: Lib)
    decreases |calls|
  {
    calls == [] || (CleanWindows(File(st), lib.read) && CleanRun(Allocate(st, calls[0], lib).store, calls[1..], lib))
  }

  lemma {:induction false} CleanSearchesWell(st: Store, calls: seq<Call>, lib: Lib)
    requires CleanRun(st, calls, lib)
    ensures SearchesWellThroughout(st, calls, lib)
    decreases |calls|
  {
    if calls != [] {
      SearchIsScan(File(st), lib.read);
      CleanSearchesWell(Allocate(st, calls[0], lib).store, calls[1..], lib);
    }
  }

  /** In particular on every run from the empty store whose windows start at no joint. */
  lemma CleanRunChained(calls: seq<Call>, lib: Lib)
    requires Framing(lib) && IdealHash(lib) && CleanRun(EMPTY, calls, lib)
    ensures ChainedThroughout(EMPTY, calls, lib)
  {
    EmptyInv(lib);
    CleanSearchesWell(EMPTY, calls, lib);
    RunExactly(EMPTY, calls, lib);
  }

  // ----- what a call writes -----

  /** The entry records what it was asked to record, and nothing else. */
  predicate Records(e: Entry, q: Request) {
    e.issuedAt == q.issuedAt && e.hostId == q.hostId && e.signer == q.signer
  }

  /** It follows the counter and the tail that was found, and is signed over its own fields. */
  predicate Follows(e: Entry, counter: nat, tail: Option<Entry>, lib: Lib) {
    && e.epoch > counter && (tail.Some? ==> e.epoch > tail.value.epoch)
    && (e.epoch == counter + 1 || (tail.Some? && e.epoch == tail.value.epoch + 1))
    && e.previousHash == (if tail.Some?
                          then lib.sha(Payload(tail.value.epoch, tail.value.issuedAt, tail.value.hostId, tail.value.signer,
                                               tail.value.previousHash))
                          else ZERO_HASH)
    && e.signature == lib.sign(Payload(e.epoch, e.issuedAt, e.hostId, e.signer, e.previousHash))
  }

  lemma NewEntryRecords(counter: nat, tail: Option<Entry>, q: Request, lib: Lib)
    ensures var e := NewEntry(counter, tail, q, lib); Records(e, q) && Follows(e, counter, tail, lib)
  {
  }

  /** A call whose entry lands adds one valid line: the request's fields, the next epoch, the tail's hash, signed. */
  lemma LandedEntry(st: Store, c: Call, lib: Lib)
    requires Framing(lib) && Lands(st, c, lib)
    ensures var es := Valid(File(Allocate(st, c, lib).store), lib);
            && es != [] && es[..|es| - 1] == Valid(File(st), lib)
            && Records(es[|es| - 1], c.request)
            && Follows(es[|es| - 1], CounterEpoch(st), Search(File(st), lib.read), lib)
            && (c.fate.Finished? ==> Allocate(st, c, lib).returned == Some(es[|es| - 1].epoch))
  {
    var tail := Search(File(st), lib.read);
    var e := NewEntry(CounterEpoch(st), tail, c.request, lib);
    NewEntryRecords(CounterEpoch(st), tail, c.request, lib);
    ProceedAppends(st, tail, c, lib);
    EmptyTailGlued(File(st), lib);
    AppendExactly(File(st), e, Written(Line(e, lib), c.fate), lib);
    BeforeLast(File(st), lib);
  }

  /** In particular every finished call with a complete request on a journal that is terminated and not blocked. */
  lemma FinishedEntry(st: Store, q: Request, lib: Lib)
    requires Framing(lib) && Complete(q) && Last(File(st)) == [] && (File(st) == [] || Search(File(st), lib.read).Some?)
    ensures var a := Allocate(st, Call(q, Finished), lib);
            var es := Valid(File(a.store), lib);
            && es != [] && es[..|es| - 1] == Valid(File(st), lib) && Records(es[|es| - 1], q)
            && a.returned == Some(es[|es| - 1].epoch) && a.store.counter == a.returned
            && Follows(es[|es| - 1], CounterEpoch(st), Search(File(st), lib.read), lib)
  {
    FinishedLands(st, q, lib);
    LandedEntry(st, Call(q, Finished), lib);
  }

  // ----- what a crash or an empty field can cost -----

  /**
    What a complete append does to the valid lines: the new entry is added if the schema admits it and the file ended in
    a newline; after an unterminated line both the new entry and whatever that line held become unreadable.
   */
  lemma AppendOutcome(file: Bytes, e: Entry, lib: Lib)
    requires Framing(lib) && GluedTail(file, lib) && Signed(e, lib)
    ensures Valid(file + Line(e, lib), lib)
            == if Last(file) == [] then Valid(file, lib) + (if Schema(e, lib) then [e] else [])
               else ValidLines(Before(file), lib.read)
  {
    var k := |Line(e, lib)|;
    assert Line(e, lib)[..k] == Line(e, lib);
    AppendExactly(file, e, k, lib);
    BeforeLast(file, lib);
  }

  lemma BeforeLast(file: Bytes, lib: Lib)
    requires lib.read([]) == None
    ensures Last(file) == [] ==> Valid(file, lib) == ValidLines(Before(file), lib.read)
  {
    LinesOf(file);
    ValidLinesSnoc(Before(file), Last(file), lib.read);
  }

  /** A non-empty journal without a valid line stops the allocator for good. */
  lemma {:induction false} BlockedForever(st: Store, calls: seq<Call>, lib: Lib)
    requires File(st) != [] && Search(File(st), lib.read) == None
    ensures After(st, calls, lib) == st && Returned(st, calls, lib) == []
    decreases |calls|
  {
    if calls != [] { BlockedForever(st, calls[1..], lib); }
  }

  /** Otherwise the next undisturbed call succeeds: the allocator is blocked exactly in that case. */
  lemma NotBlocked(st: Store, q: Request, lib: Lib)
    ensures Allocate(st, Call(q, Finished), lib).returned.Some? <==> File(st) == [] || Search(File(st), lib.read).Some?
  {
  }

  lemma CallsCons(st: Store, c: Call, rest: seq<Call>, lib: Lib)
    ensures After(st, [c] + rest, lib) == After(Allocate(st, c, lib).store, rest, lib)
    ensures Returned(st, [c] + rest, lib)
            == (if Allocate(st, c, lib).returned.Some? then [Allocate(st, c, lib).returned.value] else [])
               + Returned(Allocate(st, c, lib).store, rest, lib)
  {
    assert ([c] + rest)[1..] == rest;
  }

  /** What the first call leaves and returns. */
  lemma FirstCall(q: Request, fate: Fate, lib: Lib)
    ensures var e := NewEntry(0, None, q, lib);
            var a := Allocate(EMPTY, Call(q, fate), lib);
            && File(a.store) == Line(e, lib)[..Written(Line(e, lib), fate)]
            && a.returned == (if fate.Finished? then Some(1) else None)
            && (fate.Finished? ==> a.store == Store(Some(Line(e, lib)), Some(1)))
  {
    var e := NewEntry(0, None, q, lib);
    assert Search([], lib.read) == None && CounterEpoch(EMPTY) == 0 && File(EMPTY) == [];
    ProceedAppends(EMPTY, None, Call(q, fate), lib);
    assert [] + Line(e, lib)[..Written(Line(e, lib), fate)] == Line(e, lib)[..Written(Line(e, lib), fate)];
    assert [] + Line(e, lib) == Line(e, lib);
  }

  /** Nothing is read from any remainder of a single piece that is torn or that the schema refuses. */
  lemma LonePieceUnread(e: Entry, k: nat, s: nat, lib: Lib)
    requires Remainders(lib) && 0 < k <= |lib.enc(e)| && s <= k && (k < |lib.enc(e)| || !Schema(e, lib))
    ensures lib.read(lib.enc(e)[..k][s..]).None?
  {
    var parts := [Fragment(e, k)];
    assert parts[..0] == [] && [] + lib.enc(e)[..k] == lib.enc(e)[..k];
    assert Real(parts, lib) && Glue(parts, lib) == lib.enc(e)[..k];
    var found := lib.read(Glue(parts, lib)[s..]);
    assert found.Some? ==> Supplies(parts, found.value, lib);
  }

  /** A file without an accepted line or line remainder has no tail. */
  lemma NothingFound(file: Bytes, lib: Lib)
    requires forall line, s | line in Split(file) && 0 <= s <= |line| :: lib.read(line[s..]).None?
    ensures Search(file, lib.read) == None
  {
    SearchRefinesScan(file, lib.read);
    forall line | line in Split(file) ensures lib.read(line).None? { assert line[0..] == line; }
    NothingValid(Split(file), lib);
  }

  lemma {:induction false} NothingValid(lines: seq<Bytes>, lib: Lib)
    requires forall line | line in lines :: lib.read(line).None?
    ensures LastValid(lines, lib.read) == None
  {
    if lines != [] { NothingValid(lines[..|lines| - 1], lib); }
  }

  /** A crash inside the very first append is enough: unless the object was complete, nothing is ever allocated again. */
  lemma TornFirstAppendBlocks(q: Request, n: nat, calls: seq<Call>, lib: Lib)
    requires Framing(lib) && Remainders(lib) && 0 < n < |lib.enc(NewEntry(0, None, q, lib))|
    ensures Returned(EMPTY, [Call(q, Torn(n))] + calls, lib) == []
  {
    var e := NewEntry(0, None, q, lib);
    var piece := lib.enc(e)[..n];
    FirstCall(q, Torn(n), lib);
    assert Line(e, lib)[..n] == piece;
    SplitUnbroken(piece);
    forall s: nat | s <= n ensures lib.read(piece[s..]).None? { LonePieceUnread(e, n, s, lib); }
    NothingFound(piece, lib);
    CallsCons(EMPTY, Call(q, Torn(n)), calls, lib);
    BlockedForever(Allocate(EMPTY, Call(q, Torn(n)), lib).store, calls, lib);
  }

  /** The line of an entry the schema refuses, and nothing else. */
  lemma RefusedLineAlone(e: Entry, lib: Lib)
    requires Framing(lib) && Remainders(lib) && !Schema(e, lib)
    ensures Search(Line(e, lib), lib.read) == None
  {
    OneLine(e, lib);
    forall s: nat | s <= |lib.enc(e)| ensures lib.read(lib.enc(e)[s..]).None? {
      LonePieceUnread(e, |lib.enc(e)|, s, lib);
      assert lib.enc(e)[..|lib.enc(e)|] == lib.enc(e);
    }
    NothingFound(Line(e, lib), lib);
  }

  /**
    Without any crash: a first call with an empty field returns epoch 1 and is the last one that ever succeeds. A first
    call without one leaves the allocator usable, so the empty field is exactly what blocks it.
   */
  lemma FirstCallBlocksExactly(q: Request, next: Request, calls: seq<Call>, lib: Lib)
    requires Framing(lib) && Remainders(lib)
    ensures var st := Allocate(EMPTY, Call(q, Finished), lib).store;
            && (Allocate(st, Call(next, Finished), lib).returned.Some? <==> Complete(q))
            && (!Complete(q) ==> Returned(EMPTY, [Call(q, Finished)] + calls, lib) == [1])
  {
    var e := NewEntry(0, None, q, lib);
    var st := Allocate(EMPTY, Call(q, Finished), lib).store;
    FirstCall(q, Finished, lib);
    NewEntrySchema(0, None, q, lib);
    NotBlocked(st, next, lib);
    if Complete(q) {
      OneLine(e, lib);
      SearchFinds(File(st), lib.read);
    } else {
      RefusedLineAlone(e, lib);
      CallsCons(EMPTY, Call(q, Finished), calls, lib);
      BlockedForever(st, calls, lib);
    }
  }

  lemma OneLine(e: Entry, lib: Lib)
    requires lib.read([]) == None && NEWLINE !in lib.enc(e)
    ensures Split(Line(e, lib)) == [lib.enc(e)] + [[]] && LastValid(Split(Line(e, lib)), lib.read) == lib.read(lib.enc(e))
  {
    var none: Bytes := [];
    SplitUnbroken(lib.enc(e));
    SplitTerminated(lib.enc(e));
    var lines := [lib.enc(e)] + [none];
    assert Split(Line(e, lib)) == lines;
    assert lines[..1] == [lib.enc(e)] && [lib.enc(e)][..0] == [];
    assert LastValid([lib.enc(e)][..0], lib.read) == None;
  }

  // ----- the allocator -----

  /** allocate_next_epoch under its lock, with the two files as fields. */
  class EpochStore {
    var journal: Option<Bytes>
    var counter: Option<nat>

    constructor (journal: Option<Bytes>, counter: Option<nat>)
      ensures this.journal == journal && this.counter == counter
    {
      this.journal := journal;
      this.counter := counter;
    }

    method AllocateNextEpoch(c: Call, lib: Lib) returns (epoch: Option<nat>)
      modifies this
      ensures Allocation(Store(journal, counter), epoch) == Allocate(old(Store(journal, counter)), c, lib)
      ensures epoch.Some? ==> counter == epoch && epoch.value > old(CounterEpoch(Store(journal, counter)))
      ensures epoch.Some? ==> exists e :: journal == Some(old(File(Store(journal, counter))) + Line(e, lib))
                                          && Records(e, c.request) && e.epoch == epoch.value && Signed(e, lib)
    {
      var current := if counter.Some? then counter.value else 0;
      var tail: Option<Entry> := None;
      if journal.Some? && |journal.value| > 0 {
        tail := FindValidTail(journal.value, lib.read);
        if tail.None? { return None; }
      }
      var tailEpoch := if tail.Some? then tail.value.epoch else 0;
      var previousHash := if tail.Some? then lib.sha(PayloadOf(tail.value)) else ZERO_HASH;
      var newEpoch := Max(current, tailEpoch) + 1;
      var payload := Payload(newEpoch, c.request.issuedAt, c.request.hostId, c.request.signer, previousHash);
      var entry := Entry(newEpoch, c.request.issuedAt, c.request.hostId, c.request.signer, previousHash, lib.sign(payload));
      if c.fate.CrashBefore? { return None; }
      if journal.None? { journal := Some([]); }
      if c.fate.CrashCreated? { return None; }
      var line := lib.enc(entry) + [NEWLINE];
      journal := Some(journal.value + if c.fate.Torn? then Cut(line, c.fate.written) else line);
      if c.fate.Torn? || c.fate.CrashBeforeRename? { return None; }
      counter := Some(newEpoch);
      assert line == Line(entry, lib);
      return Some(newEpoch);
    }
  }
}
