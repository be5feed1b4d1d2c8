/**
  The assumptions `EpochAllocator` makes about journal lines and digests can be met together: a concrete line format,
  with a start mark, an end mark and a number code between them, and an injective digest. For it, a concrete run of
  four calls shows that the condition of `EpochAllocator.RunExactly` is not always met.
 */
module EpochFraming {
  import opened Prelude
  import opened NumberCode
  import opened TailSearch
  import opened EpochAllocator

  const START: Byte := 2
  const END: Byte := 3
  const SIGNATURE := "s"

  function PayloadNumbers(p: Payload): (r: seq<nat>) {
    [p.epoch] + (Codes(p.issuedAt) + (Codes(p.hostId) + (Codes(p.signer) + Codes(p.previousHash))))
  }

  function Inner(e: Entry): (r: Bytes) {
    Marked(Encode(PayloadNumbers(PayloadOf(e)) + Codes(e.signature)), 5, 4)
  }

  function Enc(e: Entry): (r: Bytes) {
    [START] + Inner(e) + [END]
  }

  function Sha(p: Payload): (h: string) {
    Marked(Encode(PayloadNumbers(p)), '\U{1}', '\U{0}')
  }

  /** Signed by the one key there is, and admitted by the schema. */
  predicate Proper(e: Entry) {
    e.signature == SIGNATURE && e.issuedAt != "" && e.hostId != "" && e.signer != "" && e.previousHash != ""
  }

  ghost function Read(l: Bytes): (r: Option<Entry>) {
    if exists e: Entry :: Proper(e) && Enc(e) == l
    then var e: Entry :| Proper(e) && Enc(e) == l; Some(e)
    else None
  }

  ghost function Concrete(): (lib: Lib) {
    Lib(Enc, Read, Sha, _ => SIGNATURE, h => h != "", t => t)
  }

  // ----- the code is injective -----

  lemma PayloadFirst(p: Payload, q: Payload, x: seq<nat>, y: seq<nat>)
    requires PayloadNumbers(p) + x == PayloadNumbers(q) + y
    ensures p == q && x == y
  {
    var l, r := PayloadNumbers(p) + x, PayloadNumbers(q) + y;
    assert l[0] == p.epoch && r[0] == q.epoch;
    assert l[1..] == Codes(p.issuedAt) + (Codes(p.hostId) + (Codes(p.signer) + (Codes(p.previousHash) + x)));
    assert r[1..] == Codes(q.issuedAt) + (Codes(q.hostId) + (Codes(q.signer) + (Codes(q.previousHash) + y)));
    CodesFirst(p.issuedAt, q.issuedAt, Codes(p.hostId) + (Codes(p.signer) + (Codes(p.previousHash) + x)),
               Codes(q.hostId) + (Codes(q.signer) + (Codes(q.previousHash) + y)));
    CodesFirst(p.hostId, q.hostId, Codes(p.signer) + (Codes(p.previousHash) + x), Codes(q.signer) + (Codes(q.previousHash) + y));
    CodesFirst(p.signer, q.signer, Codes(p.previousHash) + x, Codes(q.previousHash) + y);
    CodesFirst(p.previousHash, q.previousHash, x, y);
  }

  lemma EncInjective(a: Entry, b: Entry)
    requires Enc(a) == Enc(b)
    ensures a == b
  {
    assert Inner(a) == Enc(a)[1..|Enc(a)| - 1] && Inner(b) == Enc(b)[1..|Enc(b)| - 1];
    var x, y := PayloadNumbers(PayloadOf(a)) + Codes(a.signature), PayloadNumbers(PayloadOf(b)) + Codes(b.signature);
    MarkedInjective<Byte>(Encode(x), Encode(y), 5, 4);
    EncodeInjective(x, y);
    PayloadFirst(PayloadOf(a), PayloadOf(b), Codes(a.signature), Codes(b.signature));
    assert Codes(a.signature) + [] == Codes(a.signature) && Codes(b.signature) + [] == Codes(b.signature);
    CodesFirst(a.signature, b.signature, [], []);
  }

  lemma ShaInjective(p: Payload, q: Payload)
    requires Sha(p) == Sha(q)
    ensures p == q
  {
    MarkedInjective(Encode(PayloadNumbers(p)), Encode(PayloadNumbers(q)), '\U{1}', '\U{0}');
    EncodeInjective(PayloadNumbers(p), PayloadNumbers(q));
    assert PayloadNumbers(p) + [] == PayloadNumbers(p) && PayloadNumbers(q) + [] == PayloadNumbers(q);
    PayloadFirst(p, q, [], []);
  }

  /** A digest is not empty and holds no zero digit. */
  lemma ShaShape(p: Payload)
    ensures Sha(p) != "" && Sha(p) != ZERO_HASH
  {
    var ns := PayloadNumbers(p);
    assert ns[0] == p.epoch && Encode(ns) == Unary(ns[0]) + Encode(ns[1..]);
    assert Sha(p)[0] != '0' && ZERO_HASH[0] == '0';
  }

  // ----- the line format is framed -----

  /** The marks stand at the two ends and nowhere else. */
  lemma Marks(e: Entry)
    ensures |Enc(e)| >= 2 && Enc(e)[0] == START && Enc(e)[|Enc(e)| - 1] == END && NEWLINE !in Enc(e)
    ensures forall i | 0 < i < |Enc(e)| :: Enc(e)[i] != START
    ensures forall i | 0 <= i < |Enc(e)| - 1 :: Enc(e)[i] != END
  {
    forall i | 0 < i < |Enc(e)| - 1 ensures Enc(e)[i] == 4 || Enc(e)[i] == 5 {
      assert Enc(e)[i] == Inner(e)[i - 1];
    }
  }

  lemma ReadStarts(l: Bytes)
    requires Read(l).Some?
    ensures l != [] && l[0] == START
  {
    var e: Entry :| Proper(e) && Enc(e) == l;
    Marks(e);
  }

  lemma {:induction false} GlueStarts(parts: seq<Fragment>, lib: Lib)
    requires lib.enc == Enc && Real(parts, lib) && parts != []
    ensures Glue(parts, lib) != [] && Glue(parts, lib)[0] == START
    decreases |parts|
  {
    var k := |parts| - 1;
    assert parts[k] in parts && forall p | p in parts[..k] :: p in parts;
    Marks(parts[k].e);
    if k > 0 { GlueStarts(parts[..k], lib); }
  }

  /** Several pieces have a start mark inside. */
  lemma GlueMarked(parts: seq<Fragment>, lib: Lib)
    requires lib.enc == Enc && Real(parts, lib) && |parts| >= 2
    ensures exists i :: 0 < i < |Glue(parts, lib)| && Glue(parts, lib)[i] == START
  {
    var k := |parts| - 1;
    assert parts[k] in parts && forall p | p in parts[..k] :: p in parts;
    GlueStarts(parts[..k], lib);
    Marks(parts[k].e);
    var before := Glue(parts[..k], lib);
    assert Glue(parts, lib)[|before|] == START;
  }

  lemma ReadBack(e: Entry)
    requires e.signature == SIGNATURE
    ensures Read(Enc(e)) == if Proper(e) then Some(e) else None
  {
    forall d: Entry | Enc(d) == Enc(e) ensures d == e { EncInjective(d, e); }
  }

  lemma GlueUnread(parts: seq<Fragment>, lib: Lib)
    requires lib.enc == Enc && Real(parts, lib) && |parts| >= 2
    ensures Read(Glue(parts, lib)) == None
  {
    GlueMarked(parts, lib);
    forall d: Entry ensures Enc(d) != Glue(parts, lib) { Marks(d); }
  }

  lemma PrefixUnread(e: Entry, k: nat)
    requires 0 < k < |Enc(e)|
    ensures Read(Enc(e)[..k]) == None
  {
    Marks(e);
    forall d: Entry ensures Enc(d) != Enc(e)[..k] {
      Marks(d);
      assert Enc(e)[..k][k - 1] == Enc(e)[k - 1];
    }
  }

  lemma FramingHolds(lib: Lib)
    requires lib == Concrete()
    ensures Framing(lib)
  {
    forall e: Entry ensures |lib.enc(e)| > 0 && NEWLINE !in lib.enc(e) { Marks(e); }
    forall e: Entry | Signed(e, lib) ensures lib.read(lib.enc(e)) == if Schema(e, lib) then Some(e) else None { ReadBack(e); }
    EmptyUnread();
    forall parts | Real(parts, lib) && |parts| >= 2 ensures lib.read(Glue(parts, lib)) == None { GlueUnread(parts, lib); }
    forall e: Entry, k | 0 < k < |lib.enc(e)| ensures lib.read(lib.enc(e)[..k]) == None { PrefixUnread(e, k); }
    forall p ensures lib.hexHash(lib.sha(p)) { ShaShape(p); }
  }

  /** What starts with the only start mark of a text, and has only one itself, is all of the text after `before`. */
  lemma MarkedSuffix(before: Bytes, piece: Bytes, s: nat, l: Bytes)
    requires s <= |before + piece| && (before + piece)[s..] == l && piece != [] && l != []
    requires piece[0] == START && forall i | 0 < i < |piece| :: piece[i] != START
    requires l[0] == START && forall i | 0 < i < |l| :: l[i] != START
    ensures s == |before| && piece == l
  {
    assert s <= |before| ==> l[|before| - s] == piece[0];
    assert s >= |before| ==> l[0] == piece[s - |before|];
  }

  /** A remainder that is read begins with a start mark, so it is the last piece and nothing else. */
  lemma RemainderIsLast(parts: seq<Fragment>, s: nat, d: Entry, lib: Lib)
    requires lib.enc == Enc && Real(parts, lib) && parts != [] && s <= |Glue(parts, lib)| && Glue(parts, lib)[s..] == Enc(d)
    ensures parts[|parts| - 1] == Fragment(d, |Enc(d)|)
  {
    var n := |parts| - 1;
    var last := parts[n];
    assert last in parts;
    Marks(d);
    Marks(last.e);
    var piece := Enc(last.e)[..last.k];
    MarkedSuffix(Glue(parts[..n], lib), piece, s, Enc(d));
    assert piece[last.k - 1] == END;
    assert Enc(last.e)[..|Enc(last.e)|] == Enc(last.e);
    EncInjective(last.e, d);
  }

  lemma RemaindersHold(lib: Lib)
    requires lib == Concrete()
    ensures Remainders(lib)
  {
    forall parts, s | Real(parts, lib) && 0 <= s <= |Glue(parts, lib)| && lib.read(Glue(parts, lib)[s..]).Some?
      ensures Supplies(parts, lib.read(Glue(parts, lib)[s..]).value, lib)
    {
      var l := Glue(parts, lib)[s..];
      var d: Entry :| Proper(d) && Enc(d) == l;
      ReadBack(d);
      Marks(d);
      RemainderIsLast(parts, s, d, lib);
      assert parts[|parts| - 1] in parts;
    }
  }

  lemma IdealHashHolds(lib: Lib)
    requires lib == Concrete()
    ensures IdealHash(lib)
  {
    forall p, q ensures lib.sha(p) == lib.sha(q) <==> NormalForm(p, lib) == NormalForm(q, lib) {
      if lib.sha(p) == lib.sha(q) { ShaInjective(p, q); }
    }
    forall p ensures lib.sha(p) != ZERO_HASH { ShaShape(p); }
  }

  // ----- how long a line is -----

  lemma UnaryLength(n: nat)
    ensures |Unary(n)| == n + 1
  {
  }

  lemma {:induction false} EncodeConcat(a: seq<nat>, b: seq<nat>)
    ensures |Encode(a + b)| == |Encode(a)| + |Encode(b)|
  {
    if a == [] {
      assert a + b == b;
    } else {
      assert (a + b)[1..] == a[1..] + b;
      EncodeConcat(a[1..], b);
    }
  }

  lemma OneMore(n: int, c: int)
    ensures n * c == c + (n - 1) * c
  {
  }

  lemma {:induction false} EncodeBound(ns: seq<nat>, c: nat)
    requires forall n | n in ns :: n < c
    ensures |Encode(ns)| <= |ns| * c
  {
    if ns != [] {
      assert ns[0] in ns && forall n | n in ns[1..] :: n in ns;
      UnaryLength(ns[0]);
      EncodeBound(ns[1..], c);
      OneMore(|ns|, c);
    }
  }

  lemma {:induction false} EncodeZeros(ns: seq<nat>)
    requires forall n | n in ns :: n == 0
    ensures |Encode(ns)| == |ns|
  {
    if ns != [] {
      assert ns[0] in ns && forall n | n in ns[1..] :: n in ns;
      EncodeZeros(ns[1..]);
    }
  }

  function Size(s: string): (n: nat) {
    |Encode(Codes(s))|
  }

  lemma SizeSplit(s: string)
    ensures Size(s) == |s| + 1 + |Encode(Codes(s)[1..])|
  {
    UnaryLength(|s|);
  }

  lemma SizeBound(s: string, c: nat)
    requires forall ch | ch in s :: ch as int < c
    ensures Size(s) <= |s| + 1 + |s| * c
  {
    SizeSplit(s);
    var ns := Codes(s)[1..];
    forall n | n in ns ensures n < c {
      var i :| 0 <= i < |ns| && ns[i] == n;
      assert n == s[i] as int && s[i] in s;
    }
    EncodeBound(ns, c);
  }

  function Filled(n: nat): (s: string)
    ensures |s| == n && forall ch | ch in s :: ch == '\U{0}'
  {
    seq(n, _ => '\U{0}')
  }

  lemma FilledSize(n: nat)
    ensures Size(Filled(n)) == 2 * n + 1
    ensures Size(Filled(n) + ['\U{1}']) == 2 * n + 4
  {
    SizeSplit(Filled(n));
    var ns := Codes(Filled(n))[1..];
    EncodeZeros(ns);
    var more := Filled(n) + ['\U{1}'];
    SizeSplit(more);
    assert Codes(more)[1..] == ns + [1];
    EncodeConcat(ns, [1]);
    assert |Encode([1])| == 2 by { UnaryLength(1); assert [1][1..] == []; }
  }

  /** A text of any wanted size from 4 on. */
  function OfSize(n: nat): (s: string)
    requires n >= 4
    ensures s != ""
  {
    if n % 2 == 1 then Filled((n - 1) / 2) else Filled((n - 4) / 2) + ['\U{1}']
  }

  lemma OfSizeSize(n: nat)
    requires n >= 4
    ensures Size(OfSize(n)) == n
  {
    FilledSize((n - 1) / 2);
    FilledSize((n - 4) / 2);
  }

  function PayloadSize(p: Payload): (n: nat) {
    p.epoch + 1 + Size(p.issuedAt) + Size(p.hostId) + Size(p.signer) + Size(p.previousHash)
  }

  lemma PayloadLength(p: Payload)
    ensures |Encode(PayloadNumbers(p))| == PayloadSize(p)
  {
    EncodeConcat(Codes(p.signer), Codes(p.previousHash));
    EncodeConcat(Codes(p.hostId), Codes(p.signer) + Codes(p.previousHash));
    EncodeConcat(Codes(p.issuedAt), Codes(p.hostId) + (Codes(p.signer) + Codes(p.previousHash)));
    EncodeConcat([p.epoch], Codes(p.issuedAt) + (Codes(p.hostId) + (Codes(p.signer) + Codes(p.previousHash))));
    UnaryLength(p.epoch);
    assert [p.epoch][1..] == [];
  }

  lemma EncLength(e: Entry)
    ensures |Enc(e)| == PayloadSize(PayloadOf(e)) + Size(e.signature) + 2
  {
    EncodeConcat(PayloadNumbers(PayloadOf(e)), Codes(e.signature));
    PayloadLength(PayloadOf(e));
  }

  lemma ShaSize(p: Payload)
    ensures Size(Sha(p)) <= PayloadSize(p) + 1 + PayloadSize(p) * 2
  {
    PayloadLength(p);
    SizeBound(Sha(p), 2);
  }

  // ----- a run that breaks the chain -----

  const SHORT := Request("t", "h", "s")

  /** The first entry of the run. */
  ghost function First(): (e: Entry) {
    NewEntry(0, None, SHORT, Concrete())
  }

  lemma FirstSize()
    ensures PayloadSize(PayloadOf(First())) <= 4000
  {
    SizeBound("t", 128);
    SizeBound("h", 128);
    SizeBound("s", 128);
    SizeBound(ZERO_HASH, 49);
  }

  /** How long the host name of the third call has to be. */
  ghost function HostSize(): (n: int) {
    64 * 1024 - 3 - (3 + Size("t") + Size("s") + Size(Sha(PayloadOf(First()))) + Size(SIGNATURE))
  }

  lemma HostFits()
    ensures HostSize() >= 4
  {
    FirstSize();
    ShaSize(PayloadOf(First()));
    SizeBound("t", 128);
    SizeBound("s", 128);
  }

  ghost function Long(): (q: Request) {
    HostFits();
    Request("t", OfSize(HostSize()), "s")
  }

  /** The third entry's line fills the first window exactly. */
  lemma LongLine(lib: Lib)
    requires lib == Concrete()
    ensures |Line(NewEntry(1, Some(First()), Long(), lib), lib)| == 64 * 1024 && Complete(Long())
  {
    HostFits();
    OfSizeSize(HostSize());
    EncLength(NewEntry(1, Some(First()), Long(), lib));
  }

  /** Where start marks only begin lines, the windows change nothing. */
  lemma MarkedLinesSearch(file: Bytes)
    requires forall line, i | line in Split(file) && 0 < i < |line| :: line[i] != START
    ensures Search(file, Read) == Scan(file, Read)
  {
    forall line, k | line in Split(file) && 0 < k <= |line| ensures Read(line[k..]).None? {
      if Read(line[k..]).Some? { ReadStarts(line[k..]); }
    }
    SearchRefinesScan(file, Read);
  }

  /** A line of exactly the first window's size: whatever stands before it, the search starts at its first byte. */
  lemma JointWindow(before: Bytes, e: Entry, lib: Lib)
    requires lib.read(lib.enc(e)) == Some(e) && lib.read([]) == None && NEWLINE !in lib.enc(e)
    requires |Line(e, lib)| == 64 * 1024 && before != []
    ensures Search(before + Line(e, lib), lib.read) == Some(e)
  {
    OneLine(e, lib);
    var file := before + Line(e, lib);
    assert Tail(file, 64 * 1024) == Line(e, lib);
    assert Windows(|file|)[0] == 64 * 1024;
  }

  /** One entry's line, then the first byte of another's. */
  lemma LineAndMark(e: Entry, lib: Lib)
    requires lib == Concrete()
    ensures Split(Line(e, lib)) == [Enc(e)] + [[]]
    ensures Split(Line(e, lib) + [START]) == [Enc(e)] + [[START]]
    ensures Search(Line(e, lib), lib.read) == Scan(Line(e, lib), lib.read)
    ensures Search(Line(e, lib) + [START], lib.read) == Scan(Line(e, lib) + [START], lib.read)
  {
    Marks(e);
    SplitUnbroken(Enc(e));
    SplitTerminated(Enc(e));
    SplitPiece(Line(e, lib), [START]);
    assert [] + [START] == [START];
    MarkedLinesSearch(Line(e, lib));
    MarkedLinesSearch(Line(e, lib) + [START]);
  }

  lemma LineAndMarkValid(e: Entry, lib: Lib)
    requires lib == Concrete() && Proper(e)
    ensures Valid(Line(e, lib), lib) == [e] && Valid(Line(e, lib) + [START], lib) == [e]
    ensures Search(Line(e, lib), lib.read) == Some(e) && Search(Line(e, lib) + [START], lib.read) == Some(e)
  {
    LineAndMark(e, lib);
    FramingHolds(lib);
    var none: Bytes := [];
    var alone: seq<Bytes> := [];
    assert Read([START]).None? by { MarkUnread(); }
    ReadBack(e);
    ValidLinesSnoc(alone, Enc(e), lib.read);
    assert alone + [Enc(e)] == [Enc(e)];
    ValidLinesSnoc([Enc(e)], none, lib.read);
    ValidLinesSnoc([Enc(e)], [START], lib.read);
    ScanIsLast(Line(e, lib), lib);
    ScanIsLast(Line(e, lib) + [START], lib);
  }

  lemma MarkUnread()
    ensures Read([START]).None?
  {
    forall d: Entry ensures Enc(d) != [START] { Marks(d); }
  }

  lemma SecondCall(st: Store, e1: Entry, q: Request, lib: Lib)
    requires st == Store(Some(Line(e1, lib)), Some(1)) && e1.epoch == 1 && Search(Line(e1, lib), lib.read) == Some(e1)
    requires var enc := lib.enc(NewEntry(1, Some(e1), q, lib)); enc != [] && enc[0] == START
    ensures Allocate(st, Call(q, Torn(1)), lib).store == Store(Some(Line(e1, lib) + [START]), Some(1))
  {
    assert Cut(Line(NewEntry(1, Some(e1), q, lib), lib), 1) == [START];
  }

  lemma ThirdCall(st: Store, e1: Entry, q: Request, lib: Lib)
    requires st.counter == Some(1) && e1.epoch == 1 && Search(File(st), lib.read) == Some(e1)
    ensures File(Allocate(st, Call(q, Finished), lib).store) == File(st) + Line(NewEntry(1, Some(e1), q, lib), lib)
  {
  }

  /** The three calls that build the joint: a complete append, one byte of a second, a complete third. */
  lemma ThreeCalls(e1: Entry, q: Request, st1: Store, st2: Store, st3: Store, lib: Lib)
    requires lib == Concrete() && e1 == NewEntry(0, None, SHORT, lib) && Proper(e1)
    requires st1 == Allocate(EMPTY, Call(SHORT, Finished), lib).store
    requires st2 == Allocate(st1, Call(SHORT, Torn(1)), lib).store
    requires st3 == Allocate(st2, Call(q, Finished), lib).store
    ensures File(st1) == Line(e1, lib) && File(st2) == Line(e1, lib) + [START]
    ensures File(st3) == Line(e1, lib) + [START] + Line(NewEntry(1, Some(e1), q, lib), lib)
  {
    FirstCall(SHORT, Finished, lib);
    LineAndMarkValid(e1, lib);
    Marks(NewEntry(1, Some(e1), SHORT, lib));
    SecondCall(st1, e1, SHORT, lib);
    ThirdCall(st2, e1, q, lib);
  }

  /** The glued line is lost, and the search finds its second part. */
  lemma JointLines(e1: Entry, e3: Entry, lib: Lib)
    requires lib == Concrete() && Proper(e1) && Proper(e3) && |Line(e3, lib)| == 64 * 1024
    ensures var file := Line(e1, lib) + [START] + Line(e3, lib);
            Last(file) == [] && Valid(file, lib) == [e1] && Search(file, lib.read) == Some(e3)
  {
    var head := Line(e1, lib) + [START];
    ReadBack(e3);
    Marks(e3);
    EmptyUnread();
    JointWindow(head, e3, lib);
    LineAndMark(e1, lib);
    JointUnread(e3, lib);
    WholeLines(head, [Enc(e1)], [START], Enc(e3), lib.read);
    assert head + Line(e3, lib) == head + Enc(e3) + [NEWLINE];
    FirstAlone(e1);
  }

  lemma EmptyUnread()
    ensures Read([]).None?
  {
    forall d: Entry ensures Enc(d) != [] { Marks(d); }
  }

  lemma FirstAlone(e: Entry)
    requires Proper(e)
    ensures ValidLines([Enc(e)], Read) == [e]
  {
    var alone: seq<Bytes> := [];
    ReadBack(e);
    ValidLinesSnoc(alone, Enc(e), Read);
    assert alone + [Enc(e)] == [Enc(e)];
  }

  lemma JointUnread(e: Entry, lib: Lib)
    requires lib == Concrete()
    ensures Read([START] + Enc(e)).None? && NEWLINE !in Enc(e)
  {
    Marks(e);
    assert ([START] + Enc(e))[1] == START;
    forall d: Entry ensures Enc(d) != [START] + Enc(e) { Marks(d); }
  }

  /** Three calls that keep the chain and a fourth one that breaks it. */
  ghost predicate FourthBreaksChain(c1: Call, c2: Call, c3: Call, c4: Call, lib: Lib) {
    && ChainedThroughout(EMPTY, [c1, c2, c3], lib)
    && !Chained(Valid(File(After(EMPTY, [c1, c2, c3, c4], lib)), lib), lib)
  }

  /**
    The condition of `RunExactly` is a real one. From the empty store: a complete append, one byte of a second one, a
    complete one whose line has exactly 64 KiB, and one more. After the third call the valid lines are chained; the
    fourth finds the glued entry at the start of its first window and writes an entry that breaks the chain.
   */
  lemma JointRunBreaksChain() returns (lib: Lib, short: Request, long: Request)
    ensures Framing(lib) && Remainders(lib) && IdealHash(lib) && Complete(short) && Complete(long)
    ensures FourthBreaksChain(Call(short, Finished), Call(short, Torn(1)), Call(long, Finished), Call(short, Finished), lib)
  {
    lib, short, long := Concrete(), SHORT, Long();
    LongLine(lib);
    FramingHolds(lib);
    RemaindersHold(lib);
    IdealHashHolds(lib);
    JointRun(Call(short, Finished), Call(short, Torn(1)), Call(long, Finished), Call(short, Finished), lib);
  }

  lemma JointRun(c1: Call, c2: Call, c3: Call, c4: Call, lib: Lib)
    requires lib == Concrete() && c1 == Call(SHORT, Finished) && c2 == Call(SHORT, Torn(1))
    requires c3 == Call(Long(), Finished) && c4 == Call(SHORT, Finished)
    ensures FourthBreaksChain(c1, c2, c3, c4, lib)
  {
    var e1 := First();
    var st1 := Allocate(EMPTY, c1, lib).store;
    var st2 := Allocate(st1, c2, lib).store;
    var st3 := Allocate(st2, c3, lib).store;
    ThreeCalls(e1, Long(), st1, st2, st3, lib);
    LineAndMarkValid(e1, lib);
    LongLine(lib);
    JointLines(e1, NewEntry(1, Some(e1), Long(), lib), lib);
    FramingHolds(lib);
    IdealHashHolds(lib);
    FourthBreaks(st3, e1, NewEntry(1, Some(e1), Long(), lib), SHORT, lib);
    FourCalls(c1, c2, c3, c4, st1, st2, st3, lib);
    ThreeChained(c1, c2, c3, st1, st2, st3, lib);
  }

  lemma FourthBreaks(st: Store, e1: Entry, e3: Entry, q: Request, lib: Lib)
    requires Framing(lib) && IdealHash(lib) && Complete(q) && e1.previousHash == ZERO_HASH && e1.epoch < e3.epoch
    requires Last(File(st)) == [] && Valid(File(st), lib) == [e1] && Search(File(st), lib.read) == Some(e3)
    ensures !Chained(Valid(File(Allocate(st, Call(q, Finished), lib).store), lib), lib)
  {
    EmptyTailGlued(File(st), lib);
    StepExactly(st, Call(q, Finished), lib);
    FinishedLands(st, q, lib);
    ScanIsLast(File(st), lib);
  }

  lemma FourCalls(c1: Call, c2: Call, c3: Call, c4: Call, st1: Store, st2: Store, st3: Store, lib: Lib)
    requires st1 == Allocate(EMPTY, c1, lib).store && st2 == Allocate(st1, c2, lib).store && st3 == Allocate(st2, c3, lib).store
    ensures After(EMPTY, [c1, c2, c3, c4], lib) == Allocate(st3, c4, lib).store
  {
    CallsCons(EMPTY, c1, [c2, c3, c4], lib);
    CallsCons(st1, c2, [c3, c4], lib);
    CallsCons(st2, c3, [c4], lib);
    CallsCons(st3, c4, [], lib);
    assert [c1] + [c2, c3, c4] == [c1, c2, c3, c4] && [c2] + [c3, c4] == [c2, c3, c4];
    assert [c3] + [c4] == [c3, c4] && [c4] + [] == [c4];
  }

  lemma ChainedCons(st: Store, c: Call, rest: seq<Call>, lib: Lib)
    requires Chained(Valid(File(st), lib), lib) && ChainedThroughout(Allocate(st, c, lib).store, rest, lib)
    ensures ChainedThroughout(st, [c] + rest, lib)
  {
    assert ([c] + rest)[1..] == rest;
  }

  lemma ThreeChained(c1: Call, c2: Call, c3: Call, st1: Store, st2: Store, st3: Store, lib: Lib)
    requires st1 == Allocate(EMPTY, c1, lib).store && st2 == Allocate(st1, c2, lib).store && st3 == Allocate(st2, c3, lib).store
    requires lib.read([]) == None && Chained(Valid(File(st1), lib), lib)
    requires Chained(Valid(File(st2), lib), lib) && Chained(Valid(File(st3), lib), lib)
    ensures ChainedThroughout(EMPTY, [c1, c2, c3], lib)
  {
    EmptyInv(lib);
    assert [c1] + [c2, c3] == [c1, c2, c3] && [c2] + [c3] == [c2, c3] && [c3] + [] == [c3];
    ChainedCons(st2, c3, [], lib);
    ChainedCons(st1, c2, [c3], lib);
    ChainedCons(EMPTY, c1, [c2, c3], lib);
  }
}
