/**
  The order of epochs in the journal of scripts/taskhub_active_registry.py: whatever the tail search hits, and wherever
  calls crash, the epochs of the valid lines strictly increase in file order. Only the hash links can break.
 */
module EpochOrder {
  import opened Prelude
  import opened TailSearch
  import opened EpochAllocator

  /** Every line is glued from pieces of entries. */
  ghost predicate Laid(lines: seq<Bytes>, frags: seq<seq<Fragment>>, lib: Lib) {
    |lines| == |frags| && forall i | 0 <= i < |lines| :: Real(frags[i], lib) && lines[i] == Glue(frags[i], lib)
  }

  /** Every piece, read or not, has a larger epoch than any valid line before its own. */
  ghost predicate Climbing(lines: seq<Bytes>, frags: seq<seq<Fragment>>, read: Reader<Entry>)
    requires |lines| == |frags|
  {
    forall i, j | 0 <= i < j < |lines| && read(lines[i]).Some? :: Above(frags[j], read(lines[i]).value.epoch)
  }

  ghost predicate Above(parts: seq<Fragment>, n: nat) {
    forall p | p in parts :: n < p.e.epoch
  }

  ghost predicate OrderInv(file: Bytes, lib: Lib) {
    exists frags :: Laid(Split(file), frags, lib) && Climbing(Split(file), frags, lib.read)
  }

  // ----- what a search hits -----

  ghost predicate From(parts: seq<Fragment>, e: Entry) {
    exists p :: p in parts && p.e == e
  }

  /** What is read from a remainder of a line is one of its pieces; a line read as a whole has only that piece. */
  ghost predicate Sourced(lines: seq<Bytes>, frags: seq<seq<Fragment>>, read: Reader<Entry>) {
    && |lines| == |frags|
    && (forall j, s | 0 <= j < |lines| && 0 <= s <= |lines[j]| && read(lines[j][s..]).Some? ::
          From(frags[j], read(lines[j][s..]).value))
    && (forall j | 0 <= j < |lines| && read(lines[j]).Some? :: |frags[j]| == 1 && frags[j][0].e == read(lines[j]).value)
  }

  lemma ReadIsPiece(parts: seq<Fragment>, s: nat, lib: Lib)
    requires Remainders(lib) && Real(parts, lib) && s <= |Glue(parts, lib)| && lib.read(Glue(parts, lib)[s..]).Some?
    ensures From(parts, lib.read(Glue(parts, lib)[s..]).value)
  {
    assert Supplies(parts, lib.read(Glue(parts, lib)[s..]).value, lib);
  }

  lemma OnePieceRead(parts: seq<Fragment>, lib: Lib)
    requires Framing(lib) && Real(parts, lib) && lib.read(Glue(parts, lib)).Some?
    ensures |parts| == 1
  {
  }

  lemma LonePiece(parts: seq<Fragment>, e: Entry)
    requires |parts| == 1 && From(parts, e)
    ensures parts[0].e == e
  {
  }

  lemma ReadAlone(parts: seq<Fragment>, lib: Lib)
    requires Framing(lib) && Remainders(lib) && Real(parts, lib) && lib.read(Glue(parts, lib)).Some?
    ensures |parts| == 1 && parts[0].e == lib.read(Glue(parts, lib)).value
  {
    assert Glue(parts, lib)[0..] == Glue(parts, lib);
    ReadIsPiece(parts, 0, lib);
    OnePieceRead(parts, lib);
    LonePiece(parts, lib.read(Glue(parts, lib)).value);
  }

  lemma LaidSourced(lines: seq<Bytes>, frags: seq<seq<Fragment>>, lib: Lib)
    requires Framing(lib) && Remainders(lib) && Laid(lines, frags, lib)
    ensures Sourced(lines, frags, lib.read)
  {
    forall j, s | 0 <= j < |lines| && 0 <= s <= |lines[j]| && lib.read(lines[j][s..]).Some?
      ensures From(frags[j], lib.read(lines[j][s..]).value)
    {
      ReadIsPiece(frags[j], s, lib);
    }
    forall j | 0 <= j < |lines| && lib.read(lines[j]).Some?
      ensures |frags[j]| == 1 && frags[j][0].e == lib.read(lines[j]).value
    {
      ReadAlone(frags[j], lib);
    }
  }

  lemma {:induction false} LastValidAt(lines: seq<Bytes>, read: Reader<Entry>) returns (j: nat)
    requires LastValid(lines, read).Some?
    ensures j < |lines| && read(lines[j]) == LastValid(lines, read)
    ensures forall a | j < a < |lines| :: read(lines[a]).None?
  {
    var n := |lines| - 1;
    if read(lines[n]).Some? {
      j := n;
    } else {
      j := LastValidAt(lines[..n], read);
    }
  }

  /** No valid line has an epoch above `n`. */
  ghost predicate UpTo(lines: seq<Bytes>, n: int, read: Reader<Entry>) {
    forall a | 0 <= a < |lines| && read(lines[a]).Some? :: read(lines[a]).value.epoch <= n
  }

  /** An entry read from a remainder of line `j`, with no valid line after it, is no older than any valid line. */
  lemma RemainderBounds(lines: seq<Bytes>, frags: seq<seq<Fragment>>, j: nat, s: nat, read: Reader<Entry>)
    requires Sourced(lines, frags, read) && Climbing(lines, frags, read)
    requires j < |lines| && s <= |lines[j]| && read(lines[j][s..]).Some?
    requires forall a | j < a < |lines| :: read(lines[a]).None?
    ensures UpTo(lines, read(lines[j][s..]).value.epoch, read)
  {
    var p :| p in frags[j] && p.e == read(lines[j][s..]).value;
    forall a | 0 <= a < |lines| && read(lines[a]).Some? ensures read(lines[a]).value.epoch <= p.e.epoch {
      assert a < j ==> Above(frags[j], read(lines[a]).value.epoch);
    }
  }

  /** The same for whatever a window that starts in line `i` yields. */
  lemma HitBounds(lines: seq<Bytes>, frags: seq<seq<Fragment>>, i: nat, s: nat, read: Reader<Entry>)
    requires Sourced(lines, frags, read) && Climbing(lines, frags, read)
    requires i < |lines| && s <= |lines[i]| && LastValid([lines[i][s..]] + lines[i + 1..], read).Some?
    ensures UpTo(lines, LastValid([lines[i][s..]] + lines[i + 1..], read).value.epoch, read)
  {
    var pieces := [lines[i][s..]] + lines[i + 1..];
    var j := LastValidAt(pieces, read);
    forall a | i + j < a < |lines| ensures read(lines[a]).None? { assert lines[a] == pieces[a - i]; }
    if j == 0 {
      RemainderBounds(lines, frags, i, s, read);
    } else {
      assert lines[i + j][0..] == lines[i + j] == pieces[j];
      RemainderBounds(lines, frags, i + j, 0, read);
    }
  }

  lemma WindowBounds(file: Bytes, window: nat, frags: seq<seq<Fragment>>, read: Reader<Entry>)
    requires Sourced(Split(file), frags, read) && Climbing(Split(file), frags, read)
    requires LastValid(Split(Tail(file, window)), read).Some?
    ensures UpTo(Split(file), LastValid(Split(Tail(file, window)), read).value.epoch, read)
  {
    var start := if window < |file| then |file| - window else 0;
    assert file[0..] == file;
    var i, k := SplitCut(file, start);
    HitBounds(Split(file), frags, i, k, read);
  }

  lemma {:induction false} WindowedBounds(file: Bytes, windows: seq<nat>, frags: seq<seq<Fragment>>, read: Reader<Entry>)
    requires Sourced(Split(file), frags, read) && Climbing(Split(file), frags, read)
    requires Windowed(file, windows, read).Some?
    ensures UpTo(Split(file), Windowed(file, windows, read).value.epoch, read)
  {
    if LastValid(Split(Tail(file, windows[0])), read).Some? {
      WindowBounds(file, windows[0], frags, read);
    } else {
      WindowedBounds(file, windows[1..], frags, read);
    }
  }

  /** Whatever the search hits, a line or the middle of one, is no older than any valid line. */
  lemma SearchBounds(file: Bytes, lib: Lib)
    requires Framing(lib) && Remainders(lib) && OrderInv(file, lib) && Search(file, lib.read).Some?
    ensures UpTo(Split(file), Search(file, lib.read).value.epoch, lib.read)
  {
    var frags :| Laid(Split(file), frags, lib) && Climbing(Split(file), frags, lib.read);
    LaidSourced(Split(file), frags, lib);
    WindowedBounds(file, Windows(|file|), frags, lib.read);
  }

  // ----- what an append keeps -----

  lemma GlueOneMore(parts: seq<Fragment>, e: Entry, k: nat, lib: Lib)
    requires Real(parts, lib) && 0 < k <= |lib.enc(e)|
    ensures Real(parts + [Fragment(e, k)], lib)
    ensures Glue(parts + [Fragment(e, k)], lib) == Glue(parts, lib) + lib.enc(e)[..k]
  {
    var more := parts + [Fragment(e, k)];
    assert more[..|more| - 1] == parts;
  }

  /** A last line that is longer by one piece. */
  function Longer(lines: seq<Bytes>, d: Bytes): (r: seq<Bytes>)
    requires lines != []
  {
    lines[..|lines| - 1] + [lines[|lines| - 1] + d]
  }

  function MorePieces(frags: seq<seq<Fragment>>, p: Fragment): (r: seq<seq<Fragment>>)
    requires frags != []
  {
    frags[..|frags| - 1] + [frags[|frags| - 1] + [p]]
  }

  lemma PieceLaid(lines: seq<Bytes>, frags: seq<seq<Fragment>>, e: Entry, k: nat, lib: Lib)
    requires Laid(lines, frags, lib) && lines != [] && 0 < k <= |lib.enc(e)|
    ensures Laid(Longer(lines, lib.enc(e)[..k]), MorePieces(frags, Fragment(e, k)), lib)
  {
    GlueOneMore(frags[|lines| - 1], e, k, lib);
  }

  lemma PieceClimbs(lines: seq<Bytes>, frags: seq<seq<Fragment>>, d: Bytes, p: Fragment, read: Reader<Entry>)
    requires |lines| == |frags| && Climbing(lines, frags, read) && lines != [] && UpTo(lines, p.e.epoch - 1, read)
    ensures Climbing(Longer(lines, d), MorePieces(frags, p), read)
  {
    var longer, more := Longer(lines, d), MorePieces(frags, p);
    forall i, j | 0 <= i < j < |longer| && read(longer[i]).Some? ensures Above(more[j], read(longer[i]).value.epoch) {
      assert longer[i] == lines[i] && Above(frags[j], read(lines[i]).value.epoch);
    }
  }

  lemma NewlineLaid(lines: seq<Bytes>, frags: seq<seq<Fragment>>, lib: Lib)
    requires Laid(lines, frags, lib)
    ensures Laid(lines + [[]], frags + [[]], lib)
  {
    var none: seq<Fragment> := [];
    assert Real(none, lib) && Glue(none, lib) == [];
  }

  lemma NewlineClimbs(lines: seq<Bytes>, frags: seq<seq<Fragment>>, read: Reader<Entry>)
    requires |lines| == |frags| && Climbing(lines, frags, read)
    ensures Climbing(lines + [[]], frags + [[]], read)
  {
    var longer, more := lines + [[]], frags + [[]];
    forall i, j | 0 <= i < j < |longer| && read(longer[i]).Some? ensures Above(more[j], read(longer[i]).value.epoch) {
      assert j < |lines| ==> Above(frags[j], read(lines[i]).value.epoch);
    }
  }

  lemma PieceKeepsOrder(file: Bytes, e: Entry, k: nat, lib: Lib)
    requires OrderInv(file, lib) && NEWLINE !in lib.enc(e) && 0 < k <= |lib.enc(e)|
    requires UpTo(Split(file), e.epoch - 1, lib.read)
    ensures OrderInv(file + lib.enc(e)[..k], lib)
  {
    var lines, d := Split(file), lib.enc(e)[..k];
    var frags :| Laid(lines, frags, lib) && Climbing(lines, frags, lib.read);
    PieceLaid(lines, frags, e, k, lib);
    PieceClimbs(lines, frags, d, Fragment(e, k), lib.read);
    SplitPiece(file, d);
    assert Split(file + d) == Longer(lines, d);
  }

  lemma NewlineKeepsOrder(file: Bytes, lib: Lib)
    requires OrderInv(file, lib)
    ensures OrderInv(file + [NEWLINE], lib)
  {
    var frags :| Laid(Split(file), frags, lib) && Climbing(Split(file), frags, lib.read);
    NewlineLaid(Split(file), frags, lib);
    NewlineClimbs(Split(file), frags, lib.read);
    SplitTerminated(file);
  }

  lemma AppendKeepsOrder(file: Bytes, e: Entry, k: nat, lib: Lib)
    requires OrderInv(file, lib) && NEWLINE !in lib.enc(e) && 0 < k <= |Line(e, lib)| && |lib.enc(e)| > 0
    requires UpTo(Split(file), e.epoch - 1, lib.read)
    ensures OrderInv(file + Line(e, lib)[..k], lib)
  {
    var enc := lib.enc(e);
    if k <= |enc| {
      PieceKeepsOrder(file, e, k, lib);
      assert Line(e, lib)[..k] == enc[..k];
    } else {
      PieceKeepsOrder(file, e, |enc|, lib);
      NewlineKeepsOrder(file + enc[..|enc|], lib);
      assert file + Line(e, lib)[..k] == file + enc[..|enc|] + [NEWLINE];
    }
  }

  lemma EmptyOrder(lib: Lib)
    ensures OrderInv([], lib)
  {
    var none: seq<Fragment> := [];
    assert Real(none, lib) && Glue(none, lib) == [];
    assert Laid(Split([]), [none], lib) && Climbing(Split([]), [none], lib.read);
  }

  /** A new entry is above every valid line. */
  lemma NewEntryAbove(st: Store, q: Request, lib: Lib)
    requires Framing(lib) && Remainders(lib) && OrderInv(File(st), lib)
    requires File(st) == [] || Search(File(st), lib.read).Some?
    ensures UpTo(Split(File(st)), NewEntry(CounterEpoch(st), Search(File(st), lib.read), q, lib).epoch - 1, lib.read)
  {
    if File(st) != [] { SearchBounds(File(st), lib); }
  }

  /** Every call, with any crash, keeps the invariant. */
  lemma StepKeepsOrder(st: Store, c: Call, lib: Lib)
    requires Framing(lib) && Remainders(lib) && OrderInv(File(st), lib)
    ensures OrderInv(File(Allocate(st, c, lib).store), lib)
  {
    var tail := Search(File(st), lib.read);
    if File(st) == [] || tail.Some? {
      var e := NewEntry(CounterEpoch(st), tail, c.request, lib);
      var k := Written(Line(e, lib), c.fate);
      NewEntryAbove(st, c.request, lib);
      ProceedAppends(st, tail, c, lib);
      if k == 0 {
        assert File(st) + Line(e, lib)[..0] == File(st);
      } else {
        AppendKeepsOrder(File(st), e, k, lib);
      }
    }
  }

  // ----- over whole runs -----

  /** Valid lines inherit the order of the pieces. */
  lemma {:induction false} ClimbingRises(lines: seq<Bytes>, frags: seq<seq<Fragment>>, n: nat, read: Reader<Entry>)
    requires Sourced(lines, frags, read) && Climbing(lines, frags, read) && n <= |lines|
    ensures Rising(ValidLines(lines[..n], read))
    ensures forall v | v in ValidLines(lines[..n], read) :: exists i :: 0 <= i < n && read(lines[i]) == Some(v)
    decreases n
  {
    if n > 0 {
      var m := n - 1;
      ClimbingRises(lines, frags, m, read);
      assert lines[..n] == lines[..m] + [lines[m]];
      ValidLinesSnoc(lines[..m], lines[m], read);
      if read(lines[m]).Some? { SnocRises(ValidLines(lines[..m], read), lines, frags, m, read); }
    }
  }

  lemma SnocRises(es: seq<Entry>, lines: seq<Bytes>, frags: seq<seq<Fragment>>, m: nat, read: Reader<Entry>)
    requires m < |lines| && Sourced(lines, frags, read) && Climbing(lines, frags, read) && Rising(es)
    requires forall v | v in es :: exists i :: 0 <= i < m && read(lines[i]) == Some(v)
    requires read(lines[m]).Some?
    ensures Rising(es + [read(lines[m]).value])
  {
    forall a | 0 <= a < |es| ensures es[a].epoch < read(lines[m]).value.epoch {
      assert es[a] in es;
      var i :| 0 <= i < m && read(lines[i]) == Some(es[a]);
      assert Above(frags[m], es[a].epoch) && frags[m][0] in frags[m];
    }
  }

  lemma OrderRises(file: Bytes, lib: Lib)
    requires Framing(lib) && Remainders(lib) && OrderInv(file, lib)
    ensures Rising(Valid(file, lib))
  {
    var frags :| Laid(Split(file), frags, lib) && Climbing(Split(file), frags, lib.read);
    LaidSourced(Split(file), frags, lib);
    ClimbingRises(Split(file), frags, |Split(file)|, lib.read);
    assert Split(file)[..|Split(file)|] == Split(file);
  }

  /** The epochs of the valid lines strictly increase now and after every call. */
  ghost predicate RisingThroughout(st: Store, calls: seq<Call>, lib: Lib)
    decreases |calls|
  {
    Rising(Valid(File(st), lib)) && (calls == [] || RisingThroughout(Allocate(st, calls[0], lib).store, calls[1..], lib))
  }

  lemma {:induction false} OrderRun(st: Store, calls: seq<Call>, lib: Lib)
    requires Framing(lib) && Remainders(lib) && OrderInv(File(st), lib)
    ensures RisingThroughout(st, calls, lib)
    decreases |calls|
  {
    OrderRises(File(st), lib);
    if calls != [] {
      StepKeepsOrder(st, calls[0], lib);
      OrderRun(Allocate(st, calls[0], lib).store, calls[1..], lib);
    }
  }

  /**
    Over every run from the empty store, with any crashes, any counter left behind and any window at any joint, the
    epochs of the valid lines strictly increase in file order. Nothing is asked of the digest.
   */
  lemma EpochsAlwaysRise(calls: seq<Call>, lib: Lib)
    requires Framing(lib) && Remainders(lib)
    ensures RisingThroughout(EMPTY, calls, lib)
  {
    EmptyOrder(lib);
    OrderRun(EMPTY, calls, lib);
  }

  /** The valid lines are linked by their hashes now and after every call. */
  ghost predicate LinkedThroughout(st: Store, calls: seq<Call>, lib: Lib)
    decreases |calls|
  {
    Linked(Valid(File(st), lib), lib)
    && (calls == [] || LinkedThroughout(Allocate(st, calls[0], lib).store, calls[1..], lib))
  }

  lemma {:induction false} ChainedIsBoth(st: Store, calls: seq<Call>, lib: Lib)
    ensures ChainedThroughout(st, calls, lib) <==> RisingThroughout(st, calls, lib) && LinkedThroughout(st, calls, lib)
    decreases |calls|
  {
    if calls != [] { ChainedIsBoth(Allocate(st, calls[0], lib).store, calls[1..], lib); }
  }

  /**
    So a search that goes wrong costs the hash link and nothing else, and nothing else costs the hash link: from any
    journal with chained valid lines and rising pieces (the empty one is, by `EmptyOrder` and `EmptyInv`), the order is
    kept and the links are kept exactly if every search whose entry landed had gone well.
   */
  lemma OnlyLinksBreak(st: Store, calls: seq<Call>, lib: Lib)
    requires Framing(lib) && Remainders(lib) && IdealHash(lib) && OrderInv(File(st), lib) && JournalInv(File(st), lib)
    ensures RisingThroughout(st, calls, lib)
    ensures LinkedThroughout(st, calls, lib) <==> SearchesWellThroughout(st, calls, lib)
  {
    OrderRun(st, calls, lib);
    ChainedIsBoth(st, calls, lib);
    RunExactly(st, calls, lib);
  }

  /**
    The journal of every run from the empty store: the epochs of its valid lines always rise, and unless some search
    started a window at a joint between glued pieces, every valid line carries the hash of the one before it.
   */
  lemma JournalStaysChained(calls: seq<Call>, lib: Lib)
    requires Framing(lib) && Remainders(lib)
    ensures RisingThroughout(EMPTY, calls, lib)
    ensures IdealHash(lib) && CleanRun(EMPTY, calls, lib) ==> LinkedThroughout(EMPTY, calls, lib)
  {
    EpochsAlwaysRise(calls, lib);
    if IdealHash(lib) && CleanRun(EMPTY, calls, lib) {
      CleanRunChained(calls, lib);
      ChainedIsBoth(EMPTY, calls, lib);
    }
  }
}
