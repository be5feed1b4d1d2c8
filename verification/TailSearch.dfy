/**
  scripts/taskhub_active_registry.py: byte-level file access (`_read_all`, `_write_all`) and
  `_find_valid_journal_tail_entry`, the backward search through windows of 64 KiB, 256 KiB, 1 MiB and the
  whole file.
 */
module TailSearch {
  import opened Prelude

  newtype Byte = b: int | 0 <= b < 256

  type Bytes = seq<Byte>

  const NEWLINE: Byte := 10
  const CHUNK := 65536

  // ----- short reads and short writes -----

  /** Read to the end of the file from an offset; None stands for the OSError on more than `maxBytes`. */
  method ReadAll(file: Bytes, offset: nat, maxBytes: nat) returns (r: Option<Bytes>)
    requires offset <= |file|
    ensures r == if |file| - offset <= maxBytes then Some(file[offset..]) else None
  {
    var data: Bytes := [];
    while true
      invariant |data| <= maxBytes && offset + |data| <= |file|
      invariant data == file[offset..offset + |data|]
      decreases |file| - |data|
    {
      var remaining := maxBytes - |data| + 1;
      var want := if CHUNK < remaining then CHUNK else remaining;
      var left := |file| - offset - |data|;
      // os.read returns at least one byte unless the end is reached, but possibly fewer than asked for
      var got :| 0 <= got <= want && got <= left && (got == 0 ==> left == 0);
      if got == 0 {
        assert file[offset..offset + |data|] == file[offset..];
        return Some(data);
      }
      data := data + file[offset + |data|..offset + |data| + got];
      if |data| > maxBytes { return None; }
    }
  }

  /** Append through short writes; a failure leaves a proper prefix of the data behind. */
  method WriteAll(file: Bytes, data: Bytes) returns (ok: bool, after: Bytes)
    ensures ok ==> after == file + data
    ensures !ok ==> exists k :: 0 <= k < |data| && after == file + data[..k]
  {
    var total := 0;
    after := file;
    while total < |data|
      invariant 0 <= total <= |data| && after == file + data[..total]
    {
      var written :| 0 <= written <= |data| - total;
      if written == 0 { return false, after; }
      after := after + data[total..total + written];
      total := total + written;
    }
    assert data[..|data|] == data;
    return true, after;
  }

  // ----- lines -----

  /** `bytes.split(b"\n")`: always at least one piece. */
  function Split(s: Bytes): (lines: seq<Bytes>)
    ensures |lines| >= 1
  {
    if s == [] then [[]]
    else
      var rest := Split(s[1..]);
      if s[0] == NEWLINE then [[]] + rest else [[s[0]] + rest[0]] + rest[1..]
  }

  /** How a line is judged: stripping, JSON, schema and signature check together. */
  type Reader<!E> = Bytes -> Option<E>

  /** One backward scan. */
  function LastValid<E>(lines: seq<Bytes>, read: Reader<E>): (r: Option<E>) {
    if lines == [] then None
    else
      var last := read(lines[|lines| - 1]);
      if last.Some? then last else LastValid(lines[..|lines| - 1], read)
  }

  /** The simple search: scan the whole file backwards. */
  function Scan<E>(file: Bytes, read: Reader<E>): (r: Option<E>) {
    if file == [] then None else LastValid(Split(file), read)
  }

  function Tail(file: Bytes, window: nat): (t: Bytes) {
    if window < |file| then file[|file| - window..] else file
  }

  /** The search through a list of windows. */
  function Windowed<E>(file: Bytes, windows: seq<nat>, read: Reader<E>): (r: Option<E>) {
    if windows == [] then None
    else
      var found := LastValid(Split(Tail(file, windows[0])), read);
      if found.Some? then found else Windowed(file, windows[1..], read)
  }

  function Windows(size: nat): (ws: seq<nat>) {
    [64 * 1024, 256 * 1024, 1024 * 1024, size]
  }

  /** The search as the allocator calls it. */
  function Search<E>(file: Bytes, read: Reader<E>): (r: Option<E>) {
    if file == [] then None else Windowed(file, Windows(|file|), read)
  }

  lemma {:induction false} LastValidConcat<E>(a: seq<Bytes>, b: seq<Bytes>, read: Reader<E>)
    ensures LastValid(a + b, read) == if LastValid(b, read).Some? then LastValid(b, read) else LastValid(a, read)
  {
    if b == [] {
      assert a + b == a;
    } else {
      assert (a + b)[..|a + b| - 1] == a + b[..|b| - 1];
      LastValidConcat(a, b[..|b| - 1], read);
    }
  }

  /** Cutting a file anywhere cuts one line and keeps the lines after it. */
  lemma {:induction false} SplitCut(file: Bytes, start: nat) returns (i: nat, k: nat)
    requires start <= |file|
    ensures i < |Split(file)| && k <= |Split(file)[i]|
    ensures Split(file[start..]) == [Split(file)[i][k..]] + Split(file)[i + 1..]
    ensures k == 0 <==> start == 0 || file[start - 1] == NEWLINE
    decreases start
  {
    var lines := Split(file);
    if start == 0 {
      i, k := 0, 0;
      assert file[0..] == file;
      assert lines == [lines[0]] + lines[1..];
    } else {
      var j, l := SplitCut(file[1..], start - 1);
      assert file[1..][start - 1..] == file[start..];
      if file[0] == NEWLINE {
        i, k := j + 1, l;
        assert lines[j + 2..] == Split(file[1..])[j + 1..];
      } else {
        if start > 1 && file[start - 1] == NEWLINE { FirstLineUncut(file[1..], start - 1); }
        i, k := j, if j == 0 then l + 1 else l;
        CutLonger(lines, Split(file[1..]), file[0], j, l);
      }
    }
  }

  /** One more byte in front of the first line: the same cut, one byte further on in that line. */
  lemma CutLonger(lines: seq<Bytes>, rest: seq<Bytes>, b: Byte, j: nat, l: nat)
    requires j < |rest| && l <= |rest[j]| && lines == [[b] + rest[0]] + rest[1..]
    ensures |lines| == |rest| && lines[j + 1..] == rest[j + 1..]
    ensures j == 0 ==> l + 1 <= |lines[0]| && lines[0][l + 1..] == rest[0][l..]
    ensures j > 0 ==> lines[j] == rest[j]
  {
  }

  /** A cut just after a newline is not in the first line. */
  lemma {:induction false} FirstLineUncut(file: Bytes, start: nat)
    requires 0 < start <= |file| && file[start - 1] == NEWLINE
    ensures |Split(file[start..])| < |Split(file)|
    decreases start
  {
    if file[0] == NEWLINE {
      if start > 1 { FirstLineUncut(file[1..], start - 1); assert file[1..][start - 1..] == file[start..]; }
    } else {
      FirstLineUncut(file[1..], start - 1);
      assert file[1..][start - 1..] == file[start..];
    }
  }

  // ----- the windowed search refines the simple one -----

  /** A window does not start inside a line whose remainder would itself be accepted. */
  predicate CleanCut<E>(file: Bytes, window: nat, read: Reader<E>) {
    window < |file| && file[|file| - window - 1] != NEWLINE ==> read(Split(Tail(file, window))[0]).None?
  }

  /** No proper suffix of a line is an entry. */
  ghost predicate NoValidSuffix<E>(file: Bytes, read: Reader<E>) {
    forall line, k | line in Split(file) && 0 < k <= |line| :: read(line[k..]).None?
  }

  lemma NoValidSuffixCleanCut<E>(file: Bytes, window: nat, read: Reader<E>)
    requires NoValidSuffix(file, read)
    ensures CleanCut(file, window, read)
  {
    if window < |file| && file[|file| - window - 1] != NEWLINE {
      var i, k := SplitCut(file, |file| - window);
      var line := Split(file)[i];
      assert line in Split(file) && 0 < k <= |line|;
      assert Split(Tail(file, window))[0] == line[k..];
    }
  }

  lemma LastValidFrom<E>(lines: seq<Bytes>, i: nat, piece: Bytes, read: Reader<E>)
    requires i < |lines| && (piece == lines[i] || read(piece).None?)
    ensures LastValid([piece] + lines[i + 1..], read).Some?
            ==> LastValid([piece] + lines[i + 1..], read) == LastValid(lines, read)
  {
    LastValidConcat([piece], lines[i + 1..], read);
    assert LastValid([piece], read) == read(piece) by { assert LastValid([piece][..0], read).None?; }
    assert lines == lines[..i + 1] + lines[i + 1..];
    LastValidConcat(lines[..i + 1], lines[i + 1..], read);
    assert lines[..i + 1][i] == lines[i];
  }

  /** What a clean window finds is what the whole file would give. */
  lemma WindowHit<E>(file: Bytes, window: nat, read: Reader<E>)
    requires CleanCut(file, window, read)
    ensures LastValid(Split(Tail(file, window)), read).Some?
            ==> LastValid(Split(Tail(file, window)), read) == LastValid(Split(file), read)
  {
    if window < |file| {
      var i, k := SplitCut(file, |file| - window);
      var piece := Split(file)[i][k..];
      assert k == 0 ==> piece == Split(file)[i];
      LastValidFrom(Split(file), i, piece, read);
    }
  }

  lemma {:induction false} WindowedIsScan<E>(file: Bytes, windows: seq<nat>, read: Reader<E>)
    requires file != [] && windows != [] && windows[|windows| - 1] >= |file|
    requires forall w | w in windows :: CleanCut(file, w, read)
    ensures Windowed(file, windows, read) == Scan(file, read)
  {
    assert windows[0] in windows;
    WindowHit(file, windows[0], read);
    if LastValid(Split(Tail(file, windows[0])), read).None? && |windows| > 1 {
      WindowedIsScan(file, windows[1..], read);
    }
  }

  ghost predicate CleanWindows<E>(file: Bytes, read: Reader<E>) {
    forall w | w in Windows(|file|) :: CleanCut(file, w, read)
  }

  lemma SearchIsScan<E>(file: Bytes, read: Reader<E>)
    requires CleanWindows(file, read)
    ensures Search(file, read) == Scan(file, read)
  {
    if file != [] { WindowedIsScan(file, Windows(|file|), read); }
  }

  lemma {:induction false} WindowedFinds<E>(file: Bytes, windows: seq<nat>, read: Reader<E>)
    requires windows != [] && windows[|windows| - 1] >= |file| && LastValid(Split(file), read).Some?
    ensures Windowed(file, windows, read).Some?
  {
    if |windows| > 1 { WindowedFinds(file, windows[1..], read); }
  }

  /** Whatever the windows cut, a valid line in the file means that something is found. */
  lemma SearchFinds<E>(file: Bytes, read: Reader<E>)
    ensures Scan(file, read).Some? ==> Search(file, read).Some?
  {
    if Scan(file, read).Some? { WindowedFinds(file, Windows(|file|), read); }
  }

  /** For every file and reader without accepted line suffixes, the windows change nothing. */
  lemma SearchRefinesScan<E>(file: Bytes, read: Reader<E>)
    requires NoValidSuffix(file, read)
    ensures Search(file, read) == Scan(file, read)
  {
    forall w | w in Windows(|file|) ensures CleanCut(file, w, read) { NoValidSuffixCleanCut(file, w, read); }
    SearchIsScan(file, read);
  }

  /** An unclean first window with nothing valid after the cut returns the remainder of the cut line. */
  lemma UncleanCutMisleads<E>(file: Bytes, read: Reader<E>)
    requires |file| > 64 * 1024 && !CleanCut(file, 64 * 1024, read)
    requires LastValid(Split(Tail(file, 64 * 1024))[1..], read).None?
    ensures Search(file, read) == read(Split(Tail(file, 64 * 1024))[0]) && Search(file, read).Some?
  {
    var pieces := Split(Tail(file, 64 * 1024));
    assert pieces == [pieces[0]] + pieces[1..];
    LastValidConcat([pieces[0]], pieces[1..], read);
    assert LastValid([pieces[0]], read) == read(pieces[0]);
  }

  lemma {:induction false} SplitUnbroken(s: Bytes)
    requires forall i | 0 <= i < |s| :: s[i] != NEWLINE
    ensures Split(s) == [s]
  {
    if s != [] {
      SplitUnbroken(s[1..]);
      assert s == [s[0]] + s[1..];
    }
  }

  /** The condition cannot be dropped: one line a byte longer than the first window. */
  lemma WindowsCanMislead()
    ensures exists file: Bytes, read: Reader<int> :: Search(file, read) != Scan(file, read)
  {
    var file: Bytes := seq(64 * 1024 + 1, _ => 97);
    var read: Reader<int> := line => if |line| == 64 * 1024 then Some(1) else None;
    SplitUnbroken(file);
    SplitUnbroken(Tail(file, 64 * 1024));
    assert Split(Tail(file, 64 * 1024))[1..] == [];
    UncleanCutMisleads(file, read);
    assert LastValid([file], read) == LastValid([file][..0], read);
    assert Search(file, read) != Scan(file, read);
  }

  /** The inner loop over `reversed(lines)`. */
  method ScanLines<E>(lines: seq<Bytes>, read: Reader<E>) returns (r: Option<E>)
    ensures r == LastValid(lines, read)
  {
    var i := |lines|;
    assert lines[..i] == lines;
    while i > 0
      invariant 0 <= i <= |lines|
      invariant LastValid(lines, read) == LastValid(lines[..i], read)
    {
      assert lines[..i][..i - 1] == lines[..i - 1];
      i := i - 1;
      var candidate := read(lines[i]);
      if candidate.Some? { return candidate; }
    }
    return None;
  }

  lemma {:induction false} NothingFurther<E>(file: Bytes, windows: seq<nat>, read: Reader<E>)
    requires LastValid(Split(file), read).None?
    requires forall w | w in windows :: w >= |file|
    ensures Windowed(file, windows, read).None?
  {
    if windows != [] {
      assert windows[0] in windows && Tail(file, windows[0]) == file;
      assert forall w | w in windows[1..] :: w in windows;
      NothingFurther(file, windows[1..], read);
    }
  }

  lemma LaterWindowsWhole(size: nat, i: nat)
    requires i < 4 && Windows(size)[i] >= size
    ensures forall w | w in Windows(size)[i..] :: w >= size
  {
  }

  method TryWindow<E>(file: Bytes, start: nat, tailSize: nat, read: Reader<E>) returns (r: Option<E>)
    requires start + tailSize == |file|
    ensures r == LastValid(Split(file[start..]), read)
  {
    var bytes := ReadAll(file, start, tailSize + 1);
    r := ScanLines(Split(bytes.value), read);
  }

  /** _find_valid_journal_tail_entry: progressive windows, each offset tried once. */
  method FindValidTail<E>(file: Bytes, read: Reader<E>) returns (r: Option<E>)
    ensures r == Search(file, read)
  {
    if |file| == 0 { return None; }
    var windows := Windows(|file|);
    var seen: set<nat> := {};
    for i := 0 to |windows|
      invariant Search(file, read) == Windowed(file, windows[i..], read)
      invariant forall o | o in seen :: o <= |file| && LastValid(Split(file[o..]), read).None?
    {
      var tailSize := if windows[i] < |file| then windows[i] else |file|;
      var start := |file| - tailSize;
      assert Tail(file, windows[i]) == file[start..];
      assert windows[i..][0] == windows[i] && windows[i..][1..] == windows[i + 1..];
      if start !in seen {
        seen := seen + {start};
        r := TryWindow(file, start, tailSize, read);
        if r.Some? { return; }
        if tailSize >= |file| {
          LaterWindowsWhole(|file|, i);
          NothingFurther(file, windows[i..], read);
          return None;
        }
      }
    }
    return None;
  }
}
