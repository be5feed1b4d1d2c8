/**
  Exactly which readers of lines make `_find_valid_journal_tail_entry` in scripts/taskhub_active_registry.py return, on
  every file, what one backward scan returns.
 */
module TailWindows {
  import opened Prelude
  import opened TailSearch

  const SIZES := [64 * 1024, 256 * 1024, 1024 * 1024]

  /**
    A remainder of a line that window `i` can start with, no smaller window having found anything: it fits, and its own
    remainders where smaller windows would start are not read.
   */
  predicate Exposed<E>(x: Bytes, i: nat, read: Reader<E>)
    requires i < 3
  {
    |x| <= SIZES[i] && forall j | 0 <= j < i && SIZES[i] - SIZES[j] < |x| :: read(x[SIZES[i] - SIZES[j]..]).None?
  }

  /** An exposed remainder that is read at all is read as its whole line is. */
  ghost predicate Steadfast<E(!new)>(read: Reader<E>) {
    forall line, k, i: nat |
      NEWLINE !in line && 0 < k <= |line| && i < 3 && Exposed(line[k..], i, read) && read(line[k..]).Some? ::
      read(line[k..]) == read(line)
  }

  // ----- the window that decides -----

  /** No window before `i` finds anything. */
  predicate Silent<E>(file: Bytes, windows: seq<nat>, i: nat, read: Reader<E>) {
    i <= |windows| && forall j | 0 <= j < i :: LastValid(Split(Tail(file, windows[j])), read).None?
  }

  lemma {:induction false} DecidingWindow<E>(file: Bytes, windows: seq<nat>, from: nat, read: Reader<E>) returns (i: nat)
    requires Silent(file, windows, from, read) && Windowed(file, windows[from..], read).Some?
    ensures i < |windows| && Silent(file, windows, i, read)
    ensures LastValid(Split(Tail(file, windows[i])), read).Some?
    ensures LastValid(Split(Tail(file, windows[i])), read) == Windowed(file, windows[from..], read)
    decreases |windows| - from
  {
    assert windows[from..] != [] && windows[from..][0] == windows[from] && windows[from..][1..] == windows[from + 1..];
    if LastValid(Split(Tail(file, windows[from])), read).Some? {
      i := from;
    } else {
      i := DecidingWindow(file, windows, from + 1, read);
    }
  }

  lemma {:induction false} DecidedBy<E>(file: Bytes, windows: seq<nat>, from: nat, i: nat, read: Reader<E>)
    requires from <= i < |windows| && Silent(file, windows, i, read)
    requires LastValid(Split(Tail(file, windows[i])), read).Some?
    ensures Windowed(file, windows[from..], read) == LastValid(Split(Tail(file, windows[i])), read)
    decreases i - from
  {
    assert windows[from..][0] == windows[from] && windows[from..][1..] == windows[from + 1..];
    if from < i { DecidedBy(file, windows, from + 1, i, read); }
  }

  // ----- the condition suffices -----

  lemma {:induction false} LinesUnbroken(s: Bytes)
    ensures forall line | line in Split(s) :: NEWLINE !in line
  {
    if s != [] {
      LinesUnbroken(s[1..]);
      var rest := Split(s[1..]);
      assert rest[0] in rest && forall line | line in rest[1..] :: line in rest;
    }
  }

  /** Dropping bytes of the first line. */
  lemma {:induction false} SplitDrop(s: Bytes, d: nat)
    requires d <= |Split(s)[0]|
    ensures |Split(s)[0]| <= |s| && Split(s[d..])[0] == Split(s)[0][d..]
    decreases d
  {
    FirstLineFits(s);
    if d == 0 {
      assert s[0..] == s && Split(s)[0][0..] == Split(s)[0];
    } else {
      assert Split(s)[0] == [s[0]] + Split(s[1..])[0];
      SplitDrop(s[1..], d - 1);
      assert s[1..][d - 1..] == s[d..] && Split(s)[0][d..] == Split(s[1..])[0][d - 1..];
    }
  }

  lemma {:induction false} FirstLineFits(s: Bytes)
    ensures |Split(s)[0]| <= |s|
  {
    if s != [] { FirstLineFits(s[1..]); }
  }

  lemma NoneAtFirst<E>(lines: seq<Bytes>, read: Reader<E>)
    requires lines != [] && LastValid(lines, read).None?
    ensures read(lines[0]).None?
  {
    assert lines == [lines[0]] + lines[1..];
    LastValidConcat([lines[0]], lines[1..], read);
    assert LastValid([lines[0]], read) == read(lines[0]) by { assert LastValid([lines[0]][..0], read).None?; }
  }

  /** The first piece of a window of `w` bytes, seen from a smaller window. */
  lemma SmallerWindow<E>(file: Bytes, w: nat, v: nat, read: Reader<E>)
    requires v <= w < |file| && w - v <= |Split(Tail(file, w))[0]| && LastValid(Split(Tail(file, v)), read).None?
    ensures read(Split(Tail(file, w))[0][w - v..]).None?
  {
    assert Tail(file, w)[w - v..] == Tail(file, v);
    SplitDrop(Tail(file, w), w - v);
    NoneAtFirst(Split(Tail(file, v)), read);
  }

  /** The first piece of a deciding window is exposed to it. */
  lemma FirstPieceExposed<E>(file: Bytes, i: nat, read: Reader<E>)
    requires i < 3 && SIZES[i] < |file| && Silent(file, SIZES, i, read)
    ensures Exposed(Split(Tail(file, SIZES[i]))[0], i, read)
  {
    var x := Split(Tail(file, SIZES[i]))[0];
    FirstLineFits(Tail(file, SIZES[i]));
    forall j | 0 <= j < i && SIZES[i] - SIZES[j] < |x| ensures read(x[SIZES[i] - SIZES[j]..]).None? {
      SmallerWindow(file, SIZES[i], SIZES[j], read);
    }
  }

  lemma SteadfastAt<E(!new)>(line: Bytes, k: nat, i: nat, read: Reader<E>)
    requires Steadfast(read) && NEWLINE !in line && k <= |line| && i < 3 && Exposed(line[k..], i, read)
    ensures read(line[k..]).Some? ==> read(line[k..]) == read(line)
  {
    assert k == 0 ==> line[k..] == line;
  }

  lemma CutWindow<E>(file: Bytes, i: nat, read: Reader<E>) returns (line: Bytes, a: nat, k: nat)
    requires i < 3 && SIZES[i] < |file| && Silent(file, SIZES, i, read)
    ensures a < |Split(file)| && line == Split(file)[a] && NEWLINE !in line && k <= |line|
    ensures Exposed(line[k..], i, read) && Split(Tail(file, SIZES[i])) == [line[k..]] + Split(file)[a + 1..]
  {
    a, k := SplitCut(file, |file| - SIZES[i]);
    line := Split(file)[a];
    LineUnbroken(file, a);
    FirstPieceExposed(file, i, read);
  }

  lemma CutWindowAgrees<E(!new)>(file: Bytes, i: nat, read: Reader<E>)
    requires Steadfast(read) && i < 3 && SIZES[i] < |file| && Silent(file, SIZES, i, read)
    requires LastValid(Split(Tail(file, SIZES[i])), read).Some?
    ensures LastValid(Split(Tail(file, SIZES[i])), read) == LastValid(Split(file), read)
  {
    var line, a, k := CutWindow(file, i, read);
    SteadfastAt(line, k, i, read);
    PieceAgrees(Split(file), a, line[k..], read);
  }

  lemma LineUnbroken(file: Bytes, a: nat)
    requires a < |Split(file)|
    ensures NEWLINE !in Split(file)[a]
  {
    LinesUnbroken(file);
    assert Split(file)[a] in Split(file);
  }

  lemma PieceAgrees<E>(lines: seq<Bytes>, a: nat, x: Bytes, read: Reader<E>)
    requires a < |lines| && (read(x).Some? ==> read(x) == read(lines[a]))
    requires LastValid([x] + lines[a + 1..], read).Some?
    ensures LastValid([x] + lines[a + 1..], read) == LastValid(lines, read)
  {
    if read(x).None? {
      LastValidFrom(lines, a, x, read);
    } else {
      SameRead(lines, a, x, read);
    }
  }

  lemma ReadLast<E>(lines: seq<Bytes>, x: Bytes, read: Reader<E>)
    requires read(x).Some?
    ensures LastValid(lines + [x], read) == read(x)
  {
  }

  lemma ReadFrom<E>(head: seq<Bytes>, x: Bytes, rest: seq<Bytes>, read: Reader<E>)
    requires read(x).Some?
    ensures LastValid(head + [x] + rest, read) == if LastValid(rest, read).Some? then LastValid(rest, read) else read(x)
  {
    ReadLast(head, x, read);
    LastValidConcat(head + [x], rest, read);
  }

  lemma LinesAround(lines: seq<Bytes>, a: nat)
    requires a < |lines|
    ensures lines[..a] + [lines[a]] + lines[a + 1..] == lines
  {
  }

  lemma SameRead<E>(lines: seq<Bytes>, a: nat, x: Bytes, read: Reader<E>)
    requires a < |lines| && read(x) == read(lines[a]) && read(x).Some?
    ensures LastValid([x] + lines[a + 1..], read) == LastValid(lines, read)
  {
    LinesAround(lines, a);
    ReadFrom(lines[..a], lines[a], lines[a + 1..], read);
    ReadFrom([], x, lines[a + 1..], read);
    assert [] + [x] == [x];
  }

  lemma SteadfastSearches<E(!new)>(file: Bytes, read: Reader<E>)
    requires Steadfast(read)
    ensures Search(file, read) == Scan(file, read)
  {
    SearchFinds(file, read);
    if Search(file, read).Some? {
      var windows := Windows(|file|);
      assert windows[0..] == windows;
      var i := DecidingWindow(file, windows, 0, read);
      if windows[i] < |file| {
        assert forall j | 0 <= j <= i :: windows[j] == SIZES[j];
        CutWindowAgrees(file, i, read);
      }
    }
  }

  // ----- and is necessary -----

  function Newlines(n: nat): (s: Bytes)
    ensures |s| == n && forall b | b in s :: b == NEWLINE
  {
    seq(n, _ => NEWLINE)
  }

  function Empties(n: nat): (ls: seq<Bytes>)
    ensures |ls| == n
  {
    seq(n, _ => [])
  }

  lemma {:induction false} SplitFilled(s: Bytes, n: nat)
    requires NEWLINE !in s
    ensures Split(s + Newlines(n)) == [s] + Empties(n)
    decreases |s|, n
  {
    if s != [] {
      SplitFilled(s[1..], n);
      assert (s + Newlines(n))[1..] == s[1..] + Newlines(n) && [s[0]] + s[1..] == s;
      assert ([s[1..]] + Empties(n))[1..] == Empties(n);
    } else if n > 0 {
      SplitFilled(s, n - 1);
      assert s + Newlines(n) == Newlines(n) && Newlines(n)[1..] == s + Newlines(n - 1);
      assert [s] + Empties(n) == [[]] + ([s] + Empties(n - 1));
    } else {
      assert s + Newlines(n) == [] && [s] + Empties(0) == [[]];
    }
  }

  lemma {:induction false} FilledValid<E>(s: Bytes, n: nat, read: Reader<E>)
    requires read([]) == None
    ensures LastValid([s] + Empties(n), read) == read(s)
    decreases n
  {
    var lines := [s] + Empties(n);
    if n == 0 {
      assert lines == [s] && LastValid([s][..0], read).None?;
    } else {
      assert lines[n] == [] && lines[..n] == [s] + Empties(n - 1);
      FilledValid(s, n - 1, read);
    }
  }

  lemma FilledRead<E>(s: Bytes, n: nat, read: Reader<E>)
    requires read([]) == None && NEWLINE !in s
    ensures LastValid(Split(s + Newlines(n)), read) == read(s)
  {
    SplitFilled(s, n);
    FilledValid(s, n, read);
  }

  /** What a window shows of a line followed by newlines: a remainder of the line and newlines, or newlines only. */
  lemma WindowOfFilled<E>(line: Bytes, n: nat, window: nat, read: Reader<E>)
    requires read([]) == None && NEWLINE !in line && window <= |line| + n
    ensures LastValid(Split(Tail(line + Newlines(n), window)), read)
         == if window <= n then None else read(line[|line| + n - window..])
  {
    var file := line + Newlines(n);
    if window <= n {
      assert Tail(file, window) == [] + Newlines(window);
      FilledRead([], window, read);
    } else {
      var x := line[|line| + n - window..];
      assert Tail(file, window) == x + Newlines(n);
      FilledRead(x, n, read);
    }
  }

  /** The file that shows a remainder to window `i`: its line, and newlines up to the window's size. */
  lemma ExposedDecides<E>(line: Bytes, k: nat, i: nat, read: Reader<E>)
    requires read([]) == None && NEWLINE !in line && 0 < k <= |line| && i < 3
    requires Exposed(line[k..], i, read) && read(line[k..]).Some?
    ensures var file := line + Newlines(SIZES[i] - |line[k..]|);
            Search(file, read) == read(line[k..]) && Scan(file, read) == read(line)
  {
    var x := line[k..];
    var n := SIZES[i] - |x|;
    var file := line + Newlines(n);
    var windows := Windows(|file|);
    assert windows[0..] == windows;
    forall j | 0 <= j < i ensures LastValid(Split(Tail(file, windows[j])), read).None? {
      WindowOfFilled(line, n, SIZES[j], read);
      assert SIZES[j] > n ==> line[|line| + n - SIZES[j]..] == x[SIZES[i] - SIZES[j]..];
    }
    WindowOfFilled(line, n, SIZES[i], read);
    assert |x| > 0 ==> line[|line| + n - SIZES[i]..] == x;
    DecidedBy(file, windows, 0, i, read);
    FilledRead(line, n, read);
  }

  /**
    For every reader that refuses the empty line: the search returns what one backward scan returns on every file if and
    only if the reader reads every exposed remainder, if at all, as the whole line.
   */
  lemma SearchIsScanExactly<E(!new)>(read: Reader<E>)
    requires read([]) == None
    ensures (forall file :: Search(file, read) == Scan(file, read)) <==> Steadfast(read)
  {
    if Steadfast(read) {
      forall file ensures Search(file, read) == Scan(file, read) { SteadfastSearches(file, read); }
    } else {
      var line, k, i: nat :| NEWLINE !in line && 0 < k <= |line| && i < 3 && Exposed(line[k..], i, read)
                             && read(line[k..]).Some? && read(line[k..]) != read(line);
      ExposedDecides(line, k, i, read);
    }
  }
}
