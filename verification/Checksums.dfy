/**
  checksums.txt: `build_checksums_text` of scripts/taskhub_backup_orchestrator.py prints one line per archived
  file, `verify_checksums` of scripts/taskhub_restore_orchestrator.py parses the text and compares it with an
  extracted tree. A tree is a map from relative POSIX names to contents.
 */
module Checksums {
  import opened Prelude
  import opened StringOrder

  const MANIFEST := "checksums.txt"

  // ----- characters, lines and paths -----

  /** Where Python's `splitlines` breaks. */
  predicate IsBreak(c: char) {
    || '\U{000A}' <= c <= '\U{000D}' || '\U{001C}' <= c <= '\U{001E}'
    || c == '\U{0085}' || c == '\U{2028}' || c == '\U{2029}'
  }

  /** What Python's `strip` removes. */
  predicate IsBlank(c: char) {
    || '\U{0009}' <= c <= '\U{000D}' || '\U{001C}' <= c <= '\U{0020}' || c == '\U{0085}' || c == '\U{00A0}'
    || c == '\U{1680}' || '\U{2000}' <= c <= '\U{200A}' || c == '\U{2028}' || c == '\U{2029}'
    || c == '\U{202F}' || c == '\U{205F}' || c == '\U{3000}'
  }

  predicate Unbroken(s: string) {
    forall c | c in s :: !IsBreak(c)
  }

  /** Pieces between breaks; a blank piece more or less does not matter, since blank lines are skipped. */
  function Lines(s: string): (r: seq<string>)
    ensures |r| > 0 && forall l | l in r :: Unbroken(l)
  {
    if s == "" then [""]
    else if IsBreak(s[0]) then [""] + Lines(s[1..])
    else
      var rest := Lines(s[1..]);
      assert rest[0] in rest;
      [[s[0]] + rest[0]] + rest[1..]
  }

  function StripLeft(s: string): (r: string) {
    if s != "" && IsBlank(s[0]) then StripLeft(s[1..]) else s
  }

  function StripRight(s: string): (r: string)
    ensures r == "" || !IsBlank(r[|r| - 1])
    ensures forall c | c in r :: c in s
  {
    if s != "" && IsBlank(s[|s| - 1]) then StripRight(s[..|s| - 1]) else s
  }

  /** The place of the first double space. */
  function Gap(s: string): (r: Option<nat>)
    ensures r.Some? ==> r.value + 2 <= |s|
  {
    if |s| < 2 then None
    else if s[0] == ' ' && s[1] == ' ' then Some(0)
    else match Gap(s[1..]) case None => None case Some(i) => Some(i + 1)
  }

  /** The pieces between slashes. */
  function Components(s: string): (r: seq<string>)
    ensures |r| > 0
  {
    if s == "" then [""]
    else if s[0] == '/' then [""] + Components(s[1..])
    else
      var rest := Components(s[1..]);
      [[s[0]] + rest[0]] + rest[1..]
  }

  function JoinWith(sep: char, parts: seq<string>): (s: string) {
    if parts == [] then "" else if |parts| == 1 then parts[0] else parts[0] + [sep] + JoinWith(sep, parts[1..])
  }

  function Significant(parts: seq<string>): (r: seq<string>) {
    if parts == [] then []
    else (if parts[0] in {"", "."} then [] else [parts[0]]) + Significant(parts[1..])
  }

  /** The name of the file a relative path without ".." denotes: empty and "." components drop out. */
  function Resolve(rel: string): (name: string) {
    JoinWith('/', Significant(Components(rel)))
  }

  /** Names as a directory walk yields them. */
  predicate WalkName(n: string) {
    forall p | p in Components(n) :: p !in {"", ".", ".."}
  }

  predicate Tree<C>(files: map<string, C>) {
    forall n | n in files :: WalkName(n)
  }

  // ----- printing -----

  datatype Source<C> = Readable(content: C) | Symlink | Unreadable

  function Contents<C>(sources: map<string, Source<C>>): (r: map<string, C>) {
    map n | n in sources && sources[n].Readable? :: sources[n].content
  }

  datatype Printed<T> = Done(value: T) | AllowlistViolation(name: string) | CalculationFailed(name: string)

  function Line(digest: string, name: string): (l: string) {
    digest + "  " + name
  }

  /** The names in the order they are printed. */
  function Listed(sorted: seq<string>): (r: seq<string>)
    ensures forall n :: n in r <==> n in sorted && n != MANIFEST
  {
    if sorted == [] then []
    else (if sorted[0] == MANIFEST then [] else [sorted[0]]) + Listed(sorted[1..])
  }

  function PrintLines<C>(names: seq<string>, files: map<string, C>, hex: C -> string): (r: seq<string>)
    requires forall n | n in names :: n in files
    ensures |r| == |names| && forall i | 0 <= i < |r| :: names[i] in names && r[i] == Line(hex(files[names[i]]), names[i])
  {
    if names == [] then []
    else
      assert names[0] in names && forall n | n in names[1..] :: n in names;
      [Line(hex(files[names[0]]), names[0])] + PrintLines(names[1..], files, hex)
  }

  function Print(lines: seq<string>): (text: string) {
    if lines == [] then "" else JoinWith('\n', lines) + "\n"
  }

  /** What the builder prints for a dictionary of readable files with the given key order. */
  function Built<C>(keys: seq<string>, files: map<string, C>, hex: C -> string): (text: string)
    requires forall n | n in keys && n != MANIFEST :: n in files
  {
    SortedMembers(keys);
    Print(PrintLines(Listed(Sort(keys)), files, hex))
  }

  /** One file prints as one line: the digest, two spaces, the name, a line feed. */
  lemma OneFilePrinted<C>(name: string, content: C, hex: C -> string)
    requires name != MANIFEST
    ensures Built([name], map[name := content], hex) == hex(content) + "  " + name + "\n"
  {
    var sorted := Sort([name]);
    assert |sorted| == |multiset(sorted)| == 1;
    assert sorted[0] in multiset(sorted) && sorted == [name];
    assert [name][1..] == [] && Listed([name]) == [name];
    var l := Line(hex(content), name);
    assert PrintLines([name], map[name := content], hex) == [l];
    assert JoinWith('\n', [l]) == l;
  }

  lemma SortedMembers(keys: seq<string>)
    ensures forall n :: n in Sort(keys) <==> n in keys
  {
    forall n ensures n in Sort(keys) <==> n in keys {
      assert n in Sort(keys) <==> n in multiset(Sort(keys));
      assert n in keys <==> n in multiset(keys);
    }
  }

  // ----- parsing -----

  datatype Parsed = Skip | Malformed | Declares(rel: string, digest: string)

  function ParseLine(raw: string): (r: Parsed)
    ensures r.Declares? ==> !(r.rel != "" && (r.rel[0] == '/' || r.rel[0] == '\\')) && ".." !in Components(r.rel)
  {
    var line := StripLeft(StripRight(raw));
    if line == "" then Skip
    else match Gap(line)
      case None => Malformed
      case Some(i) =>
        var rel := line[i + 2..];
        if rel != "" && (rel[0] == '/' || rel[0] == '\\') then Malformed
        else if ".." in Components(rel) then Malformed
        else Declares(rel, line[..i])
  }

  /** The dictionary of declared digests; a later line for the same name wins. */
  function Parse(lines: seq<string>, expected: map<string, string>): (r: Option<map<string, string>>) {
    if lines == [] then Some(expected)
    else match ParseLine(lines[0])
      case Skip => Parse(lines[1..], expected)
      case Malformed => None
      case Declares(rel, digest) => Parse(lines[1..], expected[rel := digest])
  }

  predicate Matches<C>(expected: map<string, string>, files: map<string, C>, hex: C -> string) {
    && (forall rel | rel in expected :: Resolve(rel) in files && hex(files[Resolve(rel)]) == expected[rel])
    && (forall n | n in files && n != MANIFEST :: n in expected)
  }

  /** The verdict on an extracted tree; `read` decodes the manifest's bytes. */
  predicate Verified<C>(files: map<string, C>, read: C -> string, hex: C -> string) {
    && MANIFEST in files
    && var expected := Parse(Lines(read(files[MANIFEST])), map[]);
       expected.Some? && Matches(expected.value, files, hex)
  }

  // ----- the two loops -----

  method BuildChecksumsText<C>(keys: seq<string>, sources: map<string, Source<C>>, hex: C -> string)
    returns (r: Printed<string>)
    requires forall n | n in keys :: n in sources
    ensures r.Done? <==> forall n | n in keys && n != MANIFEST :: sources[n].Readable?
    ensures r.AllowlistViolation? ==> r.name in keys && sources[r.name].Symlink?
    ensures r.CalculationFailed? ==> r.name in keys && sources[r.name].Unreadable?
    ensures r.Done? ==> r.value == Built(keys, Contents(sources), hex)
  {
    SortedMembers(keys);
    var printed := PrintSorted(Sort(keys), sources, hex);
    PrintOnVerdict(Sort(keys), sources, hex, []);
    match printed {
      case AllowlistViolation(n) => r := AllowlistViolation(n);
      case CalculationFailed(n) => r := CalculationFailed(n);
      case Done(lines) =>
        PrintOnListed(Sort(keys), sources, hex, []);
        PrintOnText(Listed(Sort(keys)), sources, hex, []);
        assert lines == [] + PrintLines(Listed(Sort(keys)), Contents(sources), hex);
        assert lines == PrintLines(Listed(Sort(keys)), Contents(sources), hex);
        r := Done(if lines == [] then "" else JoinWith('\n', lines) + "\n");
    }
  }

  /** The builder's loop over the sorted names. */
  method PrintSorted<C>(sorted: seq<string>, sources: map<string, Source<C>>, hex: C -> string) returns (r: Printed<seq<string>>)
    requires forall n | n in sorted :: n in sources
    ensures r == PrintOn(sorted, sources, hex, [])
  {
    var lines: seq<string> := [];
    var i := 0;
    assert sorted[i..] == sorted;
    while i < |sorted|
      invariant 0 <= i <= |sorted| && forall n | n in sorted[i..] :: n in sources
      invariant PrintOn(sorted, sources, hex, []) == PrintOn(sorted[i..], sources, hex, lines)
    {
      var name := sorted[i];
      assert sorted[i..] == [name] + sorted[i + 1..];
      if name != MANIFEST {
        match sources[name] {
          case Symlink => return AllowlistViolation(name);
          case Unreadable => return CalculationFailed(name);
          case Readable(content) => lines := lines + [Line(hex(content), name)];
        }
      }
      i := i + 1;
    }
    r := Done(lines);
  }

  /** The rest of the builder's work, with some lines printed already. */
  function PrintOn<C>(sorted: seq<string>, sources: map<string, Source<C>>, hex: C -> string, lines: seq<string>)
    : (r: Printed<seq<string>>)
    requires forall n | n in sorted :: n in sources
  {
    if sorted == [] then Done(lines)
    else
      assert sorted[0] in sorted;
      if sorted[0] == MANIFEST then PrintOn(sorted[1..], sources, hex, lines)
      else match sources[sorted[0]]
        case Symlink => AllowlistViolation(sorted[0])
        case Unreadable => CalculationFailed(sorted[0])
        case Readable(content) => PrintOn(sorted[1..], sources, hex, lines + [Line(hex(content), sorted[0])])
  }

  predicate AllReadable<C>(names: seq<string>, sources: map<string, Source<C>>) {
    forall n | n in names :: n in sources && sources[n].Readable?
  }

  /** The builder succeeds exactly on readable files, and otherwise names an unusable one. */
  lemma {:induction false} PrintOnVerdict<C>(sorted: seq<string>, sources: map<string, Source<C>>, hex: C -> string,
                                             lines: seq<string>)
    requires forall n | n in sorted :: n in sources
    ensures var r := PrintOn(sorted, sources, hex, lines);
            && (r.Done? <==> AllReadable(Listed(sorted), sources))
            && (r.AllowlistViolation? ==> r.name in sorted && sources[r.name].Symlink?)
            && (r.CalculationFailed? ==> r.name in sorted && sources[r.name].Unreadable?)
  {
    if sorted != [] {
      var n, rest := sorted[0], sorted[1..];
      assert n in sorted && forall m | m in rest :: m in sorted;
      if n == MANIFEST {
        PrintOnVerdict(rest, sources, hex, lines);
        assert Listed(sorted) == Listed(rest);
      } else {
        assert Listed(sorted) == [n] + Listed(rest);
        if sources[n].Readable? { PrintOnVerdict(rest, sources, hex, lines + [Line(hex(sources[n].content), n)]); }
        else { assert n in Listed(sorted); }
      }
    }
  }

  /** The manifest's own name makes no difference. */
  lemma {:induction false} PrintOnListed<C>(sorted: seq<string>, sources: map<string, Source<C>>, hex: C -> string,
                                            lines: seq<string>)
    requires forall n | n in sorted :: n in sources
    ensures PrintOn(sorted, sources, hex, lines) == PrintOn(Listed(sorted), sources, hex, lines)
  {
    if sorted != [] {
      var n, rest := sorted[0], sorted[1..];
      assert n in sorted && forall m | m in rest :: m in sorted;
      if n == MANIFEST {
        PrintOnListed(rest, sources, hex, lines);
        assert Listed(sorted) == Listed(rest);
      } else {
        assert Listed(sorted) == [n] + Listed(rest) && Listed(sorted)[1..] == Listed(rest);
        if sources[n].Readable? { PrintOnListed(rest, sources, hex, lines + [Line(hex(sources[n].content), n)]); }
      }
    }
  }

  /** On readable files every line is printed. */
  lemma {:induction false} PrintOnText<C>(names: seq<string>, sources: map<string, Source<C>>, hex: C -> string,
                                          lines: seq<string>)
    requires MANIFEST !in names && AllReadable(names, sources)
    ensures PrintOn(names, sources, hex, lines) == Done(lines + PrintLines(names, Contents(sources), hex))
  {
    if names == [] {
      assert lines + PrintLines(names, Contents(sources), hex) == lines;
    } else {
      var n, rest := names[0], names[1..];
      assert n in names && forall m | m in rest :: m in names;
      var here := Line(hex(sources[n].content), n);
      PrintOnText(rest, sources, hex, lines + [here]);
      var tail := PrintLines(rest, Contents(sources), hex);
      assert lines + [here] + tail == lines + ([here] + tail);
    }
  }

  lemma ParseFrom(lines: seq<string>, i: nat, found: map<string, string>)
    requires i < |lines|
    ensures Parse(lines[i..], found) == match ParseLine(lines[i])
            case Skip => Parse(lines[i + 1..], found)
            case Malformed => None
            case Declares(rel, digest) => Parse(lines[i + 1..], found[rel := digest])
  {
    assert lines[i..][0] == lines[i] && lines[i..][1..] == lines[i + 1..];
  }

  method ParseLines(lines: seq<string>) returns (expected: Option<map<string, string>>)
    ensures expected == Parse(lines, map[])
  {
    var found: map<string, string> := map[];
    var i := 0;
    assert lines[0..] == lines;
    while i < |lines|
      invariant 0 <= i <= |lines|
      invariant Parse(lines, map[]) == Parse(lines[i..], found)
    {
      ParseFrom(lines, i, found);
      var entry := ParseLine(lines[i]);
      if entry.Malformed? { return None; }
      if entry.Declares? { found := found[entry.rel := entry.digest]; }
      i := i + 1;
    }
    expected := Some(found);
  }

  /** The keys of a dictionary, for the loop over them. */
  method KeyList(found: map<string, string>) returns (rels: seq<string>)
    ensures forall r :: r in rels <==> r in found
  {
    rels := [];
    var left := found.Keys;
    while left != {}
      invariant forall r :: r in rels || r in left <==> r in found
      decreases |left|
    {
      var r :| r in left;
      rels, left := rels + [r], left - {r};
    }
  }

  /** `rels` lists the dictionary's keys for the loop that follows. */
  method ParseManifest(text: string) returns (expected: Option<map<string, string>>, rels: seq<string>)
    ensures expected == Parse(Lines(text), map[])
    ensures expected.Some? ==> forall r :: r in rels <==> r in expected.value
  {
    rels := [];
    expected := ParseLines(Lines(text));
    if expected.Some? { rels := KeyList(expected.value); }
  }

  method DeclaredFilesMatch<C>(expected: map<string, string>, rels: seq<string>, files: map<string, C>,
                               hex: C -> string)
    returns (ok: bool)
    requires forall r | r in rels :: r in expected
    ensures ok <==> forall r | r in rels :: Resolve(r) in files && hex(files[Resolve(r)]) == expected[r]
  {
    var i := 0;
    while i < |rels|
      invariant 0 <= i <= |rels|
      invariant forall r | r in rels[..i] :: Resolve(r) in files && hex(files[Resolve(r)]) == expected[r]
    {
      assert rels[i] in rels && rels[..i + 1] == rels[..i] + [rels[i]];
      var full := Resolve(rels[i]);
      if full !in files { return false; }
      if hex(files[full]) != expected[rels[i]] { return false; }
      i := i + 1;
    }
    assert rels[..i] == rels;
    return true;
  }

  method AllDeclared(expected: map<string, string>, walk: seq<string>) returns (ok: bool)
    ensures ok <==> forall n | n in walk && n != MANIFEST :: n in expected
  {
    var i := 0;
    while i < |walk|
      invariant 0 <= i <= |walk|
      invariant forall n | n in walk[..i] && n != MANIFEST :: n in expected
    {
      assert walk[i] in walk && walk[..i + 1] == walk[..i] + [walk[i]];
      if walk[i] != MANIFEST && walk[i] !in expected { return false; }
      i := i + 1;
    }
    assert walk[..i] == walk;
    return true;
  }

  /** `walk` is the order in which the directory walk meets the files. */
  method VerifyChecksums<C>(files: map<string, C>, walk: seq<string>, read: C -> string, hex: C -> string)
    returns (ok: bool)
    requires forall n :: n in walk <==> n in files
    ensures ok <==> Verified(files, read, hex)
  {
    if MANIFEST !in files { return false; }
    var expected, rels := ParseManifest(read(files[MANIFEST]));
    if expected.None? { return false; }
    ok := DeclaredFilesMatch(expected.value, rels, files, hex);
    if ok { ok := AllDeclared(expected.value, walk); }
  }

  // ----- print and parse undo each other -----

  /** SHA-256 in hexadecimal: not empty, without blanks, injective. */
  ghost predicate HexDigest<C(!new)>(hex: C -> string) {
    Injective(hex) && HexText(hex)
  }

  ghost predicate HexText<C(!new)>(hex: C -> string) {
    forall c :: hex(c) != "" && Unblank(hex(c))
  }

  predicate Unblank(s: string) {
    forall x | x in s :: !IsBlank(x)
  }

  /** The names whose line reads back: no leading backslash, no line break, no trailing blank. */
  predicate Printable(n: string) {
    n != "" && n[0] != '\\' && Unbroken(n) && !IsBlank(n[|n| - 1])
  }

  function Payload<C>(files: map<string, C>): (r: map<string, C>) {
    files - {MANIFEST}
  }

  lemma {:induction false} LinesOfJoin(a: string, b: string)
    requires Unbroken(a)
    ensures Lines(a + "\n" + b) == [a] + Lines(b)
  {
    if a == "" {
      assert (a + "\n" + b)[1..] == b;
    } else {
      assert (a + "\n" + b)[1..] == a[1..] + "\n" + b;
      LinesOfJoin(a[1..], b);
      assert a == [a[0]] + a[1..];
    }
  }

  lemma PrintCons(line: string, rest: seq<string>)
    ensures Print([line] + rest) == line + "\n" + Print(rest)
  {
  }

  lemma {:induction false} LinesOfPrint(lines: seq<string>)
    requires forall l | l in lines :: Unbroken(l)
    ensures Lines(Print(lines)) == lines + [""]
  {
    if lines != [] {
      var first, rest := lines[0], lines[1..];
      assert lines == [first] + rest && first in lines && forall l | l in rest :: l in lines;
      LinesOfPrint(rest);
      LinesOfJoin(first, Print(rest));
      PrintCons(first, rest);
      assert lines + [""] == [first] + (rest + [""]);
    }
  }

  lemma {:induction false} FirstGap(h: string, n: string)
    requires ' ' !in h
    ensures Gap(h + "  " + n) == Some(|h|)
  {
    if h != "" {
      assert (h + "  " + n)[1..] == h[1..] + "  " + n;
      FirstGap(h[1..], n);
    }
  }

  lemma ParsePrinted(h: string, n: string)
    requires h != "" && Unblank(h) && WalkName(n) && Printable(n)
    ensures ParseLine(Line(h, n)) == Declares(n, h)
  {
    var line := Line(h, n);
    assert line[0] == h[0] && line[|line| - 1] == n[|n| - 1];
    assert StripRight(line) == line && StripLeft(line) == line;
    FirstGap(h, n);
    assert line[|h| + 2..] == n && line[..|h|] == h;
    assert Components(n)[0] in Components(n);
  }

  function Digests<C>(names: seq<string>, files: map<string, C>, hex: C -> string): (r: map<string, string>)
    requires forall n | n in names :: n in files
  {
    map n | n in names :: hex(files[n])
  }

  lemma DigestsCons<C>(names: seq<string>, files: map<string, C>, hex: C -> string, acc: map<string, string>)
    requires names != [] && forall n | n in names :: n in files
    ensures names[0] in files && forall n | n in names[1..] :: n in files
    ensures acc[names[0] := hex(files[names[0]])] + Digests(names[1..], files, hex)
         == acc + Digests(names, files, hex)
  {
  }

  lemma ParseStep(line: string, rest: seq<string>, acc: map<string, string>, rel: string, digest: string)
    requires ParseLine(line) == Declares(rel, digest)
    ensures Parse([line] + rest, acc) == Parse(rest, acc[rel := digest])
  {
  }

  lemma ParseBlank(acc: map<string, string>)
    ensures Parse([""], acc) == Some(acc)
  {
  }

  predicate ReadsBack(n: string) {
    WalkName(n) && Printable(n)
  }

  lemma ParseOnePrinted<C(!new)>(n: string, files: map<string, C>, hex: C -> string, rest: seq<string>,
                                 acc: map<string, string>)
    requires HexText(hex) && n in files && ReadsBack(n)
    ensures Parse([Line(hex(files[n]), n)] + rest, acc) == Parse(rest, acc[n := hex(files[n])])
  {
    var h := hex(files[n]);
    ParsePrinted(h, n);
    ParseStep(Line(h, n), rest, acc, n, h);
  }

  lemma PrintLinesFirst<C>(names: seq<string>, files: map<string, C>, hex: C -> string)
    requires names != [] && forall n | n in names :: n in files
    ensures names[0] in names && forall n | n in names[1..] :: n in names
    ensures PrintLines(names, files, hex) + [""]
         == [Line(hex(files[names[0]]), names[0])] + (PrintLines(names[1..], files, hex) + [""])
  {
    assert names[0] in names && forall n | n in names[1..] :: n in names;
  }

  lemma ParseFirstPrinted<C(!new)>(names: seq<string>, files: map<string, C>, hex: C -> string, acc: map<string, string>)
    requires HexText(hex) && names != [] && forall n | n in names :: n in files && ReadsBack(n)
    ensures names[0] in names && forall n | n in names[1..] :: n in names
    ensures Parse(PrintLines(names, files, hex) + [""], acc)
         == Parse(PrintLines(names[1..], files, hex) + [""], acc[names[0] := hex(files[names[0]])])
  {
    PrintLinesFirst(names, files, hex);
    ParseOnePrinted(names[0], files, hex, PrintLines(names[1..], files, hex) + [""], acc);
  }

  lemma {:induction false} ParseAllPrinted<C(!new)>(names: seq<string>, files: map<string, C>, hex: C -> string,
                                                   acc: map<string, string>)
    requires HexText(hex) && forall n | n in names :: n in files && ReadsBack(n)
    ensures Parse(PrintLines(names, files, hex) + [""], acc) == Some(acc + Digests(names, files, hex))
  {
    if names == [] {
      ParseBlank(acc);
      assert PrintLines(names, files, hex) + [""] == [""] && acc + Digests(names, files, hex) == acc;
    } else {
      ParseFirstPrinted(names, files, hex, acc);
      ParseAllPrinted(names[1..], files, hex, acc[names[0] := hex(files[names[0]])]);
      DigestsCons(names, files, hex, acc);
    }
  }

  lemma {:induction false} SignificantAll(parts: seq<string>)
    requires forall p | p in parts :: p !in {"", "."}
    ensures Significant(parts) == parts
  {
    if parts != [] {
      assert parts[0] in parts && forall p | p in parts[1..] :: p in parts;
      SignificantAll(parts[1..]);
    }
  }

  lemma {:induction false} JoinComponents(s: string)
    ensures JoinWith('/', Components(s)) == s
  {
    if s != "" {
      JoinComponents(s[1..]);
      var r, rest := Components(s), Components(s[1..]);
      assert s == [s[0]] + s[1..];
      if s[0] == '/' {
        assert r == [""] + rest && r[1..] == rest && |r| > 1;
        assert JoinWith('/', r) == "" + "/" + JoinWith('/', rest);
      } else {
        assert r == [[s[0]] + rest[0]] + rest[1..] && r[1..] == rest[1..];
        if |rest| > 1 {
          assert JoinWith('/', r) == ([s[0]] + rest[0]) + "/" + JoinWith('/', rest[1..]);
          assert JoinWith('/', rest) == rest[0] + "/" + JoinWith('/', rest[1..]);
        }
      }
    }
  }

  /** A walked name denotes its own file. */
  lemma ResolveWalkName(n: string)
    requires WalkName(n)
    ensures Resolve(n) == n
  {
    SignificantAll(Components(n));
    JoinComponents(n);
  }

  lemma PrintedUnbroken<C(!new)>(names: seq<string>, files: map<string, C>, hex: C -> string)
    requires HexText(hex) && forall n | n in names :: n in files && Unbroken(n)
    ensures forall l | l in PrintLines(names, files, hex) :: Unbroken(l)
  {
  }

  lemma LineUnbroken(h: string, n: string)
    requires Unblank(h) && Unbroken(n)
    ensures Unbroken(Line(h, n))
  {
  }

  /** The digest of every payload file, by name. */
  function Declared<C>(keys: seq<string>, files: map<string, C>, hex: C -> string): (r: map<string, string>)
    requires forall n | n in keys && n != MANIFEST :: n in files
  {
    map n | n in keys && n != MANIFEST :: hex(files[n])
  }

  /** The declared dictionary of a printed manifest. */
  lemma ParseBuilt<C(!new)>(keys: seq<string>, files: map<string, C>, hex: C -> string)
    requires HexText(hex) && forall n | n in keys && n != MANIFEST :: n in files && ReadsBack(n)
    ensures Parse(Lines(Built(keys, files, hex)), map[]) == Some(Declared(keys, files, hex))
  {
    SortedMembers(keys);
    var names := Listed(Sort(keys));
    ParseListed(names, files, hex);
    ListedDigests(names, keys, files, hex);
  }

  lemma ListedDigests<C>(names: seq<string>, keys: seq<string>, files: map<string, C>, hex: C -> string)
    requires forall n :: n in names <==> n in keys && n != MANIFEST
    requires forall n | n in names :: n in files
    ensures Digests(names, files, hex) == Declared(keys, files, hex)
  {
  }

  lemma ParseListed<C(!new)>(names: seq<string>, files: map<string, C>, hex: C -> string)
    requires HexText(hex) && forall n | n in names :: n in files && ReadsBack(n)
    ensures Parse(Lines(Print(PrintLines(names, files, hex))), map[]) == Some(Digests(names, files, hex))
  {
    PrintedUnbroken(names, files, hex);
    LinesOfPrint(PrintLines(names, files, hex));
    ParseAllPrinted(names, files, hex, map[]);
    assert map[] + Digests(names, files, hex) == Digests(names, files, hex);
  }

  lemma MatchedIsIdentical<C(!new)>(keys: seq<string>, files: map<string, C>, tree: map<string, C>, hex: C -> string)
    requires Injective(hex) && Tree(files) && forall n :: n in keys <==> n in files
    requires Matches(Declared(keys, files, hex), tree, hex)
    ensures Payload(tree) == Payload(files)
  {
    var expected := Declared(keys, files, hex);
    forall n | n in expected ensures n in tree && tree[n] == files[n] {
      ResolveWalkName(n);
      assert hex(tree[n]) == hex(files[n]);
    }
  }

  lemma IdenticalMatches<C(!new)>(keys: seq<string>, files: map<string, C>, tree: map<string, C>, hex: C -> string)
    requires Tree(files) && (forall n :: n in keys <==> n in files) && Payload(tree) == Payload(files)
    ensures Matches(Declared(keys, files, hex), tree, hex)
  {
    var expected := Declared(keys, files, hex);
    forall n | n in expected ensures Resolve(n) in tree && hex(tree[Resolve(n)]) == expected[n] {
      ResolveWalkName(n);
      assert n in Payload(files) && Payload(files)[n] == files[n] && Payload(tree)[n] == tree[n];
    }
    forall n | n in tree && n != MANIFEST ensures n in expected {
      assert n in Payload(tree);
    }
  }

  /**
    Print and parse undo each other: the manifest built for `files` is accepted on a tree exactly when the tree
    holds the same payload files with the same contents.
   */
  lemma AcceptsExactlyIdentical<C(!new)>(keys: seq<string>, files: map<string, C>, tree: map<string, C>,
                                        read: C -> string, hex: C -> string)
    requires HexDigest(hex) && Tree(files) && Tree(tree)
    requires forall n :: n in keys <==> n in files
    requires forall n | n in files && n != MANIFEST :: Printable(n)
    requires MANIFEST in tree && read(tree[MANIFEST]) == Built(keys, files, hex)
    ensures Verified(tree, read, hex) <==> Payload(tree) == Payload(files)
  {
    ParseBuilt(keys, files, hex);
    var expected := Declared(keys, files, hex);
    if Matches(expected, tree, hex) { MatchedIsIdentical(keys, files, tree, hex); }
    if Payload(tree) == Payload(files) { IdenticalMatches(keys, files, tree, hex); }
  }

  // ----- exactly when the identical tree is accepted -----

  lemma {:induction false} StripLeftTail(s: string)
    ensures StripLeft(s) == "" || (s != "" && StripLeft(s)[|StripLeft(s)| - 1] == s[|s| - 1])
    ensures forall c | c in StripLeft(s) :: c in s
  {
    if s != "" { StripLeftTail(s[1..]); }
  }

  lemma DeclaredIsPrintable(raw: string)
    requires Unbroken(raw) && ParseLine(raw).Declares? && ParseLine(raw).rel != ""
    ensures Printable(ParseLine(raw).rel)
  {
    var right := StripRight(raw);
    var line := StripLeft(right);
    StripLeftTail(right);
    var rel := ParseLine(raw).rel;
    assert rel == line[Gap(line).value + 2..];
    assert rel[|rel| - 1] == line[|line| - 1];
    assert forall c | c in rel :: c in line;
  }

  predicate PrintableKeys(m: map<string, string>) {
    forall n | n in m && n != "" :: Printable(n)
  }

  lemma {:induction false} ParsedPrintable(lines: seq<string>, acc: map<string, string>)
    requires forall l | l in lines :: Unbroken(l)
    requires PrintableKeys(acc)
    ensures Parse(lines, acc).Some? ==> PrintableKeys(Parse(lines, acc).value)
  {
    if lines != [] {
      assert lines[0] in lines && forall l | l in lines[1..] :: l in lines;
      var p := ParseLine(lines[0]);
      if p.Declares? {
        if p.rel != "" { DeclaredIsPrintable(lines[0]); }
        ParsedPrintable(lines[1..], acc[p.rel := p.digest]);
      } else {
        ParsedPrintable(lines[1..], acc);
      }
    }
  }

  /** A tree is accepted with its own manifest exactly when every payload name is printable. */
  lemma OwnManifestAcceptedExactly<C(!new)>(keys: seq<string>, files: map<string, C>, read: C -> string, hex: C -> string)
    requires HexDigest(hex) && Tree(files)
    requires forall n :: n in keys <==> n in files
    requires MANIFEST in files && read(files[MANIFEST]) == Built(keys, files, hex)
    ensures Verified(files, read, hex) <==> forall n | n in files && n != MANIFEST :: Printable(n)
  {
    if Verified(files, read, hex) {
      ParsedPrintable(Lines(read(files[MANIFEST])), map[]);
      forall n | n in files && n != MANIFEST ensures Printable(n) {
        assert Components(n)[0] in Components(n);
      }
    } else if forall n | n in files && n != MANIFEST :: Printable(n) {
      AcceptsExactlyIdentical(keys, files, files, read, hex);
    }
  }

  lemma TrailingBlankStripped(h: string)
    requires h != "" && Unblank(h)
    ensures ParseLine(Line(h, "a ")) == Declares("a", h)
  {
    var line, kept := Line(h, "a "), Line(h, "a");
    assert line[..|line| - 1] == kept;
    assert StripRight(line) == StripRight(kept) == kept && StripLeft(kept) == kept;
    assert Components("a") == ["a"] by { assert "a"[1..] == "" && ['a'] + "" == "a" && Components("") == [""]; }
    ParsePrinted(h, "a");
  }

  lemma BuiltOne<C(!new)>(n: string, c: C, hex: C -> string)
    requires HexText(hex) && n != MANIFEST && Unbroken(n)
    ensures Lines(Built([n], map[n := c], hex)) == [Line(hex(c), n), ""]
  {
    assert Sort([n]) == [n] && Listed([n]) == [n];
    assert PrintLines([n], map[n := c], hex) == [Line(hex(c), n)];
    LineUnbroken(hex(c), n);
    LinesOfPrint([Line(hex(c), n)]);
  }

  /** With a trailing blank in a name, the manifest is accepted on a tree that lacks the file. */
  lemma TrailingBlankMisread<C(!new)>(c: C, read: C -> string, hex: C -> string, m: C)
    requires HexText(hex) && read(m) == Built(["a "], map["a " := c], hex)
    ensures Verified(map["a" := c, MANIFEST := m], read, hex)
  {
    var h := hex(c);
    BuiltOne("a ", c, hex);
    TrailingBlankStripped(h);
    assert [Line(h, "a "), ""] == [Line(h, "a ")] + [""];
    ParseStep(Line(h, "a "), [""], map[], "a", h);
    ParseBlank(map["a" := h]);
    assert Components("a") == ["a"] by { assert "a"[1..] == "" && ['a'] + "" == "a" && Components("") == [""]; }
    ResolveWalkName("a");
  }
}
