/**
  `_artifacts_merkle_sha256` of scripts/taskhub_restore_orchestrator.py: the digest of an artifacts directory in a
  snapshot manifest. The digested text has three lines per regular file (tag F) and then three per symbolic link
  (tag L); directories leave no trace in it.
 */
module ArtifactMerkle {
  import opened Prelude
  import opened StringOrder

  type Data = string

  datatype Entry = File(bytes: Data) | Link(target: string) | Dir

  /** A directory by relative path. */
  type Tree = map<string, Entry>

  /** How a set of paths is sorted. Nothing below depends on which order it is. */
  type Order = set<string> -> seq<string>

  ghost predicate ListsAll(order: Order) {
    forall s, x :: x in order(s) <==> x in s
  }

  function Without(names: seq<string>, p: string): (r: seq<string>)
    ensures forall n :: n in r <==> n in names && n != p
  {
    if names == [] then [] else (if names[0] == p then [] else [names[0]]) + Without(names[1..], p)
  }

  /** A sort keeps the others in place when one more path joins. */
  ghost predicate KeepsPlaces(order: Order) {
    forall s, p :: p !in s ==> Without(order(s + {p}), p) == order(s)
  }

  datatype Row = Row(tag: char, path: string, value: string)

  function RowText(r: Row): (s: string) {
    [r.tag] + ['\n'] + (r.path + ['\n'] + (r.value + ['\n']))
  }

  function Text(rows: seq<Row>): (s: string) {
    if rows == [] then "" else RowText(rows[0]) + Text(rows[1..])
  }

  /** The row of an entry, if it is of the wanted kind. */
  function RowOf(n: string, t: Tree, links: bool, sha: Data -> string): (r: seq<Row>) {
    if n !in t then []
    else match t[n]
      case File(bytes) => if links then [] else [Row('F', n, sha(bytes))]
      case Link(target) => if links then [Row('L', n, target)] else []
      case Dir => []
  }

  function Rows(names: seq<string>, t: Tree, links: bool, sha: Data -> string): (rs: seq<Row>)
    ensures forall r :: r in rs <==> r.path in names && r in RowOf(r.path, t, links, sha)
  {
    if names == [] then [] else RowOf(names[0], t, links, sha) + Rows(names[1..], t, links, sha)
  }

  function MerkleRows(t: Tree, order: Order, sha: Data -> string): (rs: seq<Row>) {
    Rows(order(t.Keys), t, false, sha) + Rows(order(t.Keys), t, true, sha)
  }

  function MerkleText(t: Tree, order: Order, sha: Data -> string): (s: string) {
    Text(MerkleRows(t, order, sha))
  }

  /** Collect files and links in one pass over the sorted paths, then feed both lists to the hasher. */
  method ArtifactsMerkle(t: Tree, walk: seq<string>, sha: Data -> string) returns (digest: string)
    ensures digest == sha(Text(Rows(walk, t, false, sha) + Rows(walk, t, true, sha)))
    ensures forall order: Order | order(t.Keys) == walk :: digest == sha(MerkleText(t, order, sha))
  {
    var files, links := Collect(t, walk, sha);
    var hashed := Feed(files);
    var rest := Feed(links);
    TextJoin(files, links);
    digest := sha(hashed + rest);
  }

  method Collect(t: Tree, walk: seq<string>, sha: Data -> string) returns (files: seq<Row>, links: seq<Row>)
    ensures files == Rows(walk, t, false, sha) && links == Rows(walk, t, true, sha)
  {
    files, links := [], [];
    var i := 0;
    while i < |walk|
      invariant 0 <= i <= |walk| && files == Rows(walk[..i], t, false, sha) && links == Rows(walk[..i], t, true, sha)
    {
      assert walk[..i + 1] == walk[..i] + [walk[i]];
      RowsSnoc(walk[..i], walk[i], t, false, sha);
      RowsSnoc(walk[..i], walk[i], t, true, sha);
      if walk[i] in t {
        match t[walk[i]] {
          case Link(target) => links := links + [Row('L', walk[i], target)];
          case File(bytes) => files := files + [Row('F', walk[i], sha(bytes))];
          case Dir =>
        }
      }
      i := i + 1;
    }
    assert walk[..i] == walk;
  }

  lemma {:induction false} RowsSnoc(names: seq<string>, n: string, t: Tree, links: bool, sha: Data -> string)
    ensures Rows(names + [n], t, links, sha) == Rows(names, t, links, sha) + RowOf(n, t, links, sha)
  {
    if names == [] {
      assert names + [n] == [n] && [n][1..] == [];
    } else {
      assert (names + [n])[1..] == names[1..] + [n];
      RowsSnoc(names[1..], n, t, links, sha);
    }
  }

  method Feed(rows: seq<Row>) returns (s: string)
    ensures s == Text(rows)
  {
    s := "";
    var i := 0;
    while i < |rows|
      invariant 0 <= i <= |rows| && s + Text(rows[i..]) == Text(rows)
    {
      assert rows[i..][1..] == rows[i + 1..];
      assert s + (RowText(rows[i]) + Text(rows[i + 1..])) == (s + RowText(rows[i])) + Text(rows[i + 1..]);
      s := s + RowText(rows[i]);
      i := i + 1;
    }
  }

  lemma {:induction false} TextJoin(a: seq<Row>, b: seq<Row>)
    ensures Text(a + b) == Text(a) + Text(b)
  {
    if a == [] {
      assert a + b == b;
    } else {
      assert (a + b)[1..] == a[1..] + b;
      TextJoin(a[1..], b);
      assert RowText(a[0]) + (Text(a[1..]) + Text(b)) == (RowText(a[0]) + Text(a[1..])) + Text(b);
    }
  }

  /** The digested text of a directory with one file, or with one link, character by character. */
  lemma OneEntryText(n: string, bytes: Data, target: string, sha: Data -> string)
    ensures Text(Rows([n], map[n := File(bytes)], false, sha)) == "F\n" + n + "\n" + sha(bytes) + "\n"
    ensures Text(Rows([n], map[n := Link(target)], true, sha)) == "L\n" + n + "\n" + target + "\n"
    ensures Rows([n], map[n := File(bytes)], true, sha) == [] && Rows([n], map[n := Link(target)], false, sha) == []
  {
    var f, l := Row('F', n, sha(bytes)), Row('L', n, target);
    assert [n][1..] == [];
    assert Rows([n], map[n := File(bytes)], false, sha) == [f] && Rows([n], map[n := Link(target)], true, sha) == [l];
    assert [f][1..] == [] && Text([f]) == RowText(f) + Text([]);
    assert [l][1..] == [] && Text([l]) == RowText(l) + Text([]);
  }

  // ----- what the digest sees -----

  /** Files and links; directories are not seen. */
  function Visible(t: Tree): (r: Tree) {
    map n | n in t && !t[n].Dir? :: t[n]
  }

  predicate OneLine(r: Row) {
    r.tag != '\n' && '\n' !in r.path && '\n' !in r.value
  }

  lemma RowInjective(a: Row, b: Row, x: string, y: string)
    requires OneLine(a) && OneLine(b) && RowText(a) + x == RowText(b) + y
    ensures a == b && x == y
  {
    var restA, restB := a.path + ['\n'] + (a.value + ['\n']) + x, b.path + ['\n'] + (b.value + ['\n']) + y;
    assert RowText(a) + x == [a.tag] + ['\n'] + restA && RowText(b) + y == [b.tag] + ['\n'] + restB;
    SplitAtFirst('\n', [a.tag], [b.tag], restA, restB);
    assert restA == a.path + ['\n'] + (a.value + ['\n'] + x) && restB == b.path + ['\n'] + (b.value + ['\n'] + y);
    SplitAtFirst('\n', a.path, b.path, a.value + ['\n'] + x, b.value + ['\n'] + y);
    SplitAtFirst('\n', a.value, b.value, x, y);
  }

  lemma {:induction false} TextInjective(a: seq<Row>, b: seq<Row>)
    requires (forall r | r in a :: OneLine(r)) && (forall r | r in b :: OneLine(r)) && Text(a) == Text(b)
    ensures a == b
  {
    if a != [] && b != [] {
      assert a[0] in a && b[0] in b;
      assert forall r | r in a[1..] :: r in a;
      assert forall r | r in b[1..] :: r in b;
      RowInjective(a[0], b[0], Text(a[1..]), Text(b[1..]));
      TextInjective(a[1..], b[1..]);
      assert a == [a[0]] + a[1..] && b == [b[0]] + b[1..];
    }
  }

  /** Every name and link target uses permitted characters only. */
  predicate Over(t: Tree, permitted: char -> bool) {
    forall n | n in t :: (forall c | c in n :: permitted(c)) && (t[n].Link? ==> forall c | c in t[n].target :: permitted(c))
  }

  ghost predicate OneLineDigest(sha: Data -> string) {
    forall d :: '\n' !in sha(d)
  }

  lemma RowsOneLine(t: Tree, order: Order, permitted: char -> bool, sha: Data -> string)
    requires Over(t, permitted) && !permitted('\n') && OneLineDigest(sha)
    ensures forall r | r in MerkleRows(t, order, sha) :: OneLine(r)
  {
  }

  lemma RowsSee(t: Tree, order: Order, sha: Data -> string, n: string)
    requires ListsAll(order)
    ensures n in Visible(t) ==> RowFor(n, t[n], sha) in MerkleRows(t, order, sha)
    ensures forall r | r in MerkleRows(t, order, sha) :: r.path in Visible(t) && r == RowFor(r.path, t[r.path], sha)
  {
  }

  function RowFor(n: string, e: Entry, sha: Data -> string): (r: Row) {
    match e
    case File(bytes) => Row('F', n, sha(bytes))
    case Link(target) => Row('L', n, target)
    case Dir => Row('D', n, "")
  }

  lemma SeenAlike(a: Tree, b: Tree, order: Order, sha: Data -> string, n: string)
    requires ListsAll(order) && Injective(sha) && MerkleRows(a, order, sha) == MerkleRows(b, order, sha)
    requires n in Visible(a)
    ensures n in Visible(b) && a[n] == b[n]
  {
    RowsSee(a, order, sha, n);
    RowsSee(b, order, sha, n);
  }

  /** Without line breaks in names and targets, equal texts mean the same files and links. */
  lemma MerkleInjective(a: Tree, b: Tree, order: Order, permitted: char -> bool, sha: Data -> string)
    requires ListsAll(order) && Injective(sha) && OneLineDigest(sha) && !permitted('\n')
    requires Over(a, permitted) && Over(b, permitted) && MerkleText(a, order, sha) == MerkleText(b, order, sha)
    ensures Visible(a) == Visible(b)
  {
    RowsOneLine(a, order, permitted, sha);
    RowsOneLine(b, order, permitted, sha);
    TextInjective(MerkleRows(a, order, sha), MerkleRows(b, order, sha));
    forall n | n in Visible(a) ensures n in Visible(b) && a[n] == b[n] { SeenAlike(a, b, order, sha, n); }
    forall n | n in Visible(b) ensures n in Visible(a) { SeenAlike(b, a, order, sha, n); }
  }

  /** What the target of one link has to say to pass for two. */
  function Disguise(n: string): (target: string) {
    ['\n', 'L', '\n'] + n + ['\n']
  }

  /** One link that passes for two, and the two. */
  function Disguised(m: string, n: string): (t: Tree) {
    map[m := Link(Disguise(n))]
  }

  function Spelled(m: string, n: string): (t: Tree) {
    map[m := Link(""), n := Link("")]
  }

  lemma DisguisedText(m: string, n: string)
    ensures Text([Row('L', m, Disguise(n))]) == Text([Row('L', m, ""), Row('L', n, "")])
  {
    var one, first, second := Row('L', m, Disguise(n)), Row('L', m, ""), Row('L', n, "");
    assert [one][1..] == [] && [first, second][1..] == [second] && [second][1..] == [];
    assert RowText(one) == ['L', '\n'] + m + ['\n', '\n', 'L', '\n'] + n + ['\n', '\n'];
    assert RowText(first) == ['L', '\n'] + m + ['\n', '\n'];
    assert RowText(second) == ['L', '\n'] + n + ['\n', '\n'];
    assert Text([second]) == RowText(second) + Text([]) && Text([one]) == RowText(one) + Text([]);
    assert Text([first, second]) == RowText(first) + Text([second]);
    assert Text([]) == "";
  }

  lemma {:induction false} LinkRows(names: seq<string>, t: Tree, sha: Data -> string)
    requires forall n | n in names :: n in t && t[n].Link?
    ensures Rows(names, t, false, sha) == []
    ensures |Rows(names, t, true, sha)| == |names|
    ensures forall i | 0 <= i < |names| :: names[i] in t && t[names[i]].Link?
                                         && Rows(names, t, true, sha)[i] == Row('L', names[i], t[names[i]].target)
  {
    if names != [] {
      assert names[0] in names && forall n | n in names[1..] :: n in names;
      LinkRows(names[1..], t, sha);
    }
  }

  /** One link whose target spells out a second link. */
  lemma BrokenTargetCollides(m: string, n: string, order: Order, sha: Data -> string)
    requires m != n && order({m}) == [m] && order({m, n}) == [m, n]
    ensures MerkleText(Disguised(m, n), order, sha) == MerkleText(Spelled(m, n), order, sha)
    ensures Visible(Disguised(m, n)) != Visible(Spelled(m, n))
  {
    var one, two := Disguised(m, n), Spelled(m, n);
    assert one.Keys == {m} && two.Keys == {m, n};
    LinkRows([m], one, sha);
    LinkRows([m, n], two, sha);
    assert MerkleRows(one, order, sha) == [Row('L', m, Disguise(n))];
    assert MerkleRows(two, order, sha) == [Row('L', m, ""), Row('L', n, "")];
    DisguisedText(m, n);
    assert n !in Visible(one) && n in Visible(two);
  }

  /** Two trees over the alphabet that the digest cannot tell apart, though their files or links differ. */
  ghost predicate Confused(a: Tree, b: Tree, permitted: char -> bool, order: Order, sha: Data -> string) {
    && Over(a, permitted) && Over(b, permitted) && MerkleText(a, order, sha) == MerkleText(b, order, sha)
    && Visible(a) != Visible(b)
  }

  ghost predicate Separates(permitted: char -> bool, order: Order, sha: Data -> string) {
    forall a, b :: !Confused(a, b, permitted, order, sha)
  }

  /** The text separates files and links over an alphabet exactly if the alphabet holds no line break. */
  lemma MerkleInjectiveExactly(m: string, n: string, order: Order, permitted: char -> bool, sha: Data -> string)
    requires ListsAll(order) && Injective(sha) && OneLineDigest(sha)
    requires m != n && order({m}) == [m] && order({m, n}) == [m, n]
    requires permitted('L') && (forall c | c in m || c in n :: permitted(c))
    ensures Separates(permitted, order, sha) <==> !permitted('\n')
  {
    if !permitted('\n') {
      CleanSeparates(order, permitted, sha);
    } else {
      BreakConfuses(m, n, order, permitted, sha);
    }
  }

  lemma CleanSeparates(order: Order, permitted: char -> bool, sha: Data -> string)
    requires ListsAll(order) && Injective(sha) && OneLineDigest(sha) && !permitted('\n')
    ensures Separates(permitted, order, sha)
  {
    forall a, b ensures !Confused(a, b, permitted, order, sha) {
      if Confused(a, b, permitted, order, sha) { MerkleInjective(a, b, order, permitted, sha); }
    }
  }

  lemma BreakConfuses(m: string, n: string, order: Order, permitted: char -> bool, sha: Data -> string)
    requires m != n && order({m}) == [m] && order({m, n}) == [m, n]
    requires permitted('L') && permitted('\n') && (forall c | c in m || c in n :: permitted(c))
    ensures !Separates(permitted, order, sha)
  {
    BrokenTargetCollides(m, n, order, sha);
    DisguiseOver(m, n, permitted);
    assert Confused(Disguised(m, n), Spelled(m, n), permitted, order, sha);
  }

  lemma DisguiseOver(m: string, n: string, permitted: char -> bool)
    requires permitted('L') && permitted('\n') && (forall c | c in m || c in n :: permitted(c))
    ensures Over(Disguised(m, n), permitted) && Over(Spelled(m, n), permitted)
  {
  }

  lemma RowUnchanged(n: string, t: Tree, p: string, links: bool, sha: Data -> string)
    requires p !in t
    ensures RowOf(n, t[p := Dir], links, sha) == if n == p then [] else RowOf(n, t, links, sha)
  {
  }

  lemma {:induction false} RowsUnchanged(names: seq<string>, t: Tree, p: string, links: bool, sha: Data -> string)
    requires p !in t
    ensures Rows(names, t[p := Dir], links, sha) == Rows(Without(names, p), t, links, sha)
  {
    if names != [] {
      RowsUnchanged(names[1..], t, p, links, sha);
      RowUnchanged(names[0], t, p, links, sha);
      if names[0] == p {
        assert Without(names, p) == Without(names[1..], p);
      } else {
        RowsFirst(names[0], Without(names[1..], p), t, links, sha);
      }
    }
  }

  lemma RowsFirst(n: string, rest: seq<string>, t: Tree, links: bool, sha: Data -> string)
    ensures Rows([n] + rest, t, links, sha) == RowOf(n, t, links, sha) + Rows(rest, t, links, sha)
  {
    assert ([n] + rest)[1..] == rest;
  }

  /** An added directory is not seen. */
  lemma DirectoryUnseen(t: Tree, p: string, order: Order, sha: Data -> string)
    requires KeepsPlaces(order) && p !in t
    ensures MerkleText(t[p := Dir], order, sha) == MerkleText(t, order, sha) && t[p := Dir] != t
  {
    assert t[p := Dir].Keys == t.Keys + {p};
    RowsUnchanged(order(t.Keys + {p}), t, p, false, sha);
    RowsUnchanged(order(t.Keys + {p}), t, p, true, sha);
  }

  // ----- sorting is such an order -----

  ghost function SortedPaths(s: set<string>): (r: seq<string>) {
    Sort(Listing(s))
  }

  lemma {:induction false} WithoutOrdered(names: seq<string>, p: string)
    requires Ordered(names)
    ensures Ordered(Without(names, p)) && multiset(Without(names, p)) == multiset(names)[p := 0]
  {
    if names != [] {
      WithoutOrdered(names[1..], p);
      assert names == [names[0]] + names[1..];
      var rest := Without(names[1..], p);
      forall j | 0 <= j < |rest| ensures Leq(names[0], rest[j]) {
        assert rest[j] in rest;
        var k :| 0 <= k < |names[1..]| && names[1..][k] == rest[j];
        assert names[k + 1] == rest[j];
      }
    }
  }

  lemma SortedPathsOrder()
    ensures ListsAll(SortedPaths) && KeepsPlaces(SortedPaths)
  {
    forall s, x ensures x in SortedPaths(s) <==> x in s {
      assert x in SortedPaths(s) <==> x in multiset(SortedPaths(s));
    }
    forall s, p | p !in s ensures Without(SortedPaths(s + {p}), p) == SortedPaths(s) {
      SortOrdered(Listing(s));
      SortOrdered(Listing(s + {p}));
      WithoutOrdered(SortedPaths(s + {p}), p);
      assert multiset(s + {p})[p := 0] == multiset(s);
      OrderedUnique(Without(SortedPaths(s + {p}), p), SortedPaths(s));
    }
  }
}
