/**
  The three walks over the artifacts directory in scripts/taskhub_backup_orchestrator.py: the copy into the
  staging directory with its sidecar, the manifest of the source tree, and the manifest of the staged tree
  checked against the sidecar.

  A file carries the size its `lstat` reported and the bytes a read delivered. In a tree at rest they agree; when
  other processes rewrite the source between the two calls they need not.
 */
module ArtifactTree {
  import opened Prelude
  import opened StringOrder

  type Bytes = seq<bv8>

  const MAX_FILE := 256 * 1024 * 1024
  const MAX_TREE := 4 * 1024 * 1024 * 1024
  const RESERVED := "_artifacts_source_mode.json"
  const STAGED_DIR_MODE := 0x1C0
  const STAGED_FILE_MODE := 0x100

  datatype Node =
    | File(mode: nat, size: nat, bytes: Bytes)
    | Dir(mode: nat, entries: map<string, Node>)
    | Other

  datatype Item = DirItem(path: string, mode: nat) | FileItem(path: string, digest: string, mode: nat, size: nat)

  datatype Failure =
    | ReservedName(path: string)
    | FileTooLarge(path: string)
    | TreeTooLarge(bytes: nat)
    | Unsupported(path: string)
    | Tampered(path: string)

  datatype Walked = Walked(items: seq<Item>, total: nat) | Failed(failure: Failure)

  function Prepend(items: seq<Item>, w: Walked): (r: Walked) {
    if w.Failed? then w else Walked(items + w.items, w.total)
  }

  // ----- directory listings -----

  /** The order every walk visits. */
  ghost function Names(d: Node): (r: seq<string>)
    requires d.Dir?
    ensures forall n :: n in r <==> n in d.entries
    ensures forall i, j | 0 <= i < j < |r| :: r[i] != r[j]
  {
    var r := Sort(Listing(d.entries.Keys));
    assert multiset(r) == multiset(d.entries.Keys);
    assert forall n :: n in r <==> n in multiset(r);
    DistinctListing(r, d.entries.Keys);
    r
  }

  lemma DistinctListing(r: seq<string>, names: set<string>)
    requires multiset(r) == multiset(names)
    ensures forall i, j | 0 <= i < j < |r| :: r[i] != r[j]
  {
    forall i, j | 0 <= i < j < |r| ensures r[i] != r[j] {
      assert r == r[..i] + [r[i]] + r[i + 1..j] + [r[j]] + r[j + 1..];
      assert multiset(r)[r[i]] <= 1;
    }
  }

  /** Sorting makes the scan's order irrelevant. */
  method ScandirSorted(d: Node) returns (names: seq<string>)
    requires d.Dir?
    ensures names == Names(d)
  {
    var rest := d.entries.Keys;
    var scanned: seq<string> := [];
    while rest != {}
      invariant rest <= d.entries.Keys
      invariant multiset(scanned) + multiset(rest) == multiset(d.entries.Keys)
      decreases |rest|
    {
      var n :| n in rest;
      assert rest == {n} + (rest - {n});
      scanned, rest := scanned + [n], rest - {n};
    }
    SortSameContents(scanned, Listing(d.entries.Keys));
    names := Sort(scanned);
  }

  // ----- the walks -----

  function SourceItem(path: string, node: Node, sha: Bytes -> string): (r: Item)
    ensures r.path == path
  {
    match node
    case File(mode, size, bytes) => FileItem(path, sha(bytes), mode, size)
    case Dir(mode, _) => DirItem(path, mode)
    case Other => DirItem(path, 0)
  }

  /** The source-mode walk over `names`, entries of `d`, with `total` bytes counted so far. */
  ghost function SourceWalk(d: Node, names: seq<string>, prefix: string, total: nat, sha: Bytes -> string): (r: Walked)
    requires d.Dir? && forall n | n in names :: n in d.entries
    decreases d, 0, |names|
  {
    if names == [] then Walked([], total)
    else
      assert names[0] in names;
      var rel, child := prefix + names[0], d.entries[names[0]];
      if names[0] == RESERVED then Failed(ReservedName(rel))
      else
        var sub := SourceBelow(child, rel, total, sha);
        if sub.Failed? then sub
        else Prepend([SourceItem(rel, child, sha)] + sub.items, SourceWalk(d, names[1..], prefix, sub.total, sha))
  }

  /** What the walk does at one entry: recurse, or check the limits and count. */
  ghost function SourceBelow(child: Node, rel: string, total: nat, sha: Bytes -> string): (r: Walked)
    decreases child, 1, 0
  {
    match child
    case Dir(_, _) => SourceWalk(child, Names(child), rel + "/", total, sha)
    case File(_, size, _) =>
      if size > MAX_FILE then Failed(FileTooLarge(rel))
      else if total + size > MAX_TREE then Failed(TreeTooLarge(total + size))
      else Walked([], total + size)
    case Other => Failed(Unsupported(rel))
  }

  predicate Fits(sidecar: map<string, Item>, path: string, node: Node, sha: Bytes -> string) {
    path in sidecar &&
    match node
    case Dir(_, _) => sidecar[path].DirItem?
    case File(_, size, bytes) =>
      sidecar[path].FileItem? && sha(bytes) == sidecar[path].digest && size == sidecar[path].size
    case Other => false
  }

  function StagedItem(sidecar: map<string, Item>, path: string, node: Node, sha: Bytes -> string): (r: Item)
    ensures r.path == path
  {
    if !Fits(sidecar, path, node, sha) then DirItem(path, 0)
    else if node.Dir? then DirItem(path, sidecar[path].mode)
    else FileItem(path, sha(node.bytes), sidecar[path].mode, sidecar[path].size)
  }

  /** The staged-mode walk; the sidecar supplies the modes and must agree on everything else. */
  ghost function StagedWalk(d: Node, names: seq<string>, prefix: string, total: nat, sidecar: map<string, Item>,
                            sha: Bytes -> string): (r: Walked)
    requires d.Dir? && forall n | n in names :: n in d.entries
    decreases d, 0, |names|
  {
    if names == [] then Walked([], total)
    else
      assert names[0] in names;
      var rel, child := prefix + names[0], d.entries[names[0]];
      if !Fits(sidecar, rel, child, sha) then Failed(Tampered(rel))
      else
        var sub := StagedBelow(child, rel, total, sidecar, sha);
        if sub.Failed? then sub
        else Prepend([StagedItem(sidecar, rel, child, sha)] + sub.items,
                     StagedWalk(d, names[1..], prefix, sub.total, sidecar, sha))
  }

  ghost function StagedBelow(child: Node, rel: string, total: nat, sidecar: map<string, Item>,
                             sha: Bytes -> string): (r: Walked)
    decreases child, 1, 0
  {
    match child
    case Dir(_, _) => StagedWalk(child, Names(child), rel + "/", total, sidecar, sha)
    case File(_, size, _) => Walked([], total + size)
    case Other => Failed(Tampered(rel))
  }

  /** What the manifest digest covers; the entry count is the length of `items`. */
  datatype Manifest = Manifest(items: seq<Item>, total: nat)

  ghost function SourceManifest(d: Node, sha: Bytes -> string): (r: Walked)
    requires d.Dir?
  {
    SourceWalk(d, Names(d), "", 0, sha)
  }

  /** The sidecar as a dictionary; a later entry for the same path wins. */
  function Sidecar(items: seq<Item>): (r: map<string, Item>)
    ensures forall p | p in r :: r[p] in items && r[p].path == p
    ensures forall i | i in items :: i.path in r
  {
    if items == [] then map[]
    else
      var k := |items| - 1;
      assert items == items[..k] + [items[k]];
      Sidecar(items[..k])[items[k].path := items[k]]
  }

  function Paths(items: seq<Item>): (r: set<string>) {
    set i | i in items :: i.path
  }

  ghost function StagedManifest(s: Node, items: seq<Item>, sha: Bytes -> string): (r: Option<Manifest>)
    requires s.Dir?
  {
    var sidecar := Sidecar(items);
    var w := StagedWalk(s, Names(s), "", 0, sidecar, sha);
    if w.Failed? || Paths(w.items) != sidecar.Keys then None else Some(Manifest(w.items, w.total))
  }

  /** What the copy puts into the staging directory: what it read, under private modes. */
  function Copied(d: Node): (r: Node)
    ensures d.Dir? ==> r.Dir? && r.entries.Keys == d.entries.Keys
  {
    match d
    case File(_, _, bytes) => File(STAGED_FILE_MODE, |bytes|, bytes)
    case Dir(_, entries) => Dir(STAGED_DIR_MODE, map n | n in entries :: Copied(entries[n]))
    case Other => Other
  }

  // ----- paths -----

  /** The first slash, or the end. */
  function Slash(q: string): (k: nat)
    ensures k <= |q| && '/' !in q[..k] && (k < |q| ==> q[k] == '/')
  {
    if q == "" || q[0] == '/' then 0
    else
      var k := Slash(q[1..]);
      assert q[..k + 1] == [q[0]] + q[1..][..k];
      k + 1
  }

  function Head(q: string): (n: string) {
    q[..Slash(q)]
  }

  /** The node a relative path denotes. */
  function Find(d: Node, q: string): (r: Option<Node>)
    decreases d
  {
    if !d.Dir? || Head(q) !in d.entries then None
    else if Slash(q) == |q| then Some(d.entries[Head(q)])
    else Find(d.entries[Head(q)], q[Slash(q) + 1..])
  }

  /** Names as a file system has them. */
  predicate WellNamed(d: Node) {
    d.Dir? ==> forall n | n in d.entries :: n != "" && '/' !in n && WellNamed(d.entries[n])
  }

  lemma {:induction false} SlashAt(n: string, rest: string)
    requires '/' !in n && (rest == "" || rest[0] == '/')
    ensures Slash(n + rest) == |n|
  {
    if n == "" {
      assert n + rest == rest;
    } else {
      assert (n + rest)[1..] == n[1..] + rest;
      SlashAt(n[1..], rest);
    }
  }

  /** A path starts with one name and continues below it. */
  lemma FindBelow(d: Node, n: string, q: string)
    requires d.Dir? && n in d.entries && WellNamed(d)
    ensures Head(n) == n && Find(d, n) == Some(d.entries[n])
    ensures Head(n + "/" + q) == n && Find(d, n + "/" + q) == Find(d.entries[n], q)
  {
    SlashAt(n, "");
    assert n + "" == n;
    SlashAt(n, "/" + q);
    var p := n + "/" + q;
    assert p == n + ("/" + q) && p[..|n|] == n && p[|n| + 1..] == q;
  }

  /** A path under the name `n` is that name, or leads into its subtree. */
  lemma FindSplit(d: Node, n: string, q: string)
    requires d.Dir? && WellNamed(d) && n in d.entries && Head(q) == n && Find(d, q).Some?
    ensures q != n ==> |n| < |q| && q == n + "/" + q[|n| + 1..] && Find(d, q) == Find(d.entries[n], q[|n| + 1..])
                       && d.entries[n].Dir? && Head(q[|n| + 1..]) in d.entries[n].entries
    ensures q == n ==> Find(d, q) == Some(d.entries[n])
  {
  }

  // ----- what a walk lists -----

  /** `items` holds one item for every node reachable through `names`, and nothing else. */
  ghost predicate Lists(items: seq<Item>, d: Node, names: seq<string>, prefix: string, item: (string, Node) -> Item) {
    && (forall i | i in items :: ListsOne(i, d, names, prefix, item))
    && (forall q | Find(d, q).Some? && Head(q) in names :: item(prefix + q, Find(d, q).value) in items)
  }

  /** The same for everything in a directory. */
  ghost predicate ListsAll(items: seq<Item>, d: Node, prefix: string, item: (string, Node) -> Item) {
    && (forall i | i in items :: ListsAny(i, d, prefix, item))
    && (forall q | Find(d, q).Some? :: item(prefix + q, Find(d, q).value) in items)
  }

  ghost predicate ListsAny(i: Item, d: Node, prefix: string, item: (string, Node) -> Item) {
    && prefix <= i.path
    && Find(d, i.path[|prefix|..]).Some? && i == item(i.path, Find(d, i.path[|prefix|..]).value)
  }

  lemma ListsNames(items: seq<Item>, d: Node, names: seq<string>, prefix: string, item: (string, Node) -> Item)
    requires d.Dir? && (forall n | n in d.entries :: n in names) && Lists(items, d, names, prefix, item)
    ensures ListsAll(items, d, prefix, item)
  {
  }

  ghost predicate ListsOne(i: Item, d: Node, names: seq<string>, prefix: string, item: (string, Node) -> Item) {
    && prefix <= i.path
    && var q := i.path[|prefix|..];
       Find(d, q).Some? && Head(q) in names && i == item(i.path, Find(d, q).value)
  }

  ghost predicate KeepsPath(item: (string, Node) -> Item) {
    forall p, node :: item(p, node).path == p
  }

  lemma DropPrefix(path: string, prefix: string, n: string)
    requires prefix + n + "/" <= path
    ensures prefix <= path && path[|prefix|..] == n + "/" + path[|prefix| + |n| + 1..]
  {
  }

  lemma ListsBelow(i: Item, d: Node, names: seq<string>, n: string, prefix: string, item: (string, Node) -> Item)
    requires d.Dir? && WellNamed(d) && n in d.entries && d.entries[n].Dir? && n in names
    requires ListsAny(i, d.entries[n], prefix + n + "/", item)
    ensures ListsOne(i, d, names, prefix, item)
  {
    DropPrefix(i.path, prefix, n);
    FindBelow(d, n, i.path[|prefix| + |n| + 1..]);
  }

  lemma ListsHere(d: Node, names: seq<string>, n: string, prefix: string, item: (string, Node) -> Item)
    requires d.Dir? && WellNamed(d) && n in d.entries && n in names && KeepsPath(item)
    ensures ListsOne(item(prefix + n, d.entries[n]), d, names, prefix, item)
  {
    FindBelow(d, n, "");
    assert (prefix + n)[|prefix|..] == n;
  }

  lemma ListsTail(i: Item, d: Node, names: seq<string>, prefix: string, item: (string, Node) -> Item)
    requires names != [] && ListsOne(i, d, names[1..], prefix, item)
    ensures ListsOne(i, d, names, prefix, item)
  {
  }

  /** Below the first name: the node itself or a path in its subtree. */
  lemma ListedBelow(d: Node, n: string, q: string, prefix: string, item: (string, Node) -> Item, sub: seq<Item>)
    requires d.Dir? && WellNamed(d) && n in d.entries && Head(q) == n && Find(d, q).Some?
    requires d.entries[n].Dir? ==> ListsAll(sub, d.entries[n], prefix + n + "/", item)
    ensures item(prefix + q, Find(d, q).value) in [item(prefix + n, d.entries[n])] + sub
  {
    FindSplit(d, n, q);
    if q != n {
      var low := q[|n| + 1..];
      assert prefix + q == prefix + n + "/" + low;
      assert item(prefix + n + "/" + low, Find(d.entries[n], low).value) in sub;
    }
  }

  /** The items of the first name followed by those of the others. */
  lemma ListsStep(d: Node, names: seq<string>, prefix: string, item: (string, Node) -> Item,
                  sub: seq<Item>, rest: seq<Item>)
    requires d.Dir? && WellNamed(d) && KeepsPath(item)
    requires names != [] && names[0] in d.entries
    requires if d.entries[names[0]].Dir? then ListsAll(sub, d.entries[names[0]], prefix + names[0] + "/", item) else sub == []
    requires Lists(rest, d, names[1..], prefix, item)
    ensures Lists([item(prefix + names[0], d.entries[names[0]])] + sub + rest, d, names, prefix, item)
  {
    var n := names[0];
    var child := d.entries[n];
    var head := [item(prefix + n, child)] + sub;
    assert n in names;
    forall i | i in head + rest ensures ListsOne(i, d, names, prefix, item) {
      if i in rest { ListsTail(i, d, names, prefix, item); }
      else if i in sub { ListsBelow(i, d, names, n, prefix, item); }
      else { ListsHere(d, names, n, prefix, item); }
    }
    forall q | Find(d, q).Some? && Head(q) in names ensures item(prefix + q, Find(d, q).value) in head + rest {
      if Head(q) !in names[1..] {
        ListedBelow(d, n, q, prefix, item, sub);
      }
    }
  }

  lemma {:induction false} SourceLists(d: Node, names: seq<string>, prefix: string, total: nat, sha: Bytes -> string)
    requires d.Dir? && WellNamed(d) && forall n | n in names :: n in d.entries
    requires SourceWalk(d, names, prefix, total, sha).Walked?
    ensures Lists(SourceWalk(d, names, prefix, total, sha).items, d, names, prefix, (p, x) => SourceItem(p, x, sha))
    decreases d, |names|
  {
    var item := (p, x) => SourceItem(p, x, sha);
    if names != [] {
      assert names[0] in names && forall m | m in names[1..] :: m in names;
      var child, rel := d.entries[names[0]], prefix + names[0];
      var sub := SourceBelow(child, rel, total, sha);
      if child.Dir? {
        SourceLists(child, Names(child), rel + "/", total, sha);
        ListsNames(sub.items, child, Names(child), rel + "/", item);
      }
      SourceLists(d, names[1..], prefix, sub.total, sha);
      ListsStep(d, names, prefix, item, sub.items, SourceWalk(d, names[1..], prefix, sub.total, sha).items);
    }
  }

  lemma {:induction false} StagedLists(d: Node, names: seq<string>, prefix: string, total: nat,
                                       sidecar: map<string, Item>, sha: Bytes -> string)
    requires d.Dir? && WellNamed(d) && forall n | n in names :: n in d.entries
    requires StagedWalk(d, names, prefix, total, sidecar, sha).Walked?
    ensures Lists(StagedWalk(d, names, prefix, total, sidecar, sha).items, d, names, prefix,
                  (p, x) => StagedItem(sidecar, p, x, sha))
    decreases d, |names|
  {
    var item := (p, x) => StagedItem(sidecar, p, x, sha);
    if names != [] {
      assert names[0] in names && forall m | m in names[1..] :: m in names;
      var child, rel := d.entries[names[0]], prefix + names[0];
      var sub := StagedBelow(child, rel, total, sidecar, sha);
      if child.Dir? {
        StagedLists(child, Names(child), rel + "/", total, sidecar, sha);
        ListsNames(sub.items, child, Names(child), rel + "/", item);
      }
      StagedLists(d, names[1..], prefix, sub.total, sidecar, sha);
      ListsStep(d, names, prefix, item, sub.items, StagedWalk(d, names[1..], prefix, sub.total, sidecar, sha).items);
    }
  }

  // ----- when the source walk accepts -----

  predicate Acceptable(node: Node) {
    match node
    case Dir(_, entries) => forall n | n in entries :: n != RESERVED && Acceptable(entries[n])
    case File(_, size, _) => size <= MAX_FILE
    case Other => false
  }

  predicate AllAcceptable(d: Node, names: seq<string>)
    requires d.Dir? && forall n | n in names :: n in d.entries
  {
    forall n | n in names :: n != RESERVED && Acceptable(d.entries[n])
  }

  ghost function BytesAmong(d: Node, names: seq<string>): (r: nat)
    requires d.Dir? && forall n | n in names :: n in d.entries
    decreases d, 0, |names|
  {
    if names == [] then 0
    else
      assert names[0] in names;
      BytesIn(d.entries[names[0]]) + BytesAmong(d, names[1..])
  }

  /** The sum of all file sizes in a tree. */
  ghost function BytesIn(node: Node): (r: nat)
    decreases node, 1, 0
  {
    match node
    case Dir(_, _) => BytesAmong(node, Names(node))
    case File(_, size, _) => size
    case Other => 0
  }

  lemma {:induction false} SourceCounts(d: Node, names: seq<string>, prefix: string, total: nat, sha: Bytes -> string)
    requires d.Dir? && (forall n | n in names :: n in d.entries) && total <= MAX_TREE
    ensures var w := SourceWalk(d, names, prefix, total, sha);
            && (w.Walked? <==> AllAcceptable(d, names) && total + BytesAmong(d, names) <= MAX_TREE)
            && (w.Walked? ==> w.total == total + BytesAmong(d, names))
    decreases d, 0, |names|
  {
    if names != [] {
      assert names[0] in names && forall m | m in names[1..] :: m in names;
      assert forall m | m in names :: m == names[0] || m in names[1..];
      var child, rel := d.entries[names[0]], prefix + names[0];
      BelowCounts(child, rel, total, sha);
      var sub := SourceBelow(child, rel, total, sha);
      if sub.Walked? { SourceCounts(d, names[1..], prefix, sub.total, sha); }
    }
  }

  lemma {:induction false} BelowCounts(node: Node, rel: string, total: nat, sha: Bytes -> string)
    requires total <= MAX_TREE
    ensures var w := SourceBelow(node, rel, total, sha);
            && (w.Walked? <==> Acceptable(node) && total + BytesIn(node) <= MAX_TREE)
            && (w.Walked? ==> w.total == total + BytesIn(node))
    decreases node, 1, 0
  {
    if node.Dir? {
      SourceCounts(node, Names(node), rel + "/", total, sha);
    }
  }

  /** The source manifest exists exactly for acceptable trees within the limit, and its total is their size. */
  lemma SourceAcceptsExactly(t: Node, sha: Bytes -> string)
    requires t.Dir?
    ensures SourceManifest(t, sha).Walked? <==> Acceptable(t) && BytesIn(t) <= MAX_TREE
    ensures SourceManifest(t, sha).Walked? ==> SourceManifest(t, sha).total == BytesIn(t)
  {
    SourceCounts(t, Names(t), "", 0, sha);
  }

  // ----- paths are distinct -----

  ghost predicate PathsDistinct(items: seq<Item>) {
    forall i, j | 0 <= i < j < |items| :: items[i].path != items[j].path
  }

  lemma DistinctJoin(a: seq<Item>, b: seq<Item>)
    requires PathsDistinct(a) && PathsDistinct(b) && forall x, y | x in a && y in b :: x.path != y.path
    ensures PathsDistinct(a + b)
  {
  }

  /** Items under different first names have different paths. */
  lemma ApartByHead(d: Node, n: string, more: seq<string>, prefix: string, item: (string, Node) -> Item,
                    a: seq<Item>, b: seq<Item>)
    requires n !in more
    requires forall x | x in a :: ListsOne(x, d, [n], prefix, item)
    requires forall y | y in b :: ListsOne(y, d, more, prefix, item)
    ensures forall x, y | x in a && y in b :: x.path != y.path
  {
  }

  /** The entry itself and what lies below it are listed under its name, all under different paths. */
  lemma BelowApart(d: Node, n: string, prefix: string, item: (string, Node) -> Item, sub: seq<Item>)
    requires d.Dir? && WellNamed(d) && n in d.entries && KeepsPath(item) && PathsDistinct(sub)
    requires if d.entries[n].Dir? then ListsAll(sub, d.entries[n], prefix + n + "/", item) else sub == []
    ensures var all := [item(prefix + n, d.entries[n])] + sub;
            PathsDistinct(all) && forall x | x in all :: ListsOne(x, d, [n], prefix, item)
  {
    var here := [item(prefix + n, d.entries[n])];
    forall y | y in sub ensures here[0].path != y.path && ListsOne(y, d, [n], prefix, item) {
      assert ListsAny(y, d.entries[n], prefix + n + "/", item);
      ListsBelow(y, d, [n], n, prefix, item);
    }
    ListsHere(d, [n], n, prefix, item);
    DistinctJoin(here, sub);
  }

  /** No two items of a manifest share a path, so the sidecar dictionary keeps them all. */
  lemma {:induction false} SourceDistinct(d: Node, names: seq<string>, prefix: string, total: nat, sha: Bytes -> string)
    requires d.Dir? && WellNamed(d) && forall n | n in names :: n in d.entries
    requires forall i, j | 0 <= i < j < |names| :: names[i] != names[j]
    requires SourceWalk(d, names, prefix, total, sha).Walked?
    ensures PathsDistinct(SourceWalk(d, names, prefix, total, sha).items)
    decreases d, |names|
  {
    if names != [] {
      var n := names[0];
      assert n in names && n !in names[1..] && forall m | m in names[1..] :: m in names;
      var rel, child := prefix + n, d.entries[n];
      var sub := SourceBelow(child, rel, total, sha);
      if child.Dir? { SourceDistinct(child, Names(child), rel + "/", total, sha); }
      SourceDistinct(d, names[1..], prefix, sub.total, sha);
      SourceApart(d, n, names[1..], prefix, total, sha);
      DistinctJoin([SourceItem(rel, child, sha)] + sub.items, SourceWalk(d, names[1..], prefix, sub.total, sha).items);
    }
  }

  /** The items of one name, and those of the names after it. */
  lemma SourceApart(d: Node, n: string, names: seq<string>, prefix: string, total: nat, sha: Bytes -> string)
    requires d.Dir? && WellNamed(d) && n in d.entries && n !in names && forall m | m in names :: m in d.entries
    requires SourceBelow(d.entries[n], prefix + n, total, sha).Walked?
    requires var sub := SourceBelow(d.entries[n], prefix + n, total, sha);
             && SourceWalk(d, names, prefix, sub.total, sha).Walked?
             && (d.entries[n].Dir? ==> PathsDistinct(sub.items))
    ensures var sub := SourceBelow(d.entries[n], prefix + n, total, sha);
            var first := [SourceItem(prefix + n, d.entries[n], sha)] + sub.items;
            var rest := SourceWalk(d, names, prefix, sub.total, sha).items;
            PathsDistinct(first) && forall x, y | x in first && y in rest :: x.path != y.path
  {
    var rel, child := prefix + n, d.entries[n];
    var sub := SourceBelow(child, rel, total, sha);
    var item := (p, x) => SourceItem(p, x, sha);
    if child.Dir? {
      SourceLists(child, Names(child), rel + "/", total, sha);
      ListsNames(sub.items, child, Names(child), rel + "/", item);
    }
    BelowApart(d, n, prefix, item, sub.items);
    SourceLists(d, names, prefix, sub.total, sha);
    ApartByHead(d, n, names, prefix, item, [item(rel, child)] + sub.items, SourceWalk(d, names, prefix, sub.total, sha).items);
  }

  // ----- staged trees -----

  /** Same names, types, sizes and contents; modes are the sidecar's business. */
  predicate Twin(s: Node, t: Node) {
    match s
    case Dir(_, entries) =>
      t.Dir? && entries.Keys == t.entries.Keys && forall n | n in entries :: Twin(entries[n], t.entries[n])
    case File(_, size, bytes) => t.File? && size == t.size && bytes == t.bytes
    case Other => false
  }

  ghost predicate Covers(sidecar: map<string, Item>, items: seq<Item>) {
    forall i | i in items :: i.path in sidecar && sidecar[i.path] == i
  }

  /** On a twin the staged walk repeats the source walk, item by item. */
  lemma {:induction false} TwinWalk(s: Node, t: Node, names: seq<string>, prefix: string, total: nat,
                                    sidecar: map<string, Item>, sha: Bytes -> string)
    requires s.Dir? && Twin(s, t) && forall n | n in names :: n in t.entries
    requires SourceWalk(t, names, prefix, total, sha).Walked?
    requires Covers(sidecar, SourceWalk(t, names, prefix, total, sha).items)
    ensures StagedWalk(s, names, prefix, total, sidecar, sha) == SourceWalk(t, names, prefix, total, sha)
    decreases s, |names|
  {
    if names != [] {
      assert names[0] in names && forall m | m in names[1..] :: m in names;
      var rel, original, copy := prefix + names[0], t.entries[names[0]], s.entries[names[0]];
      var sub := SourceBelow(original, rel, total, sha);
      var rest := SourceWalk(t, names[1..], prefix, sub.total, sha);
      var items := SourceWalk(t, names, prefix, total, sha).items;
      assert items == [SourceItem(rel, original, sha)] + sub.items + rest.items;
      assert SourceItem(rel, original, sha) in items;
      assert Covers(sidecar, sub.items) && Covers(sidecar, rest.items);
      if original.Dir? {
        assert Names(copy) == Names(original);
        TwinWalk(copy, original, Names(original), rel + "/", total, sidecar, sha);
      }
      assert StagedBelow(copy, rel, total, sidecar, sha) == sub;
      TwinWalk(s, t, names[1..], prefix, sub.total, sidecar, sha);
    }
  }

  /** Every item of an accepted staged walk is the sidecar's item, and nothing unsupported was met. */
  lemma {:induction false} StagedFromSidecar(s: Node, names: seq<string>, prefix: string, total: nat,
                                             sidecar: map<string, Item>, sha: Bytes -> string)
    requires s.Dir? && forall n | n in names :: n in s.entries
    requires forall p | p in sidecar :: sidecar[p].path == p
    requires StagedWalk(s, names, prefix, total, sidecar, sha).Walked?
    ensures Covers(sidecar, StagedWalk(s, names, prefix, total, sidecar, sha).items)
    decreases s, |names|
  {
    if names != [] {
      assert names[0] in names && forall m | m in names[1..] :: m in names;
      var rel, child := prefix + names[0], s.entries[names[0]];
      var sub := StagedBelow(child, rel, total, sidecar, sha);
      if child.Dir? { StagedFromSidecar(child, Names(child), rel + "/", total, sidecar, sha); }
      StagedFromSidecar(s, names[1..], prefix, sub.total, sidecar, sha);
    }
  }

  lemma {:induction false} StagedEach(s: Node, names: seq<string>, prefix: string, total: nat,
                                      sidecar: map<string, Item>, sha: Bytes -> string, n: string) returns (t: nat)
    requires s.Dir? && forall m | m in names :: m in s.entries
    requires StagedWalk(s, names, prefix, total, sidecar, sha).Walked? && n in names
    ensures Fits(sidecar, prefix + n, s.entries[n], sha)
    ensures StagedBelow(s.entries[n], prefix + n, t, sidecar, sha).Walked?
    decreases |names|
  {
    assert names[0] in names && forall m | m in names[1..] :: m in names;
    if n == names[0] {
      t := total;
    } else {
      var sub := StagedBelow(s.entries[names[0]], prefix + names[0], total, sidecar, sha);
      t := StagedEach(s, names[1..], prefix, sub.total, sidecar, sha, n);
    }
  }

  lemma JoinAssociates(prefix: string, n: string, low: string)
    ensures prefix + (n + "/" + low) == (prefix + n + "/") + low
  {
  }

  /** The staged walk vouches for every node it passed. */
  lemma {:induction false} StagedFits(s: Node, prefix: string, total: nat, sidecar: map<string, Item>,
                                      sha: Bytes -> string, q: string)
    requires s.Dir? && WellNamed(s) && StagedWalk(s, Names(s), prefix, total, sidecar, sha).Walked?
    requires Find(s, q).Some?
    ensures Fits(sidecar, prefix + q, Find(s, q).value, sha)
    decreases s
  {
    var n := Head(q);
    var t := StagedEach(s, Names(s), prefix, total, sidecar, sha, n);
    FindSplit(s, n, q);
    if q != n {
      var child, low := s.entries[n], q[|n| + 1..];
      JoinAssociates(prefix, n, low);
      assert StagedWalk(child, Names(child), prefix + n + "/", t, sidecar, sha).Walked?;
      StagedFits(child, prefix + n + "/", t, sidecar, sha, low);
    }
  }

  ghost predicate AlikeAt(s: Node, t: Node, q: string, sha: Bytes -> string) {
    && (Find(s, q).Some? <==> Find(t, q).Some?)
    && (Find(s, q).Some? ==>
          var a, b := Find(s, q).value, Find(t, q).value;
          (a.Dir? && b.Dir?) || (a.File? && b.File? && a.size == b.size && sha(a.bytes) == sha(b.bytes)))
  }

  /** Two trees that look alike at every path are twins. */
  lemma {:induction false} AlikeIsTwin(s: Node, t: Node, sha: Bytes -> string)
    requires s.Dir? && t.Dir? && WellNamed(s) && WellNamed(t) && Injective(sha)
    requires forall q :: AlikeAt(s, t, q, sha)
    ensures Twin(s, t)
    decreases s
  {
    forall n | n in s.entries ensures n in t.entries && Twin(s.entries[n], t.entries[n]) {
      assert AlikeAt(s, t, n, sha);
      FindBelow(s, n, "");
      FindBelow(t, n, "");
      var a, b := s.entries[n], t.entries[n];
      if a.Dir? {
        forall q ensures AlikeAt(a, b, q, sha) {
          assert AlikeAt(s, t, n + "/" + q, sha);
          FindBelow(s, n, q);
          FindBelow(t, n, q);
        }
        AlikeIsTwin(a, b, sha);
      }
    }
    forall n | n in t.entries ensures n in s.entries {
      assert AlikeAt(s, t, n, sha);
      FindBelow(t, n, "");
    }
  }

  /** An item of the source manifest is determined by its path. */
  lemma SidecarCovers(t: Node, sha: Bytes -> string)
    requires t.Dir? && WellNamed(t) && SourceManifest(t, sha).Walked?
    ensures Covers(Sidecar(SourceManifest(t, sha).items), SourceManifest(t, sha).items)
    ensures ListsAll(SourceManifest(t, sha).items, t, "", (p, x) => SourceItem(p, x, sha))
  {
    SourceLists(t, Names(t), "", 0, sha);
    ListsNames(SourceManifest(t, sha).items, t, Names(t), "", (p, x) => SourceItem(p, x, sha));
  }

  lemma {:induction false} AcceptableAt(t: Node, q: string)
    requires Acceptable(t) && Find(t, q).Some?
    ensures !Find(t, q).value.Other?
    decreases t
  {
    if Slash(q) != |q| { AcceptableAt(t.entries[Head(q)], q[Slash(q) + 1..]); }
  }

  lemma AcceptedAlike(t: Node, s: Node, sha: Bytes -> string, q: string)
    requires t.Dir? && s.Dir? && WellNamed(t) && WellNamed(s)
    requires SourceManifest(t, sha).Walked? && StagedManifest(s, SourceManifest(t, sha).items, sha).Some?
    ensures AlikeAt(s, t, q, sha)
  {
    var items := SourceManifest(t, sha).items;
    var sidecar := Sidecar(items);
    var w := StagedWalk(s, Names(s), "", 0, sidecar, sha);
    SidecarCovers(t, sha);
    SourceAcceptsExactly(t, sha);
    assert "" + q == q && q[|""|..] == q;
    if Find(s, q).Some? {
      StagedFits(s, "", 0, sidecar, sha, q);
      assert ListsAny(sidecar[q], t, "", (p, x) => SourceItem(p, x, sha));
      AcceptableAt(t, q);
    }
    if Find(t, q).Some? {
      assert SourceItem(q, Find(t, q).value, sha) in items;
      assert q in Paths(w.items);
      StagedLists(s, Names(s), "", 0, sidecar, sha);
      var i :| i in w.items && i.path == q;
      assert ListsOne(i, s, Names(s), "", (p, x) => StagedItem(sidecar, p, x, sha));
    }
  }

  lemma TwinAccepted(t: Node, s: Node, sha: Bytes -> string)
    requires t.Dir? && s.Dir? && WellNamed(t) && SourceManifest(t, sha).Walked? && Twin(s, t)
    ensures var m := SourceManifest(t, sha);
            StagedManifest(s, m.items, sha) == Some(Manifest(m.items, m.total))
  {
    SidecarCovers(t, sha);
    assert Names(s) == Names(t);
    TwinWalk(s, t, Names(t), "", 0, Sidecar(SourceManifest(t, sha).items), sha);
  }

  /**
    Staging is tamper-evident: against the sidecar of `t`, the staged walk accepts exactly the trees with the same
    paths, types, sizes and contents, and then yields the manifest of `t` itself.
   */
  lemma StagedAcceptsExactly(t: Node, s: Node, sha: Bytes -> string)
    requires t.Dir? && s.Dir? && WellNamed(t) && WellNamed(s) && Injective(sha)
    requires SourceManifest(t, sha).Walked?
    ensures var m := SourceManifest(t, sha);
            StagedManifest(s, m.items, sha) == if Twin(s, t) then Some(Manifest(m.items, m.total)) else None
  {
    if Twin(s, t) {
      TwinAccepted(t, s, sha);
    } else if StagedManifest(s, SourceManifest(t, sha).items, sha).Some? {
      forall q ensures AlikeAt(s, t, q, sha) { AcceptedAlike(t, s, sha, q); }
      AlikeIsTwin(s, t, sha);
    }
  }

  /**
    What was read had the size `lstat` reported. A rewrite of the same length between the two counts as steady: the
    copy is then of what was read.
   */
  predicate Steady(t: Node) {
    match t
    case Dir(_, entries) => forall n | n in entries :: Steady(entries[n])
    case File(_, size, bytes) => size == |bytes|
    case Other => true
  }

  lemma {:induction false} CopyNames(t: Node)
    requires WellNamed(t)
    ensures WellNamed(Copied(t))
    decreases t
  {
    if t.Dir? {
      forall n | n in t.entries ensures WellNamed(Copied(t.entries[n])) { CopyNames(t.entries[n]); }
    }
  }

  lemma {:induction false} CopyTwin(t: Node)
    requires Acceptable(t)
    ensures Twin(Copied(t), t) <==> Steady(t)
    decreases t
  {
    if t.Dir? {
      forall n | n in t.entries ensures Twin(Copied(t.entries[n]), t.entries[n]) <==> Steady(t.entries[n]) {
        CopyTwin(t.entries[n]);
      }
    }
  }

  // ----- what a source manifest pins -----

  /** The same node, apart from what lies below a directory. */
  predicate SameNode(x: Node, y: Node) {
    match x
    case File(mode, size, bytes) => y == File(mode, size, bytes)
    case Dir(mode, _) => y.Dir? && y.mode == mode
    case Other => false
  }

  ghost predicate SameAt(a: Node, b: Node, q: string) {
    && (Find(a, q).Some? <==> Find(b, q).Some?)
    && (Find(a, q).Some? ==> SameNode(Find(a, q).value, Find(b, q).value))
  }

  /** Trees with the same node at every path have the same entries. */
  lemma {:induction false} SameEverywhere(a: Node, b: Node)
    requires a.Dir? && b.Dir? && WellNamed(a) && WellNamed(b) && forall q :: SameAt(a, b, q)
    ensures a.entries == b.entries
    decreases a
  {
    forall n | n in a.entries ensures n in b.entries && a.entries[n] == b.entries[n] {
      assert SameAt(a, b, n);
      FindBelow(a, n, "");
      NamedIn(b, n);
      FindBelow(b, n, "");
      var x, y := a.entries[n], b.entries[n];
      if x.Dir? {
        forall q ensures SameAt(x, y, q) {
          assert SameAt(a, b, n + "/" + q);
          FindBelow(a, n, q);
          FindBelow(b, n, q);
        }
        SameEverywhere(x, y);
      }
    }
    forall n | n in b.entries ensures n in a.entries {
      assert SameAt(a, b, n);
      FindBelow(b, n, "");
      NamedIn(a, n);
    }
  }

  lemma NamedIn(d: Node, n: string)
    requires d.Dir? && Find(d, n).Some? && '/' !in n
    ensures n in d.entries
  {
    SlashAt(n, "");
    assert n + "" == n;
  }

  /** An item of a manifest tells the node at its path. */
  lemma ItemTellsNode(path: string, x: Node, y: Node, sha: Bytes -> string)
    requires Injective(sha) && !x.Other? && !y.Other? && SourceItem(path, x, sha) == SourceItem(path, y, sha)
    ensures SameNode(x, y)
  {
  }

  lemma ListedSame(items: seq<Item>, a: Node, b: Node, sha: Bytes -> string, q: string)
    requires Injective(sha) && Find(a, q).Some?
    requires ListsAll(items, a, "", (p, x) => SourceItem(p, x, sha)) && ListsAll(items, b, "", (p, x) => SourceItem(p, x, sha))
    ensures Find(b, q).Some? && SourceItem(q, Find(b, q).value, sha) == SourceItem(q, Find(a, q).value, sha)
  {
    var item := (p, x) => SourceItem(p, x, sha);
    assert "" + q == q;
    assert item(q, Find(a, q).value) in items;
    assert ListsAny(item(q, Find(a, q).value), b, "", item);
    assert q[0..] == q;
  }

  lemma PinnedAt(items: seq<Item>, a: Node, b: Node, sha: Bytes -> string, q: string)
    requires a.Dir? && b.Dir? && Acceptable(a) && Acceptable(b) && Injective(sha)
    requires ListsAll(items, a, "", (p, x) => SourceItem(p, x, sha)) && ListsAll(items, b, "", (p, x) => SourceItem(p, x, sha))
    ensures SameAt(a, b, q)
  {
    if Find(a, q).Some? { ListedSame(items, a, b, sha, q); }
    if Find(b, q).Some? { ListedSame(items, b, a, sha, q); }
    if Find(a, q).Some? {
      AcceptableAt(a, q);
      AcceptableAt(b, q);
      ItemTellsNode(q, Find(a, q).value, Find(b, q).value, sha);
    }
  }

  lemma PinnedEverywhere(items: seq<Item>, a: Node, b: Node, sha: Bytes -> string)
    requires a.Dir? && b.Dir? && WellNamed(a) && WellNamed(b) && Acceptable(a) && Acceptable(b) && Injective(sha)
    requires ListsAll(items, a, "", (p, x) => SourceItem(p, x, sha)) && ListsAll(items, b, "", (p, x) => SourceItem(p, x, sha))
    ensures a.entries == b.entries
  {
    forall q ensures SameAt(a, b, q) { PinnedAt(items, a, b, sha, q); }
    SameEverywhere(a, b);
  }

  /** Equal manifests come from equal trees: names, types, modes, sizes and contents all through. */
  lemma ManifestPinsTree(a: Node, b: Node, sha: Bytes -> string)
    requires a.Dir? && b.Dir? && WellNamed(a) && WellNamed(b) && Injective(sha)
    requires SourceManifest(a, sha).Walked? && SourceManifest(b, sha).Walked?
    requires SourceManifest(a, sha).items == SourceManifest(b, sha).items
    ensures a.entries == b.entries
  {
    SidecarCovers(a, sha);
    SidecarCovers(b, sha);
    SourceAcceptsExactly(a, sha);
    SourceAcceptsExactly(b, sha);
    PinnedEverywhere(SourceManifest(a, sha).items, a, b, sha);
  }

  lemma {:induction false} EntriesTellWalk(a: Node, b: Node, names: seq<string>, total: nat, sha: Bytes -> string)
    requires a.Dir? && b.Dir? && a.entries == b.entries && forall n | n in names :: n in a.entries
    ensures SourceWalk(a, names, "", total, sha) == SourceWalk(b, names, "", total, sha)
    decreases |names|
  {
    if names != [] {
      var sub := SourceBelow(a.entries[names[0]], "" + names[0], total, sha);
      if sub.Walked? { EntriesTellWalk(a, b, names[1..], sub.total, sha); }
    }
  }

  lemma EntriesTellManifest(a: Node, b: Node, sha: Bytes -> string)
    requires a.Dir? && b.Dir? && a.entries == b.entries
    ensures SourceManifest(a, sha) == SourceManifest(b, sha)
  {
    assert Names(a) == Names(b);
    EntriesTellWalk(a, b, Names(a), 0, sha);
  }

  lemma SameManifestExactly(a: Node, b: Node, sha: Bytes -> string)
    requires a.Dir? && b.Dir? && WellNamed(a) && WellNamed(b) && Injective(sha)
    requires SourceManifest(a, sha).Walked? && SourceManifest(b, sha).Walked?
    ensures SourceManifest(a, sha) == SourceManifest(b, sha) <==> a.entries == b.entries
  {
    if a.entries == b.entries {
      EntriesTellManifest(a, b, sha);
    } else if SourceManifest(a, sha).items == SourceManifest(b, sha).items {
      ManifestPinsTree(a, b, sha);
    }
  }

  /**
    The two manifests agree: the staged manifest of the copy is the source manifest, same order, paths and
    totals, exactly when every file read has the length its `lstat` reported; otherwise staging is refused.
   */
  lemma ManifestsAgree(t: Node, sha: Bytes -> string)
    requires t.Dir? && WellNamed(t) && Injective(sha) && SourceManifest(t, sha).Walked?
    ensures var m := SourceManifest(t, sha);
            StagedManifest(Copied(t), m.items, sha) == if Steady(t) then Some(Manifest(m.items, m.total)) else None
  {
    SourceAcceptsExactly(t, sha);
    CopyNames(t);
    CopyTwin(t);
    StagedAcceptsExactly(t, Copied(t), sha);
  }

  // ----- the walks as the program runs them -----

  /** A finished or refused walk, read off the shared list and total. */
  function Outcome(items: seq<Item>, total: nat, failure: Option<Failure>): (r: Walked) {
    match failure
    case None => Walked(items, total)
    case Some(f) => Failed(f)
  }

  lemma PrependTwice(before: seq<Item>, here: Item, below: seq<Item>, rest: Walked)
    ensures Prepend(before, Prepend([here] + below, rest)) == Prepend(before + [here] + below, rest)
  {
  }

  /** One turn of the source walk's loop: `items`, `total` and `failure` are what the visit left. */
  lemma SourceTurn(before: seq<Item>, d: Node, names: seq<string>, i: nat, prefix: string, count: nat,
                   sha: Bytes -> string, items: seq<Item>, total: nat, failure: Option<Failure>)
    requires d.Dir? && i < |names| && (forall n | n in names :: n in d.entries) && names[i] in d.entries
    requires (var rel, child := prefix + names[i], d.entries[names[i]];
              Outcome(items, total, failure)
              == if names[i] == RESERVED then Failed(ReservedName(rel))
                 else Prepend(before + [SourceItem(rel, child, sha)], SourceBelow(child, rel, count, sha)))
    ensures forall n | n in names[i..] || n in names[i + 1..] :: n in d.entries
    ensures Prepend(before, SourceWalk(d, names[i..], prefix, count, sha))
         == if failure.Some? then Failed(failure.value)
            else Prepend(items, SourceWalk(d, names[i + 1..], prefix, total, sha))
  {
    assert names[i..][1..] == names[i + 1..];
    var rel, child := prefix + names[i], d.entries[names[i]];
    var sub := SourceBelow(child, rel, count, sha);
    if failure.None? {
      assert sub.Walked? && items == before + [SourceItem(rel, child, sha)] + sub.items && total == sub.total;
      PrependTwice(before, SourceItem(rel, child, sha), sub.items, SourceWalk(d, names[i + 1..], prefix, total, sha));
    }
  }

  /** One turn of the staged walk's loop. */
  lemma StagedTurn(before: seq<Item>, d: Node, names: seq<string>, i: nat, prefix: string, count: nat,
                   sidecar: map<string, Item>, sha: Bytes -> string, items: seq<Item>, total: nat,
                   failure: Option<Failure>)
    requires d.Dir? && i < |names| && (forall n | n in names :: n in d.entries) && names[i] in d.entries
    requires (var rel, child := prefix + names[i], d.entries[names[i]];
              Outcome(items, total, failure)
              == if !Fits(sidecar, rel, child, sha) then Failed(Tampered(rel))
                 else Prepend(before + [StagedItem(sidecar, rel, child, sha)], StagedBelow(child, rel, count, sidecar, sha)))
    ensures forall n | n in names[i..] || n in names[i + 1..] :: n in d.entries
    ensures Prepend(before, StagedWalk(d, names[i..], prefix, count, sidecar, sha))
         == if failure.Some? then Failed(failure.value)
            else Prepend(items, StagedWalk(d, names[i + 1..], prefix, total, sidecar, sha))
  {
    assert names[i..][1..] == names[i + 1..];
    var rel, child := prefix + names[i], d.entries[names[i]];
    var sub := StagedBelow(child, rel, count, sidecar, sha);
    if failure.None? {
      var here := StagedItem(sidecar, rel, child, sha);
      assert sub.Walked? && items == before + [here] + sub.items && total == sub.total;
      PrependTwice(before, here, sub.items, StagedWalk(d, names[i + 1..], prefix, total, sidecar, sha));
    }
  }

  /** One read-write loop: 64 KiB chunks, each written until nothing remains. `accepted` is what a write takes. */
  method CopyContent(source: Bytes, accepted: nat -> int) returns (written: Option<Bytes>)
    ensures written.Some? ==> written.value == source
    ensures written.None? ==> exists k: nat :: accepted(k) <= 0
  {
    var target: Bytes := [];
    var offset, calls := 0, 0;
    while offset < |source|
      invariant 0 <= offset <= |source| && target == source[..offset]
    {
      var end := if offset + 65536 < |source| then offset + 65536 else |source|;
      var remaining := source[offset..end];
      while remaining != []
        invariant |remaining| <= end && target == source[..end - |remaining|] && remaining == source[end - |remaining|..end]
        decreases |remaining|
      {
        var n := accepted(calls);
        calls := calls + 1;
        if n <= 0 { return None; }
        var k := if n < |remaining| then n else |remaining|;
        target, remaining := target + remaining[..k], remaining[k..];
      }
      offset := end;
    }
    assert source[..offset] == source;
    return Some(target);
  }

  /** The source-mode walk with its shared list and running total. */
  class SourceWalker {
    var items: seq<Item>
    var total: nat

    constructor ()
      ensures items == [] && total == 0
    {
      items, total := [], 0;
    }

    method Walk(d: Node, prefix: string, sha: Bytes -> string) returns (failure: Option<Failure>)
      requires d.Dir?
      modifies this
      ensures Outcome(items, total, failure) == Prepend(old(items), SourceWalk(d, Names(d), prefix, old(total), sha))
      decreases d, 1
    {
      var names := ScandirSorted(d);
      failure := WalkNames(d, names, prefix, sha);
    }

    method WalkNames(d: Node, names: seq<string>, prefix: string, sha: Bytes -> string) returns (failure: Option<Failure>)
      requires d.Dir? && forall n | n in names :: n in d.entries
      modifies this
      ensures Outcome(items, total, failure) == Prepend(old(items), SourceWalk(d, names, prefix, old(total), sha))
      decreases d, 0
    {
      ghost var all := Prepend(items, SourceWalk(d, names, prefix, total, sha));
      var i := 0;
      assert names[i..] == names;
      while i < |names|
        invariant 0 <= i <= |names| && forall n | n in names[i..] :: n in d.entries
        invariant all == Prepend(items, SourceWalk(d, names[i..], prefix, total, sha))
      {
        assert names[i] in names;
        ghost var before, count := items, total;
        if names[i] == RESERVED {
          failure := Some(ReservedName(prefix + names[i]));
        } else {
          failure := Visit(d.entries[names[i]], prefix + names[i], sha);
        }
        SourceTurn(before, d, names, i, prefix, count, sha, items, total, failure);
        if failure.Some? { return; }
        i := i + 1;
      }
      assert names[i..] == [];
      failure := None;
    }

    method Visit(child: Node, rel: string, sha: Bytes -> string) returns (failure: Option<Failure>)
      modifies this
      ensures Outcome(items, total, failure)
           == Prepend(old(items) + [SourceItem(rel, child, sha)], SourceBelow(child, rel, old(total), sha))
      decreases child, 2
    {
      match child {
        case Dir(mode, _) =>
          items := items + [DirItem(rel, mode)];
          failure := Walk(child, rel + "/", sha);
        case File(mode, size, bytes) =>
          if size > MAX_FILE { return Some(FileTooLarge(rel)); }
          total := total + size;
          if total > MAX_TREE { return Some(TreeTooLarge(total)); }
          items := items + [FileItem(rel, sha(bytes), mode, size)];
          failure := None;
        case Other => return Some(Unsupported(rel));
      }
    }
  }

  ghost predicate CopiedSoFar(made: map<string, Node>, d: Node, names: seq<string>)
    requires d.Dir?
  {
    && (forall n :: n in made <==> n in names)
    && forall n | n in made :: n in d.entries && made[n] == Copied(d.entries[n])
  }

  lemma CopiedOneMore(made: map<string, Node>, d: Node, names: seq<string>, i: nat, copy: Node)
    requires d.Dir? && i < |names| && names[i] in d.entries && copy == Copied(d.entries[names[i]])
    requires CopiedSoFar(made, d, names[..i])
    ensures CopiedSoFar(made[names[i] := copy], d, names[..i + 1])
  {
  }

  lemma CopiedWhole(made: map<string, Node>, d: Node, names: seq<string>)
    requires d.Dir? && (forall n :: n in names <==> n in d.entries) && CopiedSoFar(made, d, names)
    ensures Dir(STAGED_DIR_MODE, made) == Copied(d)
  {
    assert made == Copied(d).entries;
  }

  predicate Stopped(failure: Option<Failure>) {
    failure.Some? && failure.value.Tampered?
  }

  /** The copy ended because some write took nothing. */
  ghost predicate Stalled(failure: Option<Failure>, accepted: (string, nat) -> int) {
    Stopped(failure) && exists k: nat :: accepted(failure.value.path, k) <= 0
  }

  /** The copying walk: the same list, total and refusals, and a staged tree. */
  class StagingCopier {
    var items: seq<Item>
    var total: nat

    constructor ()
      ensures items == [] && total == 0
    {
      items, total := [], 0;
    }

    /** `accepted(path, k)` is what the k-th write for a file takes; a write that takes nothing ends the copy. */
    method Walk(d: Node, prefix: string, sha: Bytes -> string, accepted: (string, nat) -> int)
      returns (failure: Option<Failure>, staged: Node)
      requires d.Dir?
      modifies this
      ensures Stopped(failure) ==> Stalled(failure, accepted)
      ensures !Stopped(failure) ==>
              Outcome(items, total, failure) == Prepend(old(items), SourceWalk(d, Names(d), prefix, old(total), sha))
      ensures failure.None? ==> staged == Copied(d)
      decreases d, 1
    {
      var names := ScandirSorted(d);
      failure, staged := WalkNames(d, names, prefix, sha, accepted);
      if failure.None? { CopiedWhole(staged.entries, d, names); }
    }

    method WalkNames(d: Node, names: seq<string>, prefix: string, sha: Bytes -> string, accepted: (string, nat) -> int)
      returns (failure: Option<Failure>, staged: Node)
      requires d.Dir? && forall n | n in names :: n in d.entries
      modifies this
      ensures Stopped(failure) ==> Stalled(failure, accepted)
      ensures !Stopped(failure) ==>
              Outcome(items, total, failure) == Prepend(old(items), SourceWalk(d, names, prefix, old(total), sha))
      ensures failure.None? ==> staged.Dir? && staged.mode == STAGED_DIR_MODE && CopiedSoFar(staged.entries, d, names)
      decreases d, 0
    {
      staged := Dir(STAGED_DIR_MODE, map[]);
      ghost var all := Prepend(items, SourceWalk(d, names, prefix, total, sha));
      var i := 0;
      assert names[i..] == names;
      while i < |names|
        invariant 0 <= i <= |names| && forall n | n in names[i..] :: n in d.entries
        invariant all == Prepend(items, SourceWalk(d, names[i..], prefix, total, sha))
        invariant staged.Dir? && staged.mode == STAGED_DIR_MODE && CopiedSoFar(staged.entries, d, names[..i])
      {
        assert names[i] in names;
        ghost var before, count := items, total;
        var copy := Other;
        if names[i] == RESERVED {
          failure := Some(ReservedName(prefix + names[i]));
        } else {
          failure, copy := Visit(d.entries[names[i]], prefix + names[i], sha, accepted);
        }
        if Stopped(failure) { return; }
        SourceTurn(before, d, names, i, prefix, count, sha, items, total, failure);
        if failure.Some? { return; }
        CopiedOneMore(staged.entries, d, names, i, copy);
        staged := Dir(STAGED_DIR_MODE, staged.entries[names[i] := copy]);
        i := i + 1;
      }
      assert names[i..] == [] && names[..i] == names;
      failure := None;
    }

    method Visit(child: Node, rel: string, sha: Bytes -> string, accepted: (string, nat) -> int)
      returns (failure: Option<Failure>, copy: Node)
      modifies this
      ensures Stopped(failure) ==> Stalled(failure, accepted)
      ensures !Stopped(failure) ==>
              Outcome(items, total, failure)
              == Prepend(old(items) + [SourceItem(rel, child, sha)], SourceBelow(child, rel, old(total), sha))
      ensures failure.None? ==> copy == Copied(child)
      decreases child, 2
    {
      copy := Other;
      match child {
        case Dir(mode, _) =>
          items := items + [DirItem(rel, mode)];
          failure, copy := Walk(child, rel + "/", sha, accepted);
        case File(mode, size, bytes) =>
          if size > MAX_FILE { return Some(FileTooLarge(rel)), copy; }
          total := total + size;
          if total > MAX_TREE { return Some(TreeTooLarge(total)), copy; }
          var written := CopyContent(bytes, (k: nat) => accepted(rel, k));
          if written.None? { return Some(Tampered(rel)), copy; }
          copy := File(STAGED_FILE_MODE, |written.value|, written.value);
          items := items + [FileItem(rel, sha(bytes), mode, size)];
          failure := None;
        case Other => return Some(Unsupported(rel)), copy;
      }
    }
  }

  /** The staged-mode walk. */
  class StagedWalker {
    var items: seq<Item>
    var total: nat

    constructor ()
      ensures items == [] && total == 0
    {
      items, total := [], 0;
    }

    method Walk(d: Node, prefix: string, sidecar: map<string, Item>, sha: Bytes -> string)
      returns (failure: Option<Failure>)
      requires d.Dir?
      modifies this
      ensures Outcome(items, total, failure)
           == Prepend(old(items), StagedWalk(d, Names(d), prefix, old(total), sidecar, sha))
      decreases d, 1
    {
      var names := ScandirSorted(d);
      failure := WalkNames(d, names, prefix, sidecar, sha);
    }

    method WalkNames(d: Node, names: seq<string>, prefix: string, sidecar: map<string, Item>, sha: Bytes -> string)
      returns (failure: Option<Failure>)
      requires d.Dir? && forall n | n in names :: n in d.entries
      modifies this
      ensures Outcome(items, total, failure)
           == Prepend(old(items), StagedWalk(d, names, prefix, old(total), sidecar, sha))
      decreases d, 0
    {
      ghost var all := Prepend(items, StagedWalk(d, names, prefix, total, sidecar, sha));
      var i := 0;
      assert names[i..] == names;
      while i < |names|
        invariant 0 <= i <= |names| && forall n | n in names[i..] :: n in d.entries
        invariant all == Prepend(items, StagedWalk(d, names[i..], prefix, total, sidecar, sha))
      {
        assert names[i] in names;
        ghost var before, count := items, total;
        failure := Visit(d.entries[names[i]], prefix + names[i], sidecar, sha);
        StagedTurn(before, d, names, i, prefix, count, sidecar, sha, items, total, failure);
        if failure.Some? { return; }
        i := i + 1;
      }
      assert names[i..] == [];
      failure := None;
    }

    method Visit(child: Node, rel: string, sidecar: map<string, Item>, sha: Bytes -> string)
      returns (failure: Option<Failure>)
      modifies this
      ensures Outcome(items, total, failure)
           == if !Fits(sidecar, rel, child, sha) then Failed(Tampered(rel))
              else Prepend(old(items) + [StagedItem(sidecar, rel, child, sha)],
                           StagedBelow(child, rel, old(total), sidecar, sha))
      decreases child, 2
    {
      if rel !in sidecar { return Some(Tampered(rel)); }
      var expected := sidecar[rel];
      match child {
        case Dir(_, _) =>
          if !expected.DirItem? { return Some(Tampered(rel)); }
          items := items + [DirItem(rel, expected.mode)];
          failure := Walk(child, rel + "/", sidecar, sha);
        case File(_, size, bytes) =>
          if !expected.FileItem? { return Some(Tampered(rel)); }
          var actual := sha(bytes);
          if actual != expected.digest { return Some(Tampered(rel)); }
          if size != expected.size { return Some(Tampered(rel)); }
          total := total + size;
          items := items + [FileItem(rel, actual, expected.mode, expected.size)];
          failure := None;
        case Other => return Some(Tampered(rel));
      }
    }
  }

  /** The staged-mode manifest: walk, then compare the two path sets. */
  method ComputeStagedManifest(s: Node, sidecarItems: seq<Item>, sha: Bytes -> string) returns (r: Option<Manifest>)
    requires s.Dir?
    ensures r == StagedManifest(s, sidecarItems, sha)
  {
    var sidecar := Sidecar(sidecarItems);
    var walker := new StagedWalker();
    ghost var w := StagedWalk(s, Names(s), "", 0, sidecar, sha);
    var failure := walker.Walk(s, "", sidecar, sha);
    if failure.Some? { return None; }
    assert [] + w.items == w.items;
    var paths := Paths(walker.items);
    if paths != sidecar.Keys { return None; }
    return Some(Manifest(walker.items, walker.total));
  }
}
