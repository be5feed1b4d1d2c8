/** The assumptions `ApprovalRecords.Sound` makes about libraries can be met, and the round trip then happens. */
module ApprovalWitness {
  import opened Prelude
  import opened NumberCode
  import opened ApprovalRecords

  const RECORD_KEYS: seq<Key> := [
    ApprovalId, Decider, Reason, SignedAt, ExpiresAt, DrillKind, Subcommands, TargetHost, Signature, Backup, Restore,
    Rollback]
  const BACKUP_KEYS: seq<Key> := [
    OutputPath, IncludeSops, SkipStop, Overwrite, AgeFingerprint, Binding, InputPath, ArchiveSha, Dsn, Redis, ArtifactsDir]
  const RESTORE_KEYS: seq<Key> := [
    ContainerPath, Project, ComposeFile, PgMajor, AlembicHead, Timestamp, SnapshotDir, ManifestSha, Host, Port, Database,
    User]

  /** The place of a known key in one of three lists, and which list. */
  function RecordIndex(k: Key): (i: Option<nat>)
    ensures i.Some? ==> i.value < |RECORD_KEYS| && RECORD_KEYS[i.value] == k
  {
    match k
    case ApprovalId => Some(0) case Decider => Some(1) case Reason => Some(2) case SignedAt => Some(3)
    case ExpiresAt => Some(4) case DrillKind => Some(5) case Subcommands => Some(6) case TargetHost => Some(7)
    case Signature => Some(8) case Backup => Some(9) case Restore => Some(10) case Rollback => Some(11)
    case _ => None
  }

  function BackupIndex(k: Key): (i: Option<nat>)
    ensures i.Some? ==> i.value < |BACKUP_KEYS| && BACKUP_KEYS[i.value] == k
  {
    match k
    case OutputPath => Some(0) case IncludeSops => Some(1) case SkipStop => Some(2) case Overwrite => Some(3)
    case AgeFingerprint => Some(4) case Binding => Some(5) case InputPath => Some(6) case ArchiveSha => Some(7)
    case Dsn => Some(8) case Redis => Some(9) case ArtifactsDir => Some(10)
    case _ => None
  }

  function RestoreIndex(k: Key): (i: Option<nat>)
    ensures i.Some? ==> i.value < |RESTORE_KEYS| && RESTORE_KEYS[i.value] == k
  {
    match k
    case ContainerPath => Some(0) case Project => Some(1) case ComposeFile => Some(2) case PgMajor => Some(3)
    case AlembicHead => Some(4) case Timestamp => Some(5) case SnapshotDir => Some(6) case ManifestSha => Some(7)
    case Host => Some(8) case Port => Some(9) case Database => Some(10) case User => Some(11)
    case _ => None
  }

  lemma KnownListed(k: Key)
    requires !k.Named?
    ensures RecordIndex(k).Some? || BackupIndex(k).Some? || RestoreIndex(k).Some?
  {
  }

  /** A number for every known key. */
  function Index(k: Key): (i: nat) {
    if RecordIndex(k).Some? then RecordIndex(k).value
    else if BackupIndex(k).Some? then 12 + BackupIndex(k).value
    else if RestoreIndex(k).Some? then 23 + RestoreIndex(k).value
    else 35
  }

  /** The key with that number. */
  predicate At(k: Key, i: nat) {
    if i < 12 then RECORD_KEYS[i] == k else if i < 23 then BACKUP_KEYS[i - 12] == k else i < 35 && RESTORE_KEYS[i - 23] == k
  }

  lemma IndexAt(k: Key)
    requires !k.Named?
    ensures At(k, Index(k))
  {
    KnownListed(k);
  }

  lemma AtUnique(a: Key, b: Key, i: nat)
    requires At(a, i) && At(b, i)
    ensures a == b
  {
  }

  lemma IndexInjective(a: Key, b: Key)
    requires !a.Named? && !b.Named? && Index(a) == Index(b)
    ensures a == b
  {
    IndexAt(a);
    IndexAt(b);
    AtUnique(a, b, Index(a));
  }

  function KeyTokens(k: Key): (r: seq<nat>) {
    if k.Named? then [1] + Codes(k.name) else [0] + [Index(k)]
  }

  lemma KnownFirst(i: nat, j: nat, x: seq<nat>, y: seq<nat>)
    requires [0] + [i] + x == [0] + [j] + y
    ensures i == j && x == y
  {
    var l, r := [0] + [i] + x, [0] + [j] + y;
    assert l[1] == i && r[1] == j && l[2..] == x && r[2..] == y;
  }

  lemma NamedFirst(m: string, n: string, x: seq<nat>, y: seq<nat>)
    requires [1] + Codes(m) + x == [1] + Codes(n) + y
    ensures m == n && x == y
  {
    var l, r := [1] + Codes(m) + x, [1] + Codes(n) + y;
    assert l[1..] == Codes(m) + x && r[1..] == Codes(n) + y;
    CodesFirst(m, n, x, y);
  }

  lemma KeyFirst(a: Key, b: Key, x: seq<nat>, y: seq<nat>)
    requires KeyTokens(a) + x == KeyTokens(b) + y
    ensures a == b && x == y
  {
    assert (KeyTokens(a) + x)[0] == (KeyTokens(b) + y)[0];
    if a.Named? {
      NamedFirst(a.name, b.name, x, y);
    } else {
      KnownFirst(Index(a), Index(b), x, y);
      IndexInjective(a, b);
    }
  }

  /** A JSON value as numbers; an object lists its keys in some order. */
  ghost function Tokens(j: Json): (r: seq<nat>)
    decreases j, 1, 0
  {
    match j
    case Null => [0]
    case Bool(b) => [1] + [if b then 1 else 0]
    case Number => [2]
    case Str(s) => [3] + Codes(s)
    case List(items) => [4] + ([|items|] + ItemTokens(items))
    case Obj(fields) => [5] + ([|Listing(fields.Keys)|] + FieldTokens(j, Listing(fields.Keys)))
  }

  ghost function ItemTokens(items: seq<Json>): (r: seq<nat>)
    decreases items, 0, |items|
  {
    if items == [] then [] else Tokens(items[0]) + ItemTokens(items[1..])
  }

  ghost function FieldTokens(j: Json, keys: seq<Key>): (r: seq<nat>)
    requires j.Obj?
    decreases j, 0, |keys|
  {
    if keys == [] then []
    else KeyTokens(keys[0])
         + ((if keys[0] in j.fields then Tokens(j.fields[keys[0]]) else []) + FieldTokens(j, keys[1..]))
  }

  lemma {:induction false} ItemsFirst(a: seq<Json>, b: seq<Json>, x: seq<nat>, y: seq<nat>)
    requires |a| == |b| && ItemTokens(a) + x == ItemTokens(b) + y
    ensures a == b && x == y
    decreases a, 0, |a|
  {
    if a == [] {
      assert ItemTokens(a) + x == x && ItemTokens(b) + y == y;
    } else {
      var restA, restB := ItemTokens(a[1..]) + x, ItemTokens(b[1..]) + y;
      assert ItemTokens(a) + x == Tokens(a[0]) + restA && ItemTokens(b) + y == Tokens(b[0]) + restB;
      TokensFirst(a[0], b[0], restA, restB);
      ItemsFirst(a[1..], b[1..], x, y);
      assert a == [a[0]] + a[1..] && b == [b[0]] + b[1..];
    }
  }

  lemma FieldCons(j: Json, keys: seq<Key>, x: seq<nat>)
    requires j.Obj? && keys != [] && keys[0] in j.fields
    ensures FieldTokens(j, keys) + x
         == KeyTokens(keys[0]) + (Tokens(j.fields[keys[0]]) + (FieldTokens(j, keys[1..]) + x))
  {
    Associates(KeyTokens(keys[0]), Tokens(j.fields[keys[0]]), FieldTokens(j, keys[1..]), x);
  }

  lemma Associates(a: seq<nat>, b: seq<nat>, c: seq<nat>, x: seq<nat>)
    ensures (a + (b + c)) + x == a + (b + (c + x))
  {
  }

  lemma ObjTokens(j: Json, x: seq<nat>)
    requires j.Obj?
    ensures |Tokens(j)| >= 2 && (Tokens(j) + x)[1] == |Listing(j.fields.Keys)|
    ensures (Tokens(j) + x)[2..] == FieldTokens(j, Listing(j.fields.Keys)) + x
  {
    TwoHeads(5, |Listing(j.fields.Keys)|, FieldTokens(j, Listing(j.fields.Keys)), x);
  }

  lemma TwoHeads(p: nat, n: nat, t: seq<nat>, x: seq<nat>)
    ensures var all := [p] + ([n] + t) + x;
            all[1] == n && all[2..] == t + x
  {
  }

  lemma {:induction false} FieldsFirst(a: Json, ka: seq<Key>, b: Json, kb: seq<Key>, x: seq<nat>, y: seq<nat>)
    requires a.Obj? && b.Obj? && |ka| == |kb| && (forall k | k in ka :: k in a.fields) && (forall k | k in kb :: k in b.fields)
    requires FieldTokens(a, ka) + x == FieldTokens(b, kb) + y
    ensures ka == kb && x == y && forall k | k in ka :: k in b.fields && a.fields[k] == b.fields[k]
    decreases a, 0, |ka|
  {
    if ka == [] {
      assert FieldTokens(a, ka) + x == x && FieldTokens(b, kb) + y == y;
    } else {
      var k, l := ka[0], kb[0];
      assert k in ka && l in kb && (forall m | m in ka[1..] :: m in ka) && (forall m | m in kb[1..] :: m in kb);
      var restA, restB := FieldTokens(a, ka[1..]) + x, FieldTokens(b, kb[1..]) + y;
      FieldCons(a, ka, x);
      FieldCons(b, kb, y);
      KeyFirst(k, l, Tokens(a.fields[k]) + restA, Tokens(b.fields[l]) + restB);
      TokensFirst(a.fields[k], b.fields[l], restA, restB);
      FieldsFirst(a, ka[1..], b, kb[1..], x, y);
      FieldsAgree(a.fields, ka, b.fields, kb);
    }
  }

  lemma FieldsAgree(f: map<Key, Json>, ka: seq<Key>, g: map<Key, Json>, kb: seq<Key>)
    requires ka != [] && kb != [] && ka[0] == kb[0] && ka[1..] == kb[1..]
    requires ka[0] in f && ka[0] in g && f[ka[0]] == g[ka[0]]
    requires forall k | k in ka[1..] :: k in f && k in g && f[k] == g[k]
    ensures ka == kb && forall k | k in ka :: k in f && k in g && f[k] == g[k]
  {
    assert ka == [ka[0]] + ka[1..] && kb == [kb[0]] + kb[1..];
  }

  lemma {:induction false} TokensFirst(a: Json, b: Json, x: seq<nat>, y: seq<nat>)
    requires Tokens(a) + x == Tokens(b) + y
    ensures a == b && x == y
    decreases a, 1, 0
  {
    assert (Tokens(a) + x)[0] == (Tokens(b) + y)[0];
    match a
    case Str(_) => StrFirst(a, b, x, y);
    case List(_) => ListFirst(a, b, x, y);
    case Obj(_) => ObjFirst(a, b, x, y);
    case _ => AtomFirst(a, b, x, y);
  }

  lemma AtomFirst(a: Json, b: Json, x: seq<nat>, y: seq<nat>)
    requires (a.Null? && b.Null?) || (a.Number? && b.Number?) || (a.Bool? && b.Bool?)
    requires Tokens(a) + x == Tokens(b) + y
    ensures a == b && x == y
  {
    var l, r := Tokens(a) + x, Tokens(b) + y;
    if a.Bool? {
      assert l[1] == (if a.b then 1 else 0) && r[1] == if b.b then 1 else 0;
      assert l[2..] == x && r[2..] == y;
    } else {
      assert l[1..] == x && r[1..] == y;
    }
  }

  lemma StrFirst(a: Json, b: Json, x: seq<nat>, y: seq<nat>)
    requires a.Str? && b.Str? && Tokens(a) + x == Tokens(b) + y
    ensures a == b && x == y
  {
    var l, r := Tokens(a) + x, Tokens(b) + y;
    assert l[1..] == Codes(a.s) + x && r[1..] == Codes(b.s) + y;
    CodesFirst(a.s, b.s, x, y);
  }

  lemma {:induction false} ListFirst(a: Json, b: Json, x: seq<nat>, y: seq<nat>)
    requires a.List? && b.List? && Tokens(a) + x == Tokens(b) + y
    ensures a == b && x == y
    decreases a, 0, 0
  {
    var l, r := Tokens(a) + x, Tokens(b) + y;
    TwoHeads(4, |a.items|, ItemTokens(a.items), x);
    TwoHeads(4, |b.items|, ItemTokens(b.items), y);
    assert l[1] == r[1] && l[2..] == r[2..];
    ItemsFirst(a.items, b.items, x, y);
  }

  lemma {:induction false} ObjFirst(a: Json, b: Json, x: seq<nat>, y: seq<nat>)
    requires a.Obj? && b.Obj? && Tokens(a) + x == Tokens(b) + y
    ensures a == b && x == y
    decreases a, 0, |Listing(a.fields.Keys)| + 1
  {
    var ka, kb := Listing(a.fields.Keys), Listing(b.fields.Keys);
    ObjTokens(a, x);
    ObjTokens(b, y);
    ListingMembers(a.fields.Keys);
    ListingMembers(b.fields.Keys);
    FieldsFirst(a, ka, b, kb, x, y);
    SameFields(a.fields, b.fields, ka);
  }

  lemma SameFields(f: map<Key, Json>, g: map<Key, Json>, keys: seq<Key>)
    requires (forall k :: k in keys <==> k in f) && (forall k :: k in keys <==> k in g)
    requires forall k | k in keys :: f[k] == g[k]
    ensures f == g
  {
  }

  lemma ListingMembers(s: set<Key>)
    ensures forall k :: k in Listing(s) <==> k in s
  {
    forall k ensures k in Listing(s) <==> k in s {
      assert k in Listing(s) <==> k in multiset(Listing(s));
    }
  }

  ghost function Dump(j: Json): (s: string) {
    AsText(Tokens(j))
  }

  lemma DumpInjective(a: Json, b: Json)
    requires Dump(a) == Dump(b)
    ensures a == b
  {
    AsTextInjective(Tokens(a), Tokens(b));
    TokensFirst(a, b, [], []);
  }

  ghost function Undump(s: string): (r: Option<Json>) {
    if exists j :: Dump(j) == s then var j :| Dump(j) == s; Some(j) else None
  }

  ghost predicate Check(p: Json, s: string) {
    s == Dump(p)
  }

  const HOUR := 3600 * SECOND
  const MIDNIGHT := "1970-01-01T00:00:00Z"
  const ONE := "1970-01-01T01:00:00Z"

  function Format(t: int): (s: string) {
    if t == HOUR then ONE else MIDNIGHT
  }

  function ParseTime(s: string): (t: Option<int>) {
    if s == ONE then Some(HOUR) else if s == MIDNIGHT then Some(0) else None
  }

  /** A library that prints and signs with an injective code, and knows two times. */
  ghost function Library(): (lib: Lib) {
    Lib(Dump, Undump, Format, ParseTime, c => '0' <= c <= '9', Dump, _ => true, Check)
  }

  lemma LibrarySound()
    ensures Sound(Library())
  {
    var lib := Library();
    forall j ensures lib.load(lib.dump(j)) == Some(j) {
      assert Dump(j) == lib.dump(j);
      forall k | Dump(k) == Dump(j) ensures k == j { DumpInjective(k, j); }
    }
    forall p, q ensures lib.check(p, lib.sign(q)) <==> p == q {
      if Dump(q) == Dump(p) { DumpInjective(p, q); }
    }
  }

  lemma MidnightPrintable()
    ensures Printable(0, Library())
  {
  }

  lemma OnePrintable()
    ensures Printable(HOUR, Library())
  {
  }

  /** An approval to freeze, for an hour. */
  const FREEZE := Options("a", "me", "ok", "freeze_only", ["freeze"], None, 0, HOUR, None, None, None)

  lemma FreezeAccepted(keyUsable: bool)
    requires keyUsable
    ensures IssueRefusalOf(FREEZE, keyUsable, Library()).None?
  {
    assert DrillAllows("freeze_only") == Some({"freeze"});
  }

  /** The round trip is about something: an issued record that is verified half an hour later. */
  lemma RoundTripHappens()
    ensures var lib := Library();
            && Sound(lib) && IssueRefusalOf(FREEZE, true, lib).None?
            && var file := Some(FileText(Issued(FREEZE, lib), lib));
               Verify("a", Request("freeze", None, None, None, None), file, HOUR / 2, true, lib).None?
  {
    LibrarySound();
    MidnightPrintable();
    OnePrintable();
    FreezeAccepted(true);
    RoundTripExactly(FREEZE, true, None, HOUR / 2, Library());
  }
}
