/**
  scripts/taskhub_active_registry.py: `_normalize_strings_nfc`, the pass in front of the RFC 8785 encoder.
  Strings and object keys are brought to a normal form; an object in which two keys meet is refused. The
  normaliser is a parameter, so every result holds for NFC and for any other function of strings.
 */
module Normalisation {
  import opened Prelude

  datatype Field = Field(key: string, value: Json)

  /** A Python value as the encoder sees it; objects keep their insertion order. */
  datatype Json = Str(s: string) | Obj(fields: seq<Field>) | Arr(items: seq<Json>) | Tup(items: seq<Json>) | Other(token: string)

  type Normaliser = string -> string

  ghost predicate Idempotent(nfc: Normaliser) {
    forall s :: nfc(nfc(s)) == nfc(s)
  }

  predicate HasKey(fields: seq<Field>, key: string) {
    exists i :: 0 <= i < |fields| && fields[i].key == key
  }

  /** The recursive pass; None stands for the ValueError on colliding keys. */
  function Normalise(j: Json, nfc: Normaliser): (r: Option<Json>)
    decreases j, 1
  {
    match j
    case Str(s) => Some(Str(nfc(s)))
    case Obj(fields) =>
      (match NormaliseFields(fields, [], nfc)
       case None => None
       case Some(fs) => Some(Obj(fs)))
    case Arr(items) =>
      (match NormaliseItems(items, nfc)
       case None => None
       case Some(js) => Some(Arr(js)))
    case Tup(items) =>
      (match NormaliseItems(items, nfc)
       case None => None
       case Some(js) => Some(Tup(js)))
    case Other(_) => Some(j)
  }

  /** The loop over `obj.items()`; `done` is the dictionary built so far. */
  function NormaliseFields(fields: seq<Field>, done: seq<Field>, nfc: Normaliser): (r: Option<seq<Field>>)
    decreases fields, 0
  {
    if fields == [] then Some(done)
    else
      var key := nfc(fields[0].key);
      if HasKey(done, key) then None
      else match Normalise(fields[0].value, nfc)
        case None => None
        case Some(value) => NormaliseFields(fields[1..], done + [Field(key, value)], nfc)
  }

  function NormaliseItems(items: seq<Json>, nfc: Normaliser): (r: Option<seq<Json>>)
    decreases items, 0
  {
    if items == [] then Some([])
    else match Normalise(items[0], nfc)
      case None => None
      case Some(first) =>
        match NormaliseItems(items[1..], nfc)
        case None => None
        case Some(rest) => Some([first] + rest)
  }

  // ----- reference definitions -----

  /** Some nested object has two keys with one normal form. */
  ghost predicate Clash(j: Json, nfc: Normaliser) {
    match j
    case Obj(fields) =>
      || (exists a, b :: 0 <= a < b < |fields| && nfc(fields[a].key) == nfc(fields[b].key))
      || (exists a :: 0 <= a < |fields| && Clash(fields[a].value, nfc))
    case Arr(items) => exists a :: 0 <= a < |items| && Clash(items[a], nfc)
    case Tup(items) => exists a :: 0 <= a < |items| && Clash(items[a], nfc)
    case _ => false
  }

  /** The same value with every string replaced by its normal form: no key, item or order is lost. */
  ghost predicate Image(j: Json, r: Json, nfc: Normaliser) {
    match (j, r)
    case (Str(s), Str(t)) => t == nfc(s)
    case (Obj(fs), Obj(gs)) =>
      && |fs| == |gs|
      && forall a | 0 <= a < |fs| :: gs[a].key == nfc(fs[a].key) && Image(fs[a].value, gs[a].value, nfc)
    case (Arr(xs), Arr(ys)) => |xs| == |ys| && forall a | 0 <= a < |xs| :: Image(xs[a], ys[a], nfc)
    case (Tup(xs), Tup(ys)) => |xs| == |ys| && forall a | 0 <= a < |xs| :: Image(xs[a], ys[a], nfc)
    case (Other(s), Other(t)) => s == t
    case _ => false
  }

  // ----- the pass meets the reference -----

  /** The pass fails exactly on a clash, and otherwise returns the image of its input. */
  lemma {:induction false} NormaliseExactly(j: Json, nfc: Normaliser)
    ensures Normalise(j, nfc).None? <==> Clash(j, nfc)
    ensures Normalise(j, nfc).Some? ==> Image(j, Normalise(j, nfc).value, nfc)
    decreases j, 1
  {
    match j
    case Obj(fields) => FieldsExactly(fields, [], nfc);
    case Arr(items) => ItemsExactly(items, nfc);
    case Tup(items) => ItemsExactly(items, nfc);
    case _ =>
  }

  /** `fields` meets a key already in the dictionary, itself, or a clash further down. */
  ghost predicate FieldsClash(fields: seq<Field>, done: seq<Field>, nfc: Normaliser) {
    || (exists a :: 0 <= a < |fields| && HasKey(done, nfc(fields[a].key)))
    || (exists a, b :: 0 <= a < b < |fields| && nfc(fields[a].key) == nfc(fields[b].key))
    || (exists a :: 0 <= a < |fields| && Clash(fields[a].value, nfc))
  }

  ghost predicate FieldsImage(fields: seq<Field>, gs: seq<Field>, nfc: Normaliser) {
    |gs| == |fields| && forall a | 0 <= a < |fields| :: gs[a].key == nfc(fields[a].key) && Image(fields[a].value, gs[a].value, nfc)
  }

  lemma {:induction false} FieldsExactly(fields: seq<Field>, done: seq<Field>, nfc: Normaliser)
    ensures NormaliseFields(fields, done, nfc).None? <==> FieldsClash(fields, done, nfc)
    ensures var r := NormaliseFields(fields, done, nfc);
            r.Some? ==> |r.value| == |done| + |fields| && r.value[..|done|] == done && FieldsImage(fields, r.value[|done|..], nfc)
    decreases fields, 0
  {
    if fields != [] {
      var key := nfc(fields[0].key);
      NormaliseExactly(fields[0].value, nfc);
      if !HasKey(done, key) && Normalise(fields[0].value, nfc).Some? {
        var more := done + [Field(key, Normalise(fields[0].value, nfc).value)];
        FieldsExactly(fields[1..], more, nfc);
        FieldsClashStep(fields, done, more, nfc);
        var r := NormaliseFields(fields, done, nfc);
        if r.Some? {
          assert r.value[..|done|] == r.value[..|more|][..|done|];
          var gs := r.value[|done|..];
          assert gs[0] == r.value[..|more|][|done|];
          assert gs[1..] == r.value[|more|..];
          forall a | 0 <= a < |fields|
            ensures gs[a].key == nfc(fields[a].key) && Image(fields[a].value, gs[a].value, nfc)
          {
            if a > 0 { assert gs[a] == gs[1..][a - 1] && fields[a] == fields[1..][a - 1]; }
          }
        }
      }
    }
  }

  lemma OneMoreKey(done: seq<Field>, more: seq<Field>, k: string)
    requires |more| == |done| + 1 && more[..|done|] == done
    ensures HasKey(more, k) <==> HasKey(done, k) || k == more[|done|].key
  {
    if HasKey(done, k) {
      var i :| 0 <= i < |done| && done[i].key == k;
      assert more[i] == more[..|done|][i];
    }
    if HasKey(more, k) {
      var i :| 0 <= i < |more| && more[i].key == k;
      if i < |done| { assert more[i] == more[..|done|][i]; }
    }
  }

  /** Moving the first field into the dictionary keeps the set of clashes. */
  lemma FieldsClashStep(fields: seq<Field>, done: seq<Field>, more: seq<Field>, nfc: Normaliser)
    requires fields != [] && !HasKey(done, nfc(fields[0].key)) && !Clash(fields[0].value, nfc)
    requires |more| == |done| + 1 && more[..|done|] == done && more[|done|].key == nfc(fields[0].key)
    ensures FieldsClash(fields[1..], more, nfc) <==> FieldsClash(fields, done, nfc)
  {
    var rest := fields[1..];
    forall k ensures HasKey(more, k) <==> HasKey(done, k) || k == nfc(fields[0].key) { OneMoreKey(done, more, k); }
    forall a | 0 <= a < |rest| ensures rest[a] == fields[a + 1] {}
    if FieldsClash(rest, more, nfc) {
      if a :| 0 <= a < |rest| && HasKey(more, nfc(rest[a].key)) {
        assert fields[a + 1] == rest[a];
      } else if a, b :| 0 <= a < b < |rest| && nfc(rest[a].key) == nfc(rest[b].key) {
        assert fields[a + 1] == rest[a] && fields[b + 1] == rest[b];
      } else {
        var a :| 0 <= a < |rest| && Clash(rest[a].value, nfc);
        assert fields[a + 1] == rest[a];
      }
    }
    if FieldsClash(fields, done, nfc) {
      if a :| 0 <= a < |fields| && HasKey(done, nfc(fields[a].key)) {
        assert rest[a - 1] == fields[a];
      } else if a, b :| 0 <= a < b < |fields| && nfc(fields[a].key) == nfc(fields[b].key) {
        assert rest[b - 1] == fields[b];
        if a > 0 { assert rest[a - 1] == fields[a]; }
      } else {
        var a :| 0 <= a < |fields| && Clash(fields[a].value, nfc);
        assert rest[a - 1] == fields[a];
      }
    }
  }

  lemma {:induction false} ItemsExactly(items: seq<Json>, nfc: Normaliser)
    ensures NormaliseItems(items, nfc).None? <==> exists a :: 0 <= a < |items| && Clash(items[a], nfc)
    ensures var r := NormaliseItems(items, nfc);
            r.Some? ==> |r.value| == |items| && forall a | 0 <= a < |items| :: Image(items[a], r.value[a], nfc)
    decreases items, 0
  {
    if items != [] {
      NormaliseExactly(items[0], nfc);
      ItemsExactly(items[1..], nfc);
      forall a | 0 < a < |items| ensures items[a] == items[1..][a - 1] {}
      if a :| 0 <= a < |items[1..]| && Clash(items[1..][a], nfc) { assert Clash(items[a + 1], nfc); }
      if a :| 0 <= a < |items| && Clash(items[a], nfc) { if a > 0 { assert Clash(items[1..][a - 1], nfc); } }
    }
  }

  // ----- consequences -----

  lemma {:induction false} ImageUnique(j: Json, r: Json, q: Json, nfc: Normaliser)
    requires Image(j, r, nfc) && Image(j, q, nfc)
    ensures r == q
    decreases j
  {
    match j
    case Obj(fs) =>
      forall a | 0 <= a < |fs| ensures r.fields[a] == q.fields[a] {
        ImageUnique(fs[a].value, r.fields[a].value, q.fields[a].value, nfc);
      }
      assert r.fields == q.fields;
    case Arr(xs) =>
      forall a | 0 <= a < |xs| ensures r.items[a] == q.items[a] { ImageUnique(xs[a], r.items[a], q.items[a], nfc); }
      assert r.items == q.items;
    case Tup(xs) =>
      forall a | 0 <= a < |xs| ensures r.items[a] == q.items[a] { ImageUnique(xs[a], r.items[a], q.items[a], nfc); }
      assert r.items == q.items;
    case _ =>
  }

  /** An image is its own image, and clashes exactly where the original does. */
  lemma {:induction false} ImageOfImage(j: Json, r: Json, nfc: Normaliser)
    requires Idempotent(nfc) && Image(j, r, nfc)
    ensures Image(r, r, nfc) && (Clash(r, nfc) <==> Clash(j, nfc))
    decreases j
  {
    match j
    case Obj(fs) =>
      forall a | 0 <= a < |fs|
        ensures Image(r.fields[a].value, r.fields[a].value, nfc) && (Clash(r.fields[a].value, nfc) <==> Clash(fs[a].value, nfc))
        ensures nfc(r.fields[a].key) == nfc(fs[a].key)
      {
        ImageOfImage(fs[a].value, r.fields[a].value, nfc);
      }
    case Arr(xs) =>
      forall a | 0 <= a < |xs| ensures Image(r.items[a], r.items[a], nfc) && (Clash(r.items[a], nfc) <==> Clash(xs[a], nfc)) {
        ImageOfImage(xs[a], r.items[a], nfc);
      }
    case Tup(xs) =>
      forall a | 0 <= a < |xs| ensures Image(r.items[a], r.items[a], nfc) && (Clash(r.items[a], nfc) <==> Clash(xs[a], nfc)) {
        ImageOfImage(xs[a], r.items[a], nfc);
      }
    case _ =>
  }

  /** Normalising twice is normalising once. */
  lemma NormaliseIdempotent(j: Json, nfc: Normaliser)
    requires Idempotent(nfc) && Normalise(j, nfc).Some?
    ensures Normalise(Normalise(j, nfc).value, nfc) == Normalise(j, nfc)
  {
    NormaliseExactly(j, nfc);
    var r := Normalise(j, nfc).value;
    ImageOfImage(j, r, nfc);
    NormaliseExactly(r, nfc);
    ImageUnique(r, r, Normalise(r, nfc).value, nfc);
  }

  /** Every object of a normalised value still has distinct keys, so the encoder loses nothing. */
  ghost predicate KeysDistinct(j: Json) {
    match j
    case Obj(fields) =>
      && (forall a, b | 0 <= a < b < |fields| :: fields[a].key != fields[b].key)
      && (forall a | 0 <= a < |fields| :: KeysDistinct(fields[a].value))
    case Arr(items) => forall a | 0 <= a < |items| :: KeysDistinct(items[a])
    case Tup(items) => forall a | 0 <= a < |items| :: KeysDistinct(items[a])
    case _ => true
  }

  lemma {:induction false} ImageKeysDistinct(j: Json, r: Json, nfc: Normaliser)
    requires Image(j, r, nfc) && !Clash(j, nfc)
    ensures KeysDistinct(r)
    decreases j
  {
    match j
    case Obj(fs) =>
      forall a | 0 <= a < |fs| ensures KeysDistinct(r.fields[a].value) {
        ImageKeysDistinct(fs[a].value, r.fields[a].value, nfc);
      }
    case Arr(xs) =>
      forall a | 0 <= a < |xs| ensures KeysDistinct(r.items[a]) { ImageKeysDistinct(xs[a], r.items[a], nfc); }
    case Tup(xs) =>
      forall a | 0 <= a < |xs| ensures KeysDistinct(r.items[a]) { ImageKeysDistinct(xs[a], r.items[a], nfc); }
    case _ =>
  }

  lemma NormalisedKeysDistinct(j: Json, nfc: Normaliser)
    requires Normalise(j, nfc).Some?
    ensures KeysDistinct(Normalise(j, nfc).value)
  {
    NormaliseExactly(j, nfc);
    ImageKeysDistinct(j, Normalise(j, nfc).value, nfc);
  }
}
