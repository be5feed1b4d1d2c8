/** Shared vocabulary: optional values, idealised digests, and small facts about sequences. */
module Prelude {

  datatype Option<+T> = None | Some(value: T)

  /** The previous hash of the first entry of a chained journal. */
  const ZERO_HASH := seq(64, _ => '0')

  /** SHA-256 and the canonical encoders in front of it are treated as injective functions. */
  ghost predicate Injective<A(!new), B>(f: A -> B) {
    forall x, y :: f(x) == f(y) ==> x == y
  }

  function Max(a: int, b: int): (m: int) {
    if a < b then b else a
  }

  ghost predicate Distinct<T>(s: seq<T>) {
    forall i, j | 0 <= i < j < |s| :: s[i] != s[j]
  }

  /** The members of a set in some order, as a directory scan or a dictionary yields them. */
  ghost function Listing<T>(s: set<T>): (r: seq<T>)
    ensures multiset(r) == multiset(s)
  {
    if s == {} then []
    else
      var x :| x in s;
      assert s == {x} + (s - {x});
      [x] + Listing(s - {x})
  }

  /** Text up to the first separator is determined, and so is the text after it. */
  lemma SplitAtFirst<T>(sep: T, p: seq<T>, q: seq<T>, x: seq<T>, y: seq<T>)
    requires sep !in p && sep !in q && p + [sep] + x == q + [sep] + y
    ensures p == q && x == y
  {
    var l, r := p + [sep] + x, q + [sep] + y;
    assert forall i | 0 <= i < |p| :: l[i] == p[i] != sep;
    assert forall i | 0 <= i < |q| :: r[i] == q[i] != sep;
    assert l[|p|] == sep && r[|q|] == sep;
    assert p == l[..|p|] && q == r[..|q|];
    assert x == l[|p| + 1..] && y == r[|q| + 1..];
  }
}
