/** An injective code of numbers and texts as bits, for the concrete libraries that meet the models' assumptions. */
module NumberCode {
  import opened Prelude

  function Unary(n: nat): (r: seq<bool>) {
    if n == 0 then [false] else [true] + Unary(n - 1)
  }

  function Encode(ns: seq<nat>): (r: seq<bool>) {
    if ns == [] then [] else Unary(ns[0]) + Encode(ns[1..])
  }

  /** A text as its length and its characters. */
  function Codes(s: string): (r: seq<nat>) {
    [|s|] + seq(|s|, i requires 0 <= i < |s| => s[i] as int)
  }

  lemma {:induction false} UnaryFirst(m: nat, n: nat, x: seq<bool>, y: seq<bool>)
    requires Unary(m) + x == Unary(n) + y
    ensures m == n && x == y
  {
    var l, r := Unary(m) + x, Unary(n) + y;
    assert l[0] == r[0];
    if m == 0 {
      assert x == l[1..] && y == r[1..];
    } else {
      assert l[1..] == Unary(m - 1) + x && r[1..] == Unary(n - 1) + y;
      UnaryFirst(m - 1, n - 1, x, y);
    }
  }

  lemma {:induction false} EncodeInjective(a: seq<nat>, b: seq<nat>)
    requires Encode(a) == Encode(b)
    ensures a == b
  {
    if a != [] && b != [] {
      UnaryFirst(a[0], b[0], Encode(a[1..]), Encode(b[1..]));
      EncodeInjective(a[1..], b[1..]);
      assert a == [a[0]] + a[1..] && b == [b[0]] + b[1..];
    }
  }

  lemma CodesFirst(s: string, t: string, x: seq<nat>, y: seq<nat>)
    requires Codes(s) + x == Codes(t) + y
    ensures s == t && x == y
  {
    var l, r := Codes(s) + x, Codes(t) + y;
    assert l[0] == |s| && r[0] == |t|;
    forall i | 0 <= i < |s| ensures s[i] == t[i] {
      assert l[i + 1] == s[i] as int && r[i + 1] == t[i] as int;
    }
    assert x == l[|s| + 1..] && y == r[|t| + 1..];
  }

  /** Bits as two marks of any kind. */
  function Marked<T>(bits: seq<bool>, one: T, zero: T): (r: seq<T>)
    ensures |r| == |bits| && forall i | 0 <= i < |r| :: r[i] == if bits[i] then one else zero
  {
    seq(|bits|, i requires 0 <= i < |bits| => if bits[i] then one else zero)
  }

  lemma MarkedInjective<T>(a: seq<bool>, b: seq<bool>, one: T, zero: T)
    requires one != zero && Marked(a, one, zero) == Marked(b, one, zero)
    ensures a == b
  {
    forall i | 0 <= i < |a| ensures i < |b| && a[i] == b[i] {
      assert Marked(a, one, zero)[i] == Marked(b, one, zero)[i];
    }
  }

  /** A list of numbers as text. */
  function AsText(ns: seq<nat>): (s: string) {
    Marked(Encode(ns), '1', '0')
  }

  lemma AsTextInjective(a: seq<nat>, b: seq<nat>)
    requires AsText(a) == AsText(b)
    ensures a == b
  {
    MarkedInjective(Encode(a), Encode(b), '1', '0');
    EncodeInjective(a, b);
  }
}
