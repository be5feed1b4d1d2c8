/**
  frontend/lib/full-reload.ts and frontend/lib/use-deferred-router-refresh.ts: protection of unsaved drafts
  across mutations and the full reload that follows them.

  A guard is a page region that may hold a draft. A handler asks once before its mutation and remembers a
  content signature per dirty guard; only if the mutation succeeds are the guards discarded whose signature
  is still the same; before the reload the user is asked again about anything still dirty.
 */
module DraftGuard {
  import opened Prelude

  // ----- content signature -----

  datatype Control = Control(name: string, value: string)

  type Content = seq<Control>

  const NUL: char := '\U{0000}'

  function Digit(d: nat): (c: char)
    requires d < 10
    ensures c != NUL
  {
    "0123456789"[d]
  }

  function Decimal(n: nat): (s: string)
    ensures NUL !in s
  {
    if n < 10 then [Digit(n)] else Decimal(n / 10) + [Digit(n % 10)]
  }

  function Part(index: nat, c: Control): (s: string)
    ensures s != []
  {
    Decimal(index) + ":" + c.name + "=" + c.value
  }

  function Parts(controls: Content): (ps: seq<string>)
    ensures |ps| == |controls| && forall i | 0 <= i < |ps| :: ps[i] == Part(i, controls[i])
  {
    seq(|controls|, i requires 0 <= i < |controls| => Part(i, controls[i]))
  }

  function Join(parts: seq<string>): (s: string) {
    if parts == [] then "" else if |parts| == 1 then parts[0] else parts[0] + [NUL] + Join(parts[1..])
  }

  function Signature(controls: Content): (s: string) {
    Join(Parts(controls))
  }

  /** Contents of a page whose controls have these names; no string on it holds NUL. */
  ghost predicate Over(controls: Content, names: iset<string>) {
    forall c | c in controls :: c.name in names && NUL !in c.name && NUL !in c.value
  }

  /** `n` is `m`, then an equals sign, then anything. */
  predicate Extends(n: string, m: string) {
    |m| < |n| && n[..|m|] == m && n[|m|] == '='
  }

  /** What the signature asks of the names: none is another one followed by an equals sign. */
  ghost predicate Unextended(names: iset<string>) {
    forall m, n | m in names && n in names && NUL !in n :: !Extends(n, m)
  }

  /** The signature tells all contents over these names apart. */
  ghost predicate Separates(names: iset<string>) {
    forall a, b | Over(a, names) && Over(b, names) && Signature(a) == Signature(b) :: a == b
  }

  lemma SeparatorShows(parts: seq<string>)
    requires |parts| > 0 && forall p | p in parts :: NUL !in p
    ensures NUL in Join(parts) <==> |parts| > 1
  {
  }

  lemma {:induction false} JoinInjective(a: seq<string>, b: seq<string>)
    requires forall p | p in a || p in b :: NUL !in p && p != []
    requires Join(a) == Join(b)
    ensures a == b
  {
    assert a != [] ==> a[0] in a && Join(a) != [];
    assert b != [] ==> b[0] in b && Join(b) != [];
    if a != [] && b != [] {
      SeparatorShows(a);
      SeparatorShows(b);
      if |a| > 1 {
        SplitAtFirst(NUL, a[0], b[0], Join(a[1..]), Join(b[1..]));
        assert forall p | p in a[1..] :: p in a;
        assert forall p | p in b[1..] :: p in b;
        JoinInjective(a[1..], b[1..]);
        assert a == [a[0]] + a[1..] && b == [b[0]] + b[1..];
      }
    }
  }

  lemma PartInjective(i: nat, c: Control, d: Control)
    requires !Extends(c.name, d.name) && !Extends(d.name, c.name) && Part(i, c) == Part(i, d)
    ensures c == d
  {
    var head := Decimal(i) + ":";
    var l, r := c.name + "=" + c.value, d.name + "=" + d.value;
    assert Part(i, c) == head + l && Part(i, d) == head + r;
    assert l == (head + l)[|head|..] && r == (head + r)[|head|..];
    NamesSplit(c.name, c.value, d.name, d.value);
  }

  lemma ShorterExtended(m: string, x: string, n: string, y: string)
    requires m + "=" + x == n + "=" + y
    ensures |m| < |n| ==> Extends(n, m)
  {
    var l, r := m + "=" + x, n + "=" + y;
    assert |m| < |n| ==> n[..|m|] == r[..|m|] == l[..|m|] == m && n[|m|] == r[|m|] == l[|m|] == '=';
  }

  lemma NamesSplit(m: string, x: string, n: string, y: string)
    requires !Extends(m, n) && !Extends(n, m) && m + "=" + x == n + "=" + y
    ensures m == n && x == y
  {
    var l, r := m + "=" + x, n + "=" + y;
    ShorterExtended(m, x, n, y);
    ShorterExtended(n, y, m, x);
    assert l[..|m|] == m && r[..|n|] == n;
    assert x == l[|m| + 1..] && y == r[|n| + 1..];
  }

  lemma PartsFree(a: Content, names: iset<string>)
    requires Over(a, names)
    ensures forall p | p in Parts(a) :: NUL !in p && p != []
  {
    forall p | p in Parts(a) ensures NUL !in p && p != [] {
      var i :| 0 <= i < |a| && Parts(a)[i] == p;
      assert a[i] in a;
    }
  }

  /** Under the condition the signature determines the content. */
  lemma SignatureInjective(a: Content, b: Content, names: iset<string>)
    requires Unextended(names) && Over(a, names) && Over(b, names) && Signature(a) == Signature(b)
    ensures a == b
  {
    PartsFree(a, names);
    PartsFree(b, names);
    JoinInjective(Parts(a), Parts(b));
    forall i | 0 <= i < |a| ensures a[i] == b[i] {
      assert a[i] in a && b[i] in b && Parts(a)[i] == Parts(b)[i];
      PartInjective(i, a[i], b[i]);
    }
  }

  /** Two contents of one control each, for a name that extends another. */
  function Longer(n: string): (c: Content) {
    [Control(n, "")]
  }

  function Shorter(n: string, m: string): (c: Content)
    requires Extends(n, m)
  {
    [Control(m, n[|m| + 1..] + "=")]
  }

  /** They share a signature. */
  lemma SignatureConfuses(n: string, m: string)
    requires Extends(n, m)
    ensures Longer(n) != Shorter(n, m) && Signature(Longer(n)) == Signature(Shorter(n, m))
  {
    var a, b := Longer(n), Shorter(n, m);
    assert n == m + "=" + n[|m| + 1..];
    assert n + "=" + "" == m + "=" + (n[|m| + 1..] + "=");
    assert Part(0, a[0]) == Decimal(0) + ":" + (n + "=" + "");
    assert Part(0, b[0]) == Decimal(0) + ":" + (m + "=" + (n[|m| + 1..] + "="));
    assert Parts(a) == [Part(0, a[0])] && Parts(b) == [Part(0, b[0])];
  }

  lemma ConfusedOver(n: string, m: string, names: iset<string>)
    requires Extends(n, m) && m in names && n in names && NUL !in n
    ensures Over(Longer(n), names) && Over(Shorter(n, m), names)
  {
    assert forall c | c in m :: c in n[..|m|];
  }

  /** The signature tells contents apart exactly under that condition on the names. */
  lemma SeparatesExactly(names: iset<string>)
    ensures Separates(names) <==> Unextended(names)
  {
    if Unextended(names) {
      forall a, b | Over(a, names) && Over(b, names) && Signature(a) == Signature(b) ensures a == b {
        SignatureInjective(a, b, names);
      }
    } else {
      var m, n :| m in names && n in names && NUL !in n && Extends(n, m);
      SignatureConfuses(n, m);
      ConfusedOver(n, m, names);
    }
  }

  /** A value with NUL can pass for two controls, whatever the names. */
  lemma NulConfuses(n: string)
    ensures var a, b := [Control(n, [NUL] + "1:" + n + "=")], [Control(n, ""), Control(n, "")];
            a != b && Signature(a) == Signature(b)
  {
    var a, b := [Control(n, [NUL] + "1:" + n + "=")], [Control(n, ""), Control(n, "")];
    var first, second := Part(0, b[0]), Part(1, b[1]);
    assert Parts(a) == [Part(0, a[0])] && Parts(b) == [first, second] && [first, second][1..] == [second];
    assert second == "1:" + n + "=" by { assert Decimal(1) == "1"; }
    assert Part(0, a[0]) == first + ([NUL] + "1:" + n + "=");
    assert Join([second]) == second && Join([first, second]) == first + [NUL] + second;
    assert first + [NUL] + second == first + ([NUL] + "1:" + n + "=");
  }

  // ----- the page -----

  type GuardId = nat
  type HandlerId = nat

  /** A guard on the page; `saved` is what its forms go back to when the draft is discarded. */
  datatype Guard = Guard(dirty: bool, controls: Content, saved: Content)

  datatype Captured = Captured(guard: GuardId, signature: string)

  function Reset(g: Guard): (r: Guard) {
    Guard(false, g.saved, g.saved)
  }

  /** The dirty guards outside the region that runs the mutation, in document order. */
  function Dirty(order: seq<GuardId>, guards: map<GuardId, Guard>, except: set<GuardId>): (r: seq<GuardId>)
    ensures forall g :: g in r <==> g in order && g in guards && g !in except && guards[g].dirty
  {
    if order == [] then []
    else
      var rest := Dirty(order[1..], guards, except);
      if order[0] in guards && order[0] !in except && guards[order[0]].dirty then [order[0]] + rest else rest
  }

  function Capture(pending: seq<GuardId>, guards: map<GuardId, Guard>): (r: seq<Captured>)
    requires forall g | g in pending :: g in guards
  {
    seq(|pending|, i requires 0 <= i < |pending| =>
      assert pending[i] in pending; Captured(pending[i], Signature(guards[pending[i]].controls)))
  }

  /** What a commit leaves: exactly the captured guards whose content still has the captured signature are reset. */
  function Discarded(guards: map<GuardId, Guard>, captured: seq<Captured>): (r: map<GuardId, Guard>) {
    map g | g in guards ::
      if Captured(g, Signature(guards[g].controls)) in captured then Reset(guards[g]) else guards[g]
  }

  datatype State = State(
    order: seq<GuardId>,
    guards: map<GuardId, Guard>,
    seen: set<GuardId>,
    handlers: map<HandlerId, seq<Captured>>,
    tick: nat,
    applied: nat)

  /** `answer` is the reply to the dialogue, used only where one is shown. */
  datatype Event =
    | Mount(guard: GuardId, content: Content)
    | Unmount(guard: GuardId)
    | Edit(guard: GuardId, dirty: bool, content: Content)
    | Prepare(handler: HandlerId, except: set<GuardId>, answer: bool)
    | Commit(handler: HandlerId)
    | RequestRefresh
    | Effect(answer: bool)

  const START: State := State([], map[], {}, map[], 0, 0)

  function Step(s: State, e: Event): (t: State) {
    match e
    case Mount(g, c) =>
      if g in s.seen then s
      else s.(order := s.order + [g], guards := s.guards[g := Guard(false, c, c)], seen := s.seen + {g})
    case Unmount(g) => s.(guards := s.guards - {g})
    case Edit(g, d, c) =>
      if g in s.guards then s.(guards := s.guards[g := s.guards[g].(dirty := d, controls := c)]) else s
    case Prepare(h, except, answer) =>
      var pending := Dirty(s.order, s.guards, except);
      if pending == [] then s.(handlers := s.handlers[h := []])
      else if answer then s.(handlers := s.handlers[h := Capture(pending, s.guards)])
      else s
    case Commit(h) =>
      if h in s.handlers then s.(guards := Discarded(s.guards, s.handlers[h])) else s
    case RequestRefresh => s.(tick := s.tick + 1)
    case Effect(answer) =>
      if s.tick == s.applied then s
      else if Dirty(s.order, s.guards, {}) == [] || answer then START.(seen := s.seen)
      else s.(applied := s.tick)
  }

  /** Every run from a freshly loaded page; a failed mutation is a run in which its handler never commits. */
  function Run(es: seq<Event>): (s: State) {
    if es == [] then START else Step(Run(es[..|es| - 1]), es[|es| - 1])
  }

  // ----- what can be lost -----

  predicate OnPage(s: State, g: GuardId, c: Content) {
    g in s.guards && s.guards[g].dirty && s.guards[g].controls == c
  }

  /** The draft `c` of guard `g` is on the page before the step and not after it. */
  predicate Lost(s: State, e: Event, g: GuardId, c: Content) {
    OnPage(s, g, c) && !OnPage(Step(s, e), g, c)
  }

  /** At event `i` the user agreed to discard exactly the draft `c` of `g` for handler `h`. */
  predicate ConfirmedAt(es: seq<Event>, i: nat, h: HandlerId, g: GuardId, c: Content) {
    && i < |es| && es[i].Prepare? && es[i].handler == h && es[i].answer && g !in es[i].except
    && OnPage(Run(es[..i]), g, c)
  }

  ghost predicate EventOver(e: Event, names: iset<string>) {
    (e.Mount? || e.Edit?) ==> Over(e.content, names)
  }

  ghost predicate RunOver(es: seq<Event>, names: iset<string>) {
    forall e | e in es :: EventOver(e, names)
  }

  ghost predicate GuardsOver(guards: map<GuardId, Guard>, names: iset<string>) {
    forall g | g in guards :: Over(guards[g].controls, names) && Over(guards[g].saved, names)
  }

  lemma StepOver(s: State, e: Event, names: iset<string>)
    requires GuardsOver(s.guards, names) && EventOver(e, names)
    ensures GuardsOver(Step(s, e).guards, names)
  {
  }

  lemma {:induction false} GuardsOverRun(es: seq<Event>, names: iset<string>)
    requires RunOver(es, names)
    ensures GuardsOver(Run(es).guards, names)
  {
    if es != [] {
      var k := |es| - 1;
      assert es[k] in es && forall e | e in es[..k] :: e in es;
      GuardsOverRun(es[..k], names);
      StepOver(Run(es[..k]), es[k], names);
    }
  }

  lemma ConfirmedEarlier(es: seq<Event>, k: nat, i: nat, h: HandlerId, g: GuardId, c: Content)
    requires k <= |es| && ConfirmedAt(es[..k], i, h, g, c)
    ensures ConfirmedAt(es, i, h, g, c)
  {
    assert es[..k][..i] == es[..i];
  }

  lemma CaptureMember(pending: seq<GuardId>, guards: map<GuardId, Guard>, cap: Captured)
    requires forall g | g in pending :: g in guards
    requires cap in Capture(pending, guards)
    ensures cap.guard in pending && cap.signature == Signature(guards[cap.guard].controls)
  {
  }

  /** Every captured signature is that of a draft the user agreed to discard for that handler. */
  lemma {:induction false} CapturesConfirmed(es: seq<Event>, h: HandlerId, cap: Captured) returns (i: nat, c: Content)
    requires h in Run(es).handlers && cap in Run(es).handlers[h]
    ensures ConfirmedAt(es, i, h, cap.guard, c) && cap.signature == Signature(c)
  {
    var k := |es| - 1;
    assert es != [];
    var s, e := Run(es[..k]), es[k];
    var pending := if e.Prepare? then Dirty(s.order, s.guards, e.except) else [];
    if e.Prepare? && e.handler == h && pending != [] && e.answer {
      assert Run(es).handlers[h] == Capture(pending, s.guards);
      CaptureMember(pending, s.guards, cap);
      i, c := k, s.guards[cap.guard].controls;
    } else {
      i, c := CapturesConfirmed(es[..k], h, cap);
      ConfirmedEarlier(es, k, i, h, cap.guard, c);
    }
  }

  /**
    Draft protection, over every run: a dirty draft disappears only by its own component's doing, by the commit
    of a handler for which the user had agreed to discard exactly this content of this guard, or by a reload the
    user agreed to while the draft was on the page.
   */
  lemma DraftLossConfirmed(es: seq<Event>, e: Event, g: GuardId, c: Content, names: iset<string>)
    requires Unextended(names) && RunOver(es, names) && Lost(Run(es), e, g, c)
    ensures match e
            case Commit(h) => exists i: nat :: ConfirmedAt(es, i, h, g, c)
            case Effect(answer) => answer
            case Unmount(u) => u == g
            case Edit(u, _, _) => u == g
            case _ => false
  {
    var s := Run(es);
    RunOrdered(es);
    match e
    case Commit(h) =>
      var cap := Captured(g, Signature(c));
      assert cap in s.handlers[h];
      var i, d := CapturesConfirmed(es, h, cap);
      GuardsOverRun(es, names);
      assert forall x | x in es[..i] :: x in es;
      GuardsOverRun(es[..i], names);
      SignatureInjective(c, d, names);
    case Effect(_) =>
      assert g in Dirty(s.order, s.guards, {});
    case _ =>
  }

  /** Every guard on the page is found by the document query, and its identity has been seen. */
  predicate Ordered(s: State) {
    forall g | g in s.guards :: g in s.order && g in s.seen
  }

  lemma {:induction false} RunOrdered(es: seq<Event>)
    ensures Ordered(Run(es))
  {
    if es != [] {
      RunOrdered(es[..|es| - 1]);
    }
  }

  /** No commit discards a draft on pages with these names unless exactly that content was confirmed for its handler. */
  ghost predicate Protected(names: iset<string>) {
    forall es, h, g, c | RunOver(es, names) && Lost(Run(es), Commit(h), g, c) :: Confirmed(es, h, g, c)
  }

  ghost predicate Confirmed(es: seq<Event>, h: HandlerId, g: GuardId, c: Content) {
    exists i: nat :: ConfirmedAt(es, i, h, g, c)
  }

  /** Mount a guard, edit it to `a`, agree to discard that, edit it to `c`. */
  function Swapped(a: Content, c: Content): (es: seq<Event>) {
    [Mount(0, []), Edit(0, true, a), Prepare(0, {}, true), Edit(0, true, c)]
  }

  lemma SwappedRun(a: Content, c: Content)
    ensures var es := Swapped(a, c);
            && Run(es[..2]) == State([0], map[0 := Guard(true, a, [])], {0}, map[], 0, 0)
            && Run(es[..3]) == Run(es[..2]).(handlers := map[0 := [Captured(0, Signature(a))]])
            && Run(es) == Run(es[..3]).(guards := map[0 := Guard(true, c, [])])
  {
    var es := Swapped(a, c);
    assert es[..3][..2] == es[..2] && es[..2][..1] == es[..1] && es[..1][..0] == [] && es[..3][2] == es[2];
    assert Run(es[..1]) == State([0], map[0 := Guard(false, [], [])], {0}, map[], 0, 0);
    var s := Run(es[..2]);
    assert s == State([0], map[0 := Guard(true, a, [])], {0}, map[], 0, 0);
    assert Dirty(s.order, s.guards, {}) == [0] by { assert s.order[1..] == []; }
    assert Capture([0], s.guards) == [Captured(0, Signature(a))];
  }

  /** Contents that share a signature let the second one be discarded without being confirmed. */
  lemma SwapLosesDraft(a: Content, c: Content)
    requires a != c && Signature(a) == Signature(c) && c != []
    ensures Lost(Run(Swapped(a, c)), Commit(0), 0, c) && !Confirmed(Swapped(a, c), 0, 0, c)
  {
    SwappedRun(a, c);
    var es := Swapped(a, c);
    assert forall i: nat | ConfirmedAt(es, i, 0, 0, c) :: i == 2;
  }

  /** Drafts are protected from every commit of every run exactly under the condition on the names. */
  lemma ProtectedExactly(names: iset<string>)
    ensures Protected(names) <==> Unextended(names)
  {
    if Unextended(names) {
      forall es, h, g, c | RunOver(es, names) && Lost(Run(es), Commit(h), g, c) ensures Confirmed(es, h, g, c) {
        DraftLossConfirmed(es, Commit(h), g, c, names);
      }
    } else {
      var m, n :| m in names && n in names && NUL !in n && Extends(n, m);
      ExtendedLosesDraft(n, m, names);
    }
  }

  lemma ExtendedLosesDraft(n: string, m: string, names: iset<string>)
    requires Extends(n, m) && m in names && n in names && NUL !in n
    ensures !Protected(names)
  {
    SignatureConfuses(n, m);
    ConfusedOver(n, m, names);
    SwapLosesDraft(Longer(n), Shorter(n, m));
    assert RunOver(Swapped(Longer(n), Shorter(n, m)), names);
  }

  // ----- what happens for certain -----

  lemma CapturesDraft(s: State, e: Event, h: HandlerId, g: GuardId, c: Content)
    requires Ordered(s) && e.Prepare? && e.handler == h && e.answer && g !in e.except && OnPage(s, g, c)
    ensures h in Step(s, e).handlers && Captured(g, Signature(c)) in Step(s, e).handlers[h]
  {
    var pending := Dirty(s.order, s.guards, e.except);
    assert g in pending;
    var n :| 0 <= n < |pending| && pending[n] == g;
    assert Capture(pending, s.guards)[n] == Captured(g, Signature(c));
  }

  /** An agreed discard is still on record when its handler has neither prepared again nor lost its page. */
  lemma {:induction false} CaptureKept(es: seq<Event>, i: nat, h: HandlerId, g: GuardId, c: Content)
    requires ConfirmedAt(es, i, h, g, c) && h in Run(es).handlers
    requires forall j | i < j < |es| :: !(es[j].Prepare? && es[j].handler == h)
    ensures Captured(g, Signature(c)) in Run(es).handlers[h]
  {
    var k := |es| - 1;
    if i == k {
      RunOrdered(es[..k]);
      CapturesDraft(Run(es[..k]), es[k], h, g, c);
    } else {
      assert es[..k][..i] == es[..i];
      CaptureKept(es[..k], i, h, g, c);
    }
  }

  /** A guard goes back to what it was mounted with. */
  lemma {:induction false} SavedIsMounted(es: seq<Event>, g: GuardId) returns (i: nat)
    requires g in Run(es).guards
    ensures i < |es| && es[i] == Mount(g, Run(es).guards[g].saved)
  {
    var k := |es| - 1;
    assert es != [];
    RunOrdered(es[..k]);
    if g in Run(es[..k]).guards {
      i := SavedIsMounted(es[..k], g);
    } else {
      i := k;
    }
  }

  /** The counterpart of draft protection: a commit does discard the draft that was confirmed for it. */
  lemma ConfirmedIsDiscarded(es: seq<Event>, i: nat, h: HandlerId, g: GuardId, c: Content)
    requires ConfirmedAt(es, i, h, g, c) && h in Run(es).handlers && OnPage(Run(es), g, c)
    requires forall j | i < j < |es| :: !(es[j].Prepare? && es[j].handler == h)
    ensures var was, now := Run(es).guards[g], Step(Run(es), Commit(h)).guards;
            g in now && !now[g].dirty && now[g].controls == was.saved && Mount(g, was.saved) in es
  {
    CaptureKept(es, i, h, g, c);
    var k := SavedIsMounted(es, g);
  }

  lemma {:induction false} AppliedBehind(es: seq<Event>)
    ensures Run(es).applied <= Run(es).tick
  {
    if es != [] { AppliedBehind(es[..|es| - 1]); }
  }

  /** The effect reloads exactly if a refresh is due and either no draft is on the page or the user agrees. */
  lemma EffectExactly(es: seq<Event>, answer: bool)
    ensures var s, t := Run(es), Step(Run(es), Effect(answer));
            && t.guards == (if s.applied < s.tick && (answer || forall g | g in s.guards :: !s.guards[g].dirty) then map[]
                            else s.guards)
            && t.tick == t.applied
  {
    AppliedBehind(es);
    RunOrdered(es);
    var s := Run(es);
    var d := Dirty(s.order, s.guards, {});
    assert d != [] ==> d[0] in d;
  }

  // ----- the imperative form -----

  /** The document as the functions of full-reload.ts see and change it. */
  class Page {
    var order: seq<GuardId>
    var guards: map<GuardId, Guard>
    var tick: nat

    constructor (order: seq<GuardId>, guards: map<GuardId, Guard>)
      ensures this.order == order && this.guards == guards && tick == 0
    {
      this.order, this.guards, tick := order, guards, 0;
    }

    method HasUnsavedDraft(except: set<GuardId>) returns (found: bool)
      ensures found <==> Dirty(order, guards, except) != []
    {
      var i := 0;
      while i < |order|
        invariant 0 <= i <= |order|
        invariant Dirty(order, guards, except) == Dirty(order[i..], guards, except)
      {
        if order[i] in guards && order[i] !in except && guards[order[i]].dirty {
          return true;
        }
        i := i + 1;
      }
      return false;
    }

    method CollectDirtyGuards(except: set<GuardId>) returns (result: seq<GuardId>)
      ensures result == Dirty(order, guards, except)
    {
      result := [];
      var i := 0;
      while i < |order|
        invariant 0 <= i <= |order|
        invariant result + Dirty(order[i..], guards, except) == Dirty(order, guards, except)
      {
        ghost var rest := Dirty(order[i + 1..], guards, except);
        assert order[i..][1..] == order[i + 1..];
        if order[i] in guards && order[i] !in except && guards[order[i]].dirty {
          assert result + ([order[i]] + rest) == (result + [order[i]]) + rest;
          result := result + [order[i]];
        }
        i := i + 1;
      }
    }

    method GuardSignature(g: GuardId) returns (s: string)
      requires g in guards
      ensures s == Signature(guards[g].controls)
    {
      var controls := guards[g].controls;
      var parts: seq<string> := [];
      var i := 0;
      while i < |controls|
        invariant 0 <= i <= |controls|
        invariant parts == Parts(controls)[..i]
      {
        parts := parts + [Part(i, controls[i])];
        i := i + 1;
      }
      assert parts == Parts(controls);
      s := Join(parts);
    }

    /** `answer` is the reply to the confirmation dialogue; no dialogue is shown when nothing is dirty. */
    method PrepareDiscardOnCommit(except: set<GuardId>, answer: bool)
      returns (approved: bool, captured: seq<Captured>)
      ensures approved <==> Dirty(order, guards, except) == [] || answer
      ensures captured == if answer then Capture(Dirty(order, guards, except), guards) else []
    {
      var pending := CollectDirtyGuards(except);
      captured := [];
      if pending == [] {
        return true, [];
      }
      if !answer {
        return false, [];
      }
      var i := 0;
      while i < |pending|
        invariant 0 <= i <= |pending|
        invariant captured == Capture(pending, guards)[..i]
      {
        assert pending[i] in pending;
        var s := GuardSignature(pending[i]);
        captured := captured + [Captured(pending[i], s)];
        i := i + 1;
      }
      approved := true;
    }

    /** The loop resets guards one by one, yet decides each by its content before the commit. */
    method DiscardCaptured(captured: seq<Captured>)
      modifies this`guards
      ensures guards == Discarded(old(guards), captured)
    {
      var i := 0;
      while i < |captured|
        invariant 0 <= i <= |captured|
        invariant guards == Discarded(old(guards), captured[..i])
      {
        var cap := captured[i];
        ghost var before := guards;
        assert captured[..i + 1] == captured[..i] + [cap];
        if cap.guard in guards {
          var s := GuardSignature(cap.guard);
          if s == cap.signature {
            guards := guards[cap.guard := Reset(guards[cap.guard])];
          }
        }
        i := i + 1;
      }
      assert captured[..i] == captured;
    }

    method RequestRefresh()
      modifies this`tick
      ensures tick == old(tick) + 1
    {
      tick := tick + 1;
    }

    /** The effect run after a tick change; a reload leaves an empty page. */
    method RunEffect(answer: bool) returns (reloaded: bool)
      modifies this
      ensures reloaded <==> old(tick) > 0 && (Dirty(old(order), old(guards), {}) == [] || answer)
      ensures if reloaded then order == [] && guards == map[] && tick == 0
              else order == old(order) && guards == old(guards) && tick == old(tick)
    {
      reloaded := false;
      if tick > 0 {
        var found := HasUnsavedDraft({});
        if !found || answer {
          order, guards, tick, reloaded := [], map[], 0, true;
        }
      }
    }
  }
}
