/**
  frontend/lib/map-with-concurrency.ts: a bounded pool of workers that pull `[index, item]` pairs from one
  shared iterator and write `results[index]`. Every interleaving of pulls and promise settlements is a run.
 */
module WorkerPool {
  import opened Prelude

  /** A JavaScript number used as a limit; NaN and the infinities are not finite. */
  datatype Limit = Finite(value: real) | NonFinite

  function Min(a: int, b: int): (m: int) { if a < b then a else b }

  function WorkerCount(limit: Limit, n: nat): (w: nat)
    ensures 1 <= w
    ensures limit.Finite? ==> w <= Max(1, limit.value.Floor)
    ensures 0 < n ==> w <= n
    ensures 0 < n && limit.Finite? && 1.0 <= limit.value && limit.value.Floor <= n ==> w == limit.value.Floor
    ensures 0 < n && (limit.Finite? ==> n <= limit.value.Floor) ==> w == n
  {
    var requested := if limit.Finite? then limit.value.Floor else n;
    Max(1, Min(requested, n))
  }

  /** `Pulling` is about to call `next()`; a rejected worker left its loop while working on `index`. */
  datatype Worker = Pulling | Awaiting(index: nat) | Finished | Rejected(index: nat)

  datatype State<R> = State(next: nat, workers: seq<Worker>, results: seq<Option<R>>)

  datatype Event = Pull(w: nat) | Resolve(w: nat) | Reject(w: nat)

  function Start<R>(limit: Limit, n: nat): (s: State<R>) {
    State(0, seq(WorkerCount(limit, n), _ => Pulling), seq(n, _ => None))
  }

  /** `value` is what the awaited call returns, for the worker's own item. */
  function Step<T, R>(s: State<R>, e: Event, items: seq<T>, fn: (T, nat) -> R): (t: Option<State<R>>) {
    if e.w >= |s.workers| then None
    else match (e, s.workers[e.w])
      case (Pull(w), Pulling) =>
        if s.next < |items| then Some(s.(next := s.next + 1, workers := s.workers[w := Awaiting(s.next)]))
        else Some(s.(workers := s.workers[w := Finished]))
      case (Resolve(w), Awaiting(i)) =>
        if i < |items| && i < |s.results|
        then Some(s.(workers := s.workers[w := Pulling], results := s.results[i := Some(fn(items[i], i))]))
        else None
      case (Reject(w), Awaiting(i)) => Some(s.(workers := s.workers[w := Rejected(i)]))
      case _ => None
  }

  function Run<T, R>(s: State<R>, events: seq<Event>, items: seq<T>, fn: (T, nat) -> R): (t: Option<State<R>>)
    decreases |events|
  {
    if events == [] then Some(s)
    else match Step(s, events[0], items, fn)
      case None => None
      case Some(t) => Run(t, events[1..], items, fn)
  }

  /** The indices handed out by the shared iterator along a run, in order. */
  function Claims<T, R>(s: State<R>, events: seq<Event>, items: seq<T>, fn: (T, nat) -> R): (c: seq<nat>)
    requires Run(s, events, items, fn).Some?
    decreases |events|
  {
    if events == [] then []
    else
      var rest := Claims(Step(s, events[0], items, fn).value, events[1..], items, fn);
      if events[0].Pull? && s.next < |items| then [s.next] + rest else rest
  }

  // ----- invariants -----

  ghost predicate WorksOn(worker: Worker, i: nat) {
    (worker.Awaiting? || worker.Rejected?) && worker.index == i
  }

  /** Every claimed index is either answered or in the hands of exactly one worker. */
  ghost predicate Inv<T, R>(s: State<R>, items: seq<T>, fn: (T, nat) -> R) {
    && s.next <= |items| == |s.results|
    && (forall w | 0 <= w < |s.workers| :: s.workers[w].Finished? ==> s.next == |items|)
    && (forall w | 0 <= w < |s.workers| :: s.workers[w].Awaiting? || s.workers[w].Rejected? ==> s.workers[w].index < s.next)
    && (forall v, w | 0 <= v < w < |s.workers| ::
          (s.workers[v].Awaiting? || s.workers[v].Rejected?) ==> !WorksOn(s.workers[w], s.workers[v].index))
    && (forall i | 0 <= i < s.next ::
          s.results[i] == Some(fn(items[i], i)) || exists w :: 0 <= w < |s.workers| && WorksOn(s.workers[w], i))
  }

  lemma InvStart<T, R>(limit: Limit, items: seq<T>, fn: (T, nat) -> R)
    ensures Inv(Start<R>(limit, |items|), items, fn)
  {
  }

  lemma InvStep<T, R>(s: State<R>, e: Event, items: seq<T>, fn: (T, nat) -> R)
    requires Inv(s, items, fn) && Step(s, e, items, fn).Some?
    ensures Inv(Step(s, e, items, fn).value, items, fn)
    ensures |Step(s, e, items, fn).value.workers| == |s.workers|
  {
    var t := Step(s, e, items, fn).value;
    forall i | 0 <= i < t.next
      ensures t.results[i] == Some(fn(items[i], i)) || exists w :: 0 <= w < |t.workers| && WorksOn(t.workers[w], i)
    {
      if i < s.next {
        if s.results[i] != Some(fn(items[i], i)) {
          var w :| 0 <= w < |s.workers| && WorksOn(s.workers[w], i);
          assert w != e.w ==> WorksOn(t.workers[w], i);
          assert w == e.w ==> t.results[i] == Some(fn(items[i], i)) || WorksOn(t.workers[w], i);
        }
      } else {
        assert WorksOn(t.workers[e.w], i);
      }
    }
  }

  lemma {:induction false} InvRun<T, R>(s: State<R>, events: seq<Event>, items: seq<T>, fn: (T, nat) -> R)
    requires Inv(s, items, fn) && Run(s, events, items, fn).Some?
    ensures Inv(Run(s, events, items, fn).value, items, fn)
    ensures |Run(s, events, items, fn).value.workers| == |s.workers|
    decreases |events|
  {
    if events != [] {
      InvStep(s, events[0], items, fn);
      InvRun(Step(s, events[0], items, fn).value, events[1..], items, fn);
    }
  }

  ghost predicate Held(workers: seq<Worker>, i: nat) {
    exists w :: 0 <= w < |workers| && WorksOn(workers[w], i)
  }

  /** Nothing is stored for an index that was not handed out yet or that a worker holds. */
  ghost predicate Unstored<R>(s: State<R>) {
    && (forall i | s.next <= i < |s.results| :: s.results[i] == None)
    && (forall w, i | 0 <= w < |s.workers| && 0 <= i < |s.results| && WorksOn(s.workers[w], i) :: s.results[i] == None)
  }

  lemma UnstoredStep<T, R>(s: State<R>, e: Event, items: seq<T>, fn: (T, nat) -> R)
    requires Inv(s, items, fn) && Unstored(s) && Step(s, e, items, fn).Some?
    ensures Unstored(Step(s, e, items, fn).value)
  {
    var t := Step(s, e, items, fn).value;
    forall w, i | 0 <= w < |t.workers| && 0 <= i < |t.results| && WorksOn(t.workers[w], i) ensures t.results[i] == None {
      assert w != e.w || e.Reject? ==> WorksOn(s.workers[w], i);
      assert e.Resolve? ==> s.workers[e.w].index != i;
    }
  }

  lemma {:induction false} UnstoredRun<T, R>(s: State<R>, events: seq<Event>, items: seq<T>, fn: (T, nat) -> R)
    requires Inv(s, items, fn) && Unstored(s) && Run(s, events, items, fn).Some?
    ensures Unstored(Run(s, events, items, fn).value)
    decreases |events|
  {
    if events != [] {
      InvStep(s, events[0], items, fn);
      UnstoredStep(s, events[0], items, fn);
      UnstoredRun(Step(s, events[0], items, fn).value, events[1..], items, fn);
    }
  }

  // ----- what every schedule guarantees -----

  lemma {:induction false} ClaimsCountUp<T, R>(s: State<R>, events: seq<Event>, items: seq<T>, fn: (T, nat) -> R)
    requires Run(s, events, items, fn).Some? && s.next <= |items|
    ensures var t := Run(s, events, items, fn).value;
            s.next <= t.next <= |items| && Claims(s, events, items, fn) == seq(t.next - s.next, k requires 0 <= k => s.next + k)
    decreases |events|
  {
    if events != [] {
      ClaimsCountUp(Step(s, events[0], items, fn).value, events[1..], items, fn);
    }
  }

  /** The iterator hands out 0, 1, 2, ... whatever the schedule: no index twice, none skipped. */
  lemma EachIndexOnce<T, R>(limit: Limit, events: seq<Event>, items: seq<T>, fn: (T, nat) -> R)
    requires Run(Start(limit, |items|), events, items, fn).Some?
    ensures var t := Run(Start(limit, |items|), events, items, fn).value;
            Claims(Start(limit, |items|), events, items, fn) == seq(t.next, k requires 0 <= k => k) && t.next <= |items|
  {
    ClaimsCountUp(Start(limit, |items|), events, items, fn);
  }

  function InFlight(workers: seq<Worker>): (k: nat)
    ensures k <= |workers|
  {
    if workers == [] then 0 else (if workers[0].Awaiting? then 1 else 0) + InFlight(workers[1..])
  }

  /** At most max(1, floor(limit)) calls are in flight in every reachable state. */
  lemma BoundedInFlight<T, R>(limit: Limit, events: seq<Event>, items: seq<T>, fn: (T, nat) -> R)
    requires Run(Start(limit, |items|), events, items, fn).Some?
    ensures var t := Run(Start(limit, |items|), events, items, fn).value;
            && (limit.Finite? ==> InFlight(t.workers) <= Max(1, limit.value.Floor))
            && (0 < |items| ==> InFlight(t.workers) <= |items|)
  {
    InvStart<T, R>(limit, items, fn);
    InvRun(Start(limit, |items|), events, items, fn);
  }

  predicate AllStopped<R>(s: State<R>) {
    forall w | 0 <= w < |s.workers| :: s.workers[w].Finished? || s.workers[w].Rejected?
  }

  /** No deadlock: until every worker has stopped, some step is enabled. */
  lemma SomeStepEnabled<T, R>(limit: Limit, events: seq<Event>, items: seq<T>, fn: (T, nat) -> R)
    requires Run(Start(limit, |items|), events, items, fn).Some?
    ensures var t := Run(Start(limit, |items|), events, items, fn).value;
            AllStopped(t) || exists e :: Step(t, e, items, fn).Some?
  {
    InvStart<T, R>(limit, items, fn);
    InvRun(Start(limit, |items|), events, items, fn);
    var t := Run(Start(limit, |items|), events, items, fn).value;
    if !AllStopped(t) {
      var w :| 0 <= w < |t.workers| && !t.workers[w].Finished? && !t.workers[w].Rejected?;
      if t.workers[w].Pulling? { assert Step(t, Pull(w), items, fn).Some?; }
      else { assert Step(t, Resolve(w), items, fn).Some?; }
    }
  }

  /** Remaining work; every step uses some of it up, so every schedule ends. */
  function Work(workers: seq<Worker>): (k: nat) {
    if workers == [] then 0
    else (match workers[0] case Pulling => 1 case Awaiting(_) => 2 case _ => 0) + Work(workers[1..])
  }

  lemma {:induction false} WorkUpdate(workers: seq<Worker>, w: nat, to: Worker)
    requires w < |workers|
    ensures Work(workers[w := to]) == Work(workers) - Work([workers[w]]) + Work([to])
  {
    if w > 0 {
      assert workers[w := to][1..] == workers[1..][w - 1 := to];
      WorkUpdate(workers[1..], w - 1, to);
    } else {
      assert workers[w := to][1..] == workers[1..];
    }
  }

  lemma StepUsesWork<T, R>(s: State<R>, e: Event, items: seq<T>, fn: (T, nat) -> R)
    requires s.next <= |items| && Step(s, e, items, fn).Some?
    ensures var t := Step(s, e, items, fn).value;
            t.next <= |items| && 2 * (|items| - t.next) + Work(t.workers) < 2 * (|items| - s.next) + Work(s.workers)
  {
    WorkUpdate(s.workers, e.w, Step(s, e, items, fn).value.workers[e.w]);
  }

  lemma {:induction false} RunUsesWork<T, R>(s: State<R>, events: seq<Event>, items: seq<T>, fn: (T, nat) -> R)
    requires s.next <= |items| && Run(s, events, items, fn).Some?
    ensures |events| <= 2 * (|items| - s.next) + Work(s.workers)
    decreases |events|
  {
    if events != [] {
      StepUsesWork(s, events[0], items, fn);
      RunUsesWork(Step(s, events[0], items, fn).value, events[1..], items, fn);
    }
  }

  lemma {:induction false} IdleWork(workers: seq<Worker>)
    requires forall w | 0 <= w < |workers| :: workers[w] == Pulling
    ensures Work(workers) == |workers|
  {
    if workers != [] { IdleWork(workers[1..]); }
  }

  /** Every schedule is finite: at most two steps per item and one per worker. */
  lemma RunsEnd<T, R>(limit: Limit, events: seq<Event>, items: seq<T>, fn: (T, nat) -> R)
    requires Run(Start(limit, |items|), events, items, fn).Some?
    ensures |events| <= 2 * |items| + WorkerCount(limit, |items|)
  {
    var s := Start<R>(limit, |items|);
    IdleWork(s.workers);
    RunUsesWork(s, events, items, fn);
  }

  /** What is stored in every reachable state: the value of each index handed out that no worker holds any more. */
  lemma StoredExactly<T, R>(limit: Limit, events: seq<Event>, items: seq<T>, fn: (T, nat) -> R, i: nat)
    requires Run(Start(limit, |items|), events, items, fn).Some? && i < |items|
    ensures var t := Run(Start(limit, |items|), events, items, fn).value;
            |t.results| == |items|
            && t.results[i] == if i < t.next && !Held(t.workers, i) then Some(fn(items[i], i)) else None
  {
    InvStart<T, R>(limit, items, fn);
    InvRun(Start(limit, |items|), events, items, fn);
    UnstoredRun(Start(limit, |items|), events, items, fn);
  }

  lemma {:induction false} RejectedStays<T, R>(s: State<R>, events: seq<Event>, items: seq<T>, fn: (T, nat) -> R, w: nat)
    requires w < |s.workers| && s.workers[w].Rejected? && Run(s, events, items, fn).Some?
    ensures var t := Run(s, events, items, fn).value; w < |t.workers| && t.workers[w] == s.workers[w]
    decreases |events|
  {
    if events != [] { RejectedStays(Step(s, events[0], items, fn).value, events[1..], items, fn, w); }
  }

  lemma {:induction false} RunSplit<T, R>(s: State<R>, a: seq<Event>, b: seq<Event>, items: seq<T>, fn: (T, nat) -> R)
    requires Run(s, a, items, fn).Some?
    ensures Run(s, a + b, items, fn) == Run(Run(s, a, items, fn).value, b, items, fn)
    decreases |a|
  {
    if a == [] {
      assert a + b == b;
    } else {
      assert (a + b)[1..] == a[1..] + b;
      RunSplit(Step(s, a[0], items, fn).value, a[1..], b, items, fn);
    }
  }

  /** A call in flight can reject at any time; its worker then stops for good, and its index is never filled. */
  lemma RejectionLeavesHole<T, R>(limit: Limit, events: seq<Event>, more: seq<Event>, items: seq<T>, fn: (T, nat) -> R, w: nat)
    requires Run(Start(limit, |items|), events, items, fn).Some?
    requires var t := Run(Start(limit, |items|), events, items, fn).value; w < |t.workers| && t.workers[w].Awaiting?
    ensures var t := Run(Start(limit, |items|), events, items, fn).value;
            var i := t.workers[w].index;
            && Step(t, Reject(w), items, fn).Some?
            && var u := Run(Start(limit, |items|), events + [Reject(w)] + more, items, fn);
               u.Some? ==>
                 i < |u.value.results| && u.value.results[i] == None
                 && w < |u.value.workers| && u.value.workers[w] == Rejected(i)
  {
    var s := Start<R>(limit, |items|);
    var t := Run(s, events, items, fn).value;
    var i := t.workers[w].index;
    InvStart<T, R>(limit, items, fn);
    InvRun(s, events, items, fn);
    var all := events + [Reject(w)] + more;
    assert all == events + ([Reject(w)] + more) && ([Reject(w)] + more)[1..] == more;
    RunSplit(s, events, [Reject(w)] + more, items, fn);
    if Run(s, all, items, fn).Some? {
      RejectedStays(Step(t, Reject(w), items, fn).value, more, items, fn, w);
      StoredExactly(limit, all, items, fn, i);
      assert WorksOn(Run(s, all, items, fn).value.workers[w], i);
    }
  }

  /** When no call rejects, the settled result at index i is fn(items[i], i), in input order. */
  lemma ResultsInOrder<T, R>(limit: Limit, events: seq<Event>, items: seq<T>, fn: (T, nat) -> R)
    requires Run(Start(limit, |items|), events, items, fn).Some?
    requires var t := Run(Start(limit, |items|), events, items, fn).value;
             forall w | 0 <= w < |t.workers| :: t.workers[w].Finished?
    ensures var t := Run(Start(limit, |items|), events, items, fn).value;
            t.next == |items| && t.results == seq(|items|, i requires 0 <= i < |items| => Some(fn(items[i], i)))
  {
    InvStart<T, R>(limit, items, fn);
    InvRun(Start(limit, |items|), events, items, fn);
    var t := Run(Start(limit, |items|), events, items, fn).value;
    assert t.workers[0].Finished?;
  }

  /** What worker `w` does next when no call rejects. */
  function Turn<R>(s: State<R>, w: nat): (e: Event)
    requires w < |s.workers|
  {
    if s.workers[w].Pulling? then Pull(w) else Resolve(w)
  }

  /** One turn of a worker: pull the next pair, or store the value that arrived. */
  method Advance<T, R>(w: nat, items: seq<T>, fn: (T, nat) -> R, next: nat, workers: array<Worker>, results: array<Option<R>>)
    returns (next': nat)
    requires w < workers.Length && (workers[w].Pulling? || workers[w].Awaiting?)
    requires Inv(State(next, workers[..], results[..]), items, fn)
    modifies workers, results
    ensures Some(State(next', workers[..], results[..]))
            == old(Step(State(next, workers[..], results[..]), Turn(State(next, workers[..], results[..]), w), items, fn))
  {
    next' := next;
    if workers[w].Pulling? {
      if next < |items| {
        workers[w] := Awaiting(next);
        next' := next + 1;
      } else {
        workers[w] := Finished;
      }
    } else {
      var i := workers[w].index;
      assert i == workers[..][w].index < |results[..]|;
      results[i] := Some(fn(items[i], i));
      workers[w] := Pulling;
    }
  }

  /** The workers still in their loop; none of them is ever `Rejected` here. */
  predicate NoneRejected(workers: seq<Worker>) {
    forall w | 0 <= w < |workers| :: !workers[w].Rejected?
  }

  /** The workers' loops, under a scheduler that picks any worker until all have finished. */
  method RunWorkers<T, R>(items: seq<T>, fn: (T, nat) -> R, workers: array<Worker>, results: array<Option<R>>)
    requires workers.Length > 0 && Inv(State(0, workers[..], results[..]), items, fn) && NoneRejected(workers[..])
    modifies workers, results
    ensures results.Length == |items|
    ensures forall i | 0 <= i < |items| :: results[i] == Some(fn(items[i], i))
  {
    var next := 0;
    while exists w :: 0 <= w < workers.Length && !workers[w].Finished?
      invariant Inv(State(next, workers[..], results[..]), items, fn) && NoneRejected(workers[..])
      decreases 2 * (|items| - next) + Work(workers[..])
    {
      var w :| 0 <= w < workers.Length && !workers[w].Finished?;
      ghost var before := State(next, workers[..], results[..]);
      assert before.workers[w] == workers[w];
      ghost var after := Step(before, Turn(before, w), items, fn).value;
      InvStep(before, Turn(before, w), items, fn);
      StepUsesWork(before, Turn(before, w), items, fn);
      next := Advance(w, items, fn, next, workers, results);
      assert after == State(next, workers[..], results[..]);
      assert NoneRejected(after.workers);
    }
    ghost var end := State(next, workers[..], results[..]);
    assert end.workers[0].Finished?;
    forall i | 0 <= i < |items| ensures results[i] == Some(fn(items[i], i)) {
      assert end.results[i] == results[i];
    }
  }

  /** The helper itself: start the workers, wait for them, hand out the results. */
  method MapWithConcurrency<T, R>(items: seq<T>, limit: Limit, fn: (T, nat) -> R) returns (out: seq<R>)
    ensures |out| == |items|
    ensures forall i | 0 <= i < |items| :: out[i] == fn(items[i], i)
  {
    if |items| == 0 { return []; }
    var results := new Option<R>[|items|](_ => None);
    var workers := new Worker[WorkerCount(limit, |items|)](_ => Pulling);
    RunWorkers(items, fn, workers, results);
    out := [];
    for i := 0 to |items|
      invariant |out| == i && forall k | 0 <= k < i :: out[k] == fn(items[k], k)
    {
      out := out + [results[i].value];
    }
  }
}
