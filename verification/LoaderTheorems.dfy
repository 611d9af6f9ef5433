/** What holds of the module manager after any sequence of definitions, load errors and errors of plugins. */
module LoaderTheorems {
  import opened LoaderState
  import opened Options
  import opened Sequences
  import opened LoaderInvariant
  import opened LoaderSteps

  // ---------------------------------------------------------------- runs

  datatype Step =
    | DefineStep(id: Id, deps: seq<Dep>, callback: Callback, errorback: bool)
    | LoadFailsStep(id: Id)
    | ResourceFailsStep(id: Id)

  ghost function Apply(s: State, step: Step): (t: State)
    requires WaitersDefined(s)
    ensures WaitersDefined(t)
  {
    match step
    case DefineStep(x, deps, callback, errorback) => Define(s, x, deps, callback, errorback)
    case LoadFailsStep(x) =>
      SameWaiters(s, LoadFails(s, x));
      LoadFails(s, x)
    case ResourceFailsStep(x) =>
      SameWaiters(s, ResourceFails(s, x));
      ResourceFails(s, x)
  }

  ghost function RunFrom(s: State, steps: seq<Step>): (t: State)
    requires WaitersDefined(s)
    ensures WaitersDefined(t)
  {
    if steps == [] then s else Apply(RunFrom(s, steps[..|steps| - 1]), steps[|steps| - 1])
  }

  ghost function Run(steps: seq<Step>): State {
    RunFrom(INITIAL, steps)
  }

  /** All ids a run mentions are below `n`; the id provider has such a bound at any time. */
  ghost predicate StepsBelow(steps: seq<Step>, n: nat) {
    forall i :: 0 <= i < |steps| ==> StepBelow(steps[i], n)
  }

  ghost predicate StepBelow(step: Step, n: nat) {
    match step
    case DefineStep(x, deps, _, _) => IdsBelow(x, deps, n)
    case LoadFailsStep(x) => x < n
    case ResourceFailsStep(_) => true
  }

  lemma {:induction false} DepsBound(deps: seq<Dep>) returns (n: nat)
    ensures IdsBelow(0, deps, n)
  {
    if deps == [] {
      n := 1;
    } else {
      n := DepsBound(deps[1..]);
      n := if deps[0].Id() < n then n else deps[0].Id() + 1;
    }
  }

  lemma {:induction false} RunBound(steps: seq<Step>) returns (n: nat)
    ensures StepsBelow(steps, n)
  {
    if steps == [] {
      n := 0;
    } else {
      n := RunBound(steps[1..]);
      var deps := if steps[0].DefineStep? then steps[0].deps else [];
      var k := DepsBound(deps);
      n := n + k + steps[0].id;
    }
  }

  lemma InitialInv(n: nat)
    ensures BetweenSteps(INITIAL, n)
  {
    forall p | |p| >= 2 ensures !WaitPath(INITIAL.inverse, p) {
      assert !Waits(INITIAL.inverse, p[0], p[0 + 1]);
    }
  }

  lemma ApplyInv(s: State, n: nat, step: Step)
    requires BetweenSteps(s, n) && WaitersDefined(s) && StepBelow(step, n)
    ensures BetweenSteps(Apply(s, step), n)
  {
    match step
    case DefineStep(x, deps, callback, errorback) => DefineInv(s, n, x, deps, callback, errorback);
    case LoadFailsStep(x) => LoadFailsInv(s, n, x);
    case ResourceFailsStep(x) => ReportInv(s, n, Error(Loading, x, Waiters(s.inverse, x)));
  }

  lemma {:induction false} RunFromInv(s: State, n: nat, steps: seq<Step>)
    requires BetweenSteps(s, n) && WaitersDefined(s) && StepsBelow(steps, n)
    ensures BetweenSteps(RunFrom(s, steps), n)
  {
    if steps != [] {
      var init := steps[..|steps| - 1];
      RunFromInv(s, n, init);
      ApplyInv(RunFrom(s, init), n, steps[|steps| - 1]);
    }
  }

  lemma RunInv(steps: seq<Step>) returns (n: nat)
    ensures StepsBelow(steps, n) && BetweenSteps(Run(steps), n)
  {
    n := RunBound(steps);
    InitialInv(n);
    RunFromInv(INITIAL, n, steps);
  }

  // ---------------------------------------------------------------- no cycle of waits

  /** The recorded waits never form a cycle, whatever cycles the dependency lists contain. */
  lemma NoCycleOfWaits(steps: seq<Step>)
    ensures Acyclic(Run(steps).inverse)
  {
    var n := RunInv(steps);
  }

  // ---------------------------------------------------------------- the counter

  /** Between steps the counter of an incomplete module is the number of its recorded waits, and is positive. */
  lemma CounterCountsWaits(steps: seq<Step>, n: nat, x: Id)
    requires StepsBelow(steps, n)
    requires x in Run(steps).modules && !Run(steps).modules[x].complete
    ensures Run(steps).modules[x].count == Occurrences(Run(steps).inverse, x, n) > 0
  {
    var s := Run(steps);
    InitialInv(n);
    RunFromInv(INITIAL, n, steps);
    assert CountOk(s, n, Idle, multiset{}, x) && FlagsOk(s, Idle, x);
  }

  // ---------------------------------------------------------------- factories

  /** A completion at position `j` of the trace is at some position of the list of completions, later than
      those of the completions before it. */
  lemma {:induction false} CompletionAt(trace: seq<Event>, j: nat) returns (b: nat)
    requires j < |trace| && trace[j].Completed?
    ensures b < |Completions(trace)| && Completions(trace)[b] == trace[j]
    ensures b == |Completions(trace[..j])|
  {
    b := |Completions(trace[..j])|;
    CompletionsAppend(trace[..j], trace[j..]);
    CompletionsAppend([trace[j]], trace[j + 1..]);
    assert trace == trace[..j] + trace[j..] && trace[j..] == [trace[j]] + trace[j + 1..];
    CompletionsOfOne([trace[j]]);
  }

  lemma {:induction false} CompletionOrder(trace: seq<Event>, i: nat, j: nat)
    requires i < j < |trace| && trace[i].Completed?
    ensures |Completions(trace[..i])| < |Completions(trace[..j])|
  {
    var b := CompletionAt(trace[..j], i);
    assert trace[..j][..i] == trace[..i];
  }

  /** No module completes twice, so no factory runs twice; and a factory is given the final exports of every
      dependency at whose position no cycle was broken. */
  lemma FactoryRunsOnceWhenReady(steps: seq<Step>, j: nat)
    requires j < |Run(steps).trace| && Run(steps).trace[j].Completed?
    ensures var trace := Run(steps).trace;
            && ArgsFinal(trace[j])
            && forall i :: 0 <= i < j && trace[i].Completed? ==> trace[i].id != trace[j].id
  {
    var s := Run(steps);
    var n := RunInv(steps);
    var b := CompletionAt(s.trace, j);
    forall i | 0 <= i < j && s.trace[i].Completed? ensures s.trace[i].id != s.trace[j].id {
      var a := CompletionAt(s.trace, i);
      CompletionOrder(s.trace, i, j);
    }
  }

  lemma {:induction false} CompletionInTrace(trace: seq<Event>, b: nat) returns (j: nat)
    requires b < |Completions(trace)|
    ensures j < |trace| && trace[j] == Completions(trace)[b]
  {
    var init := trace[..|trace| - 1];
    if b < |Completions(init)| {
      j := CompletionInTrace(init, b);
    } else {
      j := |trace| - 1;
    }
  }

  ghost predicate HasCompleted(trace: seq<Event>, x: Id) {
    exists j :: 0 <= j < |trace| && trace[j].Completed? && trace[j].id == x
  }

  /** A module has completed exactly when its dependency list is gone; otherwise it is incomplete or it has failed. */
  lemma SettledMeansCompleted(steps: seq<Step>, x: Id)
    requires x in Run(steps).modules
    ensures HasCompleted(Run(steps).trace, x) <==> Run(steps).modules[x].Settled()
    ensures Run(steps).modules[x].complete <==> Run(steps).modules[x].Settled() || Run(steps).modules[x].Failed()
  {
    var s := Run(steps);
    var n := RunInv(steps);
    var cs := Completions(s.trace);
    assert FlagsOk(s, Idle, x);
    if HasCompleted(s.trace, x) {
      var j :| 0 <= j < |s.trace| && s.trace[j].Completed? && s.trace[j].id == x;
      var b := CompletionAt(s.trace, j);
    }
    if s.modules[x].Settled() {
      var b :| 0 <= b < |cs| && cs[b].id == x;
      var j := CompletionInTrace(s.trace, b);
    }
  }

  /** Nobody waits any more for a module that has completed, even if its factory threw: those that had been waiting
      were released like after any other completion. */
  lemma SettledReleasedItsWaiters(steps: seq<Step>, x: Id, y: Id)
    requires x in Run(steps).modules && Run(steps).modules[x].Settled()
    ensures !Waits(Run(steps).inverse, y, x)
  {
    var n := RunInv(steps);
    assert FlagsOk(Run(steps), Idle, x);
  }

  // ---------------------------------------------------------------- no deadlock

  lemma PathDistinct(inverse: map<Id, seq<Id>>, p: seq<Id>)
    requires Acyclic(inverse) && WaitPath(inverse, p)
    ensures forall i, j :: 0 <= i < j < |p| ==> p[i] != p[j]
  {
    forall i, j | 0 <= i < j < |p| ensures p[i] != p[j] {
      var q := p[i..j + 1];
      forall k | 0 <= k < |q| - 1 ensures Waits(inverse, q[k], q[k + 1]) {
        assert Waits(inverse, p[i + k], p[i + k + 1]);
      }
      assert WaitPath(inverse, q);
    }
  }

  /** What an incomplete module waits for, one step along. */
  lemma NextWait(s: State, n: nat, x: Id) returns (d: Id)
    requires BetweenSteps(s, n) && x in s.modules && !s.modules[x].complete
    ensures Waits(s.inverse, x, d)
    ensures d in s.modules && s.modules[d].complete ==> s.modules[d].Failed()
  {
    assert CountOk(s, n, Idle, multiset{}, x) && FlagsOk(s, Idle, x);
    d := OccurrencesWitness(s.inverse, x, n);
    if d in s.modules {
      assert FlagsOk(s, Idle, d);
    }
  }

  /** An id whose waiters nothing inside the manager will release: not defined, or failed. */
  ghost predicate Stuck(s: State, d: Id) {
    d !in s.modules || s.modules[d].Failed()
  }

  lemma {:induction false} Chase(s: State, n: nat, p: seq<Id>) returns (d: Id)
    requires BetweenSteps(s, n) && |p| >= 1 && WaitPath(s.inverse, p)
    requires forall i :: 0 <= i < |p| ==> p[i] in s.modules && !s.modules[p[i]].complete
    ensures WaitsThrough(s.inverse, p[0], d) && Stuck(s, d)
    decreases |s.modules.Keys| - |p|
  {
    PathDistinct(s.inverse, p);
    DistinctBound(p, s.modules.Keys);
    d := NextWait(s, n, p[|p| - 1]);
    var q := p + [d];
    assert WaitPath(s.inverse, q) by {
      forall i | 0 <= i < |q| - 1 ensures Waits(s.inverse, q[i], q[i + 1]) {
        if i < |p| - 1 {
          assert Waits(s.inverse, p[i], p[i + 1]);
        }
      }
    }
    if d in s.modules && !s.modules[d].complete {
      PathDistinct(s.inverse, q);
      DistinctBound(q, s.modules.Keys);
      d := Chase(s, n, q);
    } else {
      assert Connects(q, p[0], d);
    }
  }

  /** No deadlock: an incomplete module waits, through recorded waits, for an id that is undefined or failed. */
  lemma IncompleteWaitsForStuck(steps: seq<Step>, x: Id) returns (d: Id)
    requires x in Run(steps).modules && !Run(steps).modules[x].complete
    ensures WaitsThrough(Run(steps).inverse, x, d) && x != d && Stuck(Run(steps), d)
  {
    var s := Run(steps);
    var n := RunInv(steps);
    d := Chase(s, n, [x]);
    assert FlagsOk(s, Idle, x);
  }

  lemma WaiterIsOpen(s: State, n: nat, x: Id, d: Id)
    requires BetweenSteps(s, n)
    ensures Waits(s.inverse, x, d) ==> x in s.modules && (s.modules[x].complete ==> s.modules[x].Failed())
  {
    if Waits(s.inverse, x, d) {
      assert DependsOn(s.modules, x, d);
      assert FlagsOk(s, Idle, x);
    }
  }

  lemma UndefinedWait(steps: seq<Step>, x: Id) returns (y: Id, d: Id)
    requires forall x :: x in Run(steps).modules ==> !Run(steps).modules[x].Failed()
    requires x in Run(steps).modules && !Run(steps).modules[x].complete
    ensures Waits(Run(steps).inverse, y, d) && d !in Run(steps).modules
  {
    d := IncompleteWaitsForStuck(steps, x);
    var p :| Connects(p, x, d) && WaitPath(Run(steps).inverse, p);
    y := p[|p| - 2];
    assert Waits(Run(steps).inverse, p[|p| - 2], p[|p| - 2 + 1]);
  }

  /** Without failed modules, everything defined is complete exactly when nobody waits for an undefined id. */
  lemma AllCompleteIff(steps: seq<Step>)
    requires forall x :: x in Run(steps).modules ==> !Run(steps).modules[x].Failed()
    ensures (forall x :: x in Run(steps).modules ==> Run(steps).modules[x].complete)
       <==> (forall x, d :: Waits(Run(steps).inverse, x, d) ==> d in Run(steps).modules)
  {
    var s := Run(steps);
    var n := RunInv(steps);
    forall x, d { WaiterIsOpen(s, n, x, d); }
    if x :| x in s.modules && !s.modules[x].complete {
      var y, d := UndefinedWait(steps, x);
    }
  }

  // ---------------------------------------------------------------- load errors

  /** A list that holds its starting points and the waiters of its elements holds everything that waits for them. */
  lemma {:induction false} ClosedUnderWaiters(inverse: map<Id, seq<Id>>, all: set<Id>, p: seq<Id>, i: nat)
    requires forall x, d :: d in all && Waits(inverse, x, d) ==> x in all
    requires WaitPath(inverse, p) && i < |p| && p[|p| - 1] in all
    ensures p[i] in all
    decreases |p| - i
  {
    if i < |p| - 1 {
      ClosedUnderWaiters(inverse, all, p, i + 1);
      assert Waits(inverse, p[i], p[i + 1]);
    }
  }

  /** Between two turns of the walk: `done` has been taken off the queue, and `seen` also holds the queue. */
  ghost predicate Walking(inverse: map<Id, seq<Id>>, queue: seq<Id>, seen: set<Id>, done: set<Id>, r: Id) {
    && seen == done + Elements(queue)
    && (forall i :: 0 <= i < |queue| ==> queue[i] !in done && WaitsThrough(inverse, queue[i], r))
    && (forall i, j :: 0 <= i < j < |queue| ==> queue[i] != queue[j])
    && (forall x, d :: d in done && Waits(inverse, x, d) ==> x in seen)
  }

  /** What the walk lists from there on: once each, only what waits for `r`, and with all waiters. */
  ghost predicate Walked(inverse: map<Id, seq<Id>>, queue: seq<Id>, order: seq<Id>, done: set<Id>, r: Id) {
    && (forall i :: 0 <= i < |order| ==> order[i] !in done && WaitsThrough(inverse, order[i], r))
    && (forall i, j :: 0 <= i < j < |order| ==> order[i] != order[j])
    && (forall x, d :: d in done + Elements(order) && Waits(inverse, x, d) ==> x in done + Elements(order))
    && Elements(queue) <= Elements(order)
  }

  lemma {:induction false} WalkExact(inverse: map<Id, seq<Id>>, queue: seq<Id>, seen: set<Id>, done: set<Id>, r: Id)
    requires Walking(inverse, queue, seen, done, r)
    ensures Walked(inverse, queue, Walk(inverse, queue, seen), done, r)
    decreases |AllWaiters(inverse) - seen|, |queue|
  {
    if queue != [] {
      var d := queue[0];
      var added := Unseen(Waiters(inverse, d), seen);
      var seen' := seen + Elements(added);
      WalkProgress(inverse, d, seen);
      WalkTake(inverse, queue, seen, done, r);
      WalkExact(inverse, queue[1..] + added, seen', done + {d}, r);
      WalkPut(inverse, queue, Walk(inverse, queue[1..] + added, seen'), added, done, r);
    }
  }

  /** A queue without repetition stays so when its first element goes and new ones come. */
  lemma QueueDistinct(queue: seq<Id>, added: seq<Id>)
    requires queue != [] && (forall i, j :: 0 <= i < j < |queue| ==> queue[i] != queue[j])
    requires forall i, j :: 0 <= i < j < |added| ==> added[i] != added[j]
    requires forall x :: x in added ==> x !in queue
    ensures var rest := queue[1..] + added; forall i, j :: 0 <= i < j < |rest| ==> rest[i] != rest[j]
  {
    var rest, n := queue[1..] + added, |queue| - 1;
    forall i, j | 0 <= i < j < |rest| ensures rest[i] != rest[j] {
      if j < n {
        assert rest[i] == queue[i + 1] && rest[j] == queue[j + 1];
      } else if i < n {
        assert rest[i] == queue[i + 1] && rest[j] == added[j - n] && added[j - n] in added;
      } else {
        assert rest[i] == added[i - n] && rest[j] == added[j - n];
      }
    }
  }

  /** Taking the first id off the queue. */
  lemma WalkTake(inverse: map<Id, seq<Id>>, queue: seq<Id>, seen: set<Id>, done: set<Id>, r: Id)
    requires queue != [] && Walking(inverse, queue, seen, done, r)
    ensures var added := Unseen(Waiters(inverse, queue[0]), seen);
            Walking(inverse, queue[1..] + added, seen + Elements(added), done + {queue[0]}, r)
  {
    var d := queue[0];
    var added := Unseen(Waiters(inverse, d), seen);
    var queue' := queue[1..] + added;
    assert d in Elements(queue);
    forall i | 0 <= i < |queue'| ensures queue'[i] !in done + {d} && WaitsThrough(inverse, queue'[i], r) {
      if i < |queue| - 1 {
        assert queue'[i] == queue[i + 1];
      } else {
        assert queue'[i] == added[i - (|queue| - 1)] && queue'[i] in added && Waits(inverse, queue'[i], d);
        ExtendWait(inverse, queue'[i], d, r);
      }
    }
    assert forall x :: x in queue ==> x in Elements(queue);
    QueueDistinct(queue, added);
    assert queue == [d] + queue[1..];
    forall x ensures x in Elements(queue) <==> x == d || x in queue[1..] {}
    forall x ensures x in Elements(queue') <==> x in queue[1..] || x in added {}
  }

  /** What the rest of the walk lists, with the id just taken in front. */
  lemma WalkPut(inverse: map<Id, seq<Id>>, queue: seq<Id>, rest: seq<Id>, added: seq<Id>, done: set<Id>, r: Id)
    requires queue != [] && queue[0] !in done && WaitsThrough(inverse, queue[0], r)
    requires Walked(inverse, queue[1..] + added, rest, done + {queue[0]}, r)
    ensures Walked(inverse, queue, [queue[0]] + rest, done, r)
  {
    var order := [queue[0]] + rest;
    forall x ensures x in Elements(order) <==> x == queue[0] || x in Elements(rest) {}
    assert done + Elements(order) == done + {queue[0]} + Elements(rest);
    forall i, j | 0 <= i < j < |order| ensures order[i] != order[j] {
      assert order[j] == rest[j - 1];
    }
    assert queue == [queue[0]] + queue[1..];
    forall x | x in Elements(queue) ensures x in Elements(order) {
      assert x == queue[0] || x in Elements(queue[1..] + added);
    }
  }

  lemma ExtendWait(inverse: map<Id, seq<Id>>, x: Id, d: Id, r: Id)
    requires Waits(inverse, x, d) && WaitsThrough(inverse, d, r)
    ensures WaitsThrough(inverse, x, r)
  {
    var p :| Connects(p, d, r) && WaitPath(inverse, p);
    var q := [x] + p;
    assert Connects(q, x, r);
    forall i | 0 <= i < |q| - 1 ensures Waits(inverse, q[i], q[i + 1]) {
      if i > 0 {
        assert q[i] == p[i - 1] && q[i + 1] == p[i];
      }
    }
    assert WaitPath(inverse, q);
  }

  /** The breadth-first walk from `r` lists, once each, exactly the ids that wait through recorded waits for `r`. */
  lemma WalkFindsWaiters(inverse: map<Id, seq<Id>>, r: Id)
    ensures var order := Walk(inverse, [r], {r});
            && (forall x :: x in order <==> WaitsThrough(inverse, x, r))
            && (forall i, j :: 0 <= i < j < |order| ==> order[i] != order[j])
  {
    var order := Walk(inverse, [r], {r});
    assert Connects([r], r, r) && WaitPath(inverse, [r]);
    WalkExact(inverse, [r], {r}, {}, r);
    assert r in Elements([r]);
    forall x | WaitsThrough(inverse, x, r) ensures x in order {
      var p :| Connects(p, x, r) && WaitPath(inverse, p);
      ClosedUnderWaiters(inverse, {} + Elements(order), p, 0);
    }
  }

  /** The calls of local error handlers for the modules of `ids`. */
  function Notices(modules: map<Id, Mod>, ids: seq<Id>, error: Error): seq<Event> {
    if ids == [] then []
    else (if ids[0] in modules && modules[ids[0]].errorback then [Errorback(ids[0], error)] else [])
         + Notices(modules, ids[1..], error)
  }

  lemma {:induction false} DeliverNotices(s: State, ids: seq<Id>, error: Error)
    ensures Deliver(s, ids, error).trace == s.trace + Notices(s.modules, ids, error)
    decreases |ids|
  {
    if ids != [] {
      var s1 := if ids[0] in s.modules then DependencyError(s, ids[0], error) else s;
      DeliverNotices(s1, ids[1..], error);
      SameErrorbacks(s.modules, s1.modules, ids[1..], error);
      NoticesHead(s, ids, error);
    }
  }

  lemma NoticesHead(s: State, ids: seq<Id>, error: Error)
    requires ids != []
    ensures var s1 := if ids[0] in s.modules then DependencyError(s, ids[0], error) else s;
            s1.trace + Notices(s.modules, ids[1..], error) == s.trace + Notices(s.modules, ids, error)
  {
    var head := if ids[0] in s.modules && s.modules[ids[0]].errorback then [Errorback(ids[0], error)] else [];
    var s1 := if ids[0] in s.modules then DependencyError(s, ids[0], error) else s;
    assert s1.trace == s.trace + head;
    ConcatAssociates(s.trace, head, Notices(s.modules, ids[1..], error));
  }

  lemma ConcatAssociates<T>(a: seq<T>, b: seq<T>, c: seq<T>)
    ensures a + b + c == a + (b + c)
  {
  }

  lemma {:induction false} SameErrorbacks(a: map<Id, Mod>, b: map<Id, Mod>, ids: seq<Id>, error: Error)
    requires a.Keys == b.Keys && forall x :: x in a ==> a[x].errorback == b[x].errorback
    ensures Notices(a, ids, error) == Notices(b, ids, error)
  {
    if ids != [] {
      SameErrorbacks(a, b, ids[1..], error);
    }
  }

  lemma {:induction false} NoticesEmpty(s: State, ids: seq<Id>, error: Error)
    ensures Notices(s.modules, ids, error) == [] <==> !SomeoneNotified(s, ids)
  {
    if ids != [] {
      NoticesEmpty(s, ids[1..], error);
      if SomeoneNotified(s, ids) {
        var i :| 0 <= i < |ids| && ids[i] in s.modules && s.modules[ids[i]].errorback;
        assert i > 0 ==> ids[1..][i - 1] == ids[i];
      }
    }
  }

  /** The ids hit by the failure of `x`, in the order of the walk. */
  ghost function Hit(s: State, x: Id): seq<Id> {
    Walk(s.inverse, [x], {x})
  }

  /** When the load of `x` fails, `x` and the modules that wait through recorded waits for it become complete
      with that error, in any reachable state; no other module and no wait changes.  Each module hit that has a
      local handler has it called once; the global handler is called exactly when there is none. */
  lemma LoadFailureIsExact(steps: seq<Step>, x: Id)
    ensures var s := Run(steps);
            var t := LoadFails(s, x);
            var error := Error(Loading, x, Waiters(s.inverse, x));
            var notices := Notices(WithPlaceholder(s, x).modules, Hit(s, x), error);
            && t.modules.Keys == s.modules.Keys + {x}
            && t.inverse == s.inverse && t.known == s.known && t.pluginQueue == s.pluginQueue
            && (forall y :: y in t.modules ==>
                  var before := WithPlaceholder(s, x).modules[y];
                  t.modules[y] == if WaitsThrough(s.inverse, y, x)
                                  then before.(complete := true, error := Some(error)) else before)
            && (forall y :: y in Hit(s, x) <==> WaitsThrough(s.inverse, y, x))
            && (forall i, j :: 0 <= i < j < |Hit(s, x)| ==> Hit(s, x)[i] != Hit(s, x)[j])
            && t.trace == s.trace + (if notices == [] then [GlobalError(error)] else notices)
  {
    var s := Run(steps);
    var error := Error(Loading, x, Waiters(s.inverse, x));
    var s1 := WithPlaceholder(s, x);
    WalkFindsWaiters(s.inverse, x);
    DeliverEffect(s1, Hit(s, x), error);
    DeliverNotices(s1, Hit(s, x), error);
    NoticesEmpty(s1, Hit(s, x), error);
  }

  /** What waits through recorded waits is an open module, and what it waits for has not completed. */
  lemma HitIsOpen(steps: seq<Step>, x: Id, y: Id)
    requires WaitsThrough(Run(steps).inverse, y, x) && y != x
    ensures y in Run(steps).modules && !Run(steps).modules[y].Settled()
    ensures !(x in Run(steps).modules && Run(steps).modules[x].Settled())
  {
    var s := Run(steps);
    var n := RunInv(steps);
    var p :| Connects(p, y, x) && WaitPath(s.inverse, p);
    assert Waits(s.inverse, p[0], p[0 + 1]) && DependsOn(s.modules, y, p[1]);
    assert Waits(s.inverse, p[|p| - 2], p[|p| - 2 + 1]);
    if x in s.modules {
      assert FlagsOk(s, Idle, x);
    }
  }

  /** What has failed after a load error has not completed. */
  lemma FailedNeverRan(steps: seq<Step>, x: Id, y: Id)
    requires y in LoadFails(Run(steps), x).modules && LoadFails(Run(steps), x).modules[y].Failed()
    ensures !HasCompleted(LoadFails(Run(steps), x).trace, y)
  {
    RunFromStep(INITIAL, steps, LoadFailsStep(x));
    SettledMeansCompleted(steps + [LoadFailsStep(x)], y);
  }

  /** None of the modules hit other than `x` has completed, nor has `x` unless it had completed before, and then
      nothing waits for it. */
  lemma HitModulesNeverRan(steps: seq<Step>, x: Id, y: Id)
    requires WaitsThrough(Run(steps).inverse, y, x)
    ensures y != x || x !in Run(steps).modules || !Run(steps).modules[x].Settled() ==>
              var t := LoadFails(Run(steps), x);
              y in t.modules && t.modules[y].Failed() && !HasCompleted(t.trace, y)
    ensures y != x ==> !(x in Run(steps).modules && Run(steps).modules[x].Settled())
  {
    if y != x {
      HitIsOpen(steps, x, y);
    }
    if y != x || x !in Run(steps).modules || !Run(steps).modules[x].Settled() {
      LoadFailureIsExact(steps, x);
      assert y in LoadFails(Run(steps), x).modules;
      FailedNeverRan(steps, x, y);
    }
  }

  // ---------------------------------------------------------------- failed modules stay failed

  /** Modules that are complete in `s` keep their list, flag and error. */
  ghost predicate CompleteKept(s: State, t: State) {
    forall y :: y in s.modules && s.modules[y].complete ==>
      && y in t.modules && t.modules[y].complete
      && t.modules[y].deps == s.modules[y].deps && t.modules[y].error == s.modules[y].error
  }

  lemma {:induction false} OnModuleCompleteKeeps(s: State, x: Id)
    requires x in s.modules && WaitersDefined(s)
    ensures CompleteKept(s, OnModuleComplete(s, x))
    decreases |Incomplete(s)|, 0
  {
    if !s.modules[x].complete {
      SettleReady(s, x);
      ReleaseKeeps(Settle(s, x), Waiters(s.inverse, x));
      FlushPluginCore(Release(Settle(s, x), Waiters(s.inverse, x)), x);
    }
  }

  lemma {:induction false} ReleaseKeeps(s: State, ws: seq<Id>)
    requires WaitersDefined(s) && forall x :: x in ws ==> x in s.modules
    ensures CompleteKept(s, Release(s, ws))
    decreases |Incomplete(s)|, 1, |ws|
  {
    if ws != [] {
      DecrementReady(s, ws[0]);
      var s1 := Decrement(s, ws[0]);
      if s1.modules[ws[0]].count == 0 {
        OnModuleCompleteKeeps(s1, ws[0]);
      }
      var s2 := if s1.modules[ws[0]].count == 0 then OnModuleComplete(s1, ws[0]) else s1;
      CardinalityMonotone(Incomplete(s2), Incomplete(s));
      ReleaseKeeps(s2, ws[1..]);
    }
  }

  lemma ExamineKeeps(s: State, x: Id, i: nat)
    requires x in s.modules && s.modules[x].deps.Some? && i < |s.modules[x].deps.value| && !s.modules[x].complete
    ensures CompleteKept(s, Examine(s, x, i))
    ensures x in Examine(s, x, i).modules && !Examine(s, x, i).modules[x].complete
  {
    var dep := s.modules[x].deps.value[i];
    if dep.Ordinary() {
      RequestDepFrame(AddWaiter(s, dep.Id(), x), dep);
    }
  }

  lemma {:induction false} ResolveKeeps(s: State, x: Id, i: nat)
    requires x in s.modules && s.modules[x].deps.Some? && i <= |s.modules[x].deps.value| && WaitersDefined(s)
    requires !s.modules[x].complete
    ensures CompleteKept(s, Resolve(s, x, i))
    decreases |s.modules[x].deps.value| - i
  {
    var deps := s.modules[x].deps.value;
    if i == |deps| {
      OnModuleCompleteKeeps(s, x);
    } else if !FailedDep(s, deps[i]) {
      ExamineFrame(s, x, i);
      ExamineKeeps(s, x, i);
      ResolveKeeps(Examine(s, x, i), x, i + 1);
    }
  }

  lemma DefineKeeps(s: State, x: Id, deps: seq<Dep>, callback: Callback, errorback: bool)
    requires WaitersDefined(s)
    ensures CompleteKept(s, Define(s, x, deps, callback, errorback))
  {
    if x !in s.modules {
      var s1 := WithRecord(s, x, deps, callback, errorback);
      SameWaiters(s, s1);
      ResolveKeeps(s1, x, 0);
    }
  }

  lemma LoadFailsKeeps(s: State, y: Id, x: Id)
    requires x in s.modules && s.modules[x].Failed() && s.modules[x].complete
    ensures var t := LoadFails(s, y); x in t.modules && t.modules[x].Failed() && t.modules[x].complete
  {
    DeliverEffect(WithPlaceholder(s, y), Hit(s, y), Error(Loading, y, Waiters(s.inverse, y)));
  }

  lemma FailedKept(s: State, step: Step, x: Id)
    requires WaitersDefined(s) && x in s.modules && s.modules[x].Failed() && s.modules[x].complete
    ensures x in Apply(s, step).modules && Apply(s, step).modules[x].Failed() && Apply(s, step).modules[x].complete
  {
    match step
    case DefineStep(y, deps, callback, errorback) => DefineKeeps(s, y, deps, callback, errorback);
    case LoadFailsStep(y) => LoadFailsKeeps(s, y, x);
    case ResourceFailsStep(_) =>
  }

  lemma RunFromStep(s: State, steps: seq<Step>, step: Step)
    requires WaitersDefined(s)
    ensures RunFrom(s, steps + [step]) == Apply(RunFrom(s, steps), step)
  {
    assert (steps + [step])[..|steps|] == steps;
  }

  lemma {:induction false} RunFromSplit(s: State, steps: seq<Step>, more: seq<Step>)
    requires WaitersDefined(s)
    ensures RunFrom(s, steps + more) == RunFrom(RunFrom(s, steps), more)
  {
    if more == [] {
      assert steps + more == steps;
    } else {
      var init, last := more[..|more| - 1], more[|more| - 1];
      assert more == init + [last] && steps + more == steps + init + [last];
      RunFromSplit(s, steps, init);
      RunFromStep(s, steps + init, last);
      RunFromStep(RunFrom(s, steps), init, last);
    }
  }

  lemma {:induction false} FailedKeptByRun(s: State, steps: seq<Step>, x: Id)
    requires WaitersDefined(s) && x in s.modules && s.modules[x].Failed() && s.modules[x].complete
    ensures var t := RunFrom(s, steps); x in t.modules && t.modules[x].Failed() && t.modules[x].complete
  {
    if steps != [] {
      FailedKeptByRun(s, steps[..|steps| - 1], x);
      FailedKept(RunFrom(s, steps[..|steps| - 1]), steps[|steps| - 1], x);
    }
  }

  /** A failed module never completes: whatever happens later, its factory has not run and does not run. */
  lemma FailedForever(steps: seq<Step>, more: seq<Step>, x: Id)
    requires x in Run(steps).modules && Run(steps).modules[x].Failed()
    ensures x in Run(steps + more).modules && Run(steps + more).modules[x].Failed()
    ensures !HasCompleted(Run(steps + more).trace, x)
  {
    SettledMeansCompleted(steps, x);
    RunFromSplit(INITIAL, steps, more);
    FailedKeptByRun(Run(steps), more, x);
    SettledMeansCompleted(steps + more, x);
  }

  // ---------------------------------------------------------------- waits for undefined ids

  /** Waits for ids that are still not defined are not lost. */
  ghost predicate UndefinedWaitsKept(s: State, t: State) {
    forall y, d :: Waits(s.inverse, y, d) && d !in t.modules ==> Waits(t.inverse, y, d)
  }

  lemma {:induction false} OnModuleCompleteKeepsWaits(s: State, x: Id)
    requires x in s.modules && WaitersDefined(s)
    ensures UndefinedWaitsKept(s, OnModuleComplete(s, x))
    decreases |Incomplete(s)|, 0
  {
    if !s.modules[x].complete {
      SettleReady(s, x);
      ReleaseKeepsWaits(Settle(s, x), Waiters(s.inverse, x));
      FlushPluginCore(Release(Settle(s, x), Waiters(s.inverse, x)), x);
    }
  }

  lemma {:induction false} ReleaseKeepsWaits(s: State, ws: seq<Id>)
    requires WaitersDefined(s) && forall x :: x in ws ==> x in s.modules
    ensures UndefinedWaitsKept(s, Release(s, ws))
    decreases |Incomplete(s)|, 1, |ws|
  {
    if ws != [] {
      DecrementReady(s, ws[0]);
      var s1 := Decrement(s, ws[0]);
      if s1.modules[ws[0]].count == 0 {
        OnModuleCompleteKeepsWaits(s1, ws[0]);
      }
      var s2 := if s1.modules[ws[0]].count == 0 then OnModuleComplete(s1, ws[0]) else s1;
      CardinalityMonotone(Incomplete(s2), Incomplete(s));
      ReleaseKeepsWaits(s2, ws[1..]);
    }
  }

  /** No cycle is broken at a dependency that is not defined: no dependency path leads on from it. */
  lemma ExamineUndefined(s: State, x: Id, i: nat)
    requires x in s.modules && s.modules[x].deps.Some? && i < |s.modules[x].deps.value|
    requires s.modules[x].deps.value[i].Ordinary() && s.modules[x].deps.value[i].Id() !in s.modules
    ensures Waits(Examine(s, x, i).inverse, x, s.modules[x].deps.value[i].Id())
  {
    var dep := s.modules[x].deps.value[i];
    NoPath(s.modules, {dep.Id()}, dep.Id(), x);
    var t := AddWaiter(s, dep.Id(), x);
    RequestDepFrame(t, dep);
    assert Waiters(t.inverse, dep.Id())[|Waiters(s.inverse, dep.Id())|] == x;
  }

  lemma ExamineKeepsWaits(s: State, x: Id, i: nat)
    requires x in s.modules && s.modules[x].deps.Some? && i < |s.modules[x].deps.value|
    ensures forall y, d :: Waits(s.inverse, y, d) ==> Waits(Examine(s, x, i).inverse, y, d)
  {
    var dep := s.modules[x].deps.value[i];
    if dep.Ordinary() {
      RequestDepFrame(AddWaiter(s, dep.Id(), x), dep);
    }
  }

  lemma {:induction false} ResolveKeepsWaits(s: State, x: Id, i: nat)
    requires x in s.modules && s.modules[x].deps.Some? && i <= |s.modules[x].deps.value| && WaitersDefined(s)
    ensures UndefinedWaitsKept(s, Resolve(s, x, i))
    decreases |s.modules[x].deps.value| - i
  {
    var deps := s.modules[x].deps.value;
    if i == |deps| {
      OnModuleCompleteKeepsWaits(s, x);
    } else if !FailedDep(s, deps[i]) {
      ExamineFrame(s, x, i);
      ExamineKeepsWaits(s, x, i);
      ResolveKeepsWaits(Examine(s, x, i), x, i + 1);
    }
  }

  lemma ApplyKeepsWaits(s: State, step: Step)
    requires WaitersDefined(s)
    ensures UndefinedWaitsKept(s, Apply(s, step))
    ensures Apply(s, step).modules.Keys == s.modules.Keys + if step.ResourceFailsStep? then {} else {step.id}
  {
    match step
    case DefineStep(x, deps, callback, errorback) =>
      if x !in s.modules {
        var s1 := WithRecord(s, x, deps, callback, errorback);
        SameWaiters(s, s1);
        ResolveKeepsWaits(s1, x, 0);
      }
    case _ =>
  }

  lemma {:induction false} RunKeepsWaits(s: State, more: seq<Step>, d: Id)
    requires WaitersDefined(s) && d !in s.modules
    requires forall i :: 0 <= i < |more| ==> more[i].ResourceFailsStep? || more[i].id != d
    ensures d !in RunFrom(s, more).modules
    ensures forall x :: Waits(s.inverse, x, d) ==> Waits(RunFrom(s, more).inverse, x, d)
  {
    if more != [] {
      RunKeepsWaits(s, more[..|more| - 1], d);
      ApplyKeepsWaits(RunFrom(s, more[..|more| - 1]), more[|more| - 1]);
    }
  }

  /** Who waits for a resource goes on waiting until it is defined or its load fails, whatever else happens and
      whatever errors its plugin reports: it neither completes nor, for that reason, fails. */
  lemma WaitersOfResourceStay(steps: seq<Step>, more: seq<Step>, x: Id, d: Id)
    requires Waits(Run(steps).inverse, x, d) && d !in Run(steps).modules
    requires forall i :: 0 <= i < |more| ==> more[i].ResourceFailsStep? || more[i].id != d
    ensures var t := Run(steps + more);
            && Waits(t.inverse, x, d) && d !in t.modules && !HasCompleted(t.trace, x)
            && x in t.modules && (t.modules[x].complete ==> t.modules[x].Failed())
  {
    RunFromSplit(INITIAL, steps, more);
    RunKeepsWaits(Run(steps), more, d);
    var n := RunInv(steps + more);
    WaiterIsOpen(Run(steps + more), n, x, d);
    SettledMeansCompleted(steps + more, x);
  }
}
