/** The invariant of the module manager, kept by every operation and by every intermediate state of the
    recursion in `_onModuleComplete`. */
module LoaderInvariant {
  import opened LoaderState
  import opened Sequences

  // ---------------------------------------------------------------- counting waits

  /** How often `x` occurs in the lists of waiters of the ids below `n`. */
  ghost function Occurrences(inverse: map<Id, seq<Id>>, x: Id, n: nat): nat {
    if n == 0 then 0 else Occurrences(inverse, x, n - 1) + multiset(Waiters(inverse, n - 1))[x]
  }

  lemma {:induction false} OccurrencesAdd(inverse: map<Id, seq<Id>>, d: Id, w: Id, x: Id, n: nat)
    ensures Occurrences(inverse[d := Waiters(inverse, d) + [w]], x, n)
         == Occurrences(inverse, x, n) + if d < n && x == w then 1 else 0
  {
    if n != 0 {
      OccurrencesAdd(inverse, d, w, x, n - 1);
    }
  }

  lemma {:induction false} OccurrencesRemove(inverse: map<Id, seq<Id>>, d: Id, x: Id, n: nat)
    ensures Occurrences(inverse, x, n)
         == Occurrences(inverse - {d}, x, n) + if d < n then multiset(Waiters(inverse, d))[x] else 0
  {
    if n != 0 {
      OccurrencesRemove(inverse, d, x, n - 1);
    }
  }

  lemma {:induction false} OccurrencesPositive(inverse: map<Id, seq<Id>>, d: Id, x: Id, n: nat)
    requires Waits(inverse, x, d) && d < n
    ensures Occurrences(inverse, x, n) > 0
  {
    if d < n - 1 {
      OccurrencesPositive(inverse, d, x, n - 1);
    }
  }

  lemma {:induction false} OccurrencesWitness(inverse: map<Id, seq<Id>>, x: Id, n: nat) returns (d: Id)
    requires Occurrences(inverse, x, n) > 0
    ensures d < n && Waits(inverse, x, d)
  {
    if multiset(Waiters(inverse, n - 1))[x] > 0 {
      d := n - 1;
    } else {
      d := OccurrencesWitness(inverse, x, n - 1);
    }
  }

  lemma {:induction false} OccurrencesZero(inverse: map<Id, seq<Id>>, x: Id, n: nat)
    requires forall d :: !Waits(inverse, x, d)
    ensures Occurrences(inverse, x, n) == 0
  {
    if Occurrences(inverse, x, n) > 0 {
      var d := OccurrencesWitness(inverse, x, n);
      assert false;
    }
  }

  lemma {:induction false} OccurrencesBound(inverse: map<Id, seq<Id>>, x: Id, n: nat, m: nat)
    requires n <= m && forall d :: d in inverse ==> d < n
    ensures Occurrences(inverse, x, n) == Occurrences(inverse, x, m)
  {
    if n < m {
      OccurrencesBound(inverse, x, n, m - 1);
    }
  }

  // ---------------------------------------------------------------- acyclicity

  /** On a path that ends in `x`, the part before the first visit of `x` does not use an edge out of `x`. */
  lemma PrefixAvoidsNewEdge(inverse: map<Id, seq<Id>>, d: Id, x: Id, q: seq<Id>)
    requires Connects(q, d, x) && WaitPath(inverse[d := Waiters(inverse, d) + [x]], q)
    ensures WaitsThrough(inverse, d, x)
  {
    if k :| 0 <= k < |q| - 1 && q[k] == x {
      PrefixAvoidsNewEdge(inverse, d, x, q[..k + 1]);
    } else {
      forall i | 0 <= i < |q| - 1 ensures Waits(inverse, q[i], q[i + 1]) {
        assert q[i] != x;
        assert Waits(inverse[d := Waiters(inverse, d) + [x]], q[i], q[i + 1]);
      }
      assert WaitPath(inverse, q);
    }
  }

  /** A closed path can be entered at any of its edges. */
  lemma Rotate(inverse: map<Id, seq<Id>>, p: seq<Id>, i: nat)
    requires WaitPath(inverse, p) && i < |p| - 1 && p[0] == p[|p| - 1]
    ensures var q := p[i + 1..] + p[1..i + 1]; Connects(q, p[i + 1], p[i]) && WaitPath(inverse, q)
  {
    var q := p[i + 1..] + p[1..i + 1];
    forall j | 0 <= j < |q| - 1 ensures Waits(inverse, q[j], q[j + 1]) {
      var a := if i + 1 + j < |p| - 1 then i + 1 + j else i + 1 + j - (|p| - 1);
      assert q[j] == p[a] && q[j + 1] == p[a + 1];
    }
  }

  lemma AcyclicAdd(inverse: map<Id, seq<Id>>, d: Id, x: Id)
    requires Acyclic(inverse) && !WaitsThrough(inverse, d, x)
    ensures Acyclic(inverse[d := Waiters(inverse, d) + [x]])
  {
    var more := inverse[d := Waiters(inverse, d) + [x]];
    forall p | |p| >= 2 && WaitPath(more, p) ensures p[0] != p[|p| - 1] {
      if p[0] == p[|p| - 1] {
        if i :| 0 <= i < |p| - 1 && p[i] == x && p[i + 1] == d {
          Rotate(more, p, i);
          PrefixAvoidsNewEdge(inverse, d, x, p[i + 1..] + p[1..i + 1]);
        } else {
          OldPath(inverse, d, x, p);
        }
      }
    }
  }

  /** A path that does not use the new wait was there before. */
  lemma OldPath(inverse: map<Id, seq<Id>>, d: Id, x: Id, p: seq<Id>)
    requires WaitPath(inverse[d := Waiters(inverse, d) + [x]], p)
    requires forall i :: 0 <= i < |p| - 1 ==> p[i] != x || p[i + 1] != d
    ensures WaitPath(inverse, p)
  {
    forall i | 0 <= i < |p| - 1 ensures Waits(inverse, p[i], p[i + 1]) {
      assert Waits(inverse[d := Waiters(inverse, d) + [x]], p[i], p[i + 1]);
    }
  }

  // ---------------------------------------------------------------- the invariant

  /** The module that `_resolve` is working on and the first position it has not examined. */
  datatype Cursor = Idle | At(id: Id, pos: nat)

  ghost predicate Bounded(s: State, n: nat) {
    (forall x :: x in s.modules ==> x < n) && forall d :: d in s.inverse ==> d < n
  }

  ghost predicate SettledIn(s: State, d: Id) {
    d in s.modules && s.modules[d].Settled()
  }

  ghost function Examined(m: Mod, x: Id, c: Cursor): nat
    requires m.deps.Some?
  {
    if c.At? && c.id == x && c.pos <= |m.deps.value| then c.pos else |m.deps.value|
  }

  /** The counter of `x` against its recorded waits, the pending decrements and the unexamined positions. */
  ghost predicate CountOk(s: State, n: nat, c: Cursor, pending: multiset<Id>, x: Id)
    requires x in s.modules
  {
    var m := s.modules[x];
    var owed := Occurrences(s.inverse, x, n) + pending[x];
    if m.Settled() then m.count == 0 && owed == 0
    else if m.Failed() then m.count >= owed
    else m.count == owed + |m.deps.value| - Examined(m, x, c)
  }

  ghost predicate FlagsOk(s: State, c: Cursor, x: Id)
    requires x in s.modules
  {
    var m := s.modules[x];
    && (m.complete <==> m.Settled() || m.error.Some?)
    && (m.Settled() ==> x !in s.inverse)
    && (!m.complete && m.count <= 0 ==> c.At? && c.id == x)
  }

  /** Examined ordinary positions are settled, waited for, or cycle-broken. */
  ghost predicate PositionsOk(s: State, c: Cursor, x: Id)
    requires x in s.modules
  {
    var m := s.modules[x];
    m.deps.Some? && m.error.None? ==>
      forall k :: 0 <= k < Examined(m, x, c) && m.deps.value[k].Ordinary() && k !in m.broken ==>
        SettledIn(s, m.deps.value[k].Id()) || Waits(s.inverse, x, m.deps.value[k].Id())
  }

  ghost predicate ModulesOk(s: State, n: nat, c: Cursor, pending: multiset<Id>) {
    forall x :: x in s.modules ==> CountOk(s, n, c, pending, x) && FlagsOk(s, c, x) && PositionsOk(s, c, x)
  }

  /** Recorded waits follow present dependency lists. */
  ghost predicate EdgesOk(s: State) {
    forall x, d :: Waits(s.inverse, x, d) ==> DependsOn(s.modules, x, d)
  }

  function Completions(trace: seq<Event>): seq<Event> {
    if trace == [] then []
    else Completions(trace[..|trace| - 1])
         + if trace[|trace| - 1].Completed? then [trace[|trace| - 1]] else []
  }

  lemma {:induction false} CompletionsAppend(a: seq<Event>, b: seq<Event>)
    ensures Completions(a + b) == Completions(a) + Completions(b)
  {
    if b == [] {
      assert a + b == a;
    } else {
      CompletionsAppend(a, b[..|b| - 1]);
      assert (a + b)[..|a + b| - 1] == a + b[..|b| - 1];
    }
  }

  lemma {:induction false} CompletionsOnly(trace: seq<Event>, i: nat)
    requires i < |Completions(trace)|
    ensures Completions(trace)[i].Completed?
  {
    var init := trace[..|trace| - 1];
    if i < |Completions(init)| {
      CompletionsOnly(init, i);
    }
  }

  /** Every ordinary dependency that was not cycle-broken was handed over with final exports. */
  ghost predicate ArgsFinal(e: Event)
    requires e.Completed?
  {
    && |e.args| == |e.deps|
    && forall k :: 0 <= k < |e.deps| && e.deps[k].Ordinary() && k !in e.broken ==>
         e.args[k] == ExportsOf(e.deps[k].Id(), true)
  }

  /** Completions happen once per module, for exactly the settled modules, with final arguments. */
  ghost predicate CompletionsOk(modules: map<Id, Mod>, cs: seq<Event>) {
    && (forall i :: 0 <= i < |cs| ==>
          cs[i].Completed? && ArgsFinal(cs[i]) && cs[i].id in modules && modules[cs[i].id].Settled())
    && (forall i, j :: 0 <= i < j < |cs| ==> cs[i].id != cs[j].id)
    && (forall x :: x in modules && modules[x].Settled() ==> exists i :: 0 <= i < |cs| && cs[i].id == x)
  }

  ghost predicate Inv(s: State, n: nat, c: Cursor, pending: multiset<Id>) {
    && Bounded(s, n)
    && ModulesOk(s, n, c, pending)
    && EdgesOk(s)
    && Acyclic(s.inverse)
    && CompletionsOk(s.modules, Completions(s.trace))
  }

  /** Which waits are legitimate depends on the dependency lists only. */
  lemma EdgesFrame(s: State, t: State)
    requires EdgesOk(s) && t.inverse == s.inverse
    requires forall x :: x in s.modules ==> x in t.modules && t.modules[x].deps == s.modules[x].deps
    ensures EdgesOk(t)
  {
    forall y, d | Waits(t.inverse, y, d) ensures DependsOn(t.modules, y, d) {
      assert Waits(s.inverse, y, d);
      assert DependsOn(s.modules, y, d);
    }
  }

  /** Requests change neither the modules, nor the waits, nor the completions. */
  lemma SameCore(s: State, t: State, n: nat, c: Cursor, pending: multiset<Id>)
    requires Inv(s, n, c, pending)
    requires t.modules == s.modules && t.inverse == s.inverse && Completions(t.trace) == Completions(s.trace)
    ensures Inv(t, n, c, pending)
  {
    forall x | x in t.modules ensures CountOk(t, n, c, pending, x) && FlagsOk(t, c, x) && PositionsOk(t, c, x) {
      SameModule(s, t, n, c, pending, x);
    }
    EdgesFrame(s, t);
  }

  lemma SameModule(s: State, t: State, n: nat, c: Cursor, pending: multiset<Id>, x: Id)
    requires t.modules == s.modules && t.inverse == s.inverse && x in s.modules
    requires CountOk(s, n, c, pending, x) && FlagsOk(s, c, x) && PositionsOk(s, c, x)
    ensures CountOk(t, n, c, pending, x) && FlagsOk(t, c, x) && PositionsOk(t, c, x)
  {
    assert forall d :: SettledIn(t, d) == SettledIn(s, d);
  }

  lemma CompletionsStep(trace: seq<Event>, e: Event)
    ensures Completions(trace + [e]) == Completions(trace) + if e.Completed? then [e] else []
  {
    assert (trace + [e])[..|trace|] == trace;
  }

  lemma CompletionsSkip(trace: seq<Event>, e: Event)
    requires !e.Completed?
    ensures Completions(trace + [e]) == Completions(trace)
  {
    CompletionsStep(trace, e);
  }

  lemma {:induction false} RequestAllCore(s: State, plugin: Id, deps: seq<Dep>)
    ensures var t := RequestAll(s, plugin, deps);
            t.modules == s.modules && t.inverse == s.inverse && Completions(t.trace) == Completions(s.trace)
    decreases |deps|
  {
    if deps != [] {
      RequestAllCore(RequestResourceOf(s, plugin, deps[0]), plugin, deps[1..]);
    }
  }

  lemma FlushPluginCore(s: State, x: Id)
    ensures var t := FlushPlugin(s, x);
            t.modules == s.modules && t.inverse == s.inverse && Completions(t.trace) == Completions(s.trace)
  {
    if x in s.pluginQueue {
      RequestAllCore(s.(pluginQueue := s.pluginQueue - {x}), x, s.pluginQueue[x]);
    }
  }

  /** Asking for a dependency adds at most one request to the trace. */
  lemma RequestDepTrace(s: State, dep: Dep) returns (more: seq<Event>)
    requires dep.Ordinary()
    ensures RequestDep(s, dep).trace == s.trace + more
    ensures more == [] || (|more| == 1 && !more[0].Completed?)
  {
    more := RequestDep(s, dep).trace[|s.trace|..];
  }

  lemma RequestDepCore(s: State, dep: Dep, t: State)
    requires dep.Ordinary() && t == RequestDep(s, dep)
    ensures t.modules == s.modules && t.inverse == s.inverse && Completions(t.trace) == Completions(s.trace)
  {
    RequestDepFrame(s, dep);
    var more := RequestDepTrace(s, dep);
    if more != [] {
      CompletionsSkip(s.trace, more[0]);
      assert more == [more[0]];
    } else {
      assert s.trace + [] == s.trace;
    }
  }

  // ---------------------------------------------------------------- completing modules

  /** When the counter of an unsettled module has reached zero, nothing it depends on is outstanding. */
  lemma ZeroMeansReady(s: State, n: nat, x: Id, pending: multiset<Id>)
    requires x in s.modules && !s.modules[x].complete && s.modules[x].count == 0 && s.modules[x].deps.Some?
    requires Inv(s, n, At(x, |s.modules[x].deps.value|), pending)
    ensures Occurrences(s.inverse, x, n) == 0 && pending[x] == 0
    ensures forall d :: !Waits(s.inverse, x, d)
    ensures ArgsFinal(CompletionEvents(s.modules, x, Waiters(s.inverse, x))[0])
  {
    var m := s.modules[x];
    var c := At(x, |m.deps.value|);
    assert CountOk(s, n, c, pending, x) && FlagsOk(s, c, x) && PositionsOk(s, c, x);
    forall d ensures !Waits(s.inverse, x, d) {
      if Waits(s.inverse, x, d) {
        OccurrencesPositive(s.inverse, d, x, n);
      }
    }
    var e := CompletionEvents(s.modules, x, Waiters(s.inverse, x))[0];
    forall k | 0 <= k < |e.deps| && e.deps[k].Ordinary() && k !in e.broken
      ensures e.args[k] == ExportsOf(e.deps[k].Id(), true)
    {
      assert SettledIn(s, m.deps.value[k].Id());
    }
  }

  lemma {:induction false} SettleModules(s: State, n: nat, x: Id, pending: multiset<Id>)
    requires x in s.modules && !s.modules[x].complete && s.modules[x].count == 0 && s.modules[x].deps.Some?
    requires Bounded(s, n) && ModulesOk(s, n, At(x, |s.modules[x].deps.value|), pending)
    requires Occurrences(s.inverse, x, n) == 0 && pending[x] == 0
    requires forall d :: !Waits(s.inverse, x, d)
    ensures ModulesOk(Settle(s, x), n, Idle, pending + multiset(Waiters(s.inverse, x)))
  {
    var c := At(x, |s.modules[x].deps.value|);
    var ws := Waiters(s.inverse, x);
    var t := Settle(s, x);
    assert !Waits(s.inverse, x, x);
    forall y | y in t.modules
      ensures CountOk(t, n, Idle, pending + multiset(ws), y) && FlagsOk(t, Idle, y) && PositionsOk(t, Idle, y)
    {
      assert CountOk(s, n, c, pending, y) && FlagsOk(s, c, y) && PositionsOk(s, c, y);
      OccurrencesRemove(s.inverse, x, y, n);
      assert x !in s.inverse || x < n;
    }
  }

  lemma SettleEdges(s: State, x: Id)
    requires x in s.modules && EdgesOk(s) && Acyclic(s.inverse)
    requires forall d :: !Waits(s.inverse, x, d)
    ensures EdgesOk(Settle(s, x)) && Acyclic(Settle(s, x).inverse)
  {
    var t := Settle(s, x);
    forall y, d | Waits(t.inverse, y, d) ensures Waits(s.inverse, y, d) && DependsOn(t.modules, y, d) {
      assert Waits(s.inverse, y, d);
      assert DependsOn(s.modules, y, d);
    }
  }

  lemma SettleCompletions(s: State, x: Id)
    requires x in s.modules && s.modules[x].deps.Some?
    requires CompletionsOk(s.modules, Completions(s.trace))
    requires ArgsFinal(CompletionEvents(s.modules, x, Waiters(s.inverse, x))[0])
    ensures CompletionsOk(Settle(s, x).modules, Completions(Settle(s, x).trace))
  {
    var t := Settle(s, x);
    var es := CompletionEvents(s.modules, x, Waiters(s.inverse, x));
    CompletionsAppend(s.trace, es);
    CompletionsOfOne(es);
    CompletionsExtend(s.modules, Completions(s.trace), es[0], t.modules[x]);
  }

  lemma CompletionsExtend(modules: map<Id, Mod>, cs: seq<Event>, e: Event, m: Mod)
    requires CompletionsOk(modules, cs)
    requires e.Completed? && ArgsFinal(e) && e.id in modules && !modules[e.id].Settled() && m.Settled()
    ensures CompletionsOk(modules[e.id := m], cs + [e])
  {
    var ct := cs + [e];
    var after := modules[e.id := m];
    forall y | y in after && after[y].Settled() ensures exists i :: 0 <= i < |ct| && ct[i].id == y {
      if y == e.id {
        assert ct[|cs|].id == y;
      } else {
        var i :| 0 <= i < |cs| && cs[i].id == y;
        assert ct[i].id == y;
      }
    }
  }

  lemma SettleInv(s: State, n: nat, x: Id, pending: multiset<Id>)
    requires x in s.modules && !s.modules[x].complete && s.modules[x].count == 0 && s.modules[x].deps.Some?
    requires Inv(s, n, At(x, |s.modules[x].deps.value|), pending)
    ensures Inv(Settle(s, x), n, Idle, pending + multiset(Waiters(s.inverse, x)))
  {
    ZeroMeansReady(s, n, x, pending);
    SettleModules(s, n, x, pending);
    SettleEdges(s, x);
    SettleCompletions(s, x);
  }

  lemma CompletionsOfOne(es: seq<Event>)
    requires 1 <= |es| <= 2 && es[0].Completed? && (|es| == 2 ==> !es[1].Completed?)
    ensures Completions(es) == [es[0]]
  {
    assert Completions([es[0]]) == [es[0]] by { CompletionsStep([], es[0]); assert [] + [es[0]] == [es[0]]; }
    if |es| == 2 {
      CompletionsStep([es[0]], es[1]);
      assert es == [es[0]] + [es[1]];
    } else {
      assert es == [es[0]];
    }
  }

  /** `PositionsOk` depends on the waits, on which modules are settled, and on the list of `y`. */
  lemma PositionsFrame(s: State, t: State, c: Cursor, c': Cursor, y: Id)
    requires t.modules.Keys == s.modules.Keys && t.inverse == s.inverse
    requires forall x :: x in s.modules ==> t.modules[x].deps == s.modules[x].deps
    requires y in s.modules && PositionsOk(s, c, y)
    requires s.modules[y].error.Some? ==> t.modules[y].error.Some?
    requires t.modules[y].broken == s.modules[y].broken
    requires s.modules[y].deps.Some? ==> Examined(t.modules[y], y, c') <= Examined(s.modules[y], y, c)
    ensures PositionsOk(t, c', y)
  {
    var m := t.modules[y];
    if m.deps.Some? && m.error.None? {
      forall k | 0 <= k < Examined(m, y, c') && m.deps.value[k].Ordinary() && k !in m.broken
        ensures SettledIn(t, m.deps.value[k].Id()) || Waits(t.inverse, y, m.deps.value[k].Id())
      {
        var d := m.deps.value[k].Id();
        assert SettledIn(s, d) || Waits(s.inverse, y, d);
      }
    }
  }

  /** Where the cursor is after a decrement: at a module whose counter has just reached zero. */
  ghost function CursorFor(s: State, x: Id): Cursor
    requires x in s.modules
  {
    var m := s.modules[x];
    if m.count == 0 && m.deps.Some? then At(x, |m.deps.value|) else Idle
  }

  lemma ReleaseOneInv(s: State, n: nat, w: Id, pending: multiset<Id>)
    requires w in s.modules && Inv(s, n, Idle, pending + multiset{w})
    ensures s.modules[w].deps.Some?
    ensures Inv(Decrement(s, w), n, CursorFor(Decrement(s, w), w), pending)
  {
    var t := Decrement(s, w);
    var c := CursorFor(t, w);
    assert CountOk(s, n, Idle, pending + multiset{w}, w);
    forall y | y in t.modules
      ensures CountOk(t, n, c, pending, y) && FlagsOk(t, c, y) && PositionsOk(t, c, y)
    {
      assert CountOk(s, n, Idle, pending + multiset{w}, y) && FlagsOk(s, Idle, y) && PositionsOk(s, Idle, y);
      PositionsFrame(s, t, Idle, c, y);
    }
    EdgesFrame(s, t);
  }

  /** Settling a complete module is not needed; the cursor may simply leave it. */
  lemma LeaveComplete(s: State, n: nat, x: Id, pending: multiset<Id>)
    requires x in s.modules && Inv(s, n, CursorFor(s, x), pending)
    requires s.modules[x].complete || s.modules[x].count != 0
    ensures Inv(s, n, Idle, pending)
  {
    var c := CursorFor(s, x);
    forall y | y in s.modules
      ensures CountOk(s, n, Idle, pending, y) && FlagsOk(s, Idle, y) && PositionsOk(s, Idle, y)
    {
      assert CountOk(s, n, c, pending, y) && FlagsOk(s, c, y) && PositionsOk(s, c, y);
    }
  }

  lemma FlushPluginInv(s: State, n: nat, x: Id, pending: multiset<Id>)
    requires Inv(s, n, Idle, pending)
    ensures Inv(FlushPlugin(s, x), n, Idle, pending)
  {
    FlushPluginCore(s, x);
    SameCore(s, FlushPlugin(s, x), n, Idle, pending);
  }

  /** `_onModuleComplete` keeps the invariant, whatever decrements the callers still have to make. */
  lemma {:induction false} OnModuleCompleteInv(s: State, n: nat, x: Id, pending: multiset<Id>)
    requires x in s.modules && WaitersDefined(s) && s.modules[x].deps.Some? && s.modules[x].count == 0
    requires Inv(s, n, At(x, |s.modules[x].deps.value|), pending)
    ensures Inv(OnModuleComplete(s, x), n, Idle, pending)
    decreases |Incomplete(s)|, 0
  {
    if s.modules[x].complete {
      LeaveComplete(s, n, x, pending);
    } else {
      SettleReady(s, x);
      SettleInv(s, n, x, pending);
      ReleaseInv(Settle(s, x), n, Waiters(s.inverse, x), pending);
      FlushPluginInv(Release(Settle(s, x), Waiters(s.inverse, x)), n, x, pending);
    }
  }

  lemma {:induction false} ReleaseInv(s: State, n: nat, ws: seq<Id>, pending: multiset<Id>)
    requires WaitersDefined(s) && forall x :: x in ws ==> x in s.modules
    requires Inv(s, n, Idle, pending + multiset(ws))
    ensures Inv(Release(s, ws), n, Idle, pending)
    decreases |Incomplete(s)|, 1, |ws|
  {
    if ws == [] {
      assert pending + multiset(ws) == pending;
    } else {
      var w := ws[0];
      var rest := pending + multiset(ws[1..]);
      assert pending + multiset(ws) == rest + multiset{w} by { assert ws == [w] + ws[1..]; }
      ReleaseOneInv(s, n, w, rest);
      DecrementReady(s, w);
      var s1 := Decrement(s, w);
      var s2 := if s1.modules[w].count == 0 then OnModuleComplete(s1, w) else s1;
      if s1.modules[w].count == 0 {
        OnModuleCompleteInv(s1, n, w, rest);
      }
      CardinalityMonotone(Incomplete(s2), Incomplete(s));
      ReleaseInv(s2, n, ws[1..], pending);
    }
  }
}
