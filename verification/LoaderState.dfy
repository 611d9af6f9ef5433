/** The state of the AMD module manager and what each of its operations does to it, on values.

    The methods of `ModuleManager` (LoaderManager.dfy) are proved equal to these functions, and the
    properties of whole runs (LoaderInvariant.dfy, LoaderTheorems.dfy) are proved about them. */
module LoaderState {
  import opened Options
  import opened Sequences

  /** Integer module id, as handed out by the id provider. */
  type Id = nat

  /** One entry of a dependency list.  `Exports`, `This` and `Require` are the three special keys;
      their ids 0, 1 and 2 are reserved but can still be compared with ordinary ids. */
  datatype Dep = Exports | This | Require | Regular(target: Id) | Plugin(target: Id, pluginId: Id) {

    function Id(): Id {
      match this
      case Exports => 0
      case This => 1
      case Require => 2
      case Regular(d) => d
      case Plugin(d, _) => d
    }

    predicate Ordinary() {
      Regular? || Plugin?
    }
  }

  /** What `define` was given to produce the exports.  A factory is opaque: all that matters here is
      whether its one run throws. */
  datatype Callback = NoCallback | Value | Factory(throws: bool)

  datatype Phase = Loading | InFactory

  datatype Error = Error(phase: Phase, id: Id, neededBy: seq<Id>)

  /** A module record.  `deps` is `None` once `complete` has run, as in the source.  `broken` holds
      the positions of `deps` at which a cycle was reported and broken. */
  datatype Mod = Mod(
    deps: Option<seq<Dep>>,
    callback: Callback,
    errorback: bool,
    count: int,
    complete: bool,
    error: Option<Error>,
    broken: set<nat>)
  {
    /** The module went through `complete`: its exports are final. */
    predicate Settled() {
      deps.None?
    }

    /** The module ended because of an error on the way to it, without going through `complete`. */
    predicate Failed() {
      deps.Some? && error.Some?
    }
  }

  /** One value passed to a factory. */
  datatype Arg = ExportsObject | ThisModule | RequireFunction | ExportsOf(id: Id, final: bool) | NullValue

  /** What the environment can observe. */
  datatype Event =
    | Completed(id: Id, deps: seq<Dep>, broken: set<nat>, args: seq<Arg>, factoryRan: bool)
    | RequestScript(id: Id)
    | RequestResource(id: Id, plugin: Id)
    | Errorback(id: Id, error: Error)
    | GlobalError(error: Error)

  datatype State = State(
    modules: map<Id, Mod>,
    inverse: map<Id, seq<Id>>,
    known: set<Id>,
    pluginQueue: map<Id, seq<Dep>>,
    trace: seq<Event>)

  const INITIAL := State(map[], map[], {}, map[], [])

  // ---------------------------------------------------------------- graphs

  function Waiters(inverse: map<Id, seq<Id>>, d: Id): seq<Id> {
    if d in inverse then inverse[d] else []
  }

  /** `x` waits for `d`. */
  predicate Waits(inverse: map<Id, seq<Id>>, x: Id, d: Id) {
    x in Waiters(inverse, d)
  }

  /** Each element of `p` waits for the next one. */
  ghost predicate WaitPath(inverse: map<Id, seq<Id>>, p: seq<Id>) {
    forall i :: 0 <= i < |p| - 1 ==> Waits(inverse, p[i], p[i + 1])
  }

  ghost predicate Acyclic(inverse: map<Id, seq<Id>>) {
    forall p :: |p| >= 2 && WaitPath(inverse, p) ==> p[0] != p[|p| - 1]
  }

  ghost predicate Connects<T(!new)>(p: seq<T>, a: T, b: T) {
    |p| >= 1 && p[0] == a && p[|p| - 1] == b
  }

  /** `x` is `d` or waits, through any number of recorded waits, for `d`. */
  ghost predicate WaitsThrough(inverse: map<Id, seq<Id>>, x: Id, d: Id) {
    exists p :: Connects(p, x, d) && WaitPath(inverse, p)
  }

  /** The id `d` is on the dependency list of `x`, and that list is still present. */
  predicate DependsOn(modules: map<Id, Mod>, x: Id, d: Id) {
    && x in modules && modules[x].deps.Some?
    && exists k :: 0 <= k < |modules[x].deps.value| && modules[x].deps.value[k].Id() == d
  }

  ghost predicate DepPath(modules: map<Id, Mod>, p: seq<Id>) {
    forall i :: 0 <= i < |p| - 1 ==> DependsOn(modules, p[i], p[i + 1])
  }

  /** A dependency path of at least one edge leads from `a` to `b`. */
  ghost predicate HasPath(modules: map<Id, Mod>, a: Id, b: Id) {
    exists p :: |p| >= 2 && Connects(p, a, b) && DepPath(modules, p)
  }

  /** Dependencies of the elements of `all` are in `all` if they are defined, and are never `b`. */
  ghost predicate ClosedWithout(modules: map<Id, Mod>, all: set<Id>, b: Id) {
    forall x, y :: x in all && DependsOn(modules, x, y) ==> y != b && (y in modules ==> y in all)
  }

  lemma {:induction false} StaysInside(modules: map<Id, Mod>, all: set<Id>, p: seq<Id>, b: Id)
    requires |p| >= 2 && DepPath(modules, p) && p[0] in all && ClosedWithout(modules, all, b)
    ensures p[|p| - 1] != b
  {
    assert DependsOn(modules, p[0], p[0 + 1]);
    if |p| > 2 {
      assert DependsOn(modules, p[1], p[1 + 1]);
      forall i | 0 <= i < |p| - 2 ensures DependsOn(modules, p[1..][i], p[1..][i + 1]) {
        assert DependsOn(modules, p[i + 1], p[i + 1 + 1]);
      }
      StaysInside(modules, all, p[1..], b);
    }
  }

  lemma NoPath(modules: map<Id, Mod>, all: set<Id>, a: Id, b: Id)
    requires a in all && ClosedWithout(modules, all, b)
    ensures !HasPath(modules, a, b)
  {
    forall p | |p| >= 2 && DepPath(modules, p) && p[0] == a ensures p[|p| - 1] != b {
      StaysInside(modules, all, p, b);
    }
  }

  lemma PathExtends(modules: map<Id, Mod>, a: Id, x: Id, y: Id)
    requires DependsOn(modules, x, y) && (x == a || HasPath(modules, a, x))
    ensures HasPath(modules, a, y)
  {
    if x == a {
      assert DepPath(modules, [x, y]) && Connects([x, y], a, y);
    } else {
      var p :| |p| >= 2 && Connects(p, a, x) && DepPath(modules, p);
      var q := p + [y];
      forall i | 0 <= i < |q| - 1 ensures DependsOn(modules, q[i], q[i + 1]) {
        if i < |p| - 1 {
          assert DependsOn(modules, p[i], p[i + 1]);
        }
      }
      assert DepPath(modules, q) && Connects(q, a, y);
    }
  }

  // ---------------------------------------------------------------- completing modules

  ghost function Incomplete(s: State): set<Id> {
    set x | x in s.modules && !s.modules[x].complete
  }

  /** Every waiter is a defined module. */
  ghost predicate WaitersDefined(s: State) {
    forall d, x :: Waits(s.inverse, x, d) ==> x in s.modules
  }

  function ArgOf(modules: map<Id, Mod>, dep: Dep): Arg {
    match dep
    case Exports => ExportsObject
    case This => ThisModule
    case Require => RequireFunction
    case _ => if dep.target in modules then ExportsOf(dep.target, modules[dep.target].Settled()) else NullValue
  }

  function Args(modules: map<Id, Mod>, deps: Option<seq<Dep>>): seq<Arg> {
    match deps
    case None => []
    case Some(ds) => seq(|ds|, i requires 0 <= i < |ds| => ArgOf(modules, ds[i]))
  }

  /** `Module.complete`, given the values of the dependencies and the current waiters. */
  function CompletedMod(m: Mod, x: Id, waiters: seq<Id>): Mod {
    var error := if m.callback == Factory(true) then Some(Error(InFactory, x, waiters)) else m.error;
    Mod(None, NoCallback, false, m.count, true, error, m.broken)
  }

  function CompletionEvents(modules: map<Id, Mod>, x: Id, waiters: seq<Id>): seq<Event>
    requires x in modules
  {
    var m := modules[x];
    var deps := if m.deps.Some? then m.deps.value else [];
    [Completed(x, deps, m.broken, Args(modules, m.deps), m.callback.Factory?)]
    + (if m.callback == Factory(true) then [GlobalError(Error(InFactory, x, waiters))] else [])
  }

  /** Mark `x` complete, run its factory and clear its list of waiters. */
  function Settle(s: State, x: Id): State
    requires x in s.modules
  {
    var ws := Waiters(s.inverse, x);
    s.(modules := s.modules[x := CompletedMod(s.modules[x], x, ws)],
       inverse := s.inverse - {x},
       trace := s.trace + CompletionEvents(s.modules, x, ws))
  }

  function Decrement(s: State, x: Id): State
    requires x in s.modules
  {
    s.(modules := s.modules[x := s.modules[x].(count := s.modules[x].count - 1)])
  }

  function RequestResourceOf(s: State, plugin: Id, dep: Dep): State {
    if dep.Id() in s.modules || dep.Id() in s.known then s
    else s.(known := s.known + {dep.Id()}, trace := s.trace + [RequestResource(dep.Id(), plugin)])
  }

  function RequestAll(s: State, plugin: Id, deps: seq<Dep>): State
    decreases |deps|
  {
    if deps == [] then s else RequestAll(RequestResourceOf(s, plugin, deps[0]), plugin, deps[1..])
  }

  /** Hand the resources queued behind plugin `x` to it. */
  function FlushPlugin(s: State, x: Id): State {
    if x in s.pluginQueue then
      RequestAll(s.(pluginQueue := s.pluginQueue - {x}), x, s.pluginQueue[x])
    else s
  }

  lemma RequestAllFrame(s: State, plugin: Id, deps: seq<Dep>)
    ensures var t := RequestAll(s, plugin, deps);
            t.modules == s.modules && t.inverse == s.inverse && t.pluginQueue == s.pluginQueue
    decreases |deps|
  {
    if deps != [] {
      RequestAllFrame(RequestResourceOf(s, plugin, deps[0]), plugin, deps[1..]);
    }
  }

  lemma SettleReady(s: State, x: Id)
    requires x in s.modules && WaitersDefined(s) && !s.modules[x].complete
    ensures var s1 := Settle(s, x);
            && WaitersDefined(s1)
            && |Incomplete(s1)| < |Incomplete(s)|
            && forall y :: y in Waiters(s.inverse, x) ==> y in s1.modules
  {
    var s1 := Settle(s, x);
    assert Incomplete(s1) == Incomplete(s) - {x};
    forall d, y | Waits(s1.inverse, y, d) ensures y in s1.modules {
      assert Waits(s.inverse, y, d);
    }
    forall y | y in Waiters(s.inverse, x) ensures y in s1.modules {
      assert Waits(s.inverse, y, x);
    }
  }

  lemma DecrementReady(s: State, w: Id)
    requires w in s.modules && WaitersDefined(s)
    ensures WaitersDefined(Decrement(s, w)) && Incomplete(Decrement(s, w)) == Incomplete(s)
  {
    SameWaiters(s, Decrement(s, w));
  }

  /** `_onModuleComplete`: settle `x` and release its waiters, recursively. */
  ghost function OnModuleComplete(s: State, x: Id): (t: State)
    requires x in s.modules && WaitersDefined(s)
    ensures t.modules.Keys == s.modules.Keys && Incomplete(t) <= Incomplete(s) && WaitersDefined(t)
    decreases |Incomplete(s)|, 0
  {
    if s.modules[x].complete then s
    else
      var s1 := Settle(s, x);
      SettleReady(s, x);
      var s2 := Release(s1, Waiters(s.inverse, x));
      RequestAllFrame(s2.(pluginQueue := s2.pluginQueue - {x}), x,
                      if x in s2.pluginQueue then s2.pluginQueue[x] else []);
      FlushPlugin(s2, x)
  }

  /** The loop of `_onModuleComplete` over the waiters of a module that has just completed. */
  ghost function Release(s: State, ws: seq<Id>): (t: State)
    requires WaitersDefined(s) && forall x :: x in ws ==> x in s.modules
    ensures t.modules.Keys == s.modules.Keys && Incomplete(t) <= Incomplete(s) && WaitersDefined(t)
    decreases |Incomplete(s)|, 1, |ws|
  {
    if ws == [] then s
    else
      var s1 := Decrement(s, ws[0]);
      DecrementReady(s, ws[0]);
      var s2 := if s1.modules[ws[0]].count == 0 then OnModuleComplete(s1, ws[0]) else s1;
      CardinalityMonotone(Incomplete(s2), Incomplete(s));
      Release(s2, ws[1..])
  }

  lemma SameWaiters(s: State, t: State)
    requires WaitersDefined(s) && t.inverse == s.inverse && s.modules.Keys <= t.modules.Keys
    ensures WaitersDefined(t)
  {
    forall d, y | Waits(t.inverse, y, d) ensures y in t.modules {
      assert Waits(s.inverse, y, d);
    }
  }

  // ---------------------------------------------------------------- resolving dependencies

  /** `_loadModule`: ask for the script of `d` unless that was done before. */
  function RequestScriptOf(s: State, d: Id): State {
    if d in s.modules || d in s.known then s
    else s.(known := s.known + {d}, trace := s.trace + [RequestScript(d)])
  }

  function AddWaiter(s: State, d: Id, x: Id): State {
    s.(inverse := s.inverse[d := Waiters(s.inverse, d) + [x]])
  }

  /** What `_resolve` requests after recording a wait for `dep`. */
  function RequestDep(s: State, dep: Dep): State
    requires dep.Ordinary()
  {
    match dep
    case Regular(d) => RequestScriptOf(s, d)
    case Plugin(d, p) =>
      if p in s.modules && s.modules[p].complete then RequestResourceOf(s, p, dep)
      else
        var queue := if p in s.pluginQueue then s.pluginQueue[p] else [];
        RequestScriptOf(s.(pluginQueue := s.pluginQueue[p := queue + [dep]]), p)
  }

  /** `Module.onDependencyError`. */
  function DependencyError(s: State, x: Id, error: Error): State
    requires x in s.modules
  {
    s.(modules := s.modules[x := s.modules[x].(complete := true, error := Some(error))],
       trace := s.trace + if s.modules[x].errorback then [Errorback(x, error)] else [])
  }

  function BreakCycle(s: State, x: Id, i: nat): State
    requires x in s.modules
  {
    s.(modules := s.modules[x := s.modules[x].(count := s.modules[x].count - 1, broken := s.modules[x].broken + {i})])
  }

  predicate CompleteIn(s: State, d: Id) {
    d in s.modules && s.modules[d].complete
  }

  /** What the loop of `_resolve` does with position `i` of the list of `x`; the position is one whose
      dependency did not fail. */
  ghost function Examine(s: State, x: Id, i: nat): State
    requires x in s.modules && s.modules[x].deps.Some? && i < |s.modules[x].deps.value|
  {
    var dep := s.modules[x].deps.value[i];
    if !dep.Ordinary() || CompleteIn(s, dep.Id()) then Decrement(s, x)
    else if HasPath(s.modules, dep.Id(), x) then BreakCycle(s, x, i)
    else RequestDep(AddWaiter(s, dep.Id(), x), dep)
  }

  predicate FailedDep(s: State, dep: Dep) {
    dep.Ordinary() && CompleteIn(s, dep.Id()) && s.modules[dep.Id()].error.Some?
  }

  lemma RequestDepFrame(s: State, dep: Dep)
    requires dep.Ordinary()
    ensures RequestDep(s, dep).modules == s.modules && RequestDep(s, dep).inverse == s.inverse
  {
  }

  /** `_resolve` from position `i` on. */
  ghost function Resolve(s: State, x: Id, i: nat): (t: State)
    requires x in s.modules && s.modules[x].deps.Some? && i <= |s.modules[x].deps.value| && WaitersDefined(s)
    ensures t.modules.Keys == s.modules.Keys && WaitersDefined(t)
    decreases |s.modules[x].deps.value| - i
  {
    var deps := s.modules[x].deps.value;
    if i == |deps| then
      if s.modules[x].count == 0 then OnModuleComplete(s, x) else s
    else if FailedDep(s, deps[i]) then
      var t := DependencyError(s, x, s.modules[deps[i].Id()].error.value);
      SameWaiters(s, t);
      t
    else
      var s1 := Examine(s, x, i);
      ExamineFrame(s, x, i);
      Resolve(s1, x, i + 1)
  }

  lemma ExamineFrame(s: State, x: Id, i: nat)
    requires x in s.modules && s.modules[x].deps.Some? && i < |s.modules[x].deps.value| && WaitersDefined(s)
    ensures var t := Examine(s, x, i);
            && t.modules.Keys == s.modules.Keys && t.modules[x].deps == s.modules[x].deps && WaitersDefined(t)
  {
    var t := Examine(s, x, i);
    var dep := s.modules[x].deps.value[i];
    if dep.Ordinary() {
      RequestDepFrame(AddWaiter(s, dep.Id(), x), dep);
    }
    forall d, y | Waits(t.inverse, y, d) ensures y in t.modules {
      if y != x {
        assert Waits(s.inverse, y, d);
      }
    }
  }

  function NewMod(deps: seq<Dep>, callback: Callback, errorback: bool): Mod {
    Mod(Some(deps), callback, errorback, |deps|, false, None, {})
  }

  /** `x` has its record and nothing has been examined. */
  function WithRecord(s: State, x: Id, deps: seq<Dep>, callback: Callback, errorback: bool): State {
    s.(modules := s.modules[x := NewMod(deps, callback, errorback)])
  }

  /** `defineModule`: a second definition of the same id is ignored. */
  ghost function Define(s: State, x: Id, deps: seq<Dep>, callback: Callback, errorback: bool): (t: State)
    requires WaitersDefined(s)
    ensures t.modules.Keys == s.modules.Keys + {x} && WaitersDefined(t)
  {
    if x in s.modules then s
    else
      var s1 := WithRecord(s, x, deps, callback, errorback);
      SameWaiters(s, s1);
      Resolve(s1, x, 0)
  }

  // ---------------------------------------------------------------- load errors

  /** The inner loop of `_onLoadError`: append to the queue the waiters not seen so far. */
  function Unseen(ws: seq<Id>, seen: set<Id>): (added: seq<Id>)
    ensures forall x :: x in added <==> x in ws && x !in seen
    ensures forall i, j :: 0 <= i < j < |added| ==> added[i] != added[j]
  {
    if ws == [] then []
    else if ws[0] in seen then Unseen(ws[1..], seen)
    else [ws[0]] + Unseen(ws[1..], seen + {ws[0]})
  }

  /** Elements of the lists of waiters. */
  ghost function AllWaiters(inverse: map<Id, seq<Id>>): set<Id> {
    set d, x | d in inverse && x in inverse[d] :: x
  }

  lemma WalkProgress(inverse: map<Id, seq<Id>>, x: Id, seen: set<Id>)
    ensures var added := Unseen(Waiters(inverse, x), seen);
            var seen' := seen + Elements(added);
            |AllWaiters(inverse) - seen'| < |AllWaiters(inverse) - seen| || (added == [] && seen' == seen)
  {
    var added := Unseen(Waiters(inverse, x), seen);
    if added != [] {
      assert added[0] in added && added[0] in inverse[x];
      OneFewerLeft(AllWaiters(inverse), seen, seen + Elements(added), added[0]);
    }
  }

  /** The order in which the breadth-first walk of `_onLoadError` takes ids off its queue. */
  ghost function Walk(inverse: map<Id, seq<Id>>, queue: seq<Id>, seen: set<Id>): seq<Id>
    decreases |AllWaiters(inverse) - seen|, |queue|
  {
    if queue == [] then []
    else
      var added := Unseen(Waiters(inverse, queue[0]), seen);
      var seen' := seen + Elements(added);
      WalkProgress(inverse, queue[0], seen);
      [queue[0]] + Walk(inverse, queue[1..] + added, seen')
  }

  /** Deliver `error` to the defined modules of `ids`, in order. */
  function Deliver(s: State, ids: seq<Id>, error: Error): State
    decreases |ids|
  {
    if ids == [] then s
    else Deliver(if ids[0] in s.modules then DependencyError(s, ids[0], error) else s, ids[1..], error)
  }

  /** The error goes to the defined modules of the list; nothing else about the modules changes. */
  lemma {:induction false} DeliverEffect(s: State, ids: seq<Id>, error: Error)
    ensures var t := Deliver(s, ids, error);
            && t.modules.Keys == s.modules.Keys && t.inverse == s.inverse
            && t.known == s.known && t.pluginQueue == s.pluginQueue
            && (forall x :: x in s.modules ==>
                  t.modules[x] == if x in ids then s.modules[x].(complete := true, error := Some(error))
                                  else s.modules[x])
    decreases |ids|
  {
    if ids != [] {
      DeliverEffect(if ids[0] in s.modules then DependencyError(s, ids[0], error) else s, ids[1..], error);
    }
  }

  ghost predicate SomeoneNotified(s: State, ids: seq<Id>) {
    exists i :: 0 <= i < |ids| && ids[i] in s.modules && s.modules[ids[i]].errorback
  }

  function WithPlaceholder(s: State, x: Id): State {
    if x in s.modules then s else WithRecord(s, x, [], Factory(false), false)
  }

  /** Deliver an error to the modules of `ids`, or to the global handler if none of them has one of its own. */
  ghost function Notify(s: State, ids: seq<Id>, error: Error): State {
    var t := Deliver(s, ids, error);
    if SomeoneNotified(s, ids) then t else t.(trace := t.trace + [GlobalError(error)])
  }

  /** `_onLoadError`. */
  ghost function LoadFails(s: State, x: Id): (t: State)
    ensures t.modules.Keys == s.modules.Keys + {x} && t.inverse == s.inverse
  {
    var error := Error(Loading, x, Waiters(s.inverse, x));
    var s1 := WithPlaceholder(s, x);
    var order := Walk(s.inverse, [x], {x});
    DeliverEffect(s1, order, error);
    Notify(s1, order, error)
  }

  /** `load.error`: a plugin could not load the resource `x`.  Only the global handler hears of it. */
  function ResourceFails(s: State, x: Id): State {
    s.(trace := s.trace + [GlobalError(Error(Loading, x, Waiters(s.inverse, x)))])
  }
}
