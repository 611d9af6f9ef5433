/** The module records and the manager as objects updated in place.  Every operation is proved equal to its
    function in `LoaderState`, so the results about runs are results about these methods. */
module LoaderManager {
  import opened LoaderState
  import opened Options
  import opened Sequences

  class Module {
    const id: Id
    var dependencies: Option<seq<Dep>>
    var callback: Callback
    var errorback: bool
    var unresolvedDependenciesCount: int
    var isComplete: bool
    var error: Option<Error>
    ghost var broken: set<nat>

    ghost function Value(): Mod
      reads this
    {
      Mod(dependencies, callback, errorback, unresolvedDependenciesCount, isComplete, error, broken)
    }

    constructor (id: Id, dependencies: seq<Dep>, callback: Callback, errorback: bool)
      ensures this.id == id && Value() == NewMod(dependencies, callback, errorback)
    {
      this.id := id;
      this.dependencies := Some(dependencies);
      this.callback := callback;
      this.errorback := errorback;
      this.unresolvedDependenciesCount := |dependencies|;
      this.isComplete := false;
      this.error := None;
      this.broken := {};
    }

    /** Runs the factory if there is one; `factoryRan` and `thrown` are what the run shows to the outside. */
    method Complete(waiters: seq<Id>) returns (factoryRan: bool, thrown: Option<Error>)
      modifies this
      ensures Value() == CompletedMod(old(Value()), id, waiters)
      ensures factoryRan == old(callback).Factory?
      ensures thrown == if old(callback) == Factory(true) then Some(Error(InFactory, id, waiters)) else None
    {
      isComplete := true;
      factoryRan, thrown := false, None;
      match callback {
        case Factory(throws) =>
          factoryRan := true;
          if throws {
            thrown := Some(Error(InFactory, id, waiters));
            error := thrown;
          }
        case _ =>
      }
      dependencies := None;
      callback := NoCallback;
      errorback := false;
    }

    method OnDependencyError(err: Error) returns (notified: bool)
      modifies this
      ensures Value() == old(Value()).(complete := true, error := Some(err))
      ensures notified == errorback
    {
      isComplete := true;
      error := Some(err);
      notified := errorback;
    }
  }

  class ModuleManager {
    var modules: map<Id, Module>
    var knownModules: set<Id>
    var inverseDependencies: map<Id, seq<Id>>
    var inversePluginDependencies: map<Id, seq<Dep>>
    ghost var trace: seq<Event>

    /** Records sit under their own ids, so they are different objects. */
    ghost predicate Valid()
      reads this
    {
      forall x :: x in modules ==> modules[x].id == x
    }

    ghost function Abs(): State
      reads this, modules.Values
    {
      State(map x | x in modules :: modules[x].Value(),
            inverseDependencies, knownModules, inversePluginDependencies, trace)
    }

    constructor ()
      ensures Valid() && Abs() == INITIAL && fresh(modules.Values)
    {
      modules, knownModules, inverseDependencies, inversePluginDependencies, trace := map[], {}, map[], map[], [];
    }

    // -------------------------------------------------------------- searching

    /** Every id in `seen` is defined and leads from `from`; what those no longer in the queue depend on is not
        `to` and is seen if it is defined. */
    static ghost predicate Scanned(mods: map<Id, Mod>, from: Id, to: Id, seen: set<Id>, queue: seq<Id>) {
      && from in seen && (forall x :: x in queue ==> x in seen)
      && (forall x :: x in seen ==> x in mods && (x == from || HasPath(mods, from, x)))
      && (forall x, y :: x in seen && x !in queue && DependsOn(mods, x, y) ==> y != to && (y in mods ==> y in seen))
    }

    static lemma ScannedOne(mods: map<Id, Mod>, from: Id, to: Id,
                            seen: set<Id>, queue: seq<Id>, seen': set<Id>, queue': seq<Id>)
      requires queue != [] && Scanned(mods, from, to, seen, queue)
      requires seen <= seen' && forall x :: x in queue' <==> x in queue[1..] || (x in seen' && x !in seen)
      requires forall x :: x in seen' && x !in seen ==> x in mods && DependsOn(mods, queue[0], x)
      requires forall y :: DependsOn(mods, queue[0], y) ==> y != to && (y in mods ==> y in seen')
      ensures Scanned(mods, from, to, seen', queue')
    {
      assert queue == [queue[0]] + queue[1..] && queue[0] in seen;
      forall x | x in seen' ensures x in mods && (x == from || HasPath(mods, from, x)) {
        if x !in seen {
          PathExtends(mods, from, queue[0], x);
        }
      }
    }

    /** The inner loop of the search: look at the dependencies of one element. */
    method ScanDependencies(element: Id, toId: Id, queue: seq<Id>, inQueue: set<Id>)
      returns (found: bool, queue': seq<Id>, inQueue': set<Id>)
      requires Valid() && element in modules
      ensures found ==> DependsOn(Abs().modules, element, toId)
      ensures inQueue <= inQueue' && (forall x :: x in queue' <==> x in queue || (x in inQueue' && x !in inQueue))
      ensures inQueue' == inQueue ==> queue' == queue
      ensures forall x :: x in inQueue' && x !in inQueue ==> x in modules && DependsOn(Abs().modules, element, x)
      ensures !found ==> forall y :: DependsOn(Abs().modules, element, y) ==>
                           y != toId && (y in modules ==> y in inQueue')
    {
      queue', inQueue' := queue, inQueue;
      match modules[element].dependencies {
        case None => return false, queue', inQueue';
        case Some(dependencies) =>
          var i := 0;
          while i < |dependencies|
            invariant i <= |dependencies|
            invariant inQueue <= inQueue'
            invariant forall x :: x in queue' <==> x in queue || (x in inQueue' && x !in inQueue)
            invariant inQueue' == inQueue ==> queue' == queue
            invariant forall x :: x in inQueue' && x !in inQueue ==>
                        x in modules && DependsOn(Abs().modules, element, x)
            invariant forall k :: 0 <= k < i ==>
                        && dependencies[k].Id() != toId
                        && (dependencies[k].Id() in modules ==> dependencies[k].Id() in inQueue')
          {
            var d := dependencies[i].Id();
            assert DependsOn(Abs().modules, element, d);
            if d == toId {
              return true, queue', inQueue';
            }
            if d in modules && d !in inQueue' {
              inQueue' := inQueue' + {d};
              queue' := queue' + [d];
            }
            i := i + 1;
          }
          return false, queue', inQueue';
      }
    }

    /** One turn of the search: take the first element off the queue. */
    method SearchTurn(ghost fromId: Id, toId: Id, queue: seq<Id>, inQueue: set<Id>)
      returns (found: bool, queue': seq<Id>, inQueue': set<Id>)
      requires Valid() && queue != [] && Scanned(Abs().modules, fromId, toId, inQueue, queue)
      ensures found ==> HasPath(Abs().modules, fromId, toId)
      ensures !found ==> Scanned(Abs().modules, fromId, toId, inQueue', queue')
      ensures inQueue <= inQueue' && (forall x :: x in inQueue' && x !in inQueue ==> x in modules)
      ensures inQueue' == inQueue ==> |queue'| < |queue|
    {
      ghost var mods := Abs().modules;
      assert queue[0] in inQueue && queue[0] in mods;
      found, queue', inQueue' := ScanDependencies(queue[0], toId, queue[1..], inQueue);
      if found {
        PathExtends(mods, fromId, queue[0], toId);
      } else {
        ScannedOne(mods, fromId, toId, inQueue, queue, inQueue', queue');
      }
    }

    /** Breadth-first search over the dependency lists that are still present. */
    method HasDependencyPath(fromId: Id, toId: Id) returns (found: bool)
      requires Valid()
      ensures found <==> HasPath(Abs().modules, fromId, toId)
    {
      if fromId !in modules {
        NoPath(Abs().modules, {fromId}, fromId, toId);
        return false;
      }
      var queue := [fromId];
      var inQueue := {fromId};
      while queue != []
        invariant Scanned(Abs().modules, fromId, toId, inQueue, queue)
        decreases modules.Keys - inQueue, |queue|
      {
        found, queue, inQueue := SearchTurn(fromId, toId, queue, inQueue);
        if found {
          return true;
        }
      }
      NoPath(Abs().modules, inQueue, fromId, toId);
      return false;
    }

    // -------------------------------------------------------------- requests

    method LoadModule(d: Id)
      requires Valid()
      modifies this`knownModules, this`trace
      ensures Valid() && Abs() == RequestScriptOf(old(Abs()), d)
    {
      if d in modules || d in knownModules {
        return;
      }
      knownModules := knownModules + {d};
      trace := trace + [RequestScript(d)];
    }

    method LoadPluginDependency(plugin: Id, dep: Dep)
      requires Valid()
      modifies this`knownModules, this`trace
      ensures Valid() && Abs() == RequestResourceOf(old(Abs()), plugin, dep)
    {
      if dep.Id() in modules || dep.Id() in knownModules {
        return;
      }
      knownModules := knownModules + {dep.Id()};
      trace := trace + [RequestResource(dep.Id(), plugin)];
    }

    // -------------------------------------------------------------- completing modules

    method CollectValues(m: Module) returns (values: seq<Arg>)
      requires Valid() && m in modules.Values
      ensures values == Args(Abs().modules, m.dependencies)
    {
      values := [];
      match m.dependencies {
        case None =>
        case Some(dependencies) =>
          var i := 0;
          while i < |dependencies|
            invariant i <= |dependencies| && values == Args(Abs().modules, m.dependencies)[..i]
          {
            var value := NullValue;
            match dependencies[i] {
              case Exports => value := ExportsObject;
              case This => value := ThisModule;
              case Require => value := RequireFunction;
              case _ =>
                var d := dependencies[i].Id();
                if d in modules {
                  value := ExportsOf(d, modules[d].dependencies.None?);
                }
            }
            values := values + [value];
            i := i + 1;
          }
      }
    }

    /** Run `complete` on the module, with the values of its dependencies. */
    method CompleteModule(x: Id, values: seq<Arg>, waiters: seq<Id>)
      requires Valid() && x in modules && values == Args(Abs().modules, modules[x].dependencies)
      requires waiters == Waiters(inverseDependencies, x)
      modifies this`trace, modules[x]
      ensures Abs() == old(Abs()).(modules := old(Abs()).modules[x := CompletedMod(old(Abs()).modules[x], x, waiters)],
                                   trace := old(trace) + CompletionEvents(old(Abs()).modules, x, waiters))
    {
      var m := modules[x];
      ghost var before, deps, broken := Abs().modules, m.dependencies, m.broken;
      assert before[x] == m.Value();
      var factoryRan, thrown := m.Complete(waiters);
      trace := trace + ([Completed(x, if deps.Some? then deps.value else [], broken, values, factoryRan)]
                        + if thrown.Some? then [GlobalError(thrown.value)] else []);
      assert Abs().modules == before[x := CompletedMod(before[x], x, waiters)];
    }

    /** The first part of `_onModuleComplete`: complete the module and clear its list of waiters. */
    method SettleModule(x: Id) returns (inverseDeps: seq<Id>)
      requires Valid() && x in modules
      modifies this, modules[x]
      ensures Valid() && modules == old(modules)
      ensures Abs() == Settle(old(Abs()), x) && inverseDeps == Waiters(old(inverseDependencies), x)
    {
      var values := CollectValues(modules[x]);
      inverseDeps := Waiters(inverseDependencies, x);
      CompleteModule(x, values, inverseDeps);
      inverseDependencies := inverseDependencies - {x};
    }

    method DecrementCount(w: Id)
      requires Valid() && w in modules
      modifies modules[w]
      ensures Valid() && Abs() == Decrement(old(Abs()), w)
    {
      modules[w].unresolvedDependenciesCount := modules[w].unresolvedDependenciesCount - 1;
      assert Abs().modules == Decrement(old(Abs()), w).modules;
    }

    /** One turn of the loop over the waiters. */
    method ReleaseOne(w: Id)
      requires Valid() && WaitersDefined(Abs()) && w in modules
      modifies this, modules.Values
      ensures Valid() && modules == old(modules) && WaitersDefined(Abs())
      ensures Incomplete(Abs()) <= old(Incomplete(Abs()))
      ensures var s1 := Decrement(old(Abs()), w);
              && WaitersDefined(s1)
              && Abs() == if s1.modules[w].count == 0 then LoaderState.OnModuleComplete(s1, w) else s1
      decreases |Incomplete(Abs())|, 1
    {
      DecrementReady(Abs(), w);
      DecrementCount(w);
      if modules[w].unresolvedDependenciesCount == 0 {
        OnModuleComplete(w);
      }
    }

    /** The second part: release the waiters one at a time, completing those that are now ready. */
    method ReleaseWaiters(inverseDeps: seq<Id>)
      requires Valid() && WaitersDefined(Abs()) && forall y :: y in inverseDeps ==> y in modules
      modifies this, modules.Values
      ensures Valid() && modules == old(modules)
      ensures Abs() == Release(old(Abs()), inverseDeps)
      decreases |Incomplete(Abs())|, 2
    {
      ghost var s := Abs();
      var i := 0;
      while i < |inverseDeps|
        invariant i <= |inverseDeps|
        invariant Valid() && modules == old(modules) && WaitersDefined(Abs())
        invariant Incomplete(Abs()) <= Incomplete(s)
        invariant Release(Abs(), inverseDeps[i..]) == Release(s, inverseDeps)
      {
        assert inverseDeps[i..][1..] == inverseDeps[i + 1..] && inverseDeps[i..][0] == inverseDeps[i];
        CardinalityMonotone(Incomplete(Abs()), Incomplete(s));
        ReleaseOne(inverseDeps[i]);
        i := i + 1;
      }
    }

    /** The last part: hand queued resources to the plugin that has just completed. */
    method FlushPluginQueue(x: Id)
      requires Valid()
      modifies this`knownModules, this`trace, this`inversePluginDependencies
      ensures Valid() && Abs() == FlushPlugin(old(Abs()), x)
    {
      if x in inversePluginDependencies {
        var inversePluginDeps := inversePluginDependencies[x];
        inversePluginDependencies := inversePluginDependencies - {x};
        ghost var s := Abs();
        var i := 0;
        while i < |inversePluginDeps|
          invariant i <= |inversePluginDeps| && Valid()
          invariant RequestAll(Abs(), x, inversePluginDeps[i..]) == RequestAll(s, x, inversePluginDeps)
        {
          assert inversePluginDeps[i..][1..] == inversePluginDeps[i + 1..];
          LoadPluginDependency(x, inversePluginDeps[i]);
          i := i + 1;
        }
        assert inversePluginDeps[i..] == [];
        assert s == old(Abs()).(pluginQueue := old(Abs()).pluginQueue - {x});
      }
    }

    method OnModuleComplete(x: Id)
      requires Valid() && x in modules && WaitersDefined(Abs())
      modifies this, modules.Values
      ensures Valid() && modules == old(modules)
      ensures Abs() == LoaderState.OnModuleComplete(old(Abs()), x)
      decreases |Incomplete(Abs())|, 0
    {
      if modules[x].isComplete {
        return;
      }
      ghost var s := Abs();
      SettleReady(s, x);
      var inverseDeps := SettleModule(x);
      ReleaseWaiters(inverseDeps);
      FlushPluginQueue(x);
    }

    // -------------------------------------------------------------- resolving dependencies

    method MarkBroken(x: Id, i: nat)
      requires Valid() && x in modules
      modifies modules[x]
      ensures Valid() && Abs() == BreakCycle(old(Abs()), x, i)
    {
      modules[x].unresolvedDependenciesCount := modules[x].unresolvedDependenciesCount - 1;
      modules[x].broken := modules[x].broken + {i};
      assert Abs().modules == BreakCycle(old(Abs()), x, i).modules;
    }

    method RecordWait(x: Id, d: Id)
      requires Valid()
      modifies this`inverseDependencies
      ensures Valid() && Abs() == AddWaiter(old(Abs()), d, x)
    {
      inverseDependencies := inverseDependencies[d := Waiters(inverseDependencies, d) + [x]];
    }

    /** Ask for a dependency, directly or by queueing it behind its plugin. */
    method RequestDependency(dep: Dep)
      requires Valid() && dep.Ordinary()
      modifies this`inversePluginDependencies, this`knownModules, this`trace
      ensures Valid() && Abs() == RequestDep(old(Abs()), dep)
    {
      if dep.Plugin? {
        var p := dep.pluginId;
        if p in modules && modules[p].isComplete {
          LoadPluginDependency(p, dep);
        } else {
          var queue := if p in inversePluginDependencies then inversePluginDependencies[p] else [];
          inversePluginDependencies := inversePluginDependencies[p := queue + [dep]];
          assert Abs() == old(Abs()).(pluginQueue := inversePluginDependencies);
          LoadModule(p);
        }
      } else {
        LoadModule(dep.Id());
      }
    }

    /** A position that waits: record it and ask for the dependency. */
    method WaitFor(x: Id, dep: Dep)
      requires Valid() && dep.Ordinary()
      modifies this
      ensures Valid() && modules == old(modules)
      ensures Abs() == RequestDep(AddWaiter(old(Abs()), dep.Id(), x), dep)
    {
      RecordWait(x, dep.Id());
      RequestDependency(dep);
    }

    /** One position of the loop of `_resolve`; the dependency there has not failed. */
    method ExaminePosition(x: Id, i: nat)
      requires Valid() && x in modules && modules[x].dependencies.Some? && i < |modules[x].dependencies.value|
      modifies this, modules[x]
      ensures Valid() && modules == old(modules)
      ensures Abs() == Examine(old(Abs()), x, i)
    {
      var dep := modules[x].dependencies.value[i];
      assert Abs().modules[x].deps == Some(modules[x].dependencies.value);
      if !dep.Ordinary() {
        DecrementCount(x);
        return;
      }
      if dep.Id() in modules && modules[dep.Id()].isComplete {
        DecrementCount(x);
        return;
      }
      var cyclic := HasDependencyPath(dep.Id(), x);
      if cyclic {
        MarkBroken(x, i);
      } else {
        WaitFor(x, dep);
      }
    }

    method FailModule(x: Id, error: Error) returns (notified: bool)
      requires Valid() && x in modules
      modifies modules[x], this`trace
      ensures Valid() && Abs() == DependencyError(old(Abs()), x, error)
      ensures notified == old(modules[x].errorback)
    {
      notified := modules[x].OnDependencyError(error);
      if notified {
        trace := trace + [Errorback(x, error)];
      }
      assert Abs().modules == DependencyError(old(Abs()), x, error).modules;
    }

    /** One turn of the loop of `_resolve`; it ends the loop at a dependency that has failed. */
    method ResolveTurn(x: Id, i: nat) returns (failed: bool)
      requires Valid() && x in modules && modules[x].dependencies.Some? && i < |modules[x].dependencies.value|
      requires WaitersDefined(Abs())
      modifies this, modules[x]
      ensures Valid() && modules == old(modules)
      ensures failed ==> Abs() == LoaderState.Resolve(old(Abs()), x, i)
      ensures !failed ==> modules[x].dependencies == old(modules[x].dependencies) && WaitersDefined(Abs())
                          && LoaderState.Resolve(Abs(), x, i + 1) == LoaderState.Resolve(old(Abs()), x, i)
    {
      var dep := modules[x].dependencies.value[i];
      if dep.Ordinary() && dep.Id() in modules && modules[dep.Id()].isComplete && modules[dep.Id()].error.Some? {
        ghost var s := Abs();
        var _ := FailModule(x, modules[dep.Id()].error.value);
        assert FailedDep(s, dep) && Abs() == DependencyError(s, x, s.modules[dep.Id()].error.value);
        assert LoaderState.Resolve(s, x, i) == DependencyError(s, x, s.modules[dep.Id()].error.value);
        return true;
      }
      ExamineFrame(Abs(), x, i);
      ExaminePosition(x, i);
      return false;
    }

    /** The end of `_resolve`. */
    method FinishResolve(x: Id)
      requires Valid() && x in modules && modules[x].dependencies.Some? && WaitersDefined(Abs())
      modifies this, modules.Values
      ensures Valid() && modules == old(modules)
      ensures Abs() == LoaderState.Resolve(old(Abs()), x, |old(modules[x].dependencies.value)|)
    {
      if modules[x].unresolvedDependenciesCount == 0 {
        OnModuleComplete(x);
      }
    }

    method Resolve(x: Id)
      requires Valid() && x in modules && modules[x].dependencies.Some? && WaitersDefined(Abs())
      modifies this, modules.Values
      ensures Valid() && modules == old(modules)
      ensures Abs() == LoaderState.Resolve(old(Abs()), x, 0)
    {
      ghost var goal := LoaderState.Resolve(Abs(), x, 0);
      var dependencies := modules[x].dependencies.value;
      var i := 0;
      while i < |dependencies|
        invariant i <= |dependencies| && Valid() && modules == old(modules)
        invariant modules[x].dependencies == Some(dependencies) && WaitersDefined(Abs())
        invariant LoaderState.Resolve(Abs(), x, i) == goal
      {
        var failed := ResolveTurn(x, i);
        if failed {
          return;
        }
        i := i + 1;
      }
      FinishResolve(x);
    }

    /** A new record under an unused id. */
    method AddModule(x: Id, dependencies: seq<Dep>, callback: Callback, errorback: bool)
      requires Valid() && x !in modules
      modifies this`modules
      ensures Valid() && x in modules && fresh(modules[x]) && modules == old(modules)[x := modules[x]]
      ensures Abs() == WithRecord(old(Abs()), x, dependencies, callback, errorback)
    {
      var m := new Module(x, dependencies, callback, errorback);
      modules := modules[x := m];
      assert Abs().modules == old(Abs()).modules[x := NewMod(dependencies, callback, errorback)];
    }

    method DefineModule(x: Id, dependencies: seq<Dep>, callback: Callback, errorback: bool)
      requires Valid() && WaitersDefined(Abs())
      modifies this, modules.Values
      ensures Valid() && fresh(modules.Values - old(modules.Values))
      ensures Abs() == Define(old(Abs()), x, dependencies, callback, errorback)
    {
      if x in modules {
        return;
      }
      ghost var s := Abs();
      AddModule(x, dependencies, callback, errorback);
      SameWaiters(s, Abs());
      assert modules[x].Value() == Abs().modules[x];
      Resolve(x);
    }

    // -------------------------------------------------------------- load errors

    /** The inner loop of `_onLoadError`. */
    static method PushUnseen(waiters: seq<Id>, queue: seq<Id>, seen: set<Id>) returns (queue': seq<Id>, seen': set<Id>)
      ensures queue' == queue + Unseen(waiters, seen)
      ensures seen' == seen + Elements(Unseen(waiters, seen))
    {
      queue', seen' := queue, seen;
      var i := 0;
      while i < |waiters|
        invariant i <= |waiters|
        invariant queue' + Unseen(waiters[i..], seen') == queue + Unseen(waiters, seen)
        invariant seen' + Elements(Unseen(waiters[i..], seen')) == seen + Elements(Unseen(waiters, seen))
      {
        assert waiters[i..][1..] == waiters[i + 1..];
        ghost var rest := Unseen(waiters[i + 1..], seen' + {waiters[i]});
        if waiters[i] !in seen' {
          assert Unseen(waiters[i..], seen') == [waiters[i]] + rest;
          assert queue' + ([waiters[i]] + rest) == queue' + [waiters[i]] + rest;
          queue' := queue' + [waiters[i]];
          seen' := seen' + {waiters[i]};
        }
        i := i + 1;
      }
    }

    static lemma SomeoneNotifiedStep(s: State, t: State, ids: seq<Id>)
      requires ids != [] && s.modules.Keys == t.modules.Keys
      requires forall x :: x in s.modules ==> s.modules[x].errorback == t.modules[x].errorback
      ensures SomeoneNotified(s, ids) <==>
                (ids[0] in s.modules && s.modules[ids[0]].errorback) || SomeoneNotified(t, ids[1..])
    {
      if SomeoneNotified(s, ids) {
        var i :| 0 <= i < |ids| && ids[i] in s.modules && s.modules[ids[i]].errorback;
        assert i > 0 ==> ids[1..][i - 1] == ids[i];
      }
      if SomeoneNotified(t, ids[1..]) {
        var i :| 0 <= i < |ids| - 1 && ids[1..][i] in t.modules && t.modules[ids[1..][i]].errorback;
        assert ids[i + 1] == ids[1..][i];
      }
    }

    /** The first delivery of a list, and the rest. */
    static lemma DeliverTurn(s: State, ids: seq<Id>, error: Error)
      requires ids != []
      ensures var told := ids[0] in s.modules && s.modules[ids[0]].errorback;
              var t := if ids[0] in s.modules then DependencyError(s, ids[0], error) else s;
              && Deliver(s, ids, error) == Deliver(t, ids[1..], error)
              && (SomeoneNotified(s, ids) <==> told || SomeoneNotified(t, ids[1..]))
    {
      var t := if ids[0] in s.modules then DependencyError(s, ids[0], error) else s;
      SomeoneNotifiedStep(s, t, ids);
    }

    /** The first id of a walk, and the rest. */
    static lemma WalkTurn(inverse: map<Id, seq<Id>>, queue: seq<Id>, seen: set<Id>)
      requires queue != []
      ensures var added := Unseen(Waiters(inverse, queue[0]), seen);
              var order := Walk(inverse, queue, seen);
              && order != [] && order[0] == queue[0]
              && order[1..] == Walk(inverse, queue[1..] + added, seen + Elements(added))
      ensures Walk(inverse, [], seen) == []
    {
    }

    method NotifyOne(x: Id, error: Error) returns (notified: bool)
      requires Valid()
      modifies this`trace, modules.Values
      ensures Valid()
      ensures Abs() == if x in old(Abs()).modules then DependencyError(old(Abs()), x, error) else old(Abs())
      ensures notified <==> x in old(Abs()).modules && old(Abs()).modules[x].errorback
    {
      notified := false;
      if x in modules {
        notified := FailModule(x, error);
      }
    }

    /** One turn of the walk of `_onLoadError`: take an id off the queue, tell it, and push its waiters. */
    method NotifyTurn(queue: seq<Id>, seen: set<Id>, error: Error)
      returns (queue': seq<Id>, seen': set<Id>, notified: bool)
      requires Valid() && queue != []
      modifies this`trace, modules.Values
      ensures Valid()
      ensures Abs() == if queue[0] in old(Abs()).modules then DependencyError(old(Abs()), queue[0], error)
                       else old(Abs())
      ensures notified <==> queue[0] in old(Abs()).modules && old(Abs()).modules[queue[0]].errorback
      ensures var added := Unseen(Waiters(inverseDependencies, queue[0]), seen);
              queue' == queue[1..] + added && seen' == seen + Elements(added)
    {
      notified := NotifyOne(queue[0], error);
      queue', seen' := PushUnseen(Waiters(inverseDependencies, queue[0]), queue[1..], seen);
    }

    /** The walk of `_onLoadError`: tell `x` and everything that waits for it. */
    method NotifyWaiters(x: Id, error: Error) returns (someoneNotified: bool)
      requires Valid()
      modifies this`trace, modules.Values
      ensures Valid()
      ensures Abs() == Deliver(old(Abs()), Walk(inverseDependencies, [x], {x}), error)
      ensures someoneNotified <==> SomeoneNotified(old(Abs()), Walk(inverseDependencies, [x], {x}))
    {
      ghost var s, order := Abs(), Walk(inverseDependencies, [x], {x});
      ghost var rest, now := order, s;
      var seen, queue := {x}, [x];
      someoneNotified := false;
      while queue != []
        invariant Valid() && Abs() == now && rest == Walk(inverseDependencies, queue, seen)
        invariant Deliver(now, rest, error) == Deliver(s, order, error)
        invariant someoneNotified || SomeoneNotified(now, rest) <==> SomeoneNotified(s, order)
        decreases |AllWaiters(inverseDependencies) - seen|, |queue|
      {
        WalkTurn(inverseDependencies, queue, seen);
        DeliverTurn(now, rest, error);
        WalkProgress(inverseDependencies, queue[0], seen);
        var notified;
        queue, seen, notified := NotifyTurn(queue, seen, error);
        someoneNotified := notified || someoneNotified;
        rest, now := rest[1..], Abs();
      }
      assert rest == [];
    }

    method EnsureRecord(x: Id)
      requires Valid()
      modifies this`modules
      ensures Valid() && fresh(modules.Values - old(modules.Values))
      ensures Abs() == WithPlaceholder(old(Abs()), x)
    {
      if x !in modules {
        AddModule(x, [], Factory(false), false);
      }
    }

    /** Tell `x` and everything that waits for it, or else the global handler. */
    method NotifyOrReport(x: Id, error: Error)
      requires Valid()
      modifies this`trace, modules.Values
      ensures Valid() && Abs() == Notify(old(Abs()), Walk(inverseDependencies, [x], {x}), error)
    {
      var someoneNotified := NotifyWaiters(x, error);
      if !someoneNotified {
        Report(error);
      }
    }

    method OnLoadError(x: Id)
      requires Valid()
      modifies this, modules.Values
      ensures Valid() && fresh(modules.Values - old(modules.Values))
      ensures Abs() == LoadFails(old(Abs()), x)
    {
      var error := Error(Loading, x, Waiters(inverseDependencies, x));
      EnsureRecord(x);
      NotifyOrReport(x, error);
    }

    /** `load.error`, which a plugin calls when it could not load the resource `x`. */
    method OnResourceError(x: Id)
      requires Valid()
      modifies this`trace
      ensures Valid() && Abs() == ResourceFails(old(Abs()), x)
    {
      Report(Error(Loading, x, Waiters(inverseDependencies, x)));
    }

    /** The global error handler. */
    method Report(error: Error)
      requires Valid()
      modifies this`trace
      ensures Valid() && Abs() == old(Abs()).(trace := old(Abs()).trace + [GlobalError(error)])
    {
      trace := trace + [GlobalError(error)];
    }
  }
}
