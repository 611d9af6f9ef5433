/** When everything completes that is requested and defined: the exact condition on the definitions of a run, with
    plugins that have dependencies too. */
module LoaderPlugins {
  import opened LoaderState
  import opened Sequences
  import opened LoaderTheorems
  import opened LoaderDefinitions
  import opened LoaderRequests

  // ---------------------------------------------------------------- what was defined

  /** `a` cannot complete before `b` has: it depends on it, or is a resource of it. */
  ghost predicate Edge(defs: map<Id, Definition>, a: Id, b: Id) {
    DependencyEdge(defs, a, b) || ResourceEdge(defs, a, b)
  }

  ghost predicate EdgePath(defs: map<Id, Definition>, p: seq<Id>) {
    forall i :: 0 <= i < |p| - 1 ==> Edge(defs, p[i], p[i + 1])
  }

  ghost predicate Leads(defs: map<Id, Definition>, a: Id, b: Id) {
    exists p :: Connects(p, a, b) && EdgePath(defs, p)
  }

  /** No plugin needs, through dependencies and plugins, a resource of its own that is not defined. */
  ghost predicate NoPluginCycle(defs: map<Id, Definition>) {
    forall d, p :: ResourceEdge(defs, d, p) && d !in defs ==> !Leads(defs, p, d)
  }

  /** Whatever is needed is defined. */
  ghost predicate AllDefined(defs: map<Id, Definition>) {
    forall a, b :: DependencyEdge(defs, a, b) ==> b in defs
  }

  lemma LeadsOn(defs: map<Id, Definition>, a: Id, b: Id, c: Id)
    requires Leads(defs, a, b) && Leads(defs, b, c)
    ensures Leads(defs, a, c)
  {
    var p :| Connects(p, a, b) && EdgePath(defs, p);
    var q :| Connects(q, b, c) && EdgePath(defs, q);
    var r := p + q[1..];
    forall i | 0 <= i < |r| - 1 ensures Edge(defs, r[i], r[i + 1]) {
      if i < |p| - 1 {
        assert Edge(defs, p[i], p[i + 1]);
      } else {
        var j := i - (|p| - 1);
        assert r[i] == q[j] && r[i + 1] == q[j + 1];
      }
    }
    assert Connects(r, a, c) && EdgePath(defs, r);
  }

  lemma EdgeLeads(defs: map<Id, Definition>, a: Id, b: Id)
    requires Edge(defs, a, b)
    ensures Leads(defs, a, b)
  {
    assert Connects([a, b], a, b) && EdgePath(defs, [a, b]);
  }

  // ---------------------------------------------------------------- undefined dependencies are waited for

  ghost predicate UndefinedWaited(s: State, defs: map<Id, Definition>) {
    forall x, d :: DependencyEdge(defs, x, d) && d !in s.modules ==> Waits(s.inverse, x, d)
  }

  lemma {:induction false} ResolveUndefined(s: State, x: Id, i: nat, k: nat)
    requires x in s.modules && s.modules[x].deps.Some? && i <= k < |s.modules[x].deps.value|
    requires WaitersDefined(s) && Clean(s)
    requires s.modules[x].deps.value[k].Ordinary() && s.modules[x].deps.value[k].Id() !in s.modules
    ensures Waits(Resolve(s, x, i).inverse, x, s.modules[x].deps.value[k].Id())
    decreases k - i
  {
    ExamineFrame(s, x, i);
    ExamineClean(s, x, i);
    if i == k {
      ExamineUndefined(s, x, i);
      ResolveKeepsWaits(Examine(s, x, i), x, i + 1);
    } else {
      ResolveUndefined(Examine(s, x, i), x, i + 1, k);
    }
  }

  /** A definition records all its dependencies on undefined ids. */
  lemma DefineUndefined(s: State, x: Id, deps: seq<Dep>, callback: Callback, errorback: bool, d: Id,
                        defs: map<Id, Definition>)
    requires x !in s.modules && WaitersDefined(s) && Clean(s) && callback != Factory(true)
    requires x in defs && defs[x].deps == deps && DependencyEdge(defs, x, d) && d != x && d !in s.modules
    ensures Waits(Define(s, x, deps, callback, errorback).inverse, x, d)
  {
    var s1 := WithRecord(s, x, deps, callback, errorback);
    SameWaiters(s, s1);
    var k :| 0 <= k < |deps| && deps[k].Ordinary() && deps[k].Id() == d;
    ResolveUndefined(s1, x, 0, k);
  }

  lemma {:induction false} RunUndefined(steps: seq<Step>)
    requires forall i :: 0 <= i < |steps| ==> CleanStep(steps[i])
    ensures UndefinedWaited(Run(steps), Definitions(steps))
  {
    if steps != [] {
      var init, last := Init(steps), Last(steps);
      var s, t := Run(init), Run(steps);
      assert CleanStep(last);
      RunUndefined(init);
      RunFollows(init);
      RunClean(init);
      ApplyKeepsWaits(s, last);
      forall x, d | DependencyEdge(Definitions(steps), x, d) && d !in t.modules ensures Waits(t.inverse, x, d) {
        if x in s.modules {
          assert DependencyEdge(Definitions(init), x, d);
        } else {
          DefineUndefined(s, x, last.deps, last.callback, last.errorback, d, Definitions(steps));
        }
      }
    }
  }

  /** If no load failed and no factory throws, everything is complete exactly when every dependency is defined,
      whatever cycles there are and in whatever order the definitions come. */
  lemma CompleteIffAllDefined(steps: seq<Step>)
    requires forall i :: 0 <= i < |steps| ==> CleanStep(steps[i])
    ensures EverythingComplete(Run(steps)) <==> AllDefined(Definitions(steps))
  {
    var s := Run(steps);
    RunClean(steps);
    RunFollows(steps);
    RunUndefined(steps);
    AllCompleteIff(steps);
    if AllDefined(Definitions(steps)) {
      forall x, d | Waits(s.inverse, x, d) ensures d in s.modules {
        assert DependencyEdge(Definitions(steps), x, d);
      }
    } else {
      var a, b :| DependencyEdge(Definitions(steps), a, b) && b !in Definitions(steps);
      assert Waits(s.inverse, a, b);
    }
  }

  // ---------------------------------------------------------------- plugins that wait for plugins

  /** `p` waits, through recorded waits, for an undefined resource that is queued behind `q`. */
  ghost predicate QueuedOn(s: State, p: Id, q: Id) {
    exists d :: WaitsThrough(s.inverse, p, d) && QueuedBehind(s, d, q, {}) && d !in s.modules
  }

  ghost predicate QueueChain(s: State, c: seq<Id>) {
    forall i :: 0 <= i < |c| - 1 ==> QueuedOn(s, c[i], c[i + 1])
  }

  ghost predicate QueueCycle(s: State, c: seq<Id>) {
    |c| >= 2 && c[0] == c[|c| - 1] && QueueChain(s, c)
  }

  /** No load failed, no factory throws, and every requested id has been defined. */
  ghost predicate CleanAndAnswered(steps: seq<Step>) {
    (forall i :: 0 <= i < |steps| ==> CleanStep(steps[i])) && Run(steps).known <= Run(steps).modules.Keys
  }

  ghost predicate Unfinished(s: State, x: Id) {
    x in s.modules && !s.modules[x].complete
  }

  ghost predicate EverythingComplete(s: State) {
    forall x :: x in s.modules ==> s.modules[x].complete
  }

  /** Whatever is unfinished waits for a resource of a plugin that is unfinished too. */
  lemma NextPlugin(steps: seq<Step>, x: Id) returns (q: Id)
    requires CleanAndAnswered(steps) && Unfinished(Run(steps), x)
    ensures QueuedOn(Run(steps), x, q) && Unfinished(Run(steps), q)
  {
    var s := Run(steps);
    RunClean(steps);
    var d := IncompleteWaitsForStuck(steps, x);
    var p :| Connects(p, x, d) && WaitPath(s.inverse, p);
    var y := p[|p| - 2];
    assert Waits(s.inverse, p[|p| - 2], p[|p| - 2 + 1]);
    WaitedForIsAsked(steps, y, d);
    q :| QueuedBehind(s, d, q, {});
    SettledMeansCompleted(steps, q);
  }

  lemma {:induction false} FindCycle(steps: seq<Step>, p: seq<Id>) returns (c: seq<Id>)
    requires CleanAndAnswered(steps) && |p| >= 1 && QueueChain(Run(steps), p)
    requires forall i :: 0 <= i < |p| ==> Unfinished(Run(steps), p[i])
    requires forall i, j :: 0 <= i < j < |p| ==> p[i] != p[j]
    ensures QueueCycle(Run(steps), c)
    decreases |Run(steps).modules.Keys| - |p|
  {
    var s := Run(steps);
    var q := NextPlugin(steps, Last(p));
    var more := p + [q];
    assert QueueChain(s, more) by {
      forall i | 0 <= i < |more| - 1 ensures QueuedOn(s, more[i], more[i + 1]) {
        assert i < |p| - 1 ==> QueuedOn(s, p[i], p[i + 1]);
      }
    }
    if j :| 0 <= j < |p| && p[j] == q {
      c := more[j..];
      forall i | 0 <= i < |c| - 1 ensures QueuedOn(s, c[i], c[i + 1]) {
        assert QueuedOn(s, more[j + i], more[j + i + 1]);
      }
    } else {
      DistinctBound(more, s.modules.Keys);
      c := FindCycle(steps, more);
    }
  }

  // ---------------------------------------------------------------- the condition on the definitions

  lemma WaitsLead(s: State, defs: map<Id, Definition>, a: Id, b: Id)
    requires Follows(s, defs) && WaitsThrough(s.inverse, a, b)
    ensures Leads(defs, a, b)
  {
    var p :| Connects(p, a, b) && WaitPath(s.inverse, p);
    forall i | 0 <= i < |p| - 1 ensures Edge(defs, p[i], p[i + 1]) {
      assert Waits(s.inverse, p[i], p[i + 1]);
    }
    assert EdgePath(defs, p);
  }

  /** A plugin that waits for a resource of another one leads to that resource, and so to the other plugin. */
  lemma QueuedLeads(s: State, defs: map<Id, Definition>, p: Id, q: Id) returns (d: Id)
    requires Follows(s, defs) && QueuedOn(s, p, q)
    ensures Leads(defs, p, d) && ResourceEdge(defs, d, q) && Leads(defs, p, q) && d !in s.modules
  {
    d :| WaitsThrough(s.inverse, p, d) && QueuedBehind(s, d, q, {}) && d !in s.modules;
    WaitsLead(s, defs, p, d);
    EdgeLeads(defs, d, q);
    LeadsOn(defs, p, d, q);
  }

  lemma {:induction false} ChainLeads(s: State, defs: map<Id, Definition>, c: seq<Id>, i: nat)
    requires Follows(s, defs) && QueueChain(s, c) && i < |c|
    ensures Leads(defs, c[i], Last(c))
    decreases |c| - i
  {
    if i == |c| - 1 {
      assert Connects([c[i]], c[i], c[i]) && EdgePath(defs, [c[i]]);
    } else {
      assert QueuedOn(s, c[i], c[i + 1]);
      var d := QueuedLeads(s, defs, c[i], c[i + 1]);
      ChainLeads(s, defs, c, i + 1);
      LeadsOn(defs, c[i], c[i + 1], Last(c));
    }
  }

  /** A circle of waiting plugins is a plugin that needs an undefined resource of its own. */
  lemma CycleLeads(s: State, defs: map<Id, Definition>, c: seq<Id>)
    requires Follows(s, defs) && s.modules.Keys == defs.Keys && QueueCycle(s, c)
    ensures !NoPluginCycle(defs)
  {
    assert QueuedOn(s, c[0], c[0 + 1]);
    var d := QueuedLeads(s, defs, c[0], c[1]);
    ChainLeads(s, defs, c, 1);
    LeadsOn(defs, c[1], c[0], d);
  }

  lemma AllDefinedHasNoCycle(defs: map<Id, Definition>)
    requires AllDefined(defs)
    ensures NoPluginCycle(defs)
  {
    forall d, p | ResourceEdge(defs, d, p) ensures d in defs {
      var m :| m in defs && Plugin(d, p) in defs[m].deps;
      assert DependencyEdge(defs, m, d);
    }
  }

  /** If no load failed, no factory throws and every requested id has been defined, everything is complete exactly
      when no plugin needs, through dependencies and plugins as they were defined, a resource of its own that is not
      defined.  In the state this shows as plugins that wait in a circle for resources queued behind each other. */
  lemma EverythingCompletesIff(steps: seq<Step>)
    requires CleanAndAnswered(steps)
    ensures EverythingComplete(Run(steps)) <==> NoPluginCycle(Definitions(steps))
    ensures EverythingComplete(Run(steps)) <==> forall c :: !QueueCycle(Run(steps), c)
    ensures EverythingComplete(Run(steps)) <==> Run(steps).pluginQueue == map[]
  {
    var s, defs := Run(steps), Definitions(steps);
    CompleteIffNothingQueued(steps);
    CompleteIffAllDefined(steps);
    RunFollows(steps);
    forall c | QueueCycle(s, c) ensures !NoPluginCycle(defs) {
      CycleLeads(s, defs, c);
    }
    if EverythingComplete(s) {
      AllDefinedHasNoCycle(defs);
    } else {
      var x :| x in s.modules && !s.modules[x].complete;
      var c := FindCycle(steps, [x]);
    }
  }

  // ---------------------------------------------------------------- a deadlock

  lemma RunTwo(a: Step, b: Step)
    ensures Run([a, b]) == Apply(Apply(INITIAL, a), b)
  {
    assert [a, b][..1] == [a] && [a][..0] == [];
    assert RunFrom(INITIAL, [a]) == Apply(RunFrom(INITIAL, []), a);
  }

  /** Defining a module whose only dependency is not complete and does not lead back just records the wait. */
  lemma WaitForOne(s: State, x: Id, dep: Dep, errorback: bool)
    requires x !in s.modules && dep.Ordinary() && WaitersDefined(s)
    requires var s1 := WithRecord(s, x, [dep], Value, errorback);
             !CompleteIn(s1, dep.Id()) && !HasPath(s1.modules, dep.Id(), x)
    ensures Define(s, x, [dep], Value, errorback)
         == RequestDep(AddWaiter(WithRecord(s, x, [dep], Value, errorback), dep.Id(), x), dep)
  {
    var s1 := WithRecord(s, x, [dep], Value, errorback);
    SameWaiters(s, s1);
    ExamineFrame(s1, x, 0);
    var s2 := Examine(s1, x, 0);
    RequestDepFrame(AddWaiter(s1, dep.Id(), x), dep);
    assert Resolve(s2, x, 1) == s2;
  }

  lemma FirstModule(x: Id, dep: Dep)
    requires dep.Ordinary() && dep.Id() != x && (dep.Plugin? ==> dep.pluginId != x)
    ensures var t := Define(INITIAL, x, [dep], Value, false);
            && t.modules == map[x := NewMod([dep], Value, false)]
            && t.inverse == map[dep.Id() := [x]]
            && t.known == {if dep.Plugin? then dep.pluginId else dep.Id()}
  {
    var modules := map[][x := NewMod([dep], Value, false)];
    assert INITIAL.modules[x := NewMod([dep], Value, false)] == modules;
    NoPath(modules, {dep.Id()}, dep.Id(), x);
    WaitForOne(INITIAL, x, dep, false);
    var s1 := INITIAL.(modules := modules);
    assert Waiters(s1.inverse, dep.Id()) + [x] == [x];
    assert AddWaiter(s1, dep.Id(), x).inverse == map[dep.Id() := [x]];
    RequestDepFrame(AddWaiter(s1, dep.Id(), x), dep);
  }

  lemma SecondOfDeadlock(s: State)
    requires s.modules == map[3 := NewMod([Plugin(4, 5)], Value, false)] && s.inverse == map[4 := [3]] && s.known == {5}
    requires WaitersDefined(s)
    ensures var t := Define(s, 5, [Regular(3)], Value, false);
            && t.known == {5} && t.modules == s.modules[5 := NewMod([Regular(3)], Value, false)]
  {
    var modules := s.modules[5 := NewMod([Regular(3)], Value, false)];
    assert modules[3].deps.value == [Plugin(4, 5)];
    NoPath(modules, {3}, 3, 5);
    WaitForOne(s, 5, Regular(3), false);
  }

  lemma DeadlockFirst(first: Step)
    requires first == DefineStep(3, [Plugin(4, 5)], Value, false)
    ensures var s := Apply(INITIAL, first);
            s.modules == map[3 := NewMod([Plugin(4, 5)], Value, false)] && s.inverse == map[4 := [3]] && s.known == {5}
  {
    FirstModule(3, Plugin(4, 5));
  }

  lemma DeadlockSecond(s: State, second: Step)
    requires s.modules == map[3 := NewMod([Plugin(4, 5)], Value, false)] && s.inverse == map[4 := [3]] && s.known == {5}
    requires WaitersDefined(s) && second == DefineStep(5, [Regular(3)], Value, false)
    ensures var t := Apply(s, second);
            t.known == {5} && t.modules.Keys == {3, 5} && Unfinished(t, 3) && Unfinished(t, 5) && Clean(t)
  {
    SecondOfDeadlock(s);
  }

  /** Plugins can deadlock: module 3 needs a resource of plugin 5, and plugin 5 needs module 3.  The search for
      cycles does not see it, since the resource is not defined; every requested id is defined and nothing
      failed, yet neither module is complete and nothing is left to happen. */
  lemma PluginDeadlock(first: Step, second: Step)
    requires first == DefineStep(3, [Plugin(4, 5)], Value, false)
    requires second == DefineStep(5, [Regular(3)], Value, false)
    ensures var t := Run([first, second]);
            && t.known == {5} && t.modules.Keys == {3, 5}
            && Unfinished(t, 3) && Unfinished(t, 5) && Clean(t)
  {
    RunTwo(first, second);
    DeadlockFirst(first);
    DeadlockSecond(Apply(INITIAL, first), second);
  }
}
