/** What the steps of a run define, the graphs of these definitions, and that the recorded waits and queues come from
    them. */
module LoaderDefinitions {
  import opened LoaderState
  import opened Options
  import opened Sequences
  import opened LoaderTheorems

  datatype Definition = Definition(deps: seq<Dep>, callback: Callback, errorback: bool)

  /** The first definition of each id; the record made for an id whose load failed counts as one. */
  function Definitions(steps: seq<Step>): map<Id, Definition> {
    if steps == [] then map[]
    else
      var defs, last := Definitions(Init(steps)), Last(steps);
      if last.ResourceFailsStep? || last.id in defs then defs
      else defs[last.id := if last.DefineStep? then Definition(last.deps, last.callback, last.errorback)
                           else Definition([], Factory(false), false)]
  }

  ghost predicate DependencyEdge(defs: map<Id, Definition>, a: Id, b: Id) {
    && a in defs
    && exists k :: 0 <= k < |defs[a].deps| && defs[a].deps[k].Ordinary() && defs[a].deps[k].Id() == b
  }

  /** Somebody needs the resource `d` of the plugin `p`. */
  ghost predicate ResourceEdge(defs: map<Id, Definition>, d: Id, p: Id) {
    exists m :: m in defs && Plugin(d, p) in defs[m].deps
  }

  /** `b` is on the list of `a`, be it as a special key. */
  ghost predicate ListEdge(defs: map<Id, Definition>, a: Id, b: Id) {
    a in defs && exists k :: 0 <= k < |defs[a].deps| && defs[a].deps[k].Id() == b
  }

  ghost predicate ListPath(defs: map<Id, Definition>, p: seq<Id>) {
    forall i :: 0 <= i < |p| - 1 ==> ListEdge(defs, p[i], p[i + 1])
  }

  /** A path of at least one edge leads from `a` to `b` over the lists as they were defined. */
  ghost predicate ListLeads(defs: map<Id, Definition>, a: Id, b: Id) {
    exists p :: |p| >= 2 && Connects(p, a, b) && ListPath(defs, p)
  }

  /** No module depends on itself, directly or through others. */
  ghost predicate AcyclicLists(defs: map<Id, Definition>) {
    forall x :: !ListLeads(defs, x, x)
  }

  /** All definitions stay when there are more. */
  ghost predicate Extends(defs: map<Id, Definition>, more: map<Id, Definition>) {
    forall x :: x in defs ==> x in more && more[x] == defs[x]
  }

  lemma EdgesStay(defs: map<Id, Definition>, more: map<Id, Definition>, a: Id, b: Id)
    requires Extends(defs, more)
    ensures DependencyEdge(defs, a, b) ==> DependencyEdge(more, a, b)
    ensures ResourceEdge(defs, a, b) ==> ResourceEdge(more, a, b)
    ensures ListEdge(defs, a, b) ==> ListEdge(more, a, b)
  {
    if ResourceEdge(defs, a, b) {
      var m :| m in defs && Plugin(a, b) in defs[m].deps;
      assert m in more && more[m] == defs[m];
    }
  }

  lemma ListLeadsStays(defs: map<Id, Definition>, more: map<Id, Definition>, a: Id, b: Id)
    requires Extends(defs, more) && ListLeads(defs, a, b)
    ensures ListLeads(more, a, b)
  {
    var p :| |p| >= 2 && Connects(p, a, b) && ListPath(defs, p);
    forall i | 0 <= i < |p| - 1 ensures ListEdge(more, p[i], p[i + 1]) {
      EdgesStay(defs, more, p[i], p[i + 1]);
    }
    assert ListPath(more, p);
  }

  lemma ListLeadsFrom(defs: map<Id, Definition>, a: Id, b: Id, c: Id)
    requires ListEdge(defs, a, b) && ListLeads(defs, b, c)
    ensures ListLeads(defs, a, c)
  {
    var p :| |p| >= 2 && Connects(p, b, c) && ListPath(defs, p);
    var q := [a] + p;
    forall i | 0 <= i < |q| - 1 ensures ListEdge(defs, q[i], q[i + 1]) {
      if i > 0 {
        assert ListEdge(defs, p[i - 1], p[i - 1 + 1]);
      }
    }
    assert Connects(q, a, c) && ListPath(defs, q);
  }

  // ---------------------------------------------------------------- the state follows the definitions

  ghost predicate WaitsFollow(s: State, defs: map<Id, Definition>) {
    forall x, d :: Waits(s.inverse, x, d) ==> DependencyEdge(defs, x, d)
  }

  ghost predicate QueuesFollow(s: State, defs: map<Id, Definition>) {
    forall p, k :: p in s.pluginQueue && 0 <= k < |s.pluginQueue[p]| ==> ResourceEdge(defs, s.pluginQueue[p][k].Id(), p)
  }

  ghost predicate Follows(s: State, defs: map<Id, Definition>) {
    WaitsFollow(s, defs) && QueuesFollow(s, defs)
  }

  /** Nothing is added to the lists of waiters or to the queues. */
  ghost predicate Less(s: State, t: State) {
    && (forall x, d :: Waits(t.inverse, x, d) ==> Waits(s.inverse, x, d))
    && (forall p :: p in t.pluginQueue ==> p in s.pluginQueue && t.pluginQueue[p] == s.pluginQueue[p])
  }

  lemma LessFollows(s: State, t: State, defs: map<Id, Definition>)
    requires Follows(s, defs) && Less(s, t)
    ensures Follows(t, defs)
  {
  }

  lemma FlushLess(s: State, x: Id)
    ensures Less(s, FlushPlugin(s, x))
  {
    if x in s.pluginQueue {
      RequestAllFrame(s.(pluginQueue := s.pluginQueue - {x}), x, s.pluginQueue[x]);
    }
  }

  lemma {:induction false} OnModuleCompleteLess(s: State, x: Id)
    requires x in s.modules && WaitersDefined(s)
    ensures Less(s, OnModuleComplete(s, x))
    decreases |Incomplete(s)|, 0
  {
    if !s.modules[x].complete {
      var s1 := Settle(s, x);
      SettleReady(s, x);
      ReleaseLess(s1, Waiters(s.inverse, x));
      FlushLess(Release(s1, Waiters(s.inverse, x)), x);
    }
  }

  lemma {:induction false} ReleaseLess(s: State, ws: seq<Id>)
    requires WaitersDefined(s) && forall x :: x in ws ==> x in s.modules
    ensures Less(s, Release(s, ws))
    decreases |Incomplete(s)|, 1, |ws|
  {
    if ws != [] {
      DecrementReady(s, ws[0]);
      var s1 := Decrement(s, ws[0]);
      if s1.modules[ws[0]].count == 0 {
        OnModuleCompleteLess(s1, ws[0]);
      }
      var s2 := if s1.modules[ws[0]].count == 0 then OnModuleComplete(s1, ws[0]) else s1;
      CardinalityMonotone(Incomplete(s2), Incomplete(s));
      ReleaseLess(s2, ws[1..]);
    }
  }

  lemma AddWaiterFollows(s: State, d: Id, x: Id, defs: map<Id, Definition>)
    requires Follows(s, defs) && DependencyEdge(defs, x, d)
    ensures Follows(AddWaiter(s, d, x), defs)
  {
    var t := AddWaiter(s, d, x);
    forall y, e | Waits(t.inverse, y, e) ensures DependencyEdge(defs, y, e) {
      assert Waits(s.inverse, y, e) || (y == x && e == d);
    }
  }

  lemma RequestDepFollows(s: State, dep: Dep, defs: map<Id, Definition>)
    requires dep.Ordinary() && Follows(s, defs) && (dep.Plugin? ==> ResourceEdge(defs, dep.Id(), dep.pluginId))
    ensures Follows(RequestDep(s, dep), defs)
  {
    RequestDepFrame(s, dep);
  }

  lemma ExamineFollows(s: State, x: Id, i: nat, defs: map<Id, Definition>)
    requires x in s.modules && x in defs && s.modules[x].deps == Some(defs[x].deps) && i < |defs[x].deps|
    requires Follows(s, defs)
    ensures Follows(Examine(s, x, i), defs)
  {
    var dep := defs[x].deps[i];
    if dep.Ordinary() {
      AddWaiterFollows(s, dep.Id(), x, defs);
      RequestDepFollows(AddWaiter(s, dep.Id(), x), dep, defs);
    }
  }

  lemma {:induction false} ResolveFollows(s: State, x: Id, i: nat, defs: map<Id, Definition>)
    requires x in s.modules && x in defs && s.modules[x].deps == Some(defs[x].deps) && i <= |defs[x].deps|
    requires WaitersDefined(s) && Follows(s, defs)
    ensures Follows(Resolve(s, x, i), defs)
    decreases |defs[x].deps| - i
  {
    if i == |defs[x].deps| {
      OnModuleCompleteLess(s, x);
      LessFollows(s, OnModuleComplete(s, x), defs);
    } else if !FailedDep(s, defs[x].deps[i]) {
      ExamineFrame(s, x, i);
      ExamineFollows(s, x, i, defs);
      ResolveFollows(Examine(s, x, i), x, i + 1, defs);
    }
  }

  lemma MoreDefinitions(s: State, defs: map<Id, Definition>, more: map<Id, Definition>)
    requires Follows(s, defs) && Extends(defs, more)
    ensures Follows(s, more)
  {
    forall a, b {
      EdgesStay(defs, more, a, b);
    }
  }

  /** What is recorded comes from the definitions. */
  lemma {:induction false} RunFollows(steps: seq<Step>)
    ensures Follows(Run(steps), Definitions(steps)) && Run(steps).modules.Keys == Definitions(steps).Keys
  {
    if steps != [] {
      var init, last := Init(steps), Last(steps);
      var s, defs := Run(init), Definitions(steps);
      RunFollows(init);
      MoreDefinitions(s, Definitions(init), defs);
      if last.DefineStep? && last.id !in s.modules {
        var s1 := WithRecord(s, last.id, last.deps, last.callback, last.errorback);
        SameWaiters(s, s1);
        ResolveFollows(s1, last.id, 0, defs);
      } else if last.LoadFailsStep? {
        LoadFailsLess(s, last.id);
        LessFollows(s, LoadFails(s, last.id), defs);
      }
    }
  }

  lemma LoadFailsLess(s: State, x: Id)
    ensures Less(s, LoadFails(s, x))
  {
    DeliverEffect(WithPlaceholder(s, x), Hit(s, x), Error(Loading, x, Waiters(s.inverse, x)));
  }
}
