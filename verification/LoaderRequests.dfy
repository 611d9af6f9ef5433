/** Nothing is waited for that nobody asked for: every undefined id with a waiter has been requested, or is a
    plugin resource queued behind a plugin that has not completed. */
module LoaderRequests {
  import opened LoaderState
  import opened Sequences
  import opened LoaderInvariant
  import opened LoaderTheorems

  /** `d` is queued for plugin `p`, which is still to complete (or is being flushed: `flushing`). */
  ghost predicate QueuedBehind(s: State, d: Id, p: Id, flushing: set<Id>) {
    && p in s.pluginQueue && (exists k :: 0 <= k < |s.pluginQueue[p]| && s.pluginQueue[p][k].Id() == d)
    && (!SettledIn(s, p) || p in flushing)
    && (p in s.modules || p in s.known)
  }

  ghost predicate Asked(s: State, d: Id, flushing: set<Id>) {
    d in s.modules || d in s.known || exists p :: QueuedBehind(s, d, p, flushing)
  }

  predicate IsRequest(e: Event) {
    e.RequestScript? || e.RequestResource?
  }

  ghost predicate AllAsked(s: State, flushing: set<Id>) {
    forall x, d :: Waits(s.inverse, x, d) ==> Asked(s, d, flushing)
  }

  /** The known ids are those requested, and each was requested once. */
  ghost predicate RequestsOnce(s: State) {
    && (forall i :: 0 <= i < |s.trace| && IsRequest(s.trace[i]) ==> s.trace[i].id in s.known)
    && (forall i, j :: 0 <= i < j < |s.trace| && IsRequest(s.trace[i]) && IsRequest(s.trace[j]) ==>
          s.trace[i].id != s.trace[j].id)
    && (forall d :: d in s.known ==> exists i :: 0 <= i < |s.trace| && IsRequest(s.trace[i]) && s.trace[i].id == d)
  }

  ghost predicate SettledComplete(s: State) {
    forall x :: SettledIn(s, x) ==> s.modules[x].complete
  }

  /** Resources are queued behind plugins that have been asked for and have not completed. */
  ghost predicate QueuesOpen(s: State, flushing: set<Id>) {
    forall p :: p in s.pluginQueue ==> (p in s.modules || p in s.known) && (!SettledIn(s, p) || p in flushing)
  }

  ghost predicate ReqInv(s: State, flushing: set<Id>) {
    AllAsked(s, flushing) && RequestsOnce(s) && SettledComplete(s) && QueuesOpen(s, flushing)
  }

  /** More ids known, fewer waits, the same queues: still asked. */
  lemma AskedMonotone(s: State, t: State, flushing: set<Id>, flushing': set<Id>)
    requires AllAsked(s, flushing)
    requires s.modules.Keys <= t.modules.Keys && s.known <= t.known && t.pluginQueue == s.pluginQueue
    requires forall x, d :: Waits(t.inverse, x, d) ==> Waits(s.inverse, x, d)
    requires forall p :: p in s.pluginQueue && SettledIn(t, p) ==> SettledIn(s, p) || p in flushing'
    requires flushing <= flushing'
    ensures AllAsked(t, flushing')
  {
    forall x, d | Waits(t.inverse, x, d) ensures Asked(t, d, flushing') {
      assert Waits(s.inverse, x, d);
      assert Asked(s, d, flushing);
      if d !in s.modules && d !in s.known {
        var p :| QueuedBehind(s, d, p, flushing);
        assert QueuedBehind(t, d, p, flushing');
      }
    }
  }

  lemma QuietTrace(s: State, t: State, more: seq<Event>)
    requires RequestsOnce(s) && t.known == s.known && t.trace == s.trace + more
    requires forall i :: 0 <= i < |more| ==> !IsRequest(more[i])
    ensures RequestsOnce(t)
  {
    forall d | d in t.known ensures exists i :: 0 <= i < |t.trace| && IsRequest(t.trace[i]) && t.trace[i].id == d {
      var i :| 0 <= i < |s.trace| && IsRequest(s.trace[i]) && s.trace[i].id == d;
      assert t.trace[i] == s.trace[i];
    }
  }

  lemma OneRequest(s: State, e: Event)
    requires RequestsOnce(s) && IsRequest(e) && e.id !in s.known
    ensures RequestsOnce(s.(known := s.known + {e.id}, trace := s.trace + [e]))
  {
    var t := s.(known := s.known + {e.id}, trace := s.trace + [e]);
    forall d | d in t.known ensures exists i :: 0 <= i < |t.trace| && IsRequest(t.trace[i]) && t.trace[i].id == d {
      if d == e.id {
        assert t.trace[|s.trace|] == e;
      } else {
        var i :| 0 <= i < |s.trace| && IsRequest(s.trace[i]) && s.trace[i].id == d;
        assert t.trace[i] == s.trace[i];
      }
    }
  }

  // ---------------------------------------------------------------- completing modules

  lemma SettleReq(s: State, x: Id, flushing: set<Id>)
    requires x in s.modules && ReqInv(s, flushing)
    ensures ReqInv(Settle(s, x), flushing + {x})
  {
    var t := Settle(s, x);
    QuietTrace(s, t, CompletionEvents(s.modules, x, Waiters(s.inverse, x)));
    AskedMonotone(s, t, flushing, flushing + {x});
  }

  lemma DecrementReq(s: State, x: Id, flushing: set<Id>)
    requires x in s.modules && ReqInv(s, flushing)
    ensures ReqInv(Decrement(s, x), flushing)
  {
    QuietTrace(s, Decrement(s, x), []);
    AskedMonotone(s, Decrement(s, x), flushing, flushing);
  }

  lemma RequestResourceReq(s: State, plugin: Id, dep: Dep, flushing: set<Id>)
    requires ReqInv(s, flushing)
    ensures ReqInv(RequestResourceOf(s, plugin, dep), flushing)
  {
    var t := RequestResourceOf(s, plugin, dep);
    if t != s {
      OneRequest(s, RequestResource(dep.Id(), plugin));
      AskedMonotone(s, t, flushing, flushing);
    }
  }

  lemma {:induction false} RequestAllReq(s: State, plugin: Id, deps: seq<Dep>, flushing: set<Id>)
    requires ReqInv(s, flushing)
    ensures ReqInv(RequestAll(s, plugin, deps), flushing)
    ensures s.known <= RequestAll(s, plugin, deps).known && RequestAll(s, plugin, deps).modules == s.modules
    ensures forall k :: 0 <= k < |deps| ==>
              deps[k].Id() in s.modules || deps[k].Id() in RequestAll(s, plugin, deps).known
    decreases |deps|
  {
    if deps != [] {
      RequestResourceReq(s, plugin, deps[0], flushing);
      RequestAllReq(RequestResourceOf(s, plugin, deps[0]), plugin, deps[1..], flushing);
      forall k | 0 <= k < |deps|
        ensures deps[k].Id() in s.modules || deps[k].Id() in RequestAll(s, plugin, deps).known
      {
        if k > 0 {
          assert deps[k] == deps[1..][k - 1];
        }
      }
    }
  }

  /** After the flush the queue of `x` is not needed any more. */
  lemma FlushPluginReq(s: State, x: Id, flushing: set<Id>)
    requires ReqInv(s, flushing + {x})
    ensures ReqInv(FlushPlugin(s, x), flushing)
  {
    var t := FlushPlugin(s, x);
    var queue := if x in s.pluginQueue then s.pluginQueue[x] else [];
    RequestAllReq(s, x, queue, flushing + {x});
    FlushPluginIsRequestAll(s, x, queue);
    var u := RequestAll(s, x, queue);
    RequestAllFrame(s, x, queue);
    forall y, d | Waits(t.inverse, y, d) ensures Asked(t, d, flushing) {
      assert Waits(u.inverse, y, d);
      assert Asked(u, d, flushing + {x});
      if d !in u.modules && d !in u.known {
        var p :| QueuedBehind(u, d, p, flushing + {x});
        assert p != x;
        var k :| 0 <= k < |u.pluginQueue[p]| && u.pluginQueue[p][k].Id() == d;
        assert t.pluginQueue[p] == u.pluginQueue[p];
        assert QueuedBehind(t, d, p, flushing);
      }
    }
    QuietTrace(u, t, []);
  }

  lemma FlushPluginIsRequestAll(s: State, x: Id, queue: seq<Dep>)
    requires queue == if x in s.pluginQueue then s.pluginQueue[x] else []
    ensures FlushPlugin(s, x) == RequestAll(s, x, queue).(pluginQueue := s.pluginQueue - {x})
  {
    RequestAllQueue(s, x, queue, s.pluginQueue - {x});
    assert x !in s.pluginQueue ==> s.pluginQueue - {x} == s.pluginQueue;
  }

  lemma {:induction false} RequestAllQueue(s: State, x: Id, deps: seq<Dep>, queue: map<Id, seq<Dep>>)
    ensures RequestAll(s.(pluginQueue := queue), x, deps) == RequestAll(s, x, deps).(pluginQueue := queue)
    decreases |deps|
  {
    if deps != [] {
      RequestAllQueue(RequestResourceOf(s, x, deps[0]), x, deps[1..], queue);
    }
  }

  lemma {:induction false} OnModuleCompleteReq(s: State, x: Id, flushing: set<Id>)
    requires x in s.modules && WaitersDefined(s) && ReqInv(s, flushing)
    ensures ReqInv(OnModuleComplete(s, x), flushing)
    decreases |Incomplete(s)|, 0
  {
    if !s.modules[x].complete {
      SettleReady(s, x);
      SettleReq(s, x, flushing);
      ReleaseReq(Settle(s, x), Waiters(s.inverse, x), flushing + {x});
      FlushPluginReq(Release(Settle(s, x), Waiters(s.inverse, x)), x, flushing);
    }
  }

  lemma {:induction false} ReleaseReq(s: State, ws: seq<Id>, flushing: set<Id>)
    requires WaitersDefined(s) && (forall x :: x in ws ==> x in s.modules) && ReqInv(s, flushing)
    ensures ReqInv(Release(s, ws), flushing)
    decreases |Incomplete(s)|, 1, |ws|
  {
    if ws != [] {
      DecrementReady(s, ws[0]);
      DecrementReq(s, ws[0], flushing);
      var s1 := Decrement(s, ws[0]);
      if s1.modules[ws[0]].count == 0 {
        OnModuleCompleteReq(s1, ws[0], flushing);
      }
      var s2 := if s1.modules[ws[0]].count == 0 then OnModuleComplete(s1, ws[0]) else s1;
      CardinalityMonotone(Incomplete(s2), Incomplete(s));
      ReleaseReq(s2, ws[1..], flushing);
    }
  }

  // ---------------------------------------------------------------- resolving

  lemma RequestScriptReq(s: State, d: Id)
    requires ReqInv(s, {})
    ensures ReqInv(RequestScriptOf(s, d), {})
    ensures d in s.modules || d in RequestScriptOf(s, d).known
  {
    var t := RequestScriptOf(s, d);
    if t != s {
      OneRequest(s, RequestScript(d));
      AskedMonotone(s, t, {}, {});
    }
  }

  lemma EnqueueReq(s: State, dep: Dep)
    requires dep.Plugin? && ReqInv(s, {}) && !SettledIn(s, dep.pluginId)
    requires dep.pluginId in s.modules || dep.pluginId in s.known
    ensures var t := s.(pluginQueue := s.pluginQueue[dep.pluginId := Queue(s, dep.pluginId) + [dep]]);
            ReqInv(t, {}) && Asked(t, dep.Id(), {})
  {
    var t := s.(pluginQueue := s.pluginQueue[dep.pluginId := Queue(s, dep.pluginId) + [dep]]);
    forall x, d | Waits(t.inverse, x, d) ensures Asked(t, d, {}) {
      assert Waits(s.inverse, x, d);
      assert Asked(s, d, {});
      if d !in s.modules && d !in s.known {
        var p :| QueuedBehind(s, d, p, {});
        var k :| 0 <= k < |s.pluginQueue[p]| && s.pluginQueue[p][k].Id() == d;
        assert t.pluginQueue[p][k].Id() == d;
        assert QueuedBehind(t, d, p, {});
      }
    }
    QuietTrace(s, t, []);
    var k := |Queue(s, dep.pluginId)|;
    assert t.pluginQueue[dep.pluginId][k].Id() == dep.Id();
    assert QueuedBehind(t, dep.Id(), dep.pluginId, {});
  }

  function Queue(s: State, p: Id): seq<Dep> {
    if p in s.pluginQueue then s.pluginQueue[p] else []
  }

  lemma RequestDepReq(s: State, dep: Dep)
    requires dep.Ordinary() && ReqInv(s, {})
    ensures ReqInv(RequestDep(s, dep), {}) && Asked(RequestDep(s, dep), dep.Id(), {})
  {
    match dep
    case Regular(d) => RequestScriptReq(s, d);
    case Plugin(d, p) =>
      if p in s.modules && s.modules[p].complete {
        RequestResourceReq(s, p, dep, {});
      } else {
        RequestScriptReq(s, p);
        var s1 := RequestScriptOf(s, p);
        EnqueueReq(s1, dep);
        assert RequestDep(s, dep) == s1.(pluginQueue := s1.pluginQueue[p := Queue(s1, p) + [dep]]);
      }
  }

  lemma ExamineReq(s: State, x: Id, i: nat)
    requires x in s.modules && s.modules[x].deps.Some? && i < |s.modules[x].deps.value| && ReqInv(s, {})
    ensures ReqInv(Examine(s, x, i), {})
  {
    var dep := s.modules[x].deps.value[i];
    if !dep.Ordinary() || CompleteIn(s, dep.Id()) {
      DecrementReq(s, x, {});
    } else if HasPath(s.modules, dep.Id(), x) {
      QuietTrace(s, BreakCycle(s, x, i), []);
      AskedMonotone(s, BreakCycle(s, x, i), {}, {});
    } else {
      RequestDepReq(s, dep);
      RequestDepWaits(s, dep, x);
      var r := RequestDep(s, dep);
      var t := Examine(s, x, i);
      RequestDepFrame(s, dep);
      forall y, d | Waits(t.inverse, y, d) ensures Asked(t, d, {}) {
        assert Waits(s.inverse, y, d) || (y == x && d == dep.Id());
        assert Waits(s.inverse, y, d) ==> Waits(r.inverse, y, d);
        assert Asked(r, d, {});
        if d !in r.modules && d !in r.known {
          var p :| QueuedBehind(r, d, p, {});
          assert QueuedBehind(t, d, p, {});
        }
      }
      QuietTrace(r, t, []);
    }
  }

  /** Requests do not depend on the waits. */
  lemma RequestDepWaits(s: State, dep: Dep, x: Id)
    requires dep.Ordinary()
    ensures RequestDep(AddWaiter(s, dep.Id(), x), dep)
         == RequestDep(s, dep).(inverse := AddWaiter(s, dep.Id(), x).inverse)
  {
  }

  lemma DependencyErrorReq(s: State, x: Id, error: Error)
    requires x in s.modules && ReqInv(s, {})
    ensures ReqInv(DependencyError(s, x, error), {})
  {
    var t := DependencyError(s, x, error);
    QuietTrace(s, t, if s.modules[x].errorback then [Errorback(x, error)] else []);
    AskedMonotone(s, t, {}, {});
  }

  lemma {:induction false} ResolveReq(s: State, x: Id, i: nat)
    requires x in s.modules && s.modules[x].deps.Some? && i <= |s.modules[x].deps.value| && WaitersDefined(s)
    requires ReqInv(s, {})
    ensures ReqInv(Resolve(s, x, i), {})
    decreases |s.modules[x].deps.value| - i
  {
    var deps := s.modules[x].deps.value;
    if i == |deps| {
      OnModuleCompleteReq(s, x, {});
    } else if FailedDep(s, deps[i]) {
      DependencyErrorReq(s, x, s.modules[deps[i].Id()].error.value);
    } else {
      ExamineFrame(s, x, i);
      ExamineReq(s, x, i);
      ResolveReq(Examine(s, x, i), x, i + 1);
    }
  }

  lemma WithRecordReq(s: State, x: Id, deps: seq<Dep>, callback: Callback, errorback: bool)
    requires x !in s.modules && ReqInv(s, {})
    ensures ReqInv(WithRecord(s, x, deps, callback, errorback), {})
  {
    var t := WithRecord(s, x, deps, callback, errorback);
    QuietTrace(s, t, []);
    AskedMonotone(s, t, {}, {});
  }

  lemma {:induction false} DeliverReq(s: State, ids: seq<Id>, error: Error)
    requires ReqInv(s, {})
    ensures ReqInv(Deliver(s, ids, error), {})
    decreases |ids|
  {
    if ids != [] {
      if ids[0] in s.modules {
        DependencyErrorReq(s, ids[0], error);
      }
      DeliverReq(if ids[0] in s.modules then DependencyError(s, ids[0], error) else s, ids[1..], error);
    }
  }

  lemma LoadFailsReq(s: State, x: Id)
    requires ReqInv(s, {})
    ensures ReqInv(LoadFails(s, x), {})
  {
    var error := Error(Loading, x, Waiters(s.inverse, x));
    if x !in s.modules {
      WithRecordReq(s, x, [], Factory(false), false);
    }
    DeliverReq(WithPlaceholder(s, x), Hit(s, x), error);
    ReportReq(Deliver(WithPlaceholder(s, x), Hit(s, x), error), error);
  }

  lemma ReportReq(s: State, error: Error)
    requires ReqInv(s, {})
    ensures ReqInv(s.(trace := s.trace + [GlobalError(error)]), {})
  {
    var t := s.(trace := s.trace + [GlobalError(error)]);
    QuietTrace(s, t, [GlobalError(error)]);
    AskedMonotone(s, t, {}, {});
  }

  lemma {:induction false} RunReq(steps: seq<Step>)
    ensures ReqInv(Run(steps), {})
  {
    if steps != [] {
      var init := steps[..|steps| - 1];
      RunReq(init);
      var s := Run(init);
      match steps[|steps| - 1]
      case DefineStep(x, deps, callback, errorback) =>
        if x !in s.modules {
          var s1 := WithRecord(s, x, deps, callback, errorback);
          WithRecordReq(s, x, deps, callback, errorback);
          SameWaiters(s, s1);
          ResolveReq(s1, x, 0);
        }
      case LoadFailsStep(x) => LoadFailsReq(s, x);
      case ResourceFailsStep(x) => ReportReq(s, Error(Loading, x, Waiters(s.inverse, x)));
    }
  }

  // ---------------------------------------------------------------- results

  /** Every id that is waited for is defined, or was requested, or is queued behind a plugin that was itself
      requested or defined and has not completed. */
  lemma WaitedForIsAsked(steps: seq<Step>, x: Id, d: Id)
    requires Waits(Run(steps).inverse, x, d)
    ensures Asked(Run(steps), d, {})
  {
    RunReq(steps);
  }

  /** No id is requested twice. */
  lemma RequestedOnce(steps: seq<Step>)
    ensures RequestsOnce(Run(steps))
  {
    RunReq(steps);
  }

  // ---------------------------------------------------------------- only what is not defined is requested

  /** Events are only added, and the requests among them are for ids that are not defined. */
  ghost predicate NewRequests(s: State, t: State) {
    && s.trace <= t.trace
    && forall i :: |s.trace| <= i < |t.trace| && IsRequest(t.trace[i]) ==> t.trace[i].id !in s.modules
  }

  lemma NewRequestsChain(s: State, t: State, u: State)
    requires NewRequests(s, t) && NewRequests(t, u) && t.modules.Keys == s.modules.Keys
    ensures NewRequests(s, u)
  {
  }

  lemma {:induction false} RequestAllNew(s: State, plugin: Id, deps: seq<Dep>)
    ensures NewRequests(s, RequestAll(s, plugin, deps))
    decreases |deps|
  {
    if deps != [] {
      var t := RequestResourceOf(s, plugin, deps[0]);
      RequestAllNew(t, plugin, deps[1..]);
      NewRequestsChain(s, t, RequestAll(t, plugin, deps[1..]));
    }
  }

  lemma FlushPluginNew(s: State, x: Id)
    ensures NewRequests(s, FlushPlugin(s, x))
  {
    if x in s.pluginQueue {
      RequestAllNew(s.(pluginQueue := s.pluginQueue - {x}), x, s.pluginQueue[x]);
    }
  }

  lemma {:induction false} OnModuleCompleteNew(s: State, x: Id)
    requires x in s.modules && WaitersDefined(s)
    ensures NewRequests(s, OnModuleComplete(s, x))
    decreases |Incomplete(s)|, 0
  {
    if !s.modules[x].complete {
      var s1 := Settle(s, x);
      SettleReady(s, x);
      ReleaseNew(s1, Waiters(s.inverse, x));
      var s2 := Release(s1, Waiters(s.inverse, x));
      FlushPluginNew(s2, x);
      NewRequestsChain(s, s1, s2);
      NewRequestsChain(s, s2, FlushPlugin(s2, x));
    }
  }

  lemma {:induction false} ReleaseNew(s: State, ws: seq<Id>)
    requires WaitersDefined(s) && forall x :: x in ws ==> x in s.modules
    ensures NewRequests(s, Release(s, ws))
    decreases |Incomplete(s)|, 1, |ws|
  {
    if ws != [] {
      DecrementReady(s, ws[0]);
      var s1 := Decrement(s, ws[0]);
      if s1.modules[ws[0]].count == 0 {
        OnModuleCompleteNew(s1, ws[0]);
      }
      var s2 := if s1.modules[ws[0]].count == 0 then OnModuleComplete(s1, ws[0]) else s1;
      CardinalityMonotone(Incomplete(s2), Incomplete(s));
      ReleaseNew(s2, ws[1..]);
      NewRequestsChain(s, s2, Release(s2, ws[1..]));
    }
  }

  lemma ExamineNew(s: State, x: Id, i: nat)
    requires x in s.modules && s.modules[x].deps.Some? && i < |s.modules[x].deps.value|
    ensures NewRequests(s, Examine(s, x, i))
  {
  }

  lemma {:induction false} ResolveNew(s: State, x: Id, i: nat)
    requires x in s.modules && s.modules[x].deps.Some? && i <= |s.modules[x].deps.value| && WaitersDefined(s)
    ensures NewRequests(s, Resolve(s, x, i))
    decreases |s.modules[x].deps.value| - i
  {
    var deps := s.modules[x].deps.value;
    if i == |deps| {
      OnModuleCompleteNew(s, x);
    } else if !FailedDep(s, deps[i]) {
      ExamineFrame(s, x, i);
      ExamineNew(s, x, i);
      ResolveNew(Examine(s, x, i), x, i + 1);
      NewRequestsChain(s, Examine(s, x, i), Resolve(Examine(s, x, i), x, i + 1));
    }
  }

  /** A definition requests neither what is defined already nor itself. */
  lemma DefinedIsNotRequested(s: State, x: Id, deps: seq<Dep>, callback: Callback, errorback: bool)
    requires WaitersDefined(s)
    ensures var t := Define(s, x, deps, callback, errorback);
            && s.trace <= t.trace
            && forall i :: |s.trace| <= i < |t.trace| && (t.trace[i].RequestScript? || t.trace[i].RequestResource?) ==>
                 t.trace[i].id !in s.modules && t.trace[i].id != x
  {
    if x !in s.modules {
      var s1 := WithRecord(s, x, deps, callback, errorback);
      SameWaiters(s, s1);
      ResolveNew(s1, x, 0);
    }
  }

  // ---------------------------------------------------------------- runs without errors

  /** No error has happened or is going to come out of a factory. */
  ghost predicate Clean(s: State) {
    forall x :: x in s.modules ==> s.modules[x].error.None? && s.modules[x].callback != Factory(true)
  }

  lemma {:induction false} OnModuleCompleteClean(s: State, x: Id)
    requires x in s.modules && WaitersDefined(s) && Clean(s)
    ensures Clean(OnModuleComplete(s, x))
    decreases |Incomplete(s)|, 0
  {
    if !s.modules[x].complete {
      SettleReady(s, x);
      ReleaseClean(Settle(s, x), Waiters(s.inverse, x));
      FlushPluginCore(Release(Settle(s, x), Waiters(s.inverse, x)), x);
    }
  }

  lemma {:induction false} ReleaseClean(s: State, ws: seq<Id>)
    requires WaitersDefined(s) && (forall x :: x in ws ==> x in s.modules) && Clean(s)
    ensures Clean(Release(s, ws))
    decreases |Incomplete(s)|, 1, |ws|
  {
    if ws != [] {
      DecrementReady(s, ws[0]);
      var s1 := Decrement(s, ws[0]);
      if s1.modules[ws[0]].count == 0 {
        OnModuleCompleteClean(s1, ws[0]);
      }
      var s2 := if s1.modules[ws[0]].count == 0 then OnModuleComplete(s1, ws[0]) else s1;
      CardinalityMonotone(Incomplete(s2), Incomplete(s));
      ReleaseClean(s2, ws[1..]);
    }
  }

  lemma ExamineClean(s: State, x: Id, i: nat)
    requires x in s.modules && s.modules[x].deps.Some? && i < |s.modules[x].deps.value| && Clean(s)
    ensures Clean(Examine(s, x, i))
  {
    var dep := s.modules[x].deps.value[i];
    if dep.Ordinary() {
      RequestDepFrame(AddWaiter(s, dep.Id(), x), dep);
    }
  }

  lemma {:induction false} ResolveClean(s: State, x: Id, i: nat)
    requires x in s.modules && s.modules[x].deps.Some? && i <= |s.modules[x].deps.value| && WaitersDefined(s)
    requires Clean(s)
    ensures Clean(Resolve(s, x, i))
    decreases |s.modules[x].deps.value| - i
  {
    if i == |s.modules[x].deps.value| {
      OnModuleCompleteClean(s, x);
    } else {
      ExamineFrame(s, x, i);
      ExamineClean(s, x, i);
      ResolveClean(Examine(s, x, i), x, i + 1);
    }
  }

  predicate CleanStep(step: Step) {
    step.ResourceFailsStep? || (step.DefineStep? && step.callback != Factory(true))
  }

  lemma {:induction false} RunClean(steps: seq<Step>)
    requires forall i :: 0 <= i < |steps| ==> CleanStep(steps[i])
    ensures Clean(Run(steps))
  {
    if steps != [] {
      var init := steps[..|steps| - 1];
      var last := steps[|steps| - 1];
      RunClean(init);
      var s := Run(init);
      assert CleanStep(last);
      if last.DefineStep? && last.id !in s.modules {
        var s1 := WithRecord(s, last.id, last.deps, last.callback, last.errorback);
        SameWaiters(s, s1);
        ResolveClean(s1, last.id, 0);
      }
    }
  }

  /** If no load failed, no factory throws and every requested id has been defined, then every module is complete
      exactly when no resource is queued behind a plugin any more. */
  lemma CompleteIffNothingQueued(steps: seq<Step>)
    requires forall i :: 0 <= i < |steps| ==> CleanStep(steps[i])
    requires Run(steps).known <= Run(steps).modules.Keys
    ensures (forall x :: x in Run(steps).modules ==> Run(steps).modules[x].complete)
       <==> Run(steps).pluginQueue == map[]
  {
    var s := Run(steps);
    RunClean(steps);
    RunReq(steps);
    if x :| x in s.modules && !s.modules[x].complete {
      var y, d := UndefinedWait(steps, x);
      WaitedForIsAsked(steps, y, d);
      var p :| QueuedBehind(s, d, p, {});
      assert p in s.pluginQueue;
    } else if s.pluginQueue != map[] {
      var p :| p in s.pluginQueue;
      SettledMeansCompleted(steps, p);
    }
  }
}
