/** What every event of a run has to do with the definitions: what a factory is called with, where cycles are broken,
    which errors a factory raises, who is told of an error, and who is asked for what. */
module LoaderEvents {
  import opened LoaderState
  import opened Options
  import opened Sequences
  import opened LoaderInvariant
  import opened LoaderRequests
  import opened LoaderTheorems
  import opened LoaderDefinitions

  // ---------------------------------------------------------------- events

  /** A value given to a factory, against the key at its position. */
  ghost predicate ArgFollows(dep: Dep, arg: Arg) {
    && (dep.Exports? <==> arg == ExportsObject)
    && (dep.This? <==> arg == ThisModule)
    && (dep.Require? <==> arg == RequireFunction)
    && (arg.ExportsOf? ==> dep.Ordinary() && arg.id == dep.Id())
  }

  /** A position at which a cycle was broken is on one: its dependency is defined and leads back. */
  ghost predicate OnCycle(defs: map<Id, Definition>, x: Id, k: nat) {
    && x in defs && k < |defs[x].deps| && defs[x].deps[k].Ordinary()
    && defs[x].deps[k].Id() in defs && ListLeads(defs, defs[x].deps[k].Id(), x)
  }

  ghost predicate CompletionFollows(defs: map<Id, Definition>, e: Event)
    requires e.Completed?
  {
    && e.id in defs && e.deps == defs[e.id].deps && |e.args| == |e.deps|
    && (e.factoryRan <==> defs[e.id].callback.Factory?)
    && (forall k :: 0 <= k < |e.deps| ==> ArgFollows(e.deps[k], e.args[k]))
    && (forall k :: k in e.broken ==> OnCycle(defs, e.id, k) && e.args[k].ExportsOf?)
  }

  /** The event at `i` is the error of a factory of `x`, with modules that need it. */
  ghost predicate FactoryErrorAt(defs: map<Id, Definition>, trace: seq<Event>, i: nat, x: Id) {
    && i < |trace| && trace[i].GlobalError? && trace[i].error.phase == InFactory && trace[i].error.id == x
    && forall y :: y in trace[i].error.neededBy ==> DependencyEdge(defs, y, x)
  }

  ghost predicate CompletedAt(trace: seq<Event>, i: nat, x: Id) {
    i < |trace| && trace[i].Completed? && trace[i].id == x
  }

  ghost predicate Throws(defs: map<Id, Definition>, x: Id) {
    x in defs && defs[x].callback == Factory(true)
  }

  ghost predicate AskedScript(defs: map<Id, Definition>, d: Id) {
    exists m :: m in defs && (Regular(d) in defs[m].deps || exists r: Id :: Plugin(r, d) in defs[m].deps)
  }

  ghost predicate EventFollows(modules: map<Id, Mod>, defs: map<Id, Definition>, trace: seq<Event>, i: nat)
    requires i < |trace|
  {
    match trace[i]
    case Completed(x, _, _, _, _) =>
      && CompletionFollows(defs, trace[i]) && x in modules && modules[x].Settled()
      && (Throws(defs, x) ==> FactoryErrorAt(defs, trace, i + 1, x))
    case GlobalError(error) =>
      error.phase == InFactory ==> i > 0 && CompletedAt(trace, i - 1, error.id) && Throws(defs, error.id)
    case Errorback(x, _) => x in defs && defs[x].errorback && forall j :: 0 <= j < i ==> !CompletedAt(trace, j, x)
    case RequestScript(d) => AskedScript(defs, d)
    case RequestResource(d, p) => ResourceEdge(defs, d, p) && p in modules && modules[p].complete
  }

  ghost predicate TraceFollows(modules: map<Id, Mod>, defs: map<Id, Definition>, trace: seq<Event>) {
    forall i :: 0 <= i < |trace| ==> EventFollows(modules, defs, trace, i)
  }

  // ---------------------------------------------------------------- records

  ghost predicate RecordFollows(m: Mod, def: Definition) {
    if m.Settled() then m.complete && !m.errorback
    else
      && m.deps.value == def.deps && m.callback == def.callback && m.errorback == def.errorback
      && (!m.complete ==> m.error.None?)
  }

  ghost predicate ModuleFollows(s: State, defs: map<Id, Definition>, x: Id) {
    && x in s.modules && x in defs && RecordFollows(s.modules[x], defs[x])
    && forall k :: k in s.modules[x].broken ==> OnCycle(defs, x, k)
  }

  ghost predicate RecordsFollow(s: State, defs: map<Id, Definition>) {
    s.modules.Keys == defs.Keys && forall x :: x in s.modules ==> ModuleFollows(s, defs, x)
  }

  ghost predicate Good(s: State, defs: map<Id, Definition>) {
    RecordsFollow(s, defs) && TraceFollows(s.modules, defs, s.trace) && Follows(s, defs)
  }

  /** Modules that have completed or ended stay so. */
  ghost predicate ModulesGrow(a: map<Id, Mod>, b: map<Id, Mod>) {
    forall x :: x in a ==> x in b && (a[x].Settled() ==> b[x].Settled()) && (a[x].complete ==> b[x].complete)
  }

  lemma EventStays(a: map<Id, Mod>, b: map<Id, Mod>, defs: map<Id, Definition>,
                   trace: seq<Event>, more: seq<Event>, i: nat)
    requires i < |trace| && EventFollows(a, defs, trace, i) && ModulesGrow(a, b)
    ensures EventFollows(b, defs, trace + more, i)
  {
    var t := trace + more;
    assert forall j :: 0 <= j < |trace| ==> t[j] == trace[j];
    assert forall j, x :: 0 <= j < |trace| ==> (CompletedAt(t, j, x) <==> CompletedAt(trace, j, x));
  }

  lemma TraceGrows(s: State, t: State, defs: map<Id, Definition>, more: seq<Event>)
    requires TraceFollows(s.modules, defs, s.trace) && ModulesGrow(s.modules, t.modules) && t.trace == s.trace + more
    requires forall i :: |s.trace| <= i < |t.trace| ==> EventFollows(t.modules, defs, t.trace, i)
    ensures TraceFollows(t.modules, defs, t.trace)
  {
    forall i | 0 <= i < |t.trace| ensures EventFollows(t.modules, defs, t.trace, i) {
      if i < |s.trace| {
        assert EventFollows(s.modules, defs, s.trace, i);
        EventStays(s.modules, t.modules, defs, s.trace, more, i);
      }
    }
  }

  /** More definitions: all that was said stays true. */
  lemma EventExtends(modules: map<Id, Mod>, defs: map<Id, Definition>, more: map<Id, Definition>,
                     trace: seq<Event>, i: nat)
    requires i < |trace| && EventFollows(modules, defs, trace, i) && Extends(defs, more)
    ensures EventFollows(modules, more, trace, i)
  {
    forall a, b { EdgesStay(defs, more, a, b); }
    match trace[i]
    case Completed(x, _, broken, _, _) =>
      forall k | k in broken ensures OnCycle(more, x, k) {
        ListLeadsStays(defs, more, defs[x].deps[k].Id(), x);
      }
    case RequestScript(d) =>
      var m :| m in defs && (Regular(d) in defs[m].deps || exists r: Id :: Plugin(r, d) in defs[m].deps);
      assert m in more && more[m] == defs[m];
    case _ =>
  }

  // ---------------------------------------------------------------- completing modules

  lemma ArgsFollow(modules: map<Id, Mod>, deps: seq<Dep>, k: nat)
    requires k < |deps|
    ensures |Args(modules, Some(deps))| == |deps| && ArgFollows(deps[k], Args(modules, Some(deps))[k])
    ensures deps[k].Ordinary() && deps[k].Id() in modules ==> Args(modules, Some(deps))[k].ExportsOf?
  {
  }

  lemma SettledEvent(s: State, x: Id, defs: map<Id, Definition>)
    requires x in s.modules && !s.modules[x].complete && Good(s, defs)
    ensures CompletionFollows(defs, CompletionEvents(s.modules, x, Waiters(s.inverse, x))[0])
  {
    assert ModuleFollows(s, defs, x);
    var e := CompletionEvents(s.modules, x, Waiters(s.inverse, x))[0];
    forall k | 0 <= k < |e.deps|
      ensures ArgFollows(e.deps[k], e.args[k])
      ensures k in e.broken ==> OnCycle(defs, x, k) && e.args[k].ExportsOf?
    {
      ArgsFollow(s.modules, e.deps, k);
    }
  }

  lemma SettleGood(s: State, x: Id, defs: map<Id, Definition>)
    requires x in s.modules && !s.modules[x].complete && Good(s, defs)
    ensures Good(Settle(s, x), defs)
  {
    var t := Settle(s, x);
    var ws := Waiters(s.inverse, x);
    var more := CompletionEvents(s.modules, x, ws);
    assert ModuleFollows(s, defs, x);
    SettledEvent(s, x, defs);
    forall y | y in ws ensures DependencyEdge(defs, y, x) {
      assert Waits(s.inverse, y, x);
    }
    assert t.trace == s.trace + more;
    assert t.trace[|s.trace|] == more[0] && (|more| > 1 ==> t.trace[|s.trace| + 1] == more[1]);
    TraceGrows(s, t, defs, more);
    forall y | y in t.modules ensures ModuleFollows(t, defs, y) {
      assert ModuleFollows(s, defs, y);
    }
    LessFollows(s, t, defs);
  }

  /** Only counters change, or what is broken does. */
  lemma SameTraceGood(s: State, t: State, defs: map<Id, Definition>)
    requires Good(s, defs) && t.trace == s.trace && ModulesGrow(s.modules, t.modules)
    requires RecordsFollow(t, defs) && Follows(t, defs)
    ensures Good(t, defs)
  {
    assert s.trace + [] == s.trace;
    TraceGrows(s, t, defs, []);
  }

  lemma DecrementGood(s: State, x: Id, defs: map<Id, Definition>)
    requires x in s.modules && Good(s, defs)
    ensures Good(Decrement(s, x), defs)
  {
    var t := Decrement(s, x);
    forall y | y in t.modules ensures ModuleFollows(t, defs, y) {
      assert ModuleFollows(s, defs, y);
    }
    LessFollows(s, t, defs);
    SameTraceGood(s, t, defs);
  }

  /** One more event, which leaves the records as they are. */
  lemma OneEventGood(s: State, t: State, e: Event, defs: map<Id, Definition>)
    requires Good(s, defs) && t.trace == s.trace + [e] && t.modules == s.modules && Follows(t, defs)
    requires EventFollows(t.modules, defs, t.trace, |s.trace|)
    ensures Good(t, defs)
  {
    TraceGrows(s, t, defs, [e]);
    forall y | y in t.modules ensures ModuleFollows(t, defs, y) {
      assert ModuleFollows(s, defs, y);
    }
  }

  lemma RequestResourceGood(s: State, p: Id, dep: Dep, defs: map<Id, Definition>)
    requires Good(s, defs) && ResourceEdge(defs, dep.Id(), p) && CompleteIn(s, p)
    ensures Good(RequestResourceOf(s, p, dep), defs)
  {
    var t := RequestResourceOf(s, p, dep);
    if t != s {
      LessFollows(s, t, defs);
      OneEventGood(s, t, RequestResource(dep.Id(), p), defs);
    }
  }

  lemma {:induction false} RequestAllGood(s: State, p: Id, deps: seq<Dep>, defs: map<Id, Definition>)
    requires Good(s, defs) && CompleteIn(s, p)
    requires forall k :: 0 <= k < |deps| ==> ResourceEdge(defs, deps[k].Id(), p)
    ensures Good(RequestAll(s, p, deps), defs)
    decreases |deps|
  {
    if deps != [] {
      RequestResourceGood(s, p, deps[0], defs);
      RequestAllGood(RequestResourceOf(s, p, deps[0]), p, deps[1..], defs);
    }
  }

  lemma FlushPluginGood(s: State, x: Id, defs: map<Id, Definition>)
    requires Good(s, defs) && CompleteIn(s, x)
    ensures Good(FlushPlugin(s, x), defs)
  {
    if x in s.pluginQueue {
      var s1 := s.(pluginQueue := s.pluginQueue - {x});
      forall y | y in s1.modules ensures ModuleFollows(s1, defs, y) {
        assert ModuleFollows(s, defs, y);
      }
      LessFollows(s, s1, defs);
      SameTraceGood(s, s1, defs);
      RequestAllGood(s1, x, s.pluginQueue[x], defs);
    }
  }

  lemma {:induction false} OnModuleCompleteGood(s: State, x: Id, defs: map<Id, Definition>)
    requires x in s.modules && WaitersDefined(s) && Good(s, defs)
    ensures Good(OnModuleComplete(s, x), defs)
    decreases |Incomplete(s)|, 0
  {
    if !s.modules[x].complete {
      var s1 := Settle(s, x);
      SettleReady(s, x);
      SettleGood(s, x, defs);
      ReleaseGood(s1, Waiters(s.inverse, x), defs);
      ReleaseKeeps(s1, Waiters(s.inverse, x));
      FlushPluginGood(Release(s1, Waiters(s.inverse, x)), x, defs);
    }
  }

  lemma {:induction false} ReleaseGood(s: State, ws: seq<Id>, defs: map<Id, Definition>)
    requires WaitersDefined(s) && (forall x :: x in ws ==> x in s.modules) && Good(s, defs)
    ensures Good(Release(s, ws), defs)
    decreases |Incomplete(s)|, 1, |ws|
  {
    if ws != [] {
      DecrementReady(s, ws[0]);
      DecrementGood(s, ws[0], defs);
      var s1 := Decrement(s, ws[0]);
      if s1.modules[ws[0]].count == 0 {
        OnModuleCompleteGood(s1, ws[0], defs);
      }
      var s2 := if s1.modules[ws[0]].count == 0 then OnModuleComplete(s1, ws[0]) else s1;
      CardinalityMonotone(Incomplete(s2), Incomplete(s));
      ReleaseGood(s2, ws[1..], defs);
    }
  }

  // ---------------------------------------------------------------- resolving

  /** A path that the search of `_hasDependencyPath` finds is one of the definitions. */
  lemma PathIsListed(s: State, defs: map<Id, Definition>, a: Id, b: Id)
    requires RecordsFollow(s, defs) && HasPath(s.modules, a, b)
    ensures a in defs && ListLeads(defs, a, b)
  {
    var p :| |p| >= 2 && Connects(p, a, b) && DepPath(s.modules, p);
    forall i | 0 <= i < |p| - 1 ensures ListEdge(defs, p[i], p[i + 1]) {
      assert DependsOn(s.modules, p[i], p[i + 1]) && ModuleFollows(s, defs, p[i]);
    }
    assert ListEdge(defs, p[0], p[0 + 1]) && ListPath(defs, p);
  }

  lemma BreakCycleGood(s: State, x: Id, i: nat, defs: map<Id, Definition>)
    requires Good(s, defs) && x in s.modules && s.modules[x].deps.Some? && i < |s.modules[x].deps.value|
    requires s.modules[x].deps.value[i].Ordinary() && HasPath(s.modules, s.modules[x].deps.value[i].Id(), x)
    ensures Good(BreakCycle(s, x, i), defs)
  {
    var t := BreakCycle(s, x, i);
    PathIsListed(s, defs, s.modules[x].deps.value[i].Id(), x);
    forall y | y in t.modules ensures ModuleFollows(t, defs, y) {
      assert ModuleFollows(s, defs, y);
    }
    LessFollows(s, t, defs);
    SameTraceGood(s, t, defs);
  }

  lemma RequestScriptGood(s: State, d: Id, defs: map<Id, Definition>)
    requires Good(s, defs) && AskedScript(defs, d)
    ensures Good(RequestScriptOf(s, d), defs)
  {
    var t := RequestScriptOf(s, d);
    if t != s {
      LessFollows(s, t, defs);
      OneEventGood(s, t, RequestScript(d), defs);
    }
  }

  lemma RequestDepGood(s: State, x: Id, i: nat, defs: map<Id, Definition>)
    requires Good(s, defs) && x in defs && i < |defs[x].deps| && defs[x].deps[i].Ordinary()
    ensures Good(RequestDep(s, defs[x].deps[i]), defs)
  {
    var dep := defs[x].deps[i];
    assert dep in defs[x].deps;
    match dep
    case Regular(d) => RequestScriptGood(s, d, defs);
    case Plugin(d, p) =>
      assert ResourceEdge(defs, d, p);
      if p in s.modules && s.modules[p].complete {
        RequestResourceGood(s, p, dep, defs);
      } else {
        var queue := if p in s.pluginQueue then s.pluginQueue[p] else [];
        var s1 := s.(pluginQueue := s.pluginQueue[p := queue + [dep]]);
        forall y | y in s1.modules ensures ModuleFollows(s1, defs, y) {
          assert ModuleFollows(s, defs, y);
        }
        SameTraceGood(s, s1, defs);
        RequestScriptGood(s1, p, defs);
      }
  }

  lemma AddWaiterGood(s: State, d: Id, x: Id, defs: map<Id, Definition>)
    requires Good(s, defs) && DependencyEdge(defs, x, d)
    ensures Good(AddWaiter(s, d, x), defs)
  {
    var t := AddWaiter(s, d, x);
    AddWaiterFollows(s, d, x, defs);
    forall y | y in t.modules ensures ModuleFollows(t, defs, y) {
      assert ModuleFollows(s, defs, y);
    }
    SameTraceGood(s, t, defs);
  }

  lemma ExamineGood(s: State, x: Id, i: nat, defs: map<Id, Definition>)
    requires Good(s, defs) && x in s.modules && s.modules[x].deps.Some? && i < |s.modules[x].deps.value|
    ensures Good(Examine(s, x, i), defs)
  {
    assert ModuleFollows(s, defs, x);
    var dep := s.modules[x].deps.value[i];
    if !dep.Ordinary() || CompleteIn(s, dep.Id()) {
      DecrementGood(s, x, defs);
    } else if HasPath(s.modules, dep.Id(), x) {
      BreakCycleGood(s, x, i, defs);
    } else {
      assert defs[x].deps[i] == dep && DependencyEdge(defs, x, dep.Id());
      AddWaiterGood(s, dep.Id(), x, defs);
      RequestDepGood(AddWaiter(s, dep.Id(), x), x, i, defs);
    }
  }

  lemma DependencyErrorGood(s: State, x: Id, error: Error, defs: map<Id, Definition>)
    requires Good(s, defs) && x in s.modules
    ensures Good(DependencyError(s, x, error), defs)
  {
    var t := DependencyError(s, x, error);
    assert ModuleFollows(s, defs, x);
    forall y | y in t.modules ensures ModuleFollows(t, defs, y) {
      assert ModuleFollows(s, defs, y);
    }
    LessFollows(s, t, defs);
    if s.modules[x].errorback {
      forall j | 0 <= j < |s.trace| ensures !CompletedAt(t.trace, j, x) {
        assert EventFollows(s.modules, defs, s.trace, j) && t.trace[j] == s.trace[j];
      }
      TraceGrows(s, t, defs, [Errorback(x, error)]);
    } else {
      assert t.trace == s.trace;
      SameTraceGood(s, t, defs);
    }
  }

  lemma {:induction false} ResolveGood(s: State, x: Id, i: nat, defs: map<Id, Definition>)
    requires x in s.modules && s.modules[x].deps.Some? && i <= |s.modules[x].deps.value|
    requires WaitersDefined(s) && Good(s, defs)
    ensures Good(Resolve(s, x, i), defs)
    decreases |s.modules[x].deps.value| - i
  {
    var deps := s.modules[x].deps.value;
    if i == |deps| {
      OnModuleCompleteGood(s, x, defs);
    } else if FailedDep(s, deps[i]) {
      DependencyErrorGood(s, x, s.modules[deps[i].Id()].error.value, defs);
    } else {
      ExamineFrame(s, x, i);
      ExamineGood(s, x, i, defs);
      ResolveGood(Examine(s, x, i), x, i + 1, defs);
    }
  }

  // ---------------------------------------------------------------- steps

  lemma WithRecordGood(s: State, x: Id, def: Definition, defs: map<Id, Definition>)
    requires Good(s, defs) && x !in s.modules
    ensures Good(WithRecord(s, x, def.deps, def.callback, def.errorback), defs[x := def])
  {
    var t, more := WithRecord(s, x, def.deps, def.callback, def.errorback), defs[x := def];
    MoreDefinitions(s, defs, more);
    forall i | 0 <= i < |s.trace| ensures EventFollows(t.modules, more, t.trace, i) {
      assert EventFollows(s.modules, defs, s.trace, i);
      EventExtends(s.modules, defs, more, s.trace, i);
      EventStays(s.modules, t.modules, more, s.trace, [], i);
      assert s.trace + [] == s.trace;
    }
    forall y | y in t.modules ensures ModuleFollows(t, more, y) {
      if y != x {
        assert ModuleFollows(s, defs, y);
        forall k | k in s.modules[y].broken ensures OnCycle(more, y, k) {
          ListLeadsStays(defs, more, defs[y].deps[k].Id(), y);
        }
      }
    }
    LessFollows(s, t, more);
  }

  lemma {:induction false} DeliverGood(s: State, ids: seq<Id>, error: Error, defs: map<Id, Definition>)
    requires Good(s, defs)
    ensures Good(Deliver(s, ids, error), defs)
    decreases |ids|
  {
    if ids != [] {
      if ids[0] in s.modules {
        DependencyErrorGood(s, ids[0], error, defs);
      }
      DeliverGood(if ids[0] in s.modules then DependencyError(s, ids[0], error) else s, ids[1..], error, defs);
    }
  }

  lemma ReportGood(s: State, error: Error, defs: map<Id, Definition>)
    requires Good(s, defs) && error.phase == Loading
    ensures Good(s.(trace := s.trace + [GlobalError(error)]), defs)
  {
    var t := s.(trace := s.trace + [GlobalError(error)]);
    LessFollows(s, t, defs);
    OneEventGood(s, t, GlobalError(error), defs);
  }

  lemma LoadFailsGood(s: State, x: Id, defs: map<Id, Definition>)
    requires Good(s, defs)
    ensures Good(LoadFails(s, x), if x in defs then defs else defs[x := Definition([], Factory(false), false)])
  {
    var more := if x in defs then defs else defs[x := Definition([], Factory(false), false)];
    var error := Error(Loading, x, Waiters(s.inverse, x));
    if x !in s.modules {
      WithRecordGood(s, x, Definition([], Factory(false), false), defs);
    }
    DeliverGood(WithPlaceholder(s, x), Hit(s, x), error, more);
    ReportGood(Deliver(WithPlaceholder(s, x), Hit(s, x), error), error, more);
  }

  lemma {:induction false} RunGood(steps: seq<Step>)
    ensures Good(Run(steps), Definitions(steps))
  {
    if steps != [] {
      var init := Init(steps);
      var s := Run(init);
      RunGood(init);
      match Last(steps)
      case DefineStep(x, deps, callback, errorback) =>
        if x !in s.modules {
          var s1 := WithRecord(s, x, deps, callback, errorback);
          WithRecordGood(s, x, Definition(deps, callback, errorback), Definitions(init));
          SameWaiters(s, s1);
          ResolveGood(s1, x, 0, Definitions(steps));
        }
      case LoadFailsStep(x) => LoadFailsGood(s, x, Definitions(init));
      case ResourceFailsStep(x) => ReportGood(s, Error(Loading, x, Waiters(s.inverse, x)), Definitions(init));
    }
  }

  // ---------------------------------------------------------------- results

  /** What a factory is called with, at every position: the exports object, the module object or the require function
      exactly where that key is; final exports of the dependency where no cycle was broken, and otherwise the exports
      of a dependency that is defined and leads back to the module.  The factory runs if the module has one. */
  lemma FactoryArguments(steps: seq<Step>, j: nat)
    requires j < |Run(steps).trace| && Run(steps).trace[j].Completed?
    ensures var e, defs := Run(steps).trace[j], Definitions(steps);
            && e.id in defs && e.deps == defs[e.id].deps && |e.args| == |e.deps|
            && (e.factoryRan <==> defs[e.id].callback.Factory?)
            && (forall k :: 0 <= k < |e.deps| ==>
                  && (e.deps[k].Exports? <==> e.args[k] == ExportsObject)
                  && (e.deps[k].This? <==> e.args[k] == ThisModule)
                  && (e.deps[k].Require? <==> e.args[k] == RequireFunction)
                  && (e.deps[k].Ordinary() ==> e.args[k].ExportsOf? && e.args[k].id == e.deps[k].Id()
                                               && (k !in e.broken ==> e.args[k].final)))
            && (forall k :: k in e.broken ==> OnCycle(defs, e.id, k))
  {
    RunGood(steps);
    FactoryRunsOnceWhenReady(steps, j);
    var s, defs := Run(steps), Definitions(steps);
    assert EventFollows(s.modules, defs, s.trace, j);
    var e := s.trace[j];
    forall k | 0 <= k < |e.deps| && e.deps[k].Ordinary()
      ensures e.args[k].ExportsOf? && e.args[k].id == e.deps[k].Id() && (k !in e.broken ==> e.args[k].final)
    {
      assert ArgFollows(e.deps[k], e.args[k]);
    }
  }

  /** Without a cycle in the definitions every factory gets the final exports of all its dependencies. */
  lemma AcyclicGetsFinalExports(steps: seq<Step>, j: nat, k: nat)
    requires j < |Run(steps).trace| && Run(steps).trace[j].Completed? && k < |Run(steps).trace[j].deps|
    requires AcyclicLists(Definitions(steps)) && Run(steps).trace[j].deps[k].Ordinary()
    ensures k < |Run(steps).trace[j].args|
    ensures Run(steps).trace[j].args[k] == ExportsOf(Run(steps).trace[j].deps[k].Id(), true)
  {
    FactoryArguments(steps, j);
    var e, defs := Run(steps).trace[j], Definitions(steps);
    if k in e.broken {
      assert ListEdge(defs, e.id, e.deps[k].Id());
      ListLeadsFrom(defs, e.id, e.deps[k].Id(), e.id);
    }
  }

  /** A factory error is reported exactly when a factory throws, right after it ran; it names the module, and modules
      that depend on it as those in need. */
  lemma FactoryErrors(steps: seq<Step>, j: nat)
    requires j < |Run(steps).trace|
    ensures var trace, defs := Run(steps).trace, Definitions(steps);
            && (trace[j].Completed? && Throws(defs, trace[j].id) ==>
                  FactoryErrorAt(defs, trace, j + 1, trace[j].id))
            && (trace[j].GlobalError? && trace[j].error.phase == InFactory ==>
                  j > 0 && CompletedAt(trace, j - 1, trace[j].error.id) && Throws(defs, trace[j].error.id))
  {
    RunGood(steps);
    assert EventFollows(Run(steps).modules, Definitions(steps), Run(steps).trace, j);
  }

  /** A local handler is called only for a module that was defined with one and has not completed. */
  lemma HandlerCalls(steps: seq<Step>, j: nat)
    requires j < |Run(steps).trace| && Run(steps).trace[j].Errorback?
    ensures var trace, defs := Run(steps).trace, Definitions(steps);
            && trace[j].id in defs && defs[trace[j].id].errorback
            && forall i :: 0 <= i < j ==> !CompletedAt(trace, i, trace[j].id)
  {
    RunGood(steps);
    assert EventFollows(Run(steps).modules, Definitions(steps), Run(steps).trace, j);
  }

  /** A script is requested for a plain dependency or a plugin, and a resource from its own plugin once that is
      complete. */
  lemma RequestsFollow(steps: seq<Step>, j: nat)
    requires j < |Run(steps).trace|
    ensures var s, defs := Run(steps), Definitions(steps);
            && (s.trace[j].RequestScript? ==> AskedScript(defs, s.trace[j].id))
            && (s.trace[j].RequestResource? ==>
                  ResourceEdge(defs, s.trace[j].id, s.trace[j].plugin) && CompleteIn(s, s.trace[j].plugin))
  {
    RunGood(steps);
    assert EventFollows(Run(steps).modules, Definitions(steps), Run(steps).trace, j);
  }

  /** When a module completes, that is the next event; if its factory throws, the error comes right after it, names
      exactly those who wait for the module, and is kept for those who will need it later. */
  lemma CompletionIsReported(s: State, x: Id)
    requires x in s.modules && !s.modules[x].complete && WaitersDefined(s)
    ensures var t, n := OnModuleComplete(s, x), |s.trace|;
            && n < |t.trace| && t.trace[..n] == s.trace && CompletedAt(t.trace, n, x)
            && (s.modules[x].callback == Factory(true) ==>
                  var error := Error(InFactory, x, Waiters(s.inverse, x));
                  && n + 1 < |t.trace| && t.trace[n + 1] == GlobalError(error)
                  && t.modules[x].error == Some(error))
  {
    var s1 := Settle(s, x);
    SettleReady(s, x);
    ReleaseKeeps(s1, Waiters(s.inverse, x));
    ReleaseNew(s1, Waiters(s.inverse, x));
    var s2 := Release(s1, Waiters(s.inverse, x));
    FlushPluginNew(s2, x);
    FlushPluginCore(s2, x);
    NewRequestsChain(s1, s2, FlushPlugin(s2, x));
    SameStart(s.trace, CompletionEvents(s.modules, x, Waiters(s.inverse, x)), OnModuleComplete(s, x).trace);
  }

  lemma SameStart(before: seq<Event>, more: seq<Event>, all: seq<Event>)
    requires before + more <= all
    ensures all[..|before|] == before && forall i :: 0 <= i < |more| ==> all[|before| + i] == more[i]
  {
    assert forall i :: 0 <= i < |more| ==> (before + more)[|before| + i] == more[i];
  }

  /** An error that a plugin reports for a resource goes to the global handler with those who wait for the resource, and
      nothing else happens. */
  lemma ResourceErrorIsReported(steps: seq<Step>, d: Id)
    ensures var s, t := Run(steps), Run(steps + [ResourceFailsStep(d)]);
            && t.trace == s.trace + [GlobalError(Error(Loading, d, Waiters(s.inverse, d)))]
            && t.modules == s.modules && t.inverse == s.inverse && t.known == s.known && t.pluginQueue == s.pluginQueue
  {
    RunFromStep(INITIAL, steps, ResourceFailsStep(d));
  }
}
