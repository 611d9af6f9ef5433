/** In which order the module manager does things that it could do in several orders: requests follow the dependency
    lists, modules that wait for the same one complete in the order in which they began to wait, queued resources are
    requested in the order in which they were queued, and a load error is delivered nearest first. */
module LoaderOrder {
  import opened LoaderState
  import opened Options
  import opened Sequences
  import opened LoaderTheorems
  import opened LoaderPlugins

  // ---------------------------------------------------------------- requests in the order of the list

  function Regulars(ds: seq<Id>): seq<Dep> {
    seq(|ds|, i requires 0 <= i < |ds| => Regular(ds[i]))
  }

  function Scripts(ds: seq<Id>): seq<Event> {
    seq(|ds|, i requires 0 <= i < |ds| => RequestScript(ds[i]))
  }

  /** None of these, from position `i` on, was defined or requested. */
  ghost predicate Fresh(s: State, ds: seq<Id>, i: nat) {
    forall j :: i <= j < |ds| ==> ds[j] !in s.modules && ds[j] !in s.known
  }

  ghost predicate Distinct(ds: seq<Id>) {
    forall i, j :: 0 <= i < j < |ds| ==> ds[i] != ds[j]
  }

  /** Examining a position whose dependency is neither defined nor requested. */
  lemma ExamineFresh(s: State, x: Id, ds: seq<Id>, i: nat)
    requires x in s.modules && s.modules[x].deps == Some(Regulars(ds)) && i < |ds| && Fresh(s, ds, i)
    ensures var t := Examine(s, x, i);
            t.modules == s.modules && t.known == s.known + {ds[i]} && t.trace == s.trace + [RequestScript(ds[i])]
  {
    NoPath(s.modules, {ds[i]}, ds[i], x);
    RequestDepFrame(AddWaiter(s, ds[i], x), Regular(ds[i]));
  }

  lemma ResolveFresh(s: State, x: Id, ds: seq<Id>, i: nat) returns (t: State)
    requires x in s.modules && s.modules[x].deps == Some(Regulars(ds)) && i < |ds| && WaitersDefined(s)
    requires Fresh(s, ds, i) && Distinct(ds)
    ensures t.modules == s.modules && WaitersDefined(t) && t.trace == s.trace + [RequestScript(ds[i])]
    ensures Fresh(t, ds, i + 1) && Resolve(s, x, i) == Resolve(t, x, i + 1)
  {
    t := Examine(s, x, i);
    ExamineFresh(s, x, ds, i);
    ExamineFrame(s, x, i);
    assert !FailedDep(s, Regular(ds[i]));
  }

  lemma ScriptsFrom(ds: seq<Id>, i: nat)
    requires i < |ds|
    ensures Scripts(ds[i..]) == [RequestScript(ds[i])] + Scripts(ds[i + 1..])
  {
  }

  lemma {:induction false} ResolveInOrder(s: State, x: Id, ds: seq<Id>, i: nat)
    requires x in s.modules && s.modules[x].deps == Some(Regulars(ds)) && i <= |ds| && WaitersDefined(s)
    requires s.modules[x].count > 0 && Fresh(s, ds, i) && Distinct(ds)
    ensures Resolve(s, x, i).trace == s.trace + Scripts(ds[i..])
    decreases |ds| - i
  {
    if i < |ds| {
      var t := ResolveFresh(s, x, ds, i);
      ResolveInOrder(t, x, ds, i + 1);
      ScriptsFrom(ds, i);
    } else {
      assert Scripts(ds[i..]) == [];
    }
  }

  /** The scripts of new dependencies are requested in the order of the list. */
  lemma RequestedInListOrder(s: State, x: Id, ds: seq<Id>, callback: Callback, errorback: bool)
    requires WaitersDefined(s) && x !in s.modules && x !in ds && ds != [] && Fresh(s, ds, 0) && Distinct(ds)
    ensures Define(s, x, Regulars(ds), callback, errorback).trace == s.trace + Scripts(ds)
  {
    var s1 := WithRecord(s, x, Regulars(ds), callback, errorback);
    SameWaiters(s, s1);
    assert ds[0..] == ds;
    ResolveInOrder(s1, x, ds, 0);
  }

  // ---------------------------------------------------------------- first come, first served

  /** The modules `xs` were defined with `x` as their dependency, and then the modules `zs`, each with a resource of the
      plugin `x`. */
  function Arrivals(xs: seq<Id>, zs: seq<Id>, rs: seq<Id>, x: Id, errorback: bool): seq<Step>
    requires |rs| == |zs|
  {
    seq(|xs|, i requires 0 <= i < |xs| => DefineStep(xs[i], [Regular(x)], Value, errorback))
    + seq(|zs|, i requires 0 <= i < |zs| => DefineStep(zs[i], [Plugin(rs[i], x)], Value, errorback))
  }

  function Resources(rs: seq<Id>, x: Id): seq<Dep> {
    seq(|rs|, i requires 0 <= i < |rs| => Plugin(rs[i], x))
  }

  function ResourceRequests(rs: seq<Id>, x: Id): seq<Event> {
    seq(|rs|, i requires 0 <= i < |rs| => RequestResource(rs[i], x))
  }

  function WaiterCompletions(xs: seq<Id>, x: Id): seq<Event> {
    seq(|xs|, i requires 0 <= i < |xs| => Completed(xs[i], [Regular(x)], {}, [ExportsOf(x, true)], false))
  }

  /** All ids of the arrivals are different. */
  ghost predicate Apart(xs: seq<Id>, zs: seq<Id>, rs: seq<Id>, x: Id) {
    && |rs| == |zs| && Distinct(xs) && Distinct(zs) && Distinct(rs)
    && x !in xs && x !in zs && x !in rs
    && (forall y :: y in xs ==> y !in zs && y !in rs)
    && (forall y :: y in zs ==> y !in rs)
  }

  ghost predicate Records(modules: map<Id, Mod>, xs: seq<Id>, zs: seq<Id>, rs: seq<Id>, x: Id, errorback: bool) {
    && |rs| == |zs| && modules.Keys == Elements(xs) + Elements(zs)
    && (forall y :: y in xs ==> y in modules && modules[y] == NewMod([Regular(x)], Value, errorback))
    && (forall i :: 0 <= i < |zs| ==>
          zs[i] in modules && modules[zs[i]] == NewMod([Plugin(rs[i], x)], Value, errorback))
  }

  /** The state after the arrivals. */
  ghost predicate Arrived(s: State, xs: seq<Id>, zs: seq<Id>, rs: seq<Id>, x: Id, errorback: bool) {
    && Records(s.modules, xs, zs, rs, x, errorback)
    && Waiters(s.inverse, x) == xs && (forall d :: d in s.inverse ==> d == x || d in rs) && WaitersDefined(s)
    && s.pluginQueue == QueueOf(rs, x)
    && s.known == (if |xs| + |zs| == 0 then {} else {x})
    && s.trace == (if |xs| + |zs| == 0 then [] else [RequestScript(x)])
  }

  /** A definition with one dependency on `x`, which is not defined. */
  lemma DefineOnRegular(s: State, w: Id, x: Id, errorback: bool)
    requires w !in s.modules && x !in s.modules && x != w && WaitersDefined(s)
    ensures Define(s, w, [Regular(x)], Value, errorback)
         == RequestScriptOf(AddWaiter(WithRecord(s, w, [Regular(x)], Value, errorback), x, w), x)
  {
    var s1 := WithRecord(s, w, [Regular(x)], Value, errorback);
    NoPath(s1.modules, {x}, x, w);
    WaitForOne(s, w, Regular(x), errorback);
  }

  function Queued(s: State, x: Id): seq<Dep> {
    if x in s.pluginQueue then s.pluginQueue[x] else []
  }

  function QueueOf(rs: seq<Id>, x: Id): map<Id, seq<Dep>> {
    if rs == [] then map[] else map[x := Resources(rs, x)]
  }

  lemma QueueGrows(s: State, rs: seq<Id>, x: Id, r: Id)
    requires s.pluginQueue == QueueOf(rs, x)
    ensures s.pluginQueue[x := Queued(s, x) + [Plugin(r, x)]] == QueueOf(rs + [r], x)
  {
    assert Resources(rs + [r], x) == Queued(s, x) + [Plugin(r, x)];
  }

  lemma DefineOnResource(s: State, z: Id, r: Id, x: Id, errorback: bool)
    requires z !in s.modules && x !in s.modules && r !in s.modules && x != z && r != z && WaitersDefined(s)
    ensures Define(s, z, [Plugin(r, x)], Value, errorback)
         == RequestScriptOf(AddWaiter(WithRecord(s, z, [Plugin(r, x)], Value, errorback), r, z)
                            .(pluginQueue := s.pluginQueue[x := Queued(s, x) + [Plugin(r, x)]]), x)
  {
    var s1 := WithRecord(s, z, [Plugin(r, x)], Value, errorback);
    NoPath(s1.modules, {r}, r, z);
    WaitForOne(s, z, Plugin(r, x), errorback);
  }

  lemma MoreRecords(modules: map<Id, Mod>, xs: seq<Id>, x: Id, w: Id, errorback: bool)
    requires Records(modules, xs, [], [], x, errorback) && w !in xs
    ensures Records(modules[w := NewMod([Regular(x)], Value, errorback)], xs + [w], [], [], x, errorback)
  {
    assert Elements(xs + [w]) == Elements(xs) + {w};
  }

  lemma MoreQueued(modules: map<Id, Mod>, xs: seq<Id>, zs: seq<Id>, rs: seq<Id>, x: Id, z: Id, r: Id, errorback: bool)
    requires Records(modules, xs, zs, rs, x, errorback) && z !in xs && z !in zs
    ensures Records(modules[z := NewMod([Plugin(r, x)], Value, errorback)], xs, zs + [z], rs + [r], x, errorback)
  {
    assert Elements(zs + [z]) == Elements(zs) + {z};
  }

  lemma WaiterOfResource(inverse: map<Id, seq<Id>>, xs: seq<Id>, rs: seq<Id>, x: Id, z: Id, r: Id)
    requires Waiters(inverse, x) == xs && (forall d :: d in inverse ==> d == x || d in rs) && r !in rs && r != x
    ensures var inverse' := inverse[r := Waiters(inverse, r) + [z]];
            Waiters(inverse', x) == xs && (forall d :: d in inverse' ==> d == x || d in rs + [r])
  {
  }

  lemma OneArrives(s: State, xs: seq<Id>, x: Id, w: Id, errorback: bool)
    requires Arrived(s, xs, [], [], x, errorback) && w !in xs && w != x && x !in xs
    ensures Arrived(Define(s, w, [Regular(x)], Value, errorback), xs + [w], [], [], x, errorback)
  {
    DefineOnRegular(s, w, x, errorback);
    MoreRecords(s.modules, xs, x, w, errorback);
  }

  lemma OneQueues(s: State, xs: seq<Id>, zs: seq<Id>, rs: seq<Id>, x: Id, z: Id, r: Id, errorback: bool)
    requires Arrived(s, xs, zs, rs, x, errorback) && z !in xs && z !in zs && z != x && x !in xs && x !in zs
    requires r !in rs && r != x && r != z && r !in xs && r !in zs
    ensures Arrived(Define(s, z, [Plugin(r, x)], Value, errorback), xs, zs + [z], rs + [r], x, errorback)
  {
    DefineOnResource(s, z, r, x, errorback);
    WaiterOfResource(s.inverse, xs, rs, x, z, r);
    MoreQueued(s.modules, xs, zs, rs, x, z, r, errorback);
    QueueGrows(s, rs, x, r);
  }

  lemma LastArrival(xs: seq<Id>, zs: seq<Id>, rs: seq<Id>, x: Id, errorback: bool)
    requires |rs| == |zs| > 0
    ensures Arrivals(xs, zs, rs, x, errorback)
         == Arrivals(xs, Init(zs), Init(rs), x, errorback)
            + [DefineStep(Last(zs), [Plugin(Last(rs), x)], Value, errorback)]
  {
  }

  lemma LastWaiter(xs: seq<Id>, x: Id, errorback: bool)
    requires xs != []
    ensures Arrivals(xs, [], [], x, errorback)
         == Arrivals(Init(xs), [], [], x, errorback) + [DefineStep(Last(xs), [Regular(x)], Value, errorback)]
  {
  }

  lemma NobodyArrived(x: Id, errorback: bool)
    ensures Arrived(Run(Arrivals([], [], [], x, errorback)), [], [], [], x, errorback)
  {
    assert Arrivals([], [], [], x, errorback) == [];
    assert INITIAL.modules.Keys == {};
  }

  lemma DistinctInit(xs: seq<Id>)
    requires Distinct(xs) && xs != []
    ensures Distinct(Init(xs)) && Last(xs) !in Init(xs) && (forall y :: y in Init(xs) ==> y in xs)
    ensures Init(xs) + [Last(xs)] == xs
  {
  }

  lemma {:induction false} WaitersArrive(xs: seq<Id>, x: Id, errorback: bool)
    requires Distinct(xs) && x !in xs
    ensures Arrived(Run(Arrivals(xs, [], [], x, errorback)), xs, [], [], x, errorback)
  {
    if xs == [] {
      NobodyArrived(x, errorback);
    } else {
      var init, w := Init(xs), Last(xs);
      DistinctInit(xs);
      WaitersArrive(init, x, errorback);
      LastWaiter(xs, x, errorback);
      RunFromStep(INITIAL, Arrivals(init, [], [], x, errorback), DefineStep(w, [Regular(x)], Value, errorback));
      OneArrives(Run(Arrivals(init, [], [], x, errorback)), init, x, w, errorback);
    }
  }

  lemma ApartInit(xs: seq<Id>, zs: seq<Id>, rs: seq<Id>, x: Id)
    requires Apart(xs, zs, rs, x) && zs != []
    ensures Apart(xs, Init(zs), Init(rs), x)
    ensures Last(zs) !in xs && Last(zs) !in Init(zs) && Last(zs) != x && x !in xs && x !in Init(zs)
    ensures Last(rs) !in Init(rs) && Last(rs) != x && Last(rs) != Last(zs) && Last(rs) !in xs && Last(rs) !in Init(zs)
    ensures Init(zs) + [Last(zs)] == zs && Init(rs) + [Last(rs)] == rs
  {
    DistinctInit(zs);
    DistinctInit(rs);
    assert Last(zs) in zs && Last(rs) in rs;
  }

  lemma {:induction false} AllArrive(xs: seq<Id>, zs: seq<Id>, rs: seq<Id>, x: Id, errorback: bool)
    requires Apart(xs, zs, rs, x)
    ensures Arrived(Run(Arrivals(xs, zs, rs, x, errorback)), xs, zs, rs, x, errorback)
    decreases |zs|
  {
    if zs == [] {
      WaitersArrive(xs, x, errorback);
    } else {
      ApartInit(xs, zs, rs, x);
      AllArrive(xs, Init(zs), Init(rs), x, errorback);
      LastQueues(xs, Init(zs), Init(rs), x, Last(zs), Last(rs), zs, rs, errorback);
    }
  }

  lemma LastQueues(xs: seq<Id>, zs: seq<Id>, rs: seq<Id>, x: Id, z: Id, r: Id,
                   zs': seq<Id>, rs': seq<Id>, errorback: bool)
    requires |rs| == |zs| && zs' == zs + [z] && rs' == rs + [r]
    requires Arrived(Run(Arrivals(xs, zs, rs, x, errorback)), xs, zs, rs, x, errorback)
    requires z !in xs && z !in zs && z != x && x !in xs && x !in zs
    requires r !in rs && r != x && r != z && r !in xs && r !in zs
    ensures Arrived(Run(Arrivals(xs, zs', rs', x, errorback)), xs, zs', rs', x, errorback)
  {
    LastArrival(xs, zs', rs', x, errorback);
    assert Init(zs') == zs && Init(rs') == rs;
    RunFromStep(INITIAL, Arrivals(xs, zs, rs, x, errorback), DefineStep(z, [Plugin(r, x)], Value, errorback));
    OneQueues(Run(Arrivals(xs, zs, rs, x, errorback)), xs, zs, rs, x, z, r, errorback);
  }

  /** A module that waits for nothing else, and for which nobody waits. */
  ghost predicate Leaf(s: State, w: Id, x: Id, count: int, errorback: bool) {
    && w in s.modules && s.modules[w] == NewMod([Regular(x)], Value, errorback).(count := count)
    && w !in s.inverse && w !in s.pluginQueue && w != x
  }

  lemma CompleteLeaf(s: State, w: Id, x: Id, errorback: bool)
    requires WaitersDefined(s) && Leaf(s, w, x, 0, errorback) && x in s.modules && s.modules[x].Settled()
    ensures OnModuleComplete(s, w) == Settle(s, w)
    ensures Settle(s, w).trace == s.trace + [Completed(w, [Regular(x)], {}, [ExportsOf(x, true)], false)]
  {
    SettleReady(s, w);
    assert Release(Settle(s, w), []) == Settle(s, w);
    assert Args(s.modules, Some([Regular(x)])) == [ExportsOf(x, true)];
  }

  /** The first waiter of a list completes before the others are looked at. */
  lemma ReleaseLeaf(s: State, ws: seq<Id>, x: Id, errorback: bool)
    requires WaitersDefined(s) && ws != [] && (forall w :: w in ws ==> w in s.modules)
    requires Leaf(s, ws[0], x, 1, errorback) && x in s.modules && s.modules[x].Settled()
    ensures var t := Settle(Decrement(s, ws[0]), ws[0]);
            && WaitersDefined(t) && t.modules.Keys == s.modules.Keys
            && Release(s, ws) == Release(t, ws[1..])
            && t.trace == s.trace + [Completed(ws[0], [Regular(x)], {}, [ExportsOf(x, true)], false)]
  {
    var s1 := Decrement(s, ws[0]);
    DecrementReady(s, ws[0]);
    CompleteLeaf(s1, ws[0], x, errorback);
    SettleReady(s1, ws[0]);
    CardinalityMonotone(Incomplete(Settle(s1, ws[0])), Incomplete(s));
  }

  lemma OthersStayLeaves(s: State, w: Id, rest: seq<Id>, x: Id, errorback: bool)
    requires w in s.modules && w !in rest && w != x && (forall y :: y in rest ==> Leaf(s, y, x, 1, errorback))
    ensures forall y :: y in rest ==> Leaf(Settle(Decrement(s, w), w), y, x, 1, errorback)
  {
    forall y | y in rest ensures Leaf(Settle(Decrement(s, w), w), y, x, 1, errorback) {
      assert Leaf(s, y, x, 1, errorback);
    }
  }

  /** All of `ws` wait for `x` alone, which has completed. */
  ghost predicate Line(s: State, ws: seq<Id>, x: Id, errorback: bool) {
    && WaitersDefined(s) && (forall w :: w in ws ==> Leaf(s, w, x, 1, errorback)) && Distinct(ws)
    && x in s.modules && s.modules[x].Settled()
  }

  lemma LineMoves(s: State, ws: seq<Id>, x: Id, errorback: bool) returns (t: State)
    requires Line(s, ws, x, errorback) && ws != [] && forall w :: w in ws ==> w in s.modules
    ensures Line(t, ws[1..], x, errorback) && t.modules.Keys == s.modules.Keys
    ensures Release(s, ws) == Release(t, ws[1..])
    ensures t.trace == s.trace + [Completed(ws[0], [Regular(x)], {}, [ExportsOf(x, true)], false)]
    ensures t.pluginQueue == s.pluginQueue && t.known == s.known
  {
    t := Settle(Decrement(s, ws[0]), ws[0]);
    assert Leaf(s, ws[0], x, 1, errorback);
    ReleaseLeaf(s, ws, x, errorback);
    DistinctTail(ws);
    OthersStayLeaves(s, ws[0], ws[1..], x, errorback);
  }

  lemma {:induction false} ReleaseInOrder(s: State, ws: seq<Id>, x: Id, errorback: bool, t: State)
    requires Line(s, ws, x, errorback) && (forall w :: w in ws ==> w in s.modules) && t == Release(s, ws)
    ensures t.trace == s.trace + WaiterCompletions(ws, x)
    ensures t.modules.Keys == s.modules.Keys && t.pluginQueue == s.pluginQueue && t.known == s.known
    decreases |ws|
  {
    if ws == [] {
      NobodyReleased(s, x);
    } else {
      var s' := LineMoves(s, ws, x, errorback);
      ReleaseInOrder(s', ws[1..], x, errorback, t);
      CompletionsFrom(s.trace, ws, x);
    }
  }

  lemma DistinctTail(ws: seq<Id>)
    requires Distinct(ws) && ws != []
    ensures Distinct(ws[1..]) && ws[0] !in ws[1..] && (forall y :: y in ws[1..] ==> y in ws)
  {
  }

  lemma NobodyReleased(s: State, x: Id)
    requires WaitersDefined(s)
    ensures Release(s, []) == s && s.trace + WaiterCompletions([], x) == s.trace
  {
  }

  lemma CompletionsFrom(before: seq<Event>, ws: seq<Id>, x: Id)
    requires ws != []
    ensures before + [Completed(ws[0], [Regular(x)], {}, [ExportsOf(x, true)], false)] + WaiterCompletions(ws[1..], x)
         == before + WaiterCompletions(ws, x)
  {
    assert WaiterCompletions(ws, x)
        == [Completed(ws[0], [Regular(x)], {}, [ExportsOf(x, true)], false)] + WaiterCompletions(ws[1..], x);
  }

  lemma {:induction false} RequestAllInOrder(s: State, rs: seq<Id>, x: Id)
    requires Fresh(s, rs, 0) && Distinct(rs)
    ensures RequestAll(s, x, Resources(rs, x)).trace == s.trace + ResourceRequests(rs, x)
    decreases |rs|
  {
    if rs == [] {
      assert ResourceRequests(rs, x) == [];
    } else {
      var rest, t := rs[1..], RequestResourceOf(s, x, Plugin(rs[0], x));
      assert Resources(rs, x)[0] == Plugin(rs[0], x) && Resources(rs, x)[1..] == Resources(rest, x);
      assert forall i :: 0 <= i < |rest| ==> rest[i] == rs[i + 1];
      RequestAllInOrder(t, rest, x);
      assert ResourceRequests(rs, x) == [RequestResource(rs[0], x)] + ResourceRequests(rest, x);
    }
  }

  /** A definition without dependencies completes at once. */
  lemma DefineAlone(s: State, x: Id, s2: State)
    requires x !in s.modules && WaitersDefined(s) && s2 == Settle(WithRecord(s, x, [], Value, false), x)
    ensures WaitersDefined(s2) && forall w :: w in Waiters(s.inverse, x) ==> w in s2.modules
    ensures Define(s, x, [], Value, false) == FlushPlugin(Release(s2, Waiters(s.inverse, x)), x)
    ensures s2.trace == s.trace + [Completed(x, [], {}, [], false)]
  {
    var s1 := WithRecord(s, x, [], Value, false);
    SameWaiters(s, s1);
    SettleReady(s1, x);
    assert Args(s1.modules, Some([])) == [];
  }

  /** The definition of `x` after the arrivals, up to where its waiters are released. */
  lemma XCompletes(s: State, xs: seq<Id>, zs: seq<Id>, rs: seq<Id>, x: Id) returns (t: State)
    requires Arrived(s, xs, zs, rs, x, false) && Apart(xs, zs, rs, x)
    ensures Line(t, xs, x, false) && (forall w :: w in xs ==> w in t.modules)
    ensures t.modules.Keys == s.modules.Keys + {x} && t.known == s.known && t.pluginQueue == s.pluginQueue
    ensures t.trace == s.trace + [Completed(x, [], {}, [], false)]
    ensures Define(s, x, [], Value, false) == FlushPlugin(Release(t, xs), x)
  {
    t := Settle(WithRecord(s, x, [], Value, false), x);
    DefineAlone(s, x, t);
    forall w | w in xs ensures Leaf(t, w, x, 1, false) {
      assert w in s.modules && w != x;
    }
  }

  /** The waiters complete, and then the resources are requested. */
  lemma ServedInOrder(s: State, xs: seq<Id>, zs: seq<Id>, rs: seq<Id>, x: Id)
    requires Arrived(s, xs, zs, rs, x, false) && Apart(xs, zs, rs, x)
    ensures Define(s, x, [], Value, false).trace
         == s.trace + [Completed(x, [], {}, [], false)] + WaiterCompletions(xs, x) + ResourceRequests(rs, x)
  {
    var t := XCompletes(s, xs, zs, rs, x);
    ReleaseInOrder(t, xs, x, false, Release(t, xs));
    ResourcesAreFresh(s, xs, zs, rs, x);
    FlushInOrder(Release(t, xs), rs, x);
  }

  lemma ResourcesAreFresh(s: State, xs: seq<Id>, zs: seq<Id>, rs: seq<Id>, x: Id)
    requires Arrived(s, xs, zs, rs, x, false) && Apart(xs, zs, rs, x)
    ensures forall i :: 0 <= i < |rs| ==> rs[i] !in s.modules && rs[i] != x && rs[i] !in s.known
  {
  }

  lemma FlushInOrder(s: State, rs: seq<Id>, x: Id)
    requires s.pluginQueue == QueueOf(rs, x) && Fresh(s, rs, 0) && Distinct(rs)
    ensures FlushPlugin(s, x).trace == s.trace + ResourceRequests(rs, x)
  {
    if rs == [] {
      assert ResourceRequests(rs, x) == [];
    } else {
      RequestAllInOrder(s.(pluginQueue := s.pluginQueue - {x}), rs, x);
    }
  }

  /** First come, first served: when `x` is defined, the modules that wait for it complete in the order in which they
      were defined, and then the resources that were queued behind it are requested in the order in which they were
      queued. */
  lemma FirstComeFirstServed(xs: seq<Id>, zs: seq<Id>, rs: seq<Id>, x: Id)
    requires Apart(xs, zs, rs, x) && |xs| + |zs| > 0
    ensures Run(Arrivals(xs, zs, rs, x, false) + [DefineStep(x, [], Value, false)]).trace
         == [RequestScript(x), Completed(x, [], {}, [], false)] + WaiterCompletions(xs, x) + ResourceRequests(rs, x)
  {
    var steps := Arrivals(xs, zs, rs, x, false);
    AllArrive(xs, zs, rs, x, false);
    RunFromStep(INITIAL, steps, DefineStep(x, [], Value, false));
    ServedInOrder(Run(steps), xs, zs, rs, x);
    assert [RequestScript(x)] + [Completed(x, [], {}, [], false)]
        == [RequestScript(x), Completed(x, [], {}, [], false)];
  }

  // ---------------------------------------------------------------- load errors in order

  function Errorbacks(xs: seq<Id>, error: Error): seq<Event> {
    seq(|xs|, i requires 0 <= i < |xs| => Errorback(xs[i], error))
  }

  lemma {:induction false} UnseenAll(ws: seq<Id>, seen: set<Id>)
    requires Distinct(ws) && forall w :: w in ws ==> w !in seen
    ensures Unseen(ws, seen) == ws
    decreases |ws|
  {
    if ws != [] {
      assert forall i :: 0 <= i < |ws[1..]| ==> ws[1..][i] == ws[i + 1];
      UnseenAll(ws[1..], seen + {ws[0]});
    }
  }

  lemma {:induction false} WalkLeaves(inverse: map<Id, seq<Id>>, queue: seq<Id>, seen: set<Id>)
    requires forall w :: w in queue ==> w !in inverse
    ensures Walk(inverse, queue, seen) == queue
    decreases |queue|
  {
    if queue != [] {
      assert Unseen([], seen) == [] && seen + Elements<Id>([]) == seen;
      assert queue[1..] + [] == queue[1..];
      WalkLeaves(inverse, queue[1..], seen);
    }
  }

  lemma {:induction false} NoticesOfAll(modules: map<Id, Mod>, xs: seq<Id>, error: Error)
    requires forall y :: y in xs ==> y in modules && modules[y].errorback
    ensures Notices(modules, xs, error) == Errorbacks(xs, error)
    decreases |xs|
  {
    if xs == [] {
      assert Errorbacks(xs, error) == [];
    } else {
      NoticesOfAll(modules, xs[1..], error);
      assert Errorbacks(xs, error) == [Errorback(xs[0], error)] + Errorbacks(xs[1..], error);
    }
  }

  /** A load error is delivered to the modules that wait in the order in which they were defined, and names them in that
      order. */
  lemma ErrorsInOrder(xs: seq<Id>, x: Id)
    requires Distinct(xs) && x !in xs && xs != []
    ensures Run(Arrivals(xs, [], [], x, true) + [LoadFailsStep(x)]).trace
         == [RequestScript(x)] + Errorbacks(xs, Error(Loading, x, xs))
  {
    var steps, error := Arrivals(xs, [], [], x, true), Error(Loading, x, xs);
    WaitersArrive(xs, x, true);
    RunFromStep(INITIAL, steps, LoadFailsStep(x));
    LoadFailureIsExact(steps, x);
    HitInOrder(Run(steps), xs, x);
    NoticesInOrder(WithPlaceholder(Run(steps), x).modules, xs, x, error);
    assert Errorbacks(xs, error)[0] == Errorback(xs[0], error);
  }

  lemma HitInOrder(s: State, xs: seq<Id>, x: Id)
    requires Distinct(xs) && x !in xs && Waiters(s.inverse, x) == xs && forall d :: d in s.inverse ==> d == x
    ensures Hit(s, x) == [x] + xs
  {
    UnseenAll(xs, {x});
    WalkLeaves(s.inverse, xs, {x} + Elements(xs));
    assert [x][1..] + xs == xs;
  }

  lemma NoticesInOrder(modules: map<Id, Mod>, xs: seq<Id>, x: Id, error: Error)
    requires forall y :: y in xs ==> y in modules && modules[y].errorback
    requires x in modules && !modules[x].errorback
    ensures Notices(modules, [x] + xs, error) == Errorbacks(xs, error)
  {
    NoticesOfAll(modules, xs, error);
    assert ([x] + xs)[1..] == xs;
    assert [] + Errorbacks(xs, error) == Errorbacks(xs, error);
  }

  // ---------------------------------------------------------------- nearest first

  /** A chain of at most `n` recorded waits leads from `y` to `r`. */
  ghost predicate Within(inverse: map<Id, seq<Id>>, y: Id, r: Id, n: nat) {
    exists p :: Connects(p, y, r) && WaitPath(inverse, p) && |p| <= n + 1
  }

  /** Nothing comes before something that is nearer to `r`. */
  ghost predicate NearestFirst(inverse: map<Id, seq<Id>>, order: seq<Id>, r: Id) {
    forall i, j, n: nat :: 0 <= i < j < |order| && Within(inverse, order[j], r, n) ==> Within(inverse, order[i], r, n)
  }

  lemma WithinMore(inverse: map<Id, seq<Id>>, y: Id, r: Id, m: nat, n: nat)
    requires Within(inverse, y, r, m) && m <= n
    ensures Within(inverse, y, r, n)
  {
  }

  lemma WithinOneMore(inverse: map<Id, seq<Id>>, y: Id, d: Id, r: Id, n: nat)
    requires Waits(inverse, y, d) && Within(inverse, d, r, n)
    ensures Within(inverse, y, r, n + 1)
  {
    var p :| Connects(p, d, r) && WaitPath(inverse, p) && |p| <= n + 1;
    var q := [y] + p;
    forall i | 0 <= i < |q| - 1 ensures Waits(inverse, q[i], q[i + 1]) {
      if i > 0 {
        assert Waits(inverse, p[i - 1], p[i - 1 + 1]);
      }
    }
    assert Connects(q, y, r) && WaitPath(inverse, q);
  }

  lemma WithinOneLess(inverse: map<Id, seq<Id>>, y: Id, r: Id, n: nat) returns (d: Id)
    requires Within(inverse, y, r, n + 1) && !Within(inverse, y, r, n)
    ensures Waits(inverse, y, d) && Within(inverse, d, r, n)
  {
    var p :| Connects(p, y, r) && WaitPath(inverse, p) && |p| <= n + 2;
    assert |p| == n + 2;
    d := p[1];
    assert Waits(inverse, p[0], p[0 + 1]);
    forall i | 0 <= i < |p[1..]| - 1 ensures Waits(inverse, p[1..][i], p[1..][i + 1]) {
      assert Waits(inverse, p[i + 1], p[i + 1 + 1]);
    }
    assert Connects(p[1..], d, r) && WaitPath(inverse, p[1..]);
  }

  /** The first `k` elements of the queue are at distance `n`, the others one further; everything nearer is done, and
      everything at that distance was seen. */
  ghost predicate Level(inverse: map<Id, seq<Id>>, queue: seq<Id>, seen: set<Id>, done: set<Id>,
                        r: Id, n: nat, k: nat)
  {
    && k <= |queue|
    && (forall y :: Within(inverse, y, r, n) ==> y in seen)
    && (forall y, m: nat :: m < n && Within(inverse, y, r, m) ==> y in done)
    && (forall i :: 0 <= i < k ==> Within(inverse, queue[i], r, n))
    && (forall i :: k <= i < |queue| ==> Within(inverse, queue[i], r, n + 1) && !Within(inverse, queue[i], r, n))
  }

  lemma NextLevel(inverse: map<Id, seq<Id>>, queue: seq<Id>, seen: set<Id>, done: set<Id>, r: Id, n: nat)
    requires Walking(inverse, queue, seen, done, r) && Level(inverse, queue, seen, done, r, n, 0)
    ensures Level(inverse, queue, seen, done, r, n + 1, |queue|)
  {
    forall y | Within(inverse, y, r, n) ensures y in done {
      assert y !in queue;
    }
    forall y | Within(inverse, y, r, n + 1) ensures y in seen {
      if !Within(inverse, y, r, n) {
        var d := WithinOneLess(inverse, y, r, n);
      }
    }
    forall y, m: nat | m < n + 1 && Within(inverse, y, r, m) ensures y in done {
      WithinMore(inverse, y, r, m, n);
    }
  }

  lemma TakeLevel(inverse: map<Id, seq<Id>>, queue: seq<Id>, seen: set<Id>, done: set<Id>, r: Id, n: nat, k: nat)
    requires Level(inverse, queue, seen, done, r, n, k) && k > 0
    ensures var added := Unseen(Waiters(inverse, queue[0]), seen);
            Level(inverse, queue[1..] + added, seen + Elements(added), done + {queue[0]}, r, n, k - 1)
  {
    var added := Unseen(Waiters(inverse, queue[0]), seen);
    var queue' := queue[1..] + added;
    forall i | k - 1 <= i < |queue'|
      ensures Within(inverse, queue'[i], r, n + 1) && !Within(inverse, queue'[i], r, n)
    {
      if i < |queue| - 1 {
        assert queue'[i] == queue[i + 1];
      } else {
        assert queue'[i] == added[i - (|queue| - 1)] && queue'[i] in added;
        WithinOneMore(inverse, queue'[i], queue[0], r, n);
      }
    }
    forall i | 0 <= i < k - 1 ensures Within(inverse, queue'[i], r, n) {
      assert queue'[i] == queue[i + 1];
    }
  }

  /** The first id taken from the queue is no further away than anything that comes later. */
  lemma FirstIsNearest(inverse: map<Id, seq<Id>>, queue: seq<Id>, seen: set<Id>, done: set<Id>, r: Id, n: nat, k: nat,
                       rest: seq<Id>)
    requires queue != [] && Level(inverse, queue, seen, done, r, n, k) && k > 0
    requires NearestFirst(inverse, rest, r) && forall j :: 0 <= j < |rest| ==> rest[j] !in done
    ensures NearestFirst(inverse, [queue[0]] + rest, r)
  {
    var order := [queue[0]] + rest;
    forall i, j, m: nat | 0 <= i < j < |order| && Within(inverse, order[j], r, m)
      ensures Within(inverse, order[i], r, m)
    {
      assert order[j] == rest[j - 1];
      if i == 0 {
        assert m >= n;
        WithinMore(inverse, queue[0], r, n, m);
      } else {
        assert order[i] == rest[i - 1];
      }
    }
  }

  lemma {:induction false} WalkNearestFirst(inverse: map<Id, seq<Id>>, queue: seq<Id>, seen: set<Id>, done: set<Id>,
                                            r: Id, n: nat, k: nat)
    requires Walking(inverse, queue, seen, done, r) && Level(inverse, queue, seen, done, r, n, k)
    ensures NearestFirst(inverse, Walk(inverse, queue, seen), r)
    decreases |AllWaiters(inverse) - seen|, |queue|
  {
    if queue != [] {
      if k == 0 {
        NextLevel(inverse, queue, seen, done, r, n);
      }
      var n', k' := if k == 0 then n + 1 else n, if k == 0 then |queue| else k;
      var d := queue[0];
      var added := Unseen(Waiters(inverse, d), seen);
      var queue', seen' := queue[1..] + added, seen + Elements(added);
      WalkProgress(inverse, d, seen);
      WalkTake(inverse, queue, seen, done, r);
      TakeLevel(inverse, queue, seen, done, r, n', k');
      WalkNearestFirst(inverse, queue', seen', done + {d}, r, n', k' - 1);
      WalkExact(inverse, queue', seen', done + {d}, r);
      FirstIsNearest(inverse, queue, seen, done, r, n', k', Walk(inverse, queue', seen'));
    }
  }

  /** A load error reaches the modules that wait for its id nearest first. */
  lemma HitNearestFirst(s: State, x: Id)
    ensures NearestFirst(s.inverse, Hit(s, x), x)
  {
    assert Connects([x], x, x) && WaitPath(s.inverse, [x]);
    assert x in Elements([x]);
    forall y | Within(s.inverse, y, x, 0) ensures y in {x} {
      var p :| Connects(p, y, x) && WaitPath(s.inverse, p) && |p| <= 1;
    }
    WalkNearestFirst(s.inverse, [x], {x}, {}, x, 0, 1);
  }
}
