/** Which definitions fail, and when everyone who waits for a failed module is told.  A load error is delivered to
    all who wait; a failure that is found while a module is being defined is not delivered to anyone. */
module LoaderFailures {
  import opened LoaderState
  import opened Options
  import opened Sequences
  import opened LoaderInvariant
  import opened LoaderTheorems

  // ---------------------------------------------------------------- which definitions fail

  ghost predicate HasFailed(s: State, dep: Dep) {
    && (dep.Regular? || dep.Plugin?) && dep.Id() in s.modules
    && s.modules[dep.Id()].complete && s.modules[dep.Id()].error.Some?
  }

  /** A dependency of the list has ended with an error: its load failed, its factory threw, or it was itself defined
      with such a dependency. */
  ghost predicate NeedsFailed(s: State, deps: seq<Dep>, i: nat) {
    exists k :: i <= k < |deps| && HasFailed(s, deps[k])
  }

  /** One position leaves all records as they are, except for the counter of the module being resolved. */
  lemma ExamineRecords(s: State, x: Id, i: nat)
    requires x in s.modules && s.modules[x].deps.Some? && i < |s.modules[x].deps.value|
    ensures var t := Examine(s, x, i);
            && t.modules.Keys == s.modules.Keys
            && (forall y :: y in s.modules && y != x ==> t.modules[y] == s.modules[y])
            && t.modules[x].deps == s.modules[x].deps && t.modules[x].error == s.modules[x].error
            && t.modules[x].complete == s.modules[x].complete && t.modules[x].errorback == s.modules[x].errorback
  {
    var dep := s.modules[x].deps.value[i];
    if dep.Ordinary() {
      RequestDepFrame(AddWaiter(s, dep.Id(), x), dep);
    }
  }

  lemma ExamineNeeds(s: State, x: Id, i: nat, deps: seq<Dep>, k: nat)
    requires x in s.modules && s.modules[x].deps.Some? && i < |s.modules[x].deps.value|
    ensures NeedsFailed(Examine(s, x, i), deps, k) <==> NeedsFailed(s, deps, k)
  {
    ExamineRecords(s, x, i);
    var t := Examine(s, x, i);
    assert forall dep :: FailedDep(t, dep) <==> FailedDep(s, dep);
  }

  lemma CompletedIsNotFailed(s: State, x: Id)
    requires x in s.modules && WaitersDefined(s) && !s.modules[x].complete
    ensures OnModuleComplete(s, x).modules[x].Settled()
  {
    SettleReady(s, x);
    var s1 := Settle(s, x);
    ReleaseKeeps(s1, Waiters(s.inverse, x));
    FlushPluginCore(Release(s1, Waiters(s.inverse, x)), x);
  }

  lemma NeedsFailedFrom(s: State, deps: seq<Dep>, i: nat)
    requires i < |deps|
    ensures NeedsFailed(s, deps, i) <==> FailedDep(s, deps[i]) || NeedsFailed(s, deps, i + 1)
  {
  }

  /** One position of the list: what it leaves to be decided by the positions after it. */
  lemma ExamineLeaves(s: State, x: Id, i: nat)
    requires x in s.modules && s.modules[x].deps.Some? && i < |s.modules[x].deps.value| && WaitersDefined(s)
    requires !s.modules[x].complete && s.modules[x].error.None?
    ensures var t := Examine(s, x, i);
            && x in t.modules && t.modules[x].deps == s.modules[x].deps && WaitersDefined(t)
            && !t.modules[x].complete && t.modules[x].error.None?
            && (NeedsFailed(t, s.modules[x].deps.value, i + 1) <==> NeedsFailed(s, s.modules[x].deps.value, i + 1))
  {
    ExamineFrame(s, x, i);
    ExamineRecords(s, x, i);
    ExamineNeeds(s, x, i, s.modules[x].deps.value, i + 1);
  }

  lemma ResolveStops(s: State, x: Id, i: nat)
    requires x in s.modules && s.modules[x].deps.Some? && i < |s.modules[x].deps.value| && WaitersDefined(s)
    requires FailedDep(s, s.modules[x].deps.value[i])
    ensures Resolve(s, x, i).modules[x].Failed()
  {
  }

  /** Resolving fails exactly when a dependency that is still to be examined has failed. */
  lemma {:induction false} ResolveFails(s: State, x: Id, i: nat)
    requires x in s.modules && s.modules[x].deps.Some? && i <= |s.modules[x].deps.value| && WaitersDefined(s)
    requires !s.modules[x].complete && s.modules[x].error.None?
    ensures Resolve(s, x, i).modules[x].Failed() <==> NeedsFailed(s, s.modules[x].deps.value, i)
    decreases |s.modules[x].deps.value| - i
  {
    var deps := s.modules[x].deps.value;
    if i == |deps| {
      CompletedIsNotFailed(s, x);
    } else {
      NeedsFailedFrom(s, deps, i);
      if FailedDep(s, deps[i]) {
        ResolveStops(s, x, i);
      } else {
        ExamineLeaves(s, x, i);
        ResolveFails(Examine(s, x, i), x, i + 1);
      }
    }
  }

  lemma NewRecordNeeds(s: State, x: Id, deps: seq<Dep>, callback: Callback, errorback: bool)
    requires x !in s.modules
    ensures NeedsFailed(WithRecord(s, x, deps, callback, errorback), deps, 0) <==> NeedsFailed(s, deps, 0)
  {
    var s1 := WithRecord(s, x, deps, callback, errorback);
    assert forall dep :: FailedDep(s1, dep) <==> FailedDep(s, dep);
  }

  /** A definition fails exactly when one of its dependencies has failed before, at whatever position. */
  lemma DefinitionFailsIff(s: State, d: Id, deps: seq<Dep>, callback: Callback, errorback: bool)
    requires WaitersDefined(s) && d !in s.modules
    ensures Define(s, d, deps, callback, errorback).modules[d].Failed() <==> NeedsFailed(s, deps, 0)
  {
    var s1 := WithRecord(s, d, deps, callback, errorback);
    SameWaiters(s, s1);
    NewRecordNeeds(s, d, deps, callback, errorback);
    ResolveFails(s1, d, 0);
  }

  /** The same modules have ended, with the same errors. */
  ghost predicate SameOutcomes(s: State, t: State) {
    && t.modules.Keys == s.modules.Keys
    && forall y :: y in s.modules ==>
         t.modules[y].error == s.modules[y].error && t.modules[y].complete == s.modules[y].complete
  }

  /** A position that has not failed leaves the module open and changes nothing about failures. */
  lemma ExaminedNext(s: State, x: Id, i: nat) returns (t: State)
    requires x in s.modules && s.modules[x].deps.Some? && i < |s.modules[x].deps.value| && WaitersDefined(s)
    requires !s.modules[x].complete && !HasFailed(s, s.modules[x].deps.value[i])
    ensures t.modules.Keys == s.modules.Keys && WaitersDefined(t)
    ensures t.modules[x].deps == s.modules[x].deps && !t.modules[x].complete
    ensures Resolve(s, x, i) == Resolve(t, x, i + 1)
    ensures t.modules[x].errorback == s.modules[x].errorback && SameOutcomes(s, t)
  {
    t := Examine(s, x, i);
    ExamineFrame(s, x, i);
    ExamineRecords(s, x, i);
  }

  /** `x` has ended with `error`, and its handler was the last to be called. */
  ghost predicate EndedWith(t: State, x: Id, error: Error, errorback: bool) {
    && x in t.modules && t.modules[x].error == Some(error)
    && (errorback ==> t.trace != [] && Last(t.trace) == Errorback(x, error))
  }

  lemma ResolveStopsWith(s: State, x: Id, i: nat, error: Error)
    requires x in s.modules && s.modules[x].deps.Some? && i < |s.modules[x].deps.value| && WaitersDefined(s)
    requires HasFailed(s, s.modules[x].deps.value[i])
    requires s.modules[s.modules[x].deps.value[i].Id()].error == Some(error)
    ensures EndedWith(Resolve(s, x, i), x, error, s.modules[x].errorback)
  {
    assert FailedDep(s, s.modules[x].deps.value[i]);
  }

  /** Before position `k` nothing has failed, and there a dependency has failed with `error`. */
  ghost predicate FirstFailure(s: State, deps: seq<Dep>, i: nat, k: nat, error: Error) {
    && i <= k < |deps| && HasFailed(s, deps[k]) && s.modules[deps[k].Id()].error == Some(error)
    && forall j :: i <= j < k ==> !HasFailed(s, deps[j])
  }

  lemma FailureStays(s: State, t: State, deps: seq<Dep>, i: nat, k: nat, error: Error)
    requires FirstFailure(s, deps, i, k, error) && i < k
    requires SameOutcomes(s, t)
    ensures FirstFailure(t, deps, i + 1, k, error)
  {
    forall j | i < j <= k ensures HasFailed(t, deps[j]) <==> HasFailed(s, deps[j]) {}
  }

  lemma TowardsFailure(s: State, x: Id, deps: seq<Dep>, i: nat, k: nat, error: Error) returns (t: State)
    requires x in s.modules && s.modules[x].deps == Some(deps) && !s.modules[x].complete && WaitersDefined(s)
    requires FirstFailure(s, deps, i, k, error) && i < k
    ensures x in t.modules && t.modules[x].deps == Some(deps) && !t.modules[x].complete && WaitersDefined(t)
    ensures FirstFailure(t, deps, i + 1, k, error) && t.modules[x].errorback == s.modules[x].errorback
    ensures Resolve(s, x, i) == Resolve(t, x, i + 1)
  {
    assert !HasFailed(s, deps[i]);
    t := ExaminedNext(s, x, i);
    FailureStays(s, t, deps, i, k, error);
  }

  lemma {:induction false} ResolveError(s: State, x: Id, deps: seq<Dep>, i: nat, k: nat, error: Error)
    requires x in s.modules && s.modules[x].deps == Some(deps) && !s.modules[x].complete && WaitersDefined(s)
    requires FirstFailure(s, deps, i, k, error)
    ensures EndedWith(Resolve(s, x, i), x, error, s.modules[x].errorback)
    decreases k - i
  {
    if i < k {
      var t := TowardsFailure(s, x, deps, i, k, error);
      ResolveError(t, x, deps, i + 1, k, error);
    } else {
      ResolveStopsWith(s, x, i, error);
    }
  }

  /** A definition that fails takes the error of its first dependency that has failed, and its handler gets it. */
  lemma DefinitionTakesFirstError(s: State, d: Id, deps: seq<Dep>, callback: Callback, errorback: bool, k: nat)
    requires WaitersDefined(s) && d !in s.modules && k < |deps| && HasFailed(s, deps[k])
    requires forall j :: 0 <= j < k ==> !HasFailed(s, deps[j])
    ensures var t, error := Define(s, d, deps, callback, errorback), s.modules[deps[k].Id()].error.value;
            && t.modules[d].error == Some(error)
            && (errorback ==> t.trace != [] && Last(t.trace) == Errorback(d, error))
  {
    var s1 := WithRecord(s, d, deps, callback, errorback);
    SameWaiters(s, s1);
    forall j | 0 <= j <= k ensures HasFailed(s1, deps[j]) <==> HasFailed(s, deps[j]) {}
    var error := s.modules[deps[k].Id()].error.value;
    ResolveError(s1, d, deps, 0, k, error);
  }

  lemma ResolveRecords(s: State, x: Id, i: nat)
    requires x in s.modules && s.modules[x].deps.Some? && i < |s.modules[x].deps.value| && WaitersDefined(s)
    requires s.modules[x].deps.value[i].Ordinary() && s.modules[x].deps.value[i].Id() !in s.modules
    ensures Waits(Resolve(s, x, i).inverse, x, s.modules[x].deps.value[i].Id())
  {
    ExamineFrame(s, x, i);
    ExamineUndefined(s, x, i);
    ResolveKeepsWaits(Examine(s, x, i), x, i + 1);
  }

  lemma {:induction false} ResolveReaches(s: State, x: Id, i: nat, k: nat)
    requires x in s.modules && s.modules[x].deps.Some? && i <= k < |s.modules[x].deps.value| && WaitersDefined(s)
    requires !s.modules[x].complete && forall j :: i <= j < k ==> !HasFailed(s, s.modules[x].deps.value[j])
    requires s.modules[x].deps.value[k].Ordinary() && s.modules[x].deps.value[k].Id() !in s.modules
    ensures Waits(Resolve(s, x, i).inverse, x, s.modules[x].deps.value[k].Id())
    decreases k - i
  {
    var deps := s.modules[x].deps.value;
    if i < k {
      var t := ExaminedNext(s, x, i);
      forall j | i < j < k ensures !HasFailed(t, deps[j]) {
        assert !HasFailed(s, deps[j]);
      }
      ResolveReaches(t, x, i + 1, k);
    } else {
      ResolveRecords(s, x, i);
    }
  }

  /** The dependencies before the first one that has failed are examined all the same: the module waits for those that
      are not defined. */
  lemma DefinitionExaminesUpToError(s: State, d: Id, deps: seq<Dep>, callback: Callback, errorback: bool, j: nat)
    requires WaitersDefined(s) && d !in s.modules && j < |deps|
    requires deps[j].Ordinary() && deps[j].Id() != d && deps[j].Id() !in s.modules
    requires forall k :: 0 <= k < j ==> !HasFailed(s, deps[k])
    ensures Waits(Define(s, d, deps, callback, errorback).inverse, d, deps[j].Id())
  {
    var s1 := WithRecord(s, d, deps, callback, errorback);
    SameWaiters(s, s1);
    forall k | 0 <= k < j ensures !HasFailed(s1, deps[k]) {
      assert !HasFailed(s, deps[k]);
    }
    ResolveReaches(s1, d, 0, j);
  }

  // ---------------------------------------------------------------- a definition that fails

  /** Everything about the other modules stays: their records and what they wait for. */
  ghost predicate OthersKept(s: State, t: State, x: Id) {
    && (forall y :: y in s.modules && y != x ==> y in t.modules && t.modules[y] == s.modules[y])
    && (forall y, e :: y != x ==> (Waits(t.inverse, y, e) <==> Waits(s.inverse, y, e)))
  }

  lemma ExamineOthers(s: State, x: Id, i: nat)
    requires x in s.modules && s.modules[x].deps.Some? && i < |s.modules[x].deps.value|
    ensures OthersKept(s, Examine(s, x, i), x)
  {
    ExamineRecords(s, x, i);
    var dep := s.modules[x].deps.value[i];
    if dep.Ordinary() {
      RequestDepFrame(AddWaiter(s, dep.Id(), x), dep);
    }
  }

  lemma {:induction false} ResolveOthers(s: State, x: Id, i: nat)
    requires x in s.modules && s.modules[x].deps.Some? && i <= |s.modules[x].deps.value| && WaitersDefined(s)
    requires NeedsFailed(s, s.modules[x].deps.value, i)
    ensures OthersKept(s, Resolve(s, x, i), x)
    decreases |s.modules[x].deps.value| - i
  {
    var deps := s.modules[x].deps.value;
    if !FailedDep(s, deps[i]) {
      ExamineFrame(s, x, i);
      ExamineRecords(s, x, i);
      ExamineOthers(s, x, i);
      assert NeedsFailed(s, deps, i + 1);
      ExamineNeeds(s, x, i, deps, i + 1);
      ResolveOthers(Examine(s, x, i), x, i + 1);
    }
  }

  /** A failure found by a definition goes to nobody else. */
  lemma LateFailureIsNotPropagated(s: State, d: Id, deps: seq<Dep>, callback: Callback, errorback: bool)
    requires WaitersDefined(s) && d !in s.modules && NeedsFailed(s, deps, 0)
    ensures Define(s, d, deps, callback, errorback).modules[d].Failed()
    ensures OthersKept(s, Define(s, d, deps, callback, errorback), d)
  {
    var s1 := WithRecord(s, d, deps, callback, errorback);
    SameWaiters(s, s1);
    DefinitionFailsIff(s, d, deps, callback, errorback);
    NewRecordNeeds(s, d, deps, callback, errorback);
    ResolveOthers(s1, d, 0);
  }

  // ---------------------------------------------------------------- who is told

  /** Everyone who waits for a failed module has failed too. */
  ghost predicate Told(s: State) {
    forall x, e :: Waits(s.inverse, x, e) && e in s.modules && s.modules[e].Failed() ==>
      x in s.modules && s.modules[x].Failed()
  }

  ghost predicate FailedIsComplete(s: State) {
    forall x :: x in s.modules && s.modules[x].Failed() ==> s.modules[x].complete
  }

  /** The same modules have failed, and the same modules wait for them. */
  ghost predicate SameFailures(s: State, t: State) {
    && t.modules.Keys == s.modules.Keys && (FailedIsComplete(s) ==> FailedIsComplete(t))
    && (forall x :: x in s.modules ==> (t.modules[x].Failed() <==> s.modules[x].Failed()))
    && (forall x, e :: e in s.modules && s.modules[e].Failed() ==> (Waits(t.inverse, x, e) <==> Waits(s.inverse, x, e)))
  }

  lemma SameFailuresTold(s: State, t: State)
    requires SameFailures(s, t)
    ensures Told(t) <==> Told(s)
  {
  }

  lemma SameFailuresChain(s: State, t: State, u: State)
    requires SameFailures(s, t) && SameFailures(t, u)
    ensures SameFailures(s, u)
  {
  }

  lemma SettleFailures(s: State, x: Id)
    requires x in s.modules && !s.modules[x].complete && FailedIsComplete(s)
    ensures SameFailures(s, Settle(s, x))
  {
    assert !s.modules[x].Failed();
  }

  lemma DecrementFailures(s: State, x: Id)
    requires x in s.modules
    ensures SameFailures(s, Decrement(s, x))
  {
  }

  lemma {:induction false} OnModuleCompleteFailures(s: State, x: Id)
    requires x in s.modules && WaitersDefined(s) && FailedIsComplete(s)
    ensures SameFailures(s, OnModuleComplete(s, x))
    decreases |Incomplete(s)|, 0
  {
    if !s.modules[x].complete {
      var s1 := Settle(s, x);
      SettleReady(s, x);
      SettleFailures(s, x);
      ReleaseFailures(s1, Waiters(s.inverse, x));
      var s2 := Release(s1, Waiters(s.inverse, x));
      FlushPluginCore(s2, x);
      SameFailuresChain(s, s1, s2);
      SameFailuresChain(s, s2, FlushPlugin(s2, x));
    }
  }

  lemma {:induction false} ReleaseFailures(s: State, ws: seq<Id>)
    requires WaitersDefined(s) && (forall x :: x in ws ==> x in s.modules) && FailedIsComplete(s)
    ensures SameFailures(s, Release(s, ws))
    decreases |Incomplete(s)|, 1, |ws|
  {
    if ws != [] {
      DecrementReady(s, ws[0]);
      DecrementFailures(s, ws[0]);
      var s1 := Decrement(s, ws[0]);
      if s1.modules[ws[0]].count == 0 {
        OnModuleCompleteFailures(s1, ws[0]);
      }
      var s2 := if s1.modules[ws[0]].count == 0 then OnModuleComplete(s1, ws[0]) else s1;
      CardinalityMonotone(Incomplete(s2), Incomplete(s));
      ReleaseFailures(s2, ws[1..]);
      SameFailuresChain(s, s1, s2);
      SameFailuresChain(s, s2, Release(s2, ws[1..]));
    }
  }

  /** A wait is only recorded for a module that has not failed. */
  lemma ExamineFailures(s: State, x: Id, i: nat)
    requires x in s.modules && s.modules[x].deps.Some? && i < |s.modules[x].deps.value| && FailedIsComplete(s)
    ensures SameFailures(s, Examine(s, x, i))
  {
    ExamineRecords(s, x, i);
    var dep := s.modules[x].deps.value[i];
    if dep.Ordinary() {
      RequestDepFrame(AddWaiter(s, dep.Id(), x), dep);
    }
  }

  lemma {:induction false} ResolveFailures(s: State, x: Id, i: nat)
    requires x in s.modules && s.modules[x].deps.Some? && i <= |s.modules[x].deps.value| && WaitersDefined(s)
    requires FailedIsComplete(s) && !NeedsFailed(s, s.modules[x].deps.value, i)
    ensures SameFailures(s, Resolve(s, x, i))
    decreases |s.modules[x].deps.value| - i
  {
    var deps := s.modules[x].deps.value;
    if i == |deps| {
      OnModuleCompleteFailures(s, x);
    } else {
      assert !FailedDep(s, deps[i]);
      ExamineFrame(s, x, i);
      ExamineRecords(s, x, i);
      ExamineFailures(s, x, i);
      ExamineNeeds(s, x, i, deps, i + 1);
      var s1 := Examine(s, x, i);
      ResolveFailures(s1, x, i + 1);
      SameFailuresChain(s, s1, Resolve(s1, x, i + 1));
    }
  }

  lemma RunFailedIsComplete(steps: seq<Step>)
    ensures FailedIsComplete(Run(steps))
  {
    forall x | x in Run(steps).modules && Run(steps).modules[x].Failed() ensures Run(steps).modules[x].complete {
      SettledMeansCompleted(steps, x);
    }
  }

  /** All who wait for `d` have failed already. */
  ghost predicate WaitersDone(s: State, d: Id) {
    forall x :: Waits(s.inverse, x, d) ==> x in s.modules && s.modules[x].complete
  }

  lemma NewRecordTold(s: State, d: Id, deps: seq<Dep>, callback: Callback, errorback: bool)
    requires WaitersDefined(s) && d !in s.modules
    ensures Told(WithRecord(s, d, deps, callback, errorback)) <==> Told(s)
  {
    var s1 := WithRecord(s, d, deps, callback, errorback);
    forall x, e | Waits(s.inverse, x, e) ensures x in s.modules && x != d {}
    assert forall e :: e in s1.modules && s1.modules[e].Failed() <==> e in s.modules && s.modules[e].Failed();
  }

  lemma FailedDefinitionTold(s: State, t: State, d: Id)
    requires WaitersDefined(s) && d !in s.modules && OthersKept(s, t, d) && t.modules.Keys == s.modules.Keys + {d}
    requires t.modules[d].Failed()
    requires forall x :: Waits(s.inverse, x, d) ==> (s.modules[x].complete <==> s.modules[x].Failed())
    ensures Told(t) <==> Told(s) && WaitersDone(s, d)
  {
    forall x, e | Waits(s.inverse, x, e) ensures x in s.modules && x != d && Waits(t.inverse, x, e) {}
    if Told(t) {
      forall x, e | Waits(s.inverse, x, e) && e in s.modules && s.modules[e].Failed()
        ensures x in s.modules && s.modules[x].Failed()
      {
        assert Waits(t.inverse, x, e) && t.modules[e].Failed();
      }
    }
  }

  /** After a definition everyone is told exactly when everyone was told before, and the definition does not fail or
      those who wait for it have all failed already. */
  lemma ToldAfterDefinition(steps: seq<Step>, d: Id, deps: seq<Dep>, callback: Callback, errorback: bool)
    requires d !in Run(steps).modules
    ensures var s := Run(steps);
            Told(Define(s, d, deps, callback, errorback)) <==>
              Told(s) && (!NeedsFailed(s, deps, 0) || WaitersDone(s, d))
  {
    var s := Run(steps);
    var t := Define(s, d, deps, callback, errorback);
    var s1 := WithRecord(s, d, deps, callback, errorback);
    SameWaiters(s, s1);
    RunFailedIsComplete(steps);
    if NeedsFailed(s, deps, 0) {
      LateFailureIsNotPropagated(s, d, deps, callback, errorback);
      var n := RunInv(steps);
      forall x | Waits(s.inverse, x, d) ensures s.modules[x].complete <==> s.modules[x].Failed() {
        WaiterIsOpen(s, n, x, d);
      }
      FailedDefinitionTold(s, t, d);
    } else {
      NewRecordNeeds(s, d, deps, callback, errorback);
      NewRecordTold(s, d, deps, callback, errorback);
      ResolveFailures(s1, d, 0);
      SameFailuresTold(s1, t);
    }
  }

  /** A load error is delivered to all who wait: it leaves nobody untold. */
  lemma ToldAfterLoadError(steps: seq<Step>, x: Id)
    requires Told(Run(steps))
    ensures Told(LoadFails(Run(steps), x))
  {
    var s := Run(steps);
    var t := LoadFails(s, x);
    var n := RunInv(steps);
    LoadFailureIsExact(steps, x);
    forall y, e | Waits(t.inverse, y, e) && e in t.modules && t.modules[e].Failed()
      ensures y in t.modules && t.modules[y].Failed()
    {
      WaiterIsOpen(s, n, y, e);
      assert DependsOn(s.modules, y, e);
      if WaitsThrough(s.inverse, e, x) {
        ExtendWait(s.inverse, y, e, x);
      }
    }
  }

  /** No step of the run defines a module with a failed dependency while somebody who is not complete waits for it. */
  ghost predicate NoLateFailure(steps: seq<Step>) {
    forall i :: 0 <= i < |steps| ==> InTime(Run(steps[..i]), steps[i])
  }

  ghost predicate InTime(s: State, step: Step) {
    step.DefineStep? && step.id !in s.modules && NeedsFailed(s, step.deps, 0) ==> WaitersDone(s, step.id)
  }

  lemma StepTold(steps: seq<Step>, step: Step)
    requires Told(Run(steps))
    ensures InTime(Run(steps), step) <==> Told(Apply(Run(steps), step))
  {
    match step
    case DefineStep(d, deps, callback, errorback) =>
      if d !in Run(steps).modules {
        ToldAfterDefinition(steps, d, deps, callback, errorback);
      }
    case LoadFailsStep(x) => ToldAfterLoadError(steps, x);
    case ResourceFailsStep(_) =>
  }

  lemma PrefixTold(steps: seq<Step>, i: nat)
    requires i < |steps| && Told(Run(steps[..i]))
    ensures InTime(Run(steps[..i]), steps[i]) <==> Told(Run(steps[..i + 1]))
  {
    StepTold(steps[..i], steps[i]);
    PrefixRun(steps, i);
  }

  lemma PrefixRun(steps: seq<Step>, i: nat)
    requires i < |steps|
    ensures Run(steps[..i + 1]) == Apply(Run(steps[..i]), steps[i])
  {
    RunFromStep(INITIAL, steps[..i], steps[i]);
    assert steps[..i + 1] == steps[..i] + [steps[i]];
  }

  lemma {:induction false} ToldUpTo(steps: seq<Step>, n: nat)
    requires n <= |steps| && NoLateFailure(steps)
    ensures Told(Run(steps[..n]))
  {
    if n > 0 {
      ToldUpTo(steps, n - 1);
      PrefixTold(steps, n - 1);
    } else {
      assert steps[..0] == [] && Run([]) == INITIAL;
    }
  }

  /** Over a whole run: everyone is told at every point exactly when no definition fails late. */
  lemma {:induction false} ToldThroughout(steps: seq<Step>)
    ensures (forall i :: 0 <= i <= |steps| ==> Told(Run(steps[..i]))) <==> NoLateFailure(steps)
  {
    if NoLateFailure(steps) {
      forall i | 0 <= i <= |steps| ensures Told(Run(steps[..i])) {
        ToldUpTo(steps, i);
      }
    } else {
      var i :| 0 <= i < |steps| && !InTime(Run(steps[..i]), steps[i]);
      if Told(Run(steps[..i])) {
        PrefixTold(steps, i);
      }
    }
  }
}
