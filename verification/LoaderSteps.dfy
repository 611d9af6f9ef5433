/** The steps of a run: defining a module and learning that a load failed.  Every step keeps the invariant. */
module LoaderSteps {
  import opened LoaderState
  import opened LoaderInvariant

  // ---------------------------------------------------------------- waits follow dependencies

  /** A chain of recorded waits is a dependency path: this is what makes the search of `_hasDependencyPath`
      sufficient to keep the waits acyclic. */
  lemma WaitsAreDependencies(s: State, d: Id, x: Id)
    requires EdgesOk(s) && WaitsThrough(s.inverse, d, x) && (d == x ==> DependsOn(s.modules, x, x))
    ensures HasPath(s.modules, d, x)
  {
    var p :| Connects(p, d, x) && WaitPath(s.inverse, p);
    if |p| >= 2 {
      forall i | 0 <= i < |p| - 1 ensures DependsOn(s.modules, p[i], p[i + 1]) {
        assert Waits(s.inverse, p[i], p[i + 1]);
      }
      assert DepPath(s.modules, p);
    } else {
      assert DepPath(s.modules, [x, x]) && Connects([x, x], x, x);
    }
  }

  // ---------------------------------------------------------------- examining one position

  /** `t` differs from `s` only in the record of `x`, whose flags and list are as before. */
  ghost predicate OnlyCounts(s: State, t: State, x: Id)
    requires x in s.modules
  {
    && t.modules.Keys == s.modules.Keys && t.trace == s.trace && t.inverse == s.inverse
    && (forall y :: y in s.modules && y != x ==> t.modules[y] == s.modules[y])
    && s.modules[x] == t.modules[x].(count := s.modules[x].count, broken := s.modules[x].broken)
  }

  lemma OnlyCountsFrame(s: State, t: State, n: nat, c: Cursor, c': Cursor, pending: multiset<Id>, x: Id)
    requires x in s.modules && OnlyCounts(s, t, x) && Inv(s, n, c, pending)
    requires c.At? && c.id == x && c'.At? && c'.id == x
    requires CountOk(t, n, c', pending, x) && FlagsOk(t, c', x) && PositionsOk(t, c', x)
    ensures Inv(t, n, c', pending)
  {
    EdgesFrame(s, t);
    forall y | y in t.modules && y != x
      ensures CountOk(t, n, c', pending, y) && FlagsOk(t, c', y) && PositionsOk(t, c', y)
    {
      assert CountOk(s, n, c, pending, y) && FlagsOk(s, c, y) && PositionsOk(s, c, y);
      PositionsFrame(s, t, c, c', y);
    }
  }

  lemma AdvancePositions(s: State, t: State, x: Id, i: nat)
    requires x in s.modules && OnlyCounts(s, t, x) && PositionsOk(s, At(x, i), x)
    requires s.modules[x].deps.Some? && i < |s.modules[x].deps.value|
    requires s.modules[x].broken <= t.modules[x].broken
    requires var dep := s.modules[x].deps.value[i];
             dep.Ordinary() && i !in t.modules[x].broken ==> SettledIn(s, dep.Id())
    ensures PositionsOk(t, At(x, i + 1), x)
  {
    var m := t.modules[x];
    if m.error.None? {
      forall k | 0 <= k < i + 1 && m.deps.value[k].Ordinary() && k !in m.broken
        ensures SettledIn(t, m.deps.value[k].Id()) || Waits(t.inverse, x, m.deps.value[k].Id())
      {
        var d := m.deps.value[k].Id();
        assert SettledIn(s, d) || Waits(s.inverse, x, d);
      }
    }
  }

  ghost predicate ResolvingAt(s: State, n: nat, x: Id, i: nat) {
    && x in s.modules && s.modules[x].deps.Some? && !s.modules[x].complete
    && i <= |s.modules[x].deps.value|
    && (forall k :: 0 <= k < |s.modules[x].deps.value| ==> s.modules[x].deps.value[k].Id() < n)
    && Inv(s, n, At(x, i), multiset{})
  }

  lemma ExamineReady(s: State, n: nat, x: Id, i: nat)
    requires ResolvingAt(s, n, x, i) && i < |s.modules[x].deps.value|
    requires var dep := s.modules[x].deps.value[i]; dep.Ordinary() ==> SettledIn(s, dep.Id())
    ensures Inv(Decrement(s, x), n, At(x, i + 1), multiset{})
  {
    var t := Decrement(s, x);
    assert CountOk(s, n, At(x, i), multiset{}, x) && FlagsOk(s, At(x, i), x) && PositionsOk(s, At(x, i), x);
    AdvancePositions(s, t, x, i);
    OnlyCountsFrame(s, t, n, At(x, i), At(x, i + 1), multiset{}, x);
  }

  lemma ExamineBroken(s: State, n: nat, x: Id, i: nat)
    requires ResolvingAt(s, n, x, i) && i < |s.modules[x].deps.value|
    ensures Inv(BreakCycle(s, x, i), n, At(x, i + 1), multiset{})
  {
    var t := BreakCycle(s, x, i);
    assert CountOk(s, n, At(x, i), multiset{}, x) && FlagsOk(s, At(x, i), x) && PositionsOk(s, At(x, i), x);
    AdvancePositions(s, t, x, i);
    OnlyCountsFrame(s, t, n, At(x, i), At(x, i + 1), multiset{}, x);
  }

  lemma ExamineWaiting(s: State, n: nat, x: Id, i: nat)
    requires ResolvingAt(s, n, x, i) && i < |s.modules[x].deps.value|
    requires var d := s.modules[x].deps.value[i].Id(); !CompleteIn(s, d) && !HasPath(s.modules, d, x)
    ensures Inv(AddWaiter(s, s.modules[x].deps.value[i].Id(), x), n, At(x, i + 1), multiset{})
  {
    var deps := s.modules[x].deps.value;
    var d := deps[i].Id();
    var t := AddWaiter(s, d, x);
    var c, c' := At(x, i), At(x, i + 1);
    assert DependsOn(s.modules, x, d);
    if WaitsThrough(s.inverse, d, x) {
      WaitsAreDependencies(s, d, x);
    }
    AcyclicAdd(s.inverse, d, x);
    forall y, e | Waits(t.inverse, y, e) ensures DependsOn(t.modules, y, e) {
      assert Waits(s.inverse, y, e) || (y == x && e == d);
    }
    forall y | y in t.modules
      ensures CountOk(t, n, c', multiset{}, y) && FlagsOk(t, c', y) && PositionsOk(t, c', y)
    {
      assert CountOk(s, n, c, multiset{}, y) && FlagsOk(s, c, y) && PositionsOk(s, c, y);
      OccurrencesAdd(s.inverse, d, x, y, n);
      AddWaiterPositions(s, d, x, i, y);
      assert FlagsOk(s, c, x);
    }
  }

  lemma AddWaiterPositions(s: State, d: Id, x: Id, i: nat, y: Id)
    requires x in s.modules && s.modules[x].deps.Some? && i < |s.modules[x].deps.value|
    requires s.modules[x].deps.value[i].Id() == d
    requires y in s.modules && PositionsOk(s, At(x, i), y)
    ensures PositionsOk(AddWaiter(s, d, x), At(x, i + 1), y)
  {
    var t := AddWaiter(s, d, x);
    var m := t.modules[y];
    if m.deps.Some? && m.error.None? {
      forall k | 0 <= k < Examined(m, y, At(x, i + 1)) && m.deps.value[k].Ordinary() && k !in m.broken
        ensures SettledIn(t, m.deps.value[k].Id()) || Waits(t.inverse, y, m.deps.value[k].Id())
      {
        var e := m.deps.value[k].Id();
        if y == x && k == i {
          assert Waiters(t.inverse, d)[|Waiters(s.inverse, d)|] == x;
        } else {
          assert SettledIn(s, e) || Waits(s.inverse, y, e);
          assert Waits(s.inverse, y, e) ==> Waits(t.inverse, y, e);
        }
      }
    }
  }

  lemma ExamineInv(s: State, n: nat, x: Id, i: nat)
    requires ResolvingAt(s, n, x, i) && i < |s.modules[x].deps.value|
    requires !FailedDep(s, s.modules[x].deps.value[i])
    ensures ResolvingAt(Examine(s, x, i), n, x, i + 1)
  {
    var dep := s.modules[x].deps.value[i];
    if !dep.Ordinary() || CompleteIn(s, dep.Id()) {
      if dep.Ordinary() {
        assert FlagsOk(s, At(x, i), dep.Id());
      }
      ExamineReady(s, n, x, i);
    } else if HasPath(s.modules, dep.Id(), x) {
      ExamineBroken(s, n, x, i);
    } else {
      ExamineWaiting(s, n, x, i);
      var t := AddWaiter(s, dep.Id(), x);
      RequestDepCore(t, dep, RequestDep(t, dep));
      SameCore(t, RequestDep(t, dep), n, At(x, i + 1), multiset{});
    }
  }

  // ---------------------------------------------------------------- errors

  lemma DependencyErrorInv(s: State, n: nat, c: Cursor, x: Id, error: Error)
    requires x in s.modules && Inv(s, n, c, multiset{})
    ensures Inv(DependencyError(s, x, error), n, c, multiset{})
  {
    var t := DependencyError(s, x, error);
    assert Completions(t.trace) == Completions(s.trace) by {
      CompletionsSkip(s.trace, Errorback(x, error));
      assert s.trace + [] == s.trace;
    }
    EdgesFrame(s, t);
    forall y | y in t.modules
      ensures CountOk(t, n, c, multiset{}, y) && FlagsOk(t, c, y) && PositionsOk(t, c, y)
    {
      DependencyErrorModule(s, n, c, x, error, y);
    }
  }

  lemma DependencyErrorModule(s: State, n: nat, c: Cursor, x: Id, error: Error, y: Id)
    requires x in s.modules && y in s.modules
    requires CountOk(s, n, c, multiset{}, y) && FlagsOk(s, c, y) && PositionsOk(s, c, y)
    ensures var t := DependencyError(s, x, error);
            CountOk(t, n, c, multiset{}, y) && FlagsOk(t, c, y) && PositionsOk(t, c, y)
  {
    PositionsFrame(s, DependencyError(s, x, error), c, c, y);
  }

  lemma {:induction false} DeliverInv(s: State, n: nat, c: Cursor, ids: seq<Id>, error: Error)
    requires Inv(s, n, c, multiset{})
    ensures Inv(Deliver(s, ids, error), n, c, multiset{})
    decreases |ids|
  {
    if ids != [] {
      if ids[0] in s.modules {
        DependencyErrorInv(s, n, c, ids[0], error);
        DeliverInv(DependencyError(s, ids[0], error), n, c, ids[1..], error);
      } else {
        DeliverInv(s, n, c, ids[1..], error);
      }
    }
  }

  /** The cursor may leave a module that is complete or still has something to wait for. */
  lemma LeaveCursor(s: State, n: nat, x: Id, pos: nat)
    requires x in s.modules && Inv(s, n, At(x, pos), multiset{})
    requires s.modules[x].complete ||
             (s.modules[x].deps.Some? && pos == |s.modules[x].deps.value| && s.modules[x].count != 0)
    ensures Inv(s, n, Idle, multiset{})
  {
    forall y | y in s.modules
      ensures CountOk(s, n, Idle, multiset{}, y) && FlagsOk(s, Idle, y) && PositionsOk(s, Idle, y)
    {
      assert CountOk(s, n, At(x, pos), multiset{}, y) && FlagsOk(s, At(x, pos), y) && PositionsOk(s, At(x, pos), y);
    }
  }

  // ---------------------------------------------------------------- steps

  lemma ResolveEnds(s: State, n: nat, x: Id, i: nat)
    requires ResolvingAt(s, n, x, i) && WaitersDefined(s)
    requires i == |s.modules[x].deps.value| || FailedDep(s, s.modules[x].deps.value[i])
    ensures Inv(Resolve(s, x, i), n, Idle, multiset{})
  {
    if i == |s.modules[x].deps.value| {
      if s.modules[x].count == 0 {
        OnModuleCompleteInv(s, n, x, multiset{});
      } else {
        LeaveCursor(s, n, x, i);
      }
    } else {
      var error := s.modules[s.modules[x].deps.value[i].Id()].error.value;
      DependencyErrorInv(s, n, At(x, i), x, error);
      LeaveCursor(DependencyError(s, x, error), n, x, i);
    }
  }

  lemma {:induction false} ResolveInv(s: State, n: nat, x: Id, i: nat)
    requires ResolvingAt(s, n, x, i) && WaitersDefined(s)
    ensures Inv(Resolve(s, x, i), n, Idle, multiset{})
    decreases |s.modules[x].deps.value| - i
  {
    if i == |s.modules[x].deps.value| || FailedDep(s, s.modules[x].deps.value[i]) {
      ResolveEnds(s, n, x, i);
    } else {
      ExamineInv(s, n, x, i);
      ExamineFrame(s, x, i);
      ResolveInv(Examine(s, x, i), n, x, i + 1);
    }
  }

  lemma WithRecordInv(s: State, n: nat, x: Id, deps: seq<Dep>, callback: Callback, errorback: bool)
    requires Inv(s, n, Idle, multiset{}) && x !in s.modules && x < n
    ensures Inv(WithRecord(s, x, deps, callback, errorback), n, At(x, 0), multiset{})
  {
    var t := WithRecord(s, x, deps, callback, errorback);
    EdgesFrame(s, t);
    forall d ensures !Waits(s.inverse, x, d) {
      assert Waits(s.inverse, x, d) ==> x in s.modules;
    }
    OccurrencesZero(s.inverse, x, n);
    forall y | y in t.modules
      ensures CountOk(t, n, At(x, 0), multiset{}, y) && FlagsOk(t, At(x, 0), y) && PositionsOk(t, At(x, 0), y)
    {
      if y != x {
        assert CountOk(s, n, Idle, multiset{}, y) && FlagsOk(s, Idle, y) && PositionsOk(s, Idle, y);
        assert forall d :: SettledIn(t, d) == SettledIn(s, d);
      }
    }
  }

  ghost predicate BetweenSteps(s: State, n: nat) {
    Inv(s, n, Idle, multiset{})
  }

  ghost predicate IdsBelow(x: Id, deps: seq<Dep>, n: nat) {
    x < n && forall k :: 0 <= k < |deps| ==> deps[k].Id() < n
  }

  lemma DefineInv(s: State, n: nat, x: Id, deps: seq<Dep>, callback: Callback, errorback: bool)
    requires BetweenSteps(s, n) && WaitersDefined(s) && IdsBelow(x, deps, n)
    ensures BetweenSteps(Define(s, x, deps, callback, errorback), n)
  {
    if x !in s.modules {
      WithRecordInv(s, n, x, deps, callback, errorback);
      ResolveInv(WithRecord(s, x, deps, callback, errorback), n, x, 0);
    }
  }

  lemma DeliveredInv(s: State, n: nat, x: Id, order: seq<Id>, error: Error)
    requires BetweenSteps(s, n) && x < n && x in order
    ensures BetweenSteps(Deliver(WithPlaceholder(s, x), order, error), n)
  {
    var s1 := WithPlaceholder(s, x);
    if x in s.modules {
      DeliverInv(s1, n, Idle, order, error);
    } else {
      WithRecordInv(s, n, x, [], Factory(false), false);
      DeliverInv(s1, n, At(x, 0), order, error);
      DeliverEffect(s1, order, error);
      LeaveCursor(Deliver(s1, order, error), n, x, 0);
    }
  }

  lemma LoadFailsInv(s: State, n: nat, x: Id)
    requires BetweenSteps(s, n) && x < n
    ensures BetweenSteps(LoadFails(s, x), n)
  {
    var error := Error(Loading, x, Waiters(s.inverse, x));
    var order := Walk(s.inverse, [x], {x});
    assert order[0] == x;
    DeliveredInv(s, n, x, order, error);
    var s2 := Deliver(WithPlaceholder(s, x), order, error);
    ReportInv(s2, n, error);
  }

  /** Telling the global handler changes nothing else. */
  lemma ReportInv(s: State, n: nat, error: Error)
    requires BetweenSteps(s, n)
    ensures BetweenSteps(s.(trace := s.trace + [GlobalError(error)]), n)
  {
    CompletionsSkip(s.trace, GlobalError(error));
    SameCore(s, s.(trace := s.trace + [GlobalError(error)]), n, Idle, multiset{});
  }
}
