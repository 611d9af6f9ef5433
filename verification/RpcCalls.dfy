/** Message ids: one 32-bit counter for the calls and the streams of the whole process. */
module MessageIds {
  import opened Integers

  /** The id that the `n`-th allocation gets. */
  function WireId(n: nat): U32 {
    n % TWO32
  }

  /** Adding one wraps around. */
  lemma NextWireId(n: nat)
    ensures WireId(n + 1) == (WireId(n) as int + 1) % TWO32
  {
  }

  /** Ids are pairwise distinct exactly as long as the counter has not come round. */
  lemma WireIdsDistinct(total: nat)
    ensures (forall i, j | 0 <= i < j < total :: WireId(i) != WireId(j)) <==> total <= TWO32
  {
    if total > TWO32 {
      assert 0 < TWO32 < total && WireId(0) == WireId(TWO32);
    }
  }
}

/** Outbound calls and their answers, as steps of several tasks over a shared table of callbacks.  A call allocates
    an id, sends its request, and only then inserts its callback; an incoming response takes the callback with its
    id out of the table and runs it. */
module RpcCalls {
  import opened Options
  import opened Sequences
  import opened Integers
  import opened MessageIds

  // ---------------------------------------------------------------- state and steps

  /** A call is known by the number of its allocation. */
  datatype Phase = Allocated | Sent | Inserted | Dropped

  datatype Outcome = Failure(error: string) | Success(body: seq<Byte>)

  datatype Run = Run(call: nat, id: U32, outcome: Outcome)

  /** What the dispatcher reads of an incoming message. */
  datatype Incoming = Incoming(id: Option<U32>, methodName: Option<string>, error: Option<string>, body: seq<Byte>)

  datatype State = State(total: nat, phases: map<nat, Phase>, calls: map<U32, nat>, runs: seq<Run>, poisoned: bool)

  const INITIAL := State(0, map[], map[], [], false)

  datatype Event =
    | CallStarts
    | StreamCreated
    | Send(call: nat, channelOpen: bool)
    | Insert(call: nat)
    | Receive(frame: Incoming)

  predicate IsResponse(frame: Incoming) {
    frame.methodName.None?
  }

  function OutcomeOf(frame: Incoming): Outcome {
    if frame.error.Some? then Failure(frame.error.value) else Success(frame.body)
  }

  predicate Enabled(s: State, e: Event) {
    match e
    case Send(c, _) => c in s.phases && s.phases[c] == Allocated
    case Insert(c) => c in s.phases && s.phases[c] == Sent
    case _ => true
  }

  /** A response without an id panics while the table is locked; a table that was left like that panics whenever it
      is locked again. */
  function Dispatched(s: State, frame: Incoming): State {
    if !IsResponse(frame) || s.poisoned then s
    else if frame.id.None? then s.(poisoned := true)
    else
      var id := frame.id.value;
      if id in s.calls then
        s.(calls := s.calls - {id}, runs := s.runs + [Run(s.calls[id], id, OutcomeOf(frame))])
      else s
  }

  function Apply(s: State, e: Event): State {
    match e
    case CallStarts => s.(total := s.total + 1, phases := s.phases[s.total := Allocated])
    case StreamCreated => s.(total := s.total + 1)
    case Send(c, channelOpen) => s.(phases := s.phases[c := if channelOpen then Sent else Dropped])
    case Insert(c) =>
      if s.poisoned then s.(phases := s.phases[c := Dropped])
      else s.(phases := s.phases[c := Inserted], calls := s.calls[WireId(c) := c])
    case Receive(frame) => Dispatched(s, frame)
  }

  /** The state after a run. */
  function Exec(es: seq<Event>): State {
    if es == [] then INITIAL else Apply(Exec(Init(es)), Last(es))
  }

  ghost predicate Feasible(es: seq<Event>) {
    es == [] || (Feasible(Init(es)) && Enabled(Exec(Init(es)), Last(es)))
  }

  // ---------------------------------------------------------------- the shared objects

  /** What the callers and the dispatcher of a process share, with its atomic steps. */
  class Shared {
    var messageIdCounter: U32
    var calls: map<U32, nat>
    var poisoned: bool
    var runs: seq<Run>
    ghost var total: nat
    ghost var phases: map<nat, Phase>

    ghost function Abs(): State
      reads this
    {
      State(total, phases, calls, runs, poisoned)
    }

    ghost predicate Valid()
      reads this
    {
      messageIdCounter == WireId(total)
    }

    constructor ()
      ensures Valid() && Abs() == INITIAL
    {
      messageIdCounter := 0;
      calls := map[];
      poisoned := false;
      runs := [];
      total := 0;
      phases := map[];
    }

    method NextMessageId() returns (id: U32)
      requires Valid()
      modifies this`messageIdCounter, this`total
      ensures Valid() && id == WireId(old(total))
      ensures Abs() == Apply(old(Abs()), StreamCreated)
    {
      NextWireId(total);
      id := messageIdCounter;
      messageIdCounter := (messageIdCounter as int + 1) % TWO32;
      total := total + 1;
    }

    method Allocate() returns (id: U32)
      requires Valid()
      modifies this
      ensures Valid() && id == WireId(old(total))
      ensures Abs() == Apply(old(Abs()), CallStarts)
    {
      id := NextMessageId();
      phases := phases[total - 1 := Allocated];
    }

    method InsertCallback(id: U32, call: nat)
      requires Valid() && Enabled(Abs(), Insert(call)) && id == WireId(call)
      modifies this`calls, this`phases
      ensures Valid() && Abs() == Apply(old(Abs()), Insert(call))
    {
      if poisoned {
        phases := phases[call := Dropped];
      } else {
        calls := calls[id := call];
        phases := phases[call := Inserted];
      }
    }

    /** A whole call that nothing interrupts: without a channel the request and the callback are dropped. */
    method Call(callback: nat, channelOpen: bool)
      requires Valid() && callback == total
      modifies this
      ensures Valid()
      ensures var requested := Apply(Apply(old(Abs()), CallStarts), Send(callback, channelOpen));
              Abs() == if channelOpen then Apply(requested, Insert(callback)) else requested
    {
      var id := Allocate();
      if !channelOpen {
        phases := phases[callback := Dropped];
        return;
      }
      phases := phases[callback := Sent];
      InsertCallback(id, callback);
    }

    /** The part of `dispatch` that concerns responses; `panicked` tells that the dispatcher panics. */
    method Dispatch(frame: Incoming) returns (panicked: bool)
      requires Valid()
      modifies this`calls, this`runs, this`poisoned
      ensures Valid() && Abs() == Apply(old(Abs()), Receive(frame))
      ensures panicked <==> IsResponse(frame) && (old(poisoned) || frame.id.None?)
    {
      panicked := false;
      if frame.methodName.None? {
        if poisoned {
          return true;
        }
        match frame.id {
          case None =>
            poisoned := true;
            return true;
          case Some(id) =>
            if id in calls {
              var callback := calls[id];
              calls := calls - {id};
              var outcome := if frame.error.Some? then Failure(frame.error.value) else Success(frame.body);
              runs := runs + [Run(callback, id, outcome)];
            }
        }
      }
    }
  }

  // ---------------------------------------------------------------- what every run keeps

  /** `c` has run its callback. */
  ghost predicate HasRun(s: State, c: nat) {
    exists i :: 0 <= i < |s.runs| && s.runs[i].call == c
  }

  /** `c` has inserted its callback. */
  ghost predicate HasInserted(s: State, c: nat) {
    c in s.phases && s.phases[c] == Inserted
  }

  ghost predicate Inv(s: State) {
    && (forall c :: c in s.phases ==> c < s.total)
    && (forall id :: id in s.calls ==> Awaited(s, id, s.calls[id]))
    && (forall i :: 0 <= i < |s.runs| ==> Answered(s, s.runs[i]))
    && (forall i, j :: 0 <= i < j < |s.runs| ==> s.runs[i].call != s.runs[j].call)
  }

  ghost predicate Awaited(s: State, id: U32, c: nat) {
    HasInserted(s, c) && id == WireId(c) && !HasRun(s, c)
  }

  ghost predicate Answered(s: State, r: Run) {
    HasInserted(s, r.call) && r.id == WireId(r.call)
  }

  lemma ApplyInv(s: State, e: Event)
    requires Inv(s) && Enabled(s, e)
    ensures Inv(Apply(s, e))
  {
    if e.Receive? {
      DispatchInv(s, e.frame);
    } else {
      var t := Apply(s, e);
      assert t.runs == s.runs;
      forall id | id in t.calls ensures Awaited(t, id, t.calls[id]) {
        if e.Insert? && !s.poisoned && id == WireId(e.call) {
          assert !HasRun(s, e.call);
        } else {
          assert Awaited(s, id, s.calls[id]);
        }
      }
      forall i | 0 <= i < |t.runs| ensures Answered(t, t.runs[i]) {
        assert Answered(s, s.runs[i]);
      }
    }
  }

  lemma DispatchInv(s: State, frame: Incoming)
    requires Inv(s)
    ensures Inv(Dispatched(s, frame))
  {
    var t := Dispatched(s, frame);
    if |t.runs| > |s.runs| {
      var id := frame.id.value;
      var c := s.calls[id];
      assert Awaited(s, id, c);
      forall i | 0 <= i < |s.runs| ensures s.runs[i].call != c {
        assert !HasRun(s, c);
      }
      forall x | x in t.calls ensures Awaited(t, x, t.calls[x]) {
        assert Awaited(s, x, s.calls[x]);
        assert t.calls[x] != c;
        forall i | 0 <= i < |t.runs| ensures t.runs[i].call != t.calls[x] {
          if i < |s.runs| {
            assert !HasRun(s, t.calls[x]);
          }
        }
      }
      forall i | 0 <= i < |t.runs| ensures Answered(t, t.runs[i]) {
        if i < |s.runs| {
          assert Answered(s, s.runs[i]);
        }
      }
    }
  }

  lemma {:induction false} ExecInv(es: seq<Event>)
    requires Feasible(es)
    ensures Inv(Exec(es))
  {
    if es != [] {
      ExecInv(Init(es));
      ApplyInv(Exec(Init(es)), Last(es));
    }
  }

  /** A callback runs at most once, and only for a response with the id of its call. */
  lemma CallbacksRunOnceForOwnId(es: seq<Event>)
    requires Feasible(es)
    ensures forall r :: r in Exec(es).runs ==> r.id == WireId(r.call)
    ensures forall i, j :: 0 <= i < j < |Exec(es).runs| ==> Exec(es).runs[i].call != Exec(es).runs[j].call
  {
    ExecInv(es);
    forall r | r in Exec(es).runs ensures r.id == WireId(r.call) {
      assert Answered(Exec(es), r);
    }
  }

  // ---------------------------------------------------------------- which calls are answered

  function ResultIn(runs: seq<Run>, c: nat): Option<Outcome> {
    if runs == [] then None
    else if Last(runs).call == c then Some(Last(runs).outcome)
    else ResultIn(Init(runs), c)
  }

  /** What the caller of `c` has received. */
  function Result(s: State, c: nat): Option<Outcome> {
    ResultIn(s.runs, c)
  }

  predicate BreaksTable(e: Event) {
    e.Receive? && IsResponse(e.frame) && e.frame.id.None?
  }

  predicate Broken(es: seq<Event>) {
    exists i :: 0 <= i < |es| && BreaksTable(es[i])
  }

  predicate Answers(before: seq<Event>, e: Event, c: nat) {
    && e.Receive? && IsResponse(e.frame) && e.frame.id == Some(WireId(c))
    && Insert(c) in before && !Broken(before)
  }

  /** The first response with the id of the call that comes after the callback was inserted. */
  function Answer(es: seq<Event>, c: nat): Option<Outcome> {
    if es == [] then None
    else if Answer(Init(es), c).Some? then Answer(Init(es), c)
    else if Answers(Init(es), Last(es), c) then Some(OutcomeOf(Last(es).frame))
    else None
  }

  lemma {:induction false} PoisonedIsBroken(es: seq<Event>)
    ensures Exec(es).poisoned <==> Broken(es)
  {
    if es != [] {
      var init := Init(es);
      PoisonedIsBroken(init);
      if BreaksTable(Last(es)) {
        assert BreaksTable(es[|es| - 1]);
      }
      if i :| 0 <= i < |init| && BreaksTable(init[i]) {
        assert BreaksTable(es[i]);
      }
      if i :| 0 <= i < |es| && BreaksTable(es[i]) {
        assert i < |init| ==> BreaksTable(init[i]);
      }
    }
  }

  lemma {:induction false} InsertedIsInRun(es: seq<Event>, c: nat)
    requires Feasible(es)
    ensures HasInserted(Exec(es), c) ==> Insert(c) in es
    ensures Insert(c) in es && !Broken(es) ==> HasInserted(Exec(es), c)
  {
    if es != [] {
      var init := Init(es);
      assert es == init + [Last(es)];
      InsertedIsInRun(init, c);
      PoisonedIsBroken(init);
      ExecInv(init);
    }
  }

  lemma {:induction false} ResultIsRun(runs: seq<Run>, c: nat)
    ensures ResultIn(runs, c).Some? <==> exists i :: 0 <= i < |runs| && runs[i].call == c
  {
    if runs != [] {
      ResultIsRun(Init(runs), c);
      if i :| 0 <= i < |runs| && runs[i].call == c {
        assert i < |runs| - 1 ==> Init(runs)[i].call == c;
      }
    }
  }

  /** The step inserts the callback of another call under the id of `c`, which is still waiting there. */
  predicate Overtakes(before: seq<Event>, e: Event, c: nat) {
    && e.Insert? && e.call != c && WireId(e.call) == WireId(c)
    && Insert(c) in before && !Broken(before) && Answer(before, c).None?
  }

  /** Another call has taken over the id of `c` before the answer came. */
  predicate Overtaken(es: seq<Event>, c: nat) {
    es != [] && (Overtaken(Init(es), c) || Overtakes(Init(es), Last(es), c))
  }

  predicate Registered(s: State, c: nat) {
    WireId(c) in s.calls && s.calls[WireId(c)] == c
  }

  /** What is kept of a call: it is in the table while it waits and was not overtaken; its caller has received the
      answer, or nothing if it was overtaken. */
  ghost predicate CallOk(es: seq<Event>, c: nat) {
    var s := Exec(es);
    && (Registered(s, c) <==> HasInserted(s, c) && Result(s, c).None? && !Overtaken(es, c))
    && (Overtaken(es, c) ==> HasInserted(s, c))
    && Result(s, c) == if Overtaken(es, c) then None else Answer(es, c)
  }

  lemma {:induction false} ExecCallOk(es: seq<Event>, c: nat)
    requires Feasible(es)
    ensures CallOk(es, c)
  {
    if es != [] {
      var init, e := Init(es), Last(es);
      ExecInv(init);
      ExecCallOk(init, c);
      PoisonedIsBroken(init);
      InsertedIsInRun(init, c);
      match e
      case Insert(_) => InsertCallOk(es, c);
      case Receive(_) => ReceiveCallOk(es, c);
      case _ =>
    }
  }

  lemma InsertCallOk(es: seq<Event>, c: nat)
    requires es != [] && Last(es).Insert? && CallOk(Init(es), c) && Inv(Exec(Init(es)))
    requires Enabled(Exec(Init(es)), Last(es))
    requires Exec(Init(es)).poisoned <==> Broken(Init(es))
    requires HasInserted(Exec(Init(es)), c) ==> Insert(c) in Init(es)
    requires Insert(c) in Init(es) && !Broken(Init(es)) ==> HasInserted(Exec(Init(es)), c)
    ensures CallOk(es, c)
  {
    var s, e := Exec(Init(es)), Last(es);
    ResultIsRun(s.runs, c);
    if e.call == c {
      forall i | 0 <= i < |s.runs| ensures s.runs[i].call != c {
        assert Answered(s, s.runs[i]);
      }
    }
  }

  lemma ReceiveCallOk(es: seq<Event>, c: nat)
    requires es != [] && Last(es).Receive? && CallOk(Init(es), c) && Inv(Exec(Init(es)))
    requires Exec(Init(es)).poisoned <==> Broken(Init(es))
    requires HasInserted(Exec(Init(es)), c) ==> Insert(c) in Init(es)
    requires Insert(c) in Init(es) && !Broken(Init(es)) ==> HasInserted(Exec(Init(es)), c)
    ensures CallOk(es, c)
  {
    var s, frame := Exec(Init(es)), Last(es).frame;
    DispatchedResult(s, frame, c);
    if frame.id.Some? && frame.id.value in s.calls {
      assert Awaited(s, frame.id.value, s.calls[frame.id.value]);
    }
  }

  /** A response that is taken runs one callback. */
  lemma DispatchedResult(s: State, frame: Incoming, c: nat)
    ensures var t := Dispatched(s, frame);
            var taken := IsResponse(frame) && !s.poisoned && frame.id.Some? && frame.id.value in s.calls;
            && t.phases == s.phases
            && t.calls == (if taken then s.calls - {frame.id.value} else s.calls)
            && Result(t, c) == if taken && s.calls[frame.id.value] == c then Some(OutcomeOf(frame)) else Result(s, c)
  {
    var t := Dispatched(s, frame);
    assert |t.runs| > |s.runs| ==> Init(t.runs) == s.runs;
  }

  /** An inserted callback is in the table until it runs, exactly as long as no other call takes over its id. */
  lemma WaitingIsRegistered(es: seq<Event>, c: nat)
    requires Feasible(es) && HasInserted(Exec(es), c) && !HasRun(Exec(es), c)
    ensures Registered(Exec(es), c) <==> !Overtaken(es, c)
  {
    ExecCallOk(es, c);
    ResultIsRun(Exec(es).runs, c);
  }

  /** A caller receives the first response with its id that is dispatched after its callback was inserted, exactly
      when no other call takes over the id in between; if one does, the caller receives nothing. */
  lemma CallResult(es: seq<Event>, c: nat)
    requires Feasible(es)
    ensures Result(Exec(es), c) == Answer(es, c) <==> Answer(es, c).None? || !Overtaken(es, c)
    ensures Overtaken(es, c) ==> Result(Exec(es), c).None?
  {
    ExecCallOk(es, c);
  }

  /** An id can only be taken over after the counter has come round. */
  lemma {:induction false} DistinctIsNotOvertaken(es: seq<Event>, c: nat)
    requires Feasible(es) && Exec(es).total <= TWO32
    ensures !Overtaken(es, c)
  {
    if es != [] {
      var init := Init(es);
      DistinctIsNotOvertaken(init, c);
      ExecInv(init);
      InsertedIsInRun(init, c);
    }
  }

  /** With at most 2^32 ids every caller receives its answer and every waiting callback is in the table. */
  lemma DistinctIdsAnswered(es: seq<Event>, c: nat)
    requires Feasible(es) && Exec(es).total <= TWO32
    ensures Result(Exec(es), c) == Answer(es, c)
    ensures HasInserted(Exec(es), c) && !HasRun(Exec(es), c) ==> Registered(Exec(es), c)
  {
    DistinctIsNotOvertaken(es, c);
    CallResult(es, c);
    if HasInserted(Exec(es), c) && !HasRun(Exec(es), c) {
      WaitingIsRegistered(es, c);
    }
  }

  /** A response to the call `c`. */
  predicate RespondsTo(frame: Incoming, c: nat) {
    frame.methodName == None && frame.id == Some(WireId(c))
  }

  /** The response at `i` is the first one after the callback of `c` was inserted. */
  ghost predicate FirstResponse(es: seq<Event>, c: nat, i: nat) {
    && i < |es| && es[i].Receive? && RespondsTo(es[i].frame, c) && Insert(c) in es[..i]
    && (forall j :: 0 <= j < i && es[j].Receive? && RespondsTo(es[j].frame, c) ==> Insert(c) !in es[..j])
  }

  lemma {:induction false} AnswerIsFirst(es: seq<Event>, c: nat) returns (i: nat)
    requires Answer(es, c).Some?
    ensures FirstResponse(es, c, i)
    ensures Answer(es, c) == Some(if es[i].frame.error.Some? then Failure(es[i].frame.error.value)
                                  else Success(es[i].frame.body))
  {
    var init := Init(es);
    if Answer(init, c).Some? {
      i := AnswerIsFirst(init, c);
      assert forall j :: 0 <= j <= i ==> es[j] == init[j] && es[..j] == init[..j];
    } else {
      i := |es| - 1;
      assert es[..i] == init;
      forall j | 0 <= j < i && es[j].Receive? && RespondsTo(es[j].frame, c) ensures Insert(c) !in es[..j] {
        NotAnsweredBefore(init, c, j);
        assert es[..j] == init[..j] && es[j] == init[j];
      }
    }
  }

  lemma {:induction false} NotAnsweredBefore(es: seq<Event>, c: nat, j: nat)
    requires Answer(es, c).None? && j < |es| && es[j].Receive? && RespondsTo(es[j].frame, c) && !Broken(es)
    ensures Insert(c) !in es[..j]
  {
    var init := Init(es);
    assert !Broken(init) by {
      assert forall k :: 0 <= k < |init| ==> init[k] == es[k];
    }
    if j < |init| {
      NotAnsweredBefore(init, c, j);
      assert init[..j] == es[..j];
    } else {
      assert es[..j] == init;
    }
  }

  /** What a caller receives came in the first response with its id after its callback was inserted: a failure with the
      error of that response if it has one, and its body otherwise.  Requests are never taken for responses. */
  lemma ReceivedFrom(es: seq<Event>, c: nat) returns (i: nat)
    requires Feasible(es) && Result(Exec(es), c).Some?
    ensures FirstResponse(es, c, i)
    ensures es[i].frame.error.Some? ==> Result(Exec(es), c) == Some(Failure(es[i].frame.error.value))
    ensures es[i].frame.error.None? ==> Result(Exec(es), c) == Some(Success(es[i].frame.body))
  {
    ExecCallOk(es, c);
    i := AnswerIsFirst(es, c);
  }

  lemma {:induction false} ResponseAnswers(es: seq<Event>, c: nat, i: nat)
    requires i < |es| && es[i].Receive? && RespondsTo(es[i].frame, c) && Insert(c) in es[..i] && !Broken(es[..i])
    ensures Answer(es, c).Some?
  {
    var init := Init(es);
    if i < |init| {
      assert init[..i] == es[..i] && init[i] == es[i];
      ResponseAnswers(init, c, i);
    } else {
      assert es[..i] == init;
    }
  }

  /** Conversely a response that comes after the callback was inserted reaches the caller, unless another call has taken
      over the id, or a response without an id has made the table unusable. */
  lemma ResponseIsReceived(es: seq<Event>, c: nat, i: nat)
    requires Feasible(es) && i < |es| && es[i].Receive? && RespondsTo(es[i].frame, c) && Insert(c) in es[..i]
    requires forall j :: 0 <= j < i && es[j].Receive? && es[j].frame.methodName == None ==> es[j].frame.id != None
    requires !Overtaken(es, c)
    ensures Result(Exec(es), c).Some?
  {
    assert forall j :: 0 <= j < i ==> !BreaksTable(es[..i][j]);
    ResponseAnswers(es, c, i);
    CallResult(es, c);
  }

  /** A call whose request could not be sent is never in the table and receives nothing. */
  lemma {:induction false} UnsentIsDropped(es: seq<Event>, c: nat)
    requires Feasible(es) && Send(c, false) in es
    ensures c in Exec(es).phases && Exec(es).phases[c] == Dropped
    ensures !Registered(Exec(es), c) && Result(Exec(es), c).None?
  {
    var init := Init(es);
    if Send(c, false) in init {
      UnsentIsDropped(init, c);
      ExecInv(init);
    } else {
      assert Last(es) == Send(c, false);
    }
    ExecInv(es);
    ExecCallOk(es, c);
    ResultIsRun(Exec(es).runs, c);
    forall k | 0 <= k < |Exec(es).runs| ensures Exec(es).runs[k].call != c {
      assert Answered(Exec(es), Exec(es).runs[k]);
    }
  }

  // ---------------------------------------------------------------- where it fails

  function Response(id: U32): Incoming {
    Incoming(Some(id), None, None, [])
  }

  /** A response that is dispatched between sending the request and inserting the callback is lost, and the
      callback stays in the table. */
  lemma EarlyResponseIsLost() returns (es: seq<Event>)
    ensures Feasible(es) && Exec(es).total == 1 && es == [CallStarts, Send(0, true), Receive(Response(0)), Insert(0)]
    ensures Result(Exec(es), 0) == None && Exec(es).calls == map[0 := 0]
  {
    es := [];
    es := Then(es, CallStarts);
    es := Then(es, Send(0, true));
    es := Then(es, Receive(Response(0)));
    es := Then(es, Insert(0));
  }

  lemma Then(es: seq<Event>, e: Event) returns (more: seq<Event>)
    requires Feasible(es) && Enabled(Exec(es), e)
    ensures more == es + [e] && Feasible(more) && Exec(more) == Apply(Exec(es), e)
    ensures forall c :: Answer(more, c) ==
              if Answer(es, c).Some? then Answer(es, c)
              else if Answers(es, e, c) then Some(OutcomeOf(e.frame))
              else None
  {
    more := es + [e];
    assert Init(more) == es;
  }

  lemma {:induction false} ThenStreams(es: seq<Event>, n: nat) returns (more: seq<Event>)
    requires Feasible(es)
    ensures more == es + seq(n, _ => StreamCreated) && Feasible(more)
    ensures Exec(more) == Exec(es).(total := Exec(es).total + n)
    ensures forall c :: Answer(more, c) == Answer(es, c)
    decreases n
  {
    if n == 0 {
      more := es;
    } else {
      more := ThenStreams(es, n - 1);
      more := Then(more, StreamCreated);
    }
  }

  /** A whole call, in its own order. */
  lemma ThenCall(es: seq<Event>, c: nat) returns (more: seq<Event>)
    requires Feasible(es) && c == Exec(es).total && !Exec(es).poisoned
    ensures more == es + [CallStarts, Send(c, true), Insert(c)] && Feasible(more)
    ensures var s := Exec(es);
            Exec(more) == s.(total := c + 1, phases := s.phases[c := Inserted], calls := s.calls[WireId(c) := c])
    ensures forall x :: Answer(more, x) == Answer(es, x)
  {
    more := Then(es, CallStarts);
    more := Then(more, Send(c, true));
    more := Then(more, Insert(c));
  }

  /** With one allocation more than there are ids, the response to the first call is given to the last one. */
  lemma {:induction false} WrappedIdIsLost() returns (es: seq<Event>)
    ensures Feasible(es) && Exec(es).total == TWO32 + 1
    ensures Answer(es, 0) == Some(Success([])) && Result(Exec(es), 0) == None
    ensures Result(Exec(es), TWO32) == Some(Success([]))
  {
    var first := ThenCall([], 0);
    assert Insert(0) == first[2];
    var second := ThenStreams(first, TWO32 - 1);
    assert Insert(0) == second[2];
    var third := ThenCall(second, TWO32);
    assert Insert(0) == third[2];
    es := OneResponse(third, 0, TWO32);
  }

  lemma {:induction false} OneResponse(es: seq<Event>, c: nat, other: nat) returns (more: seq<Event>)
    requires Feasible(es) && Insert(c) in es && Answer(es, c).None? && WireId(c) == WireId(other) && c != other
    requires !Exec(es).poisoned && Exec(es).runs == []
    requires WireId(c) in Exec(es).calls && Exec(es).calls[WireId(c)] == other
    ensures Feasible(more) && Exec(more).total == Exec(es).total
    ensures Answer(more, c) == Some(Success([])) && Result(Exec(more), c) == None
    ensures Result(Exec(more), other) == Some(Success([]))
  {
    var id := WireId(c);
    NotBroken(es);
    more := Then(es, Receive(Response(id)));
    assert Answers(es, Receive(Response(id)), c);
    var r := Run(other, id, Success([]));
    OnlyRun(r, c);
    OnlyRun(r, other);
    assert Exec(more).runs == [] + [r] == [r];
  }

  lemma OnlyRun(r: Run, c: nat)
    ensures ResultIn([r], c) == if r.call == c then Some(r.outcome) else None
  {
    assert Init([r]) == [];
  }

  lemma NotBroken(es: seq<Event>)
    requires !Exec(es).poisoned
    ensures !Broken(es)
  {
    PoisonedIsBroken(es);
  }
}
