/** The outbound side of duplex streams.  Each registered stream has a task that reads what the server end writes and
    sends it in segments over the one outgoing channel; these tasks, the server ends and everything else that allocates
    ids or sends messages are interleaved arbitrarily. */
module RpcStreams {
  import opened Options
  import opened Sequences
  import opened Integers
  import opened MessageIds

  // ---------------------------------------------------------------- state and steps

  const BUFFER_SIZE := 4096

  /** Streams are known by the numbers of their allocations; on the wire these are `WireId`s. */
  datatype Frame =
    | Started(requestId: U32, streams: seq<nat>)
    | Data(stream: nat, segment: seq<Byte>)
    | Ended(stream: nat)
    | Other

  datatype Task = NotSpawned | Reading | Sending(segment: seq<Byte>) | Ending | Finished

  /** A stream of a registration: what the server end wrote and whether it was closed; how much its task has read
      and whether reading failed; the segments that it has sent and whether it has sent the end. */
  datatype Stream = Stream(
    registration: nat, position: nat,
    written: seq<Byte>, closed: bool,
    taken: nat, failed: bool, task: Task,
    sent: seq<seq<Byte>>, ended: bool)

  datatype Progress = Creating | Announced(spawned: nat) | Abandoned

  datatype Registration = Registration(requestId: U32, streams: seq<nat>, progress: Progress)

  datatype State = State(total: nat, streams: map<nat, Stream>, registrations: seq<Registration>,
                         channel: seq<Frame>, open: bool)

  const INITIAL := State(0, map[], [], [], true)

  datatype Event =
    | OtherAllocation
    | OtherMessage
    | NewRegistration(request: Option<U32>)
    | NewStream(registration: nat)
    | SendStarted(registration: nat)
    | Spawn(registration: nat)
    | Write(stream: nat, bytes: seq<Byte>)
    | Close(stream: nat)
    | Read(stream: nat, count: nat)
    | ReadEnd(stream: nat)
    | ReadFails(stream: nat)
    | SendData(stream: nat)
    | SendEnded(stream: nat)
    | CloseChannel

  /** Steps of one stream: of its server end, or of its task. */
  predicate OfStream(e: Event) {
    e.Write? || e.Close? || e.Read? || e.ReadEnd? || e.ReadFails? || e.SendData? || e.SendEnded?
  }

  predicate StreamEnabled(st: Stream, e: Event)
    requires OfStream(e)
  {
    match e
    case Write(_, _) => !st.closed
    case Close(_) => true
    case Read(_, count) => st.task == Reading && 0 < count <= BUFFER_SIZE && st.taken + count <= |st.written|
    case ReadEnd(_) => st.task == Reading && st.closed && st.taken == |st.written|
    case ReadFails(_) => st.task == Reading
    case SendData(_) => st.task.Sending?
    case SendEnded(_) => st.task == Ending
  }

  function StreamStep(st: Stream, e: Event, open: bool): Stream
    requires OfStream(e) && StreamEnabled(st, e)
  {
    match e
    case Write(_, bytes) => st.(written := st.written + bytes)
    case Close(_) => st.(closed := true)
    case Read(_, count) => st.(taken := st.taken + count, task := Sending(st.written[st.taken..st.taken + count]))
    case ReadEnd(_) => st.(task := Ending)
    case ReadFails(_) => st.(task := Ending, failed := true)
    case SendData(_) =>
      if open then st.(task := Reading, sent := st.sent + [st.task.segment]) else st.(task := Finished)
    case SendEnded(_) => st.(task := Finished, ended := open)
  }

  function Sends(st: Stream, e: Event): seq<Frame>
    requires OfStream(e) && StreamEnabled(st, e)
  {
    match e
    case SendData(n) => [Data(n, st.task.segment)]
    case SendEnded(n) => [Ended(n)]
    case _ => []
  }

  predicate Enabled(s: State, e: Event) {
    match e
    case NewStream(r) => r < |s.registrations| && s.registrations[r].progress == Creating
    case SendStarted(r) => r < |s.registrations| && s.registrations[r].progress == Creating
    case Spawn(r) => r < |s.registrations| && CanSpawn(s, r)
    case _ => OfStream(e) ==> e.stream in s.streams && StreamEnabled(s.streams[e.stream], e)
  }

  predicate CanSpawn(s: State, r: nat)
    requires r < |s.registrations|
  {
    var reg := s.registrations[r];
    reg.progress.Announced? && reg.progress.spawned < |reg.streams| && reg.streams[reg.progress.spawned] in s.streams
  }

  function NewStreamOf(s: State, r: nat): Stream
    requires r < |s.registrations|
  {
    Stream(r, |s.registrations[r].streams|, [], false, 0, false, NotSpawned, [], false)
  }

  /** Sends over the channel: nothing arrives once the receiving end is gone. */
  function Push(s: State, fs: seq<Frame>): State {
    if s.open then s.(channel := s.channel + fs) else s
  }

  function WithStream(s: State, n: nat, st: Stream): State {
    s.(streams := s.streams[n := st])
  }

  function WithRegistration(s: State, r: nat, reg: Registration): State
    requires r < |s.registrations|
  {
    s.(registrations := s.registrations[r := reg])
  }

  function Apply(s: State, e: Event): State
    requires Enabled(s, e)
  {
    match e
    case OtherAllocation => s.(total := s.total + 1)
    case OtherMessage => Push(s, [Other])
    case NewRegistration(id) =>
      s.(registrations := s.registrations + [Registration(if id.Some? then id.value else 0, [], Creating)])
    case NewStream(r) =>
      var reg := s.registrations[r];
      WithRegistration(WithStream(s, s.total, NewStreamOf(s, r)), r, reg.(streams := reg.streams + [s.total]))
        .(total := s.total + 1)
    case SendStarted(r) =>
      var reg := s.registrations[r];
      WithRegistration(Push(s, [Started(reg.requestId, reg.streams)]), r,
                       reg.(progress := if s.open then Announced(0) else Abandoned))
    case Spawn(r) =>
      var reg := s.registrations[r];
      var n := reg.streams[reg.progress.spawned];
      WithRegistration(WithStream(s, n, s.streams[n].(task := Reading)), r,
                       reg.(progress := Announced(reg.progress.spawned + 1)))
    case CloseChannel => s.(open := false)
    case _ =>
      var n := e.stream;
      var st := s.streams[n];
      Push(WithStream(s, n, StreamStep(st, e, s.open)), Sends(st, e))
  }

  ghost predicate Feasible(es: seq<Event>)
  {
    es == [] || (Feasible(Init(es)) && Enabled(Exec(Init(es)), Last(es)))
  }

  function Exec(es: seq<Event>): State {
    if es == [] then INITIAL
    else if Enabled(Exec(Init(es)), Last(es)) then Apply(Exec(Init(es)), Last(es))
    else Exec(Init(es))
  }

  // ---------------------------------------------------------------- traces

  predicate Concerns(f: Frame, n: nat) {
    match f
    case Started(_, ns) => n in ns
    case Data(m, _) => m == n
    case Ended(m) => m == n
    case Other => false
  }

  /** The frames about one stream, in the order in which they were sent. */
  function Trace(channel: seq<Frame>, n: nat): seq<Frame> {
    if channel == [] then []
    else Trace(Init(channel), n) + if Concerns(Last(channel), n) then [Last(channel)] else []
  }

  function DataFrames(n: nat, segments: seq<seq<Byte>>): seq<Frame> {
    seq(|segments|, i requires 0 <= i < |segments| => Data(n, segments[i]))
  }

  /** The announcement of a registration, once it is sent. */
  function Head(reg: Registration): seq<Frame> {
    if reg.progress.Announced? then [Started(reg.requestId, reg.streams)] else []
  }

  function Tail(n: nat, st: Stream): seq<Frame> {
    DataFrames(n, st.sent) + if st.ended then [Ended(n)] else []
  }

  // ---------------------------------------------------------------- what every run keeps

  /** Bytes are neither lost, repeated nor reordered between the server end and the segments. */
  ghost predicate Conserved(st: Stream) {
    && st.taken <= |st.written|
    && (forall i :: 0 <= i < |st.sent| ==> 0 < |st.sent[i]| <= BUFFER_SIZE)
    && (st.task.Sending? ==>
          && 0 < |st.task.segment| <= BUFFER_SIZE
          && Flatten(st.sent) + st.task.segment == st.written[..st.taken])
    && (!st.task.Sending? && st.task != Finished ==> Flatten(st.sent) == st.written[..st.taken])
    && (st.task == Finished ==> Flatten(st.sent) <= st.written[..st.taken])
    && (st.task == Ending || st.ended ==> st.failed || AllRead(st))
    && (st.ended ==> st.task == Finished && Flatten(st.sent) == st.written[..st.taken])
    && (st.task == NotSpawned ==> st.taken == 0 && st.sent == [])
  }

  ghost predicate AllRead(st: Stream) {
    st.closed && st.taken == |st.written|
  }

  ghost predicate Linked(s: State, n: nat)
    requires n in s.streams
  {
    var st := s.streams[n];
    && n < s.total
    && st.registration < |s.registrations|
    && (st.task == Finished && !st.ended ==> !s.open)
    && var reg := s.registrations[st.registration];
       && st.position < |reg.streams| && reg.streams[st.position] == n
       && (st.task == NotSpawned <==> !(reg.progress.Announced? && st.position < reg.progress.spawned))
  }

  ghost predicate Traced(s: State, n: nat)
    requires n in s.streams && s.streams[n].registration < |s.registrations|
  {
    Trace(s.channel, n) == Head(s.registrations[s.streams[n].registration]) + Tail(n, s.streams[n])
  }

  ghost predicate Registered(s: State, r: nat)
    requires r < |s.registrations|
  {
    forall i :: 0 <= i < |s.registrations[r].streams| ==> At(s, s.registrations[r].streams[i], r, i)
  }

  ghost predicate At(s: State, n: nat, r: nat, i: nat) {
    n in s.streams && s.streams[n].registration == r && s.streams[n].position == i
  }

  ghost predicate Known(s: State, f: Frame) {
    forall n: nat :: Concerns(f, n) ==> n in s.streams
  }

  ghost predicate StreamOk(s: State, n: nat) {
    n in s.streams && Linked(s, n) && Traced(s, n) && Conserved(s.streams[n])
  }

  ghost predicate ChannelOk(s: State) {
    forall i :: 0 <= i < |s.channel| ==> Known(s, s.channel[i])
  }

  ghost predicate StreamsOk(s: State) {
    forall n :: n in s.streams ==> StreamOk(s, n)
  }

  ghost predicate RegistrationsOk(s: State) {
    forall r :: 0 <= r < |s.registrations| ==> Registered(s, r)
  }

  ghost predicate Inv(s: State) {
    StreamsOk(s) && RegistrationsOk(s) && ChannelOk(s)
  }

  lemma TracePush(channel: seq<Frame>, f: Frame, n: nat)
    ensures Trace(channel + [f], n) == Trace(channel, n) + if Concerns(f, n) then [f] else []
  {
    assert Init(channel + [f]) == channel;
  }

  lemma {:induction false} TraceOfUnknown(channel: seq<Frame>, n: nat)
    requires forall i :: 0 <= i < |channel| ==> !Concerns(channel[i], n)
    ensures Trace(channel, n) == []
  {
    if channel != [] {
      TraceOfUnknown(Init(channel), n);
    }
  }

  lemma DataFramesAppend(n: nat, segments: seq<seq<Byte>>, segment: seq<Byte>)
    ensures DataFrames(n, segments + [segment]) == DataFrames(n, segments) + [Data(n, segment)]
    ensures Flatten(segments + [segment]) == Flatten(segments) + segment
  {
    assert Init(segments + [segment]) == segments;
  }

  lemma ChannelKept(s: State, t: State, fs: seq<Frame>)
    requires ChannelOk(s) && (forall m :: m in s.streams ==> m in t.streams)
    requires t.channel == s.channel + fs && forall i :: 0 <= i < |fs| ==> Known(t, fs[i])
    ensures ChannelOk(t)
  {
    forall i | 0 <= i < |t.channel| ensures Known(t, t.channel[i]) {
      assert i < |s.channel| ==> Known(s, s.channel[i]);
    }
  }

  /** The links from registrations to streams stay when the lists of streams do. */
  lemma RegistrationsKept(s: State, t: State)
    requires RegistrationsOk(s) && |t.registrations| == |s.registrations|
    requires forall r :: 0 <= r < |s.registrations| ==> t.registrations[r].streams == s.registrations[r].streams
    requires forall m :: m in s.streams ==>
               m in t.streams && t.streams[m].registration == s.streams[m].registration
               && t.streams[m].position == s.streams[m].position
    ensures RegistrationsOk(t)
  {
    forall r | 0 <= r < |t.registrations| ensures Registered(t, r) {
      assert Registered(s, r);
      forall i | 0 <= i < |t.registrations[r].streams| ensures At(t, t.registrations[r].streams[i], r, i) {
        assert At(s, s.registrations[r].streams[i], r, i);
      }
    }
  }

  // Steps that touch no stream and no announcement.

  lemma ElsewhereInv(s: State, e: Event)
    requires Inv(s) && (e.OtherAllocation? || e.OtherMessage? || e.CloseChannel?)
    ensures Inv(Apply(s, e))
  {
    var t := Apply(s, e);
    forall m | m in t.streams ensures StreamOk(t, m) {
      ElsewhereOk(s, e, m);
    }
    RegistrationsKept(s, t);
    assert s.channel + [] == s.channel;
    ChannelKept(s, t, if e.OtherMessage? && s.open then [Other] else []);
  }

  lemma ElsewhereOk(s: State, e: Event, m: nat)
    requires StreamOk(s, m) && (e.OtherAllocation? || e.OtherMessage? || e.CloseChannel?)
    ensures StreamOk(Apply(s, e), m)
  {
    TracePush(s.channel, Other, m);
  }

  lemma NewRegistrationInv(s: State, e: Event)
    requires Inv(s) && e.NewRegistration?
    ensures Inv(Apply(s, e))
  {
    var t := Apply(s, e);
    forall m | m in t.streams ensures StreamOk(t, m) {
      assert StreamOk(s, m);
    }
    forall r | 0 <= r < |t.registrations| ensures Registered(t, r) {
      if r < |s.registrations| {
        assert Registered(s, r);
        forall i | 0 <= i < |t.registrations[r].streams| ensures At(t, t.registrations[r].streams[i], r, i) {
          assert At(s, s.registrations[r].streams[i], r, i);
        }
      }
    }
    assert t.channel == s.channel + [];
    ChannelKept(s, t, []);
  }

  // A new stream: nothing was sent about it.

  lemma NewStreamIsNew(s: State)
    requires Inv(s)
    ensures s.total !in s.streams && Trace(s.channel, s.total) == []
  {
    assert s.total in s.streams ==> StreamOk(s, s.total);
    forall i | 0 <= i < |s.channel| ensures !Concerns(s.channel[i], s.total) {
      assert Known(s, s.channel[i]);
    }
    TraceOfUnknown(s.channel, s.total);
  }

  lemma OldStreamOk(s: State, r: nat, m: nat)
    requires Enabled(s, NewStream(r)) && StreamOk(s, m) && m != s.total
    ensures StreamOk(Apply(s, NewStream(r)), m)
  {
  }

  lemma NewStreamRegistered(s: State, r: nat, q: nat)
    requires Enabled(s, NewStream(r)) && q < |s.registrations| && Registered(s, q) && s.total !in s.streams
    ensures Registered(Apply(s, NewStream(r)), q)
  {
    var t := Apply(s, NewStream(r));
    var before := s.registrations[q].streams;
    forall i | 0 <= i < |t.registrations[q].streams| ensures At(t, t.registrations[q].streams[i], q, i) {
      if i < |before| {
        assert At(s, before[i], q, i);
      }
    }
  }

  lemma NewStreamOk(s: State, r: nat)
    requires Enabled(s, NewStream(r)) && Trace(s.channel, s.total) == []
    ensures StreamOk(Apply(s, NewStream(r)), s.total)
  {
  }

  lemma NewStreamStreams(s: State, r: nat)
    requires StreamsOk(s) && Enabled(s, NewStream(r)) && Trace(s.channel, s.total) == []
    ensures StreamsOk(Apply(s, NewStream(r)))
  {
    var t := Apply(s, NewStream(r));
    forall m | m in t.streams ensures StreamOk(t, m) {
      if m != s.total {
        OldStreamOk(s, r, m);
      } else {
        NewStreamOk(s, r);
      }
    }
  }

  lemma NewStreamRegistrations(s: State, r: nat)
    requires RegistrationsOk(s) && Enabled(s, NewStream(r)) && s.total !in s.streams
    ensures RegistrationsOk(Apply(s, NewStream(r)))
  {
    forall q | 0 <= q < |s.registrations| ensures Registered(Apply(s, NewStream(r)), q) {
      NewStreamRegistered(s, r, q);
    }
  }

  lemma NewStreamInv(s: State, r: nat)
    requires Inv(s) && Enabled(s, NewStream(r))
    ensures Inv(Apply(s, NewStream(r)))
  {
    NewStreamIsNew(s);
    NewStreamStreams(s, r);
    NewStreamRegistrations(s, r);
    assert s.channel + [] == s.channel;
    ChannelKept(s, Apply(s, NewStream(r)), []);
  }

  // The announcement of a registration.

  lemma MemberIffRegistered(s: State, r: nat, m: nat)
    requires r < |s.registrations| && Registered(s, r) && StreamOk(s, m)
    ensures m in s.registrations[r].streams <==> s.streams[m].registration == r
  {
    if m in s.registrations[r].streams {
      var i :| 0 <= i < |s.registrations[r].streams| && s.registrations[r].streams[i] == m;
      assert At(s, s.registrations[r].streams[i], r, i);
    }
  }

  lemma AnnouncedLinked(s: State, r: nat, m: nat)
    requires Enabled(s, SendStarted(r)) && m in s.streams && Linked(s, m)
    ensures Linked(Apply(s, SendStarted(r)), m)
  {
  }

  lemma NothingSent(m: nat, st: Stream)
    requires Conserved(st) && st.task == NotSpawned
    ensures Tail(m, st) == []
  {
  }

  lemma AnnouncedTrace(channel: seq<Frame>, reg: Registration, m: nat, open: bool)
    requires reg.progress == Creating
    ensures var announced := reg.(progress := if open then Announced(0) else Abandoned);
            var channel' := channel + (if open then [Started(reg.requestId, reg.streams)] else []);
            Trace(channel', m) == Trace(channel, m) + if m in reg.streams then Head(announced) else []
  {
    TracePush(channel, Started(reg.requestId, reg.streams), m);
    assert channel + [] == channel;
  }

  lemma AnnouncedTraced(s: State, r: nat, m: nat)
    requires Enabled(s, SendStarted(r)) && m in s.streams
    requires s.streams[m].registration < |s.registrations| && Traced(s, m)
    requires m in s.registrations[r].streams <==> s.streams[m].registration == r
    requires m in s.registrations[r].streams ==> Tail(m, s.streams[m]) == []
    ensures Traced(Apply(s, SendStarted(r)), m)
  {
    AnnouncedTrace(s.channel, s.registrations[r], m, s.open);
  }

  lemma AnnouncedStreamOk(s: State, r: nat, m: nat)
    requires Enabled(s, SendStarted(r)) && Registered(s, r) && StreamOk(s, m)
    ensures StreamOk(Apply(s, SendStarted(r)), m)
  {
    MemberIffRegistered(s, r, m);
    AnnouncedLinked(s, r, m);
    if s.streams[m].registration == r {
      NothingSent(m, s.streams[m]);
    }
    AnnouncedTraced(s, r, m);
  }

  lemma SendStartedStreams(s: State, r: nat)
    requires StreamsOk(s) && RegistrationsOk(s) && Enabled(s, SendStarted(r))
    ensures StreamsOk(Apply(s, SendStarted(r)))
  {
    var t := Apply(s, SendStarted(r));
    forall m | m in t.streams ensures StreamOk(t, m) {
      AnnouncedStreamOk(s, r, m);
    }
  }

  lemma SendStartedInv(s: State, r: nat)
    requires Inv(s) && Enabled(s, SendStarted(r))
    ensures Inv(Apply(s, SendStarted(r)))
  {
    var t := Apply(s, SendStarted(r));
    SendStartedStreams(s, r);
    RegistrationsKept(s, t);
    StartedIsKnown(s, r);
    assert s.channel + [] == s.channel;
    ChannelKept(s, t, if s.open then [Started(s.registrations[r].requestId, s.registrations[r].streams)] else []);
  }

  lemma StartedIsKnown(s: State, r: nat)
    requires r < |s.registrations| && Registered(s, r)
    ensures Known(s, Started(s.registrations[r].requestId, s.registrations[r].streams))
  {
    var ns := s.registrations[r].streams;
    forall n: nat | n in ns ensures n in s.streams {
      var j :| 0 <= j < |ns| && ns[j] == n;
      assert At(s, ns[j], r, j);
    }
  }

  // The start of a task.

  lemma SpawnedStreamOk(s: State, r: nat, m: nat)
    requires Enabled(s, Spawn(r)) && Registered(s, r) && StreamOk(s, m)
    ensures StreamOk(Apply(s, Spawn(r)), m)
  {
    var reg := s.registrations[r];
    var k := reg.progress.spawned;
    assert At(s, reg.streams[k], r, k);
    if m == reg.streams[k] {
      NewTaskOk(s, r, m);
    } else {
      SpawnElsewhere(s, r, m);
    }
  }

  lemma NewTaskOk(s: State, r: nat, m: nat)
    requires Enabled(s, Spawn(r)) && StreamOk(s, m)
    requires m == s.registrations[r].streams[s.registrations[r].progress.spawned]
    requires At(s, m, r, s.registrations[r].progress.spawned)
    ensures StreamOk(Apply(s, Spawn(r)), m)
  {
    assert s.streams[m].task == NotSpawned;
  }

  lemma SpawnElsewhere(s: State, r: nat, m: nat)
    requires Enabled(s, Spawn(r)) && StreamOk(s, m)
    requires m != s.registrations[r].streams[s.registrations[r].progress.spawned]
    ensures StreamOk(Apply(s, Spawn(r)), m)
  {
  }

  lemma SpawnStreams(s: State, r: nat)
    requires StreamsOk(s) && RegistrationsOk(s) && Enabled(s, Spawn(r))
    ensures StreamsOk(Apply(s, Spawn(r)))
  {
    var t := Apply(s, Spawn(r));
    forall m | m in t.streams ensures StreamOk(t, m) {
      SpawnedStreamOk(s, r, m);
    }
  }

  lemma SpawnInv(s: State, r: nat)
    requires Inv(s) && Enabled(s, Spawn(r))
    ensures Inv(Apply(s, Spawn(r)))
  {
    SpawnStreams(s, r);
    SpawnRegistrations(s, r);
    assert s.channel + [] == s.channel;
    ChannelKept(s, Apply(s, Spawn(r)), []);
  }

  lemma SpawnRegistrations(s: State, r: nat)
    requires RegistrationsOk(s) && Enabled(s, Spawn(r))
    ensures RegistrationsOk(Apply(s, Spawn(r)))
  {
    RegistrationsKept(s, Apply(s, Spawn(r)));
  }

  // Steps of one stream.

  lemma StreamStepConserved(st: Stream, e: Event, open: bool)
    requires Conserved(st) && OfStream(e) && StreamEnabled(st, e)
    ensures Conserved(StreamStep(st, e, open))
  {
    var st' := StreamStep(st, e, open);
    assert st'.written[..st.taken] == st.written[..st.taken];
    match e
    case Read(_, _) => assert st.written[..st'.taken] == st.written[..st.taken] + st.written[st.taken..st'.taken];
    case SendData(n) => DataFramesAppend(n, st.sent, st.task.segment);
    case _ =>
  }

  lemma StreamStepTail(n: nat, st: Stream, e: Event, open: bool)
    requires Conserved(st) && OfStream(e) && e.stream == n && StreamEnabled(st, e)
    ensures Tail(n, StreamStep(st, e, open)) == Tail(n, st) + (if open then Sends(st, e) else [])
  {
    if e.SendData? {
      DataFramesAppend(n, st.sent, st.task.segment);
    }
  }

  lemma TraceSends(channel: seq<Frame>, st: Stream, e: Event, m: nat)
    requires OfStream(e) && StreamEnabled(st, e)
    ensures Trace(channel + Sends(st, e), m) == Trace(channel, m) + (if m == e.stream then Sends(st, e) else [])
  {
    if Sends(st, e) != [] {
      TracePush(channel, Sends(st, e)[0], m);
    } else {
      assert channel + [] == channel;
    }
  }

  lemma ThisStreamOk(s: State, e: Event)
    requires OfStream(e) && Enabled(s, e) && StreamOk(s, e.stream)
    ensures StreamOk(Apply(s, e), e.stream)
  {
    var n, st := e.stream, s.streams[e.stream];
    StreamStepConserved(st, e, s.open);
    StreamStepTail(n, st, e, s.open);
    TraceSends(s.channel, st, e, n);
    var head := Head(s.registrations[st.registration]);
    assert head + Tail(n, st) + Sends(st, e) == head + (Tail(n, st) + Sends(st, e));
  }

  lemma OtherStreamOk(s: State, e: Event, m: nat)
    requires OfStream(e) && Enabled(s, e) && StreamOk(s, m) && m != e.stream
    ensures StreamOk(Apply(s, e), m)
  {
    TraceSends(s.channel, s.streams[e.stream], e, m);
  }

  lemma StreamStepStreams(s: State, e: Event)
    requires StreamsOk(s) && OfStream(e) && Enabled(s, e)
    ensures StreamsOk(Apply(s, e))
  {
    var t := Apply(s, e);
    forall m | m in t.streams ensures StreamOk(t, m) {
      if m == e.stream {
        ThisStreamOk(s, e);
      } else {
        OtherStreamOk(s, e, m);
      }
    }
  }

  lemma StreamStepInv(s: State, e: Event)
    requires Inv(s) && OfStream(e) && Enabled(s, e)
    ensures Inv(Apply(s, e))
  {
    StreamStepStreams(s, e);
    StreamStepRegistrations(s, e);
    StreamStepChannel(s, e);
  }

  lemma StreamStepRegistrations(s: State, e: Event)
    requires RegistrationsOk(s) && OfStream(e) && Enabled(s, e)
    ensures RegistrationsOk(Apply(s, e))
  {
    RegistrationsKept(s, Apply(s, e));
  }

  lemma StreamStepChannel(s: State, e: Event)
    requires ChannelOk(s) && OfStream(e) && Enabled(s, e)
    ensures ChannelOk(Apply(s, e))
  {
    assert s.channel + [] == s.channel;
    ChannelKept(s, Apply(s, e), if s.open then Sends(s.streams[e.stream], e) else []);
  }

  lemma ApplyInv(s: State, e: Event)
    requires Inv(s) && Enabled(s, e)
    ensures Inv(Apply(s, e))
  {
    match e
    case NewRegistration(_) => NewRegistrationInv(s, e);
    case NewStream(r) => NewStreamInv(s, r);
    case SendStarted(r) => SendStartedInv(s, r);
    case Spawn(r) => SpawnInv(s, r);
    case OtherAllocation => ElsewhereInv(s, e);
    case OtherMessage => ElsewhereInv(s, e);
    case CloseChannel => ElsewhereInv(s, e);
    case _ => StreamStepInv(s, e);
  }

  lemma {:induction false} ExecInv(es: seq<Event>)
    requires Feasible(es)
    ensures Inv(Exec(es))
  {
    if es != [] {
      ExecInv(Init(es));
      ApplyInv(Exec(Init(es)), Last(es));
    }
  }

  // ---------------------------------------------------------------- what the events say

  /** The requests for which streams were registered, in order; a request without an id counts as number 0. */
  function Requests(es: seq<Event>): seq<U32> {
    if es == [] then []
    else Requests(Init(es)) + match Last(es)
                              case NewRegistration(None) => [0]
                              case NewRegistration(Some(id)) => [id]
                              case _ => []
  }

  /** How many ids were handed out. */
  function Allocations(es: seq<Event>): nat {
    if es == [] then 0
    else Allocations(Init(es)) + if Last(es).OtherAllocation? || Last(es).NewStream? then 1 else 0
  }

  /** The ids handed out for the streams of the registration `r`, in order. */
  function StreamsFor(es: seq<Event>, r: nat): seq<nat> {
    if es == [] then []
    else StreamsFor(Init(es), r) + if Last(es) == NewStream(r) then [Allocations(Init(es))] else []
  }

  /** What was written to the server end of `n`. */
  function WrittenTo(es: seq<Event>, n: nat): seq<Byte> {
    if es == [] then []
    else WrittenTo(Init(es), n) + if Last(es).Write? && Last(es).stream == n then Last(es).bytes else []
  }

  ghost predicate RegistrationFollows(es: seq<Event>, s: State, r: nat)
    requires r < |s.registrations|
  {
    && r < |Requests(es)| && s.registrations[r].requestId == Requests(es)[r]
    && s.registrations[r].streams == StreamsFor(es, r)
  }

  ghost predicate StreamFollows(es: seq<Event>, st: Stream, n: nat) {
    && st.written == WrittenTo(es, n) && (st.closed <==> Close(n) in es) && (st.failed <==> ReadFails(n) in es)
    && n in StreamsFor(es, st.registration)
  }

  /** Every announcement in the channel is that of a registration. */
  ghost predicate Announces(es: seq<Event>, s: State, f: Frame) {
    f.Started? ==> exists r :: 0 <= r < |s.registrations| && s.registrations[r].progress.Announced?
                               && r < |Requests(es)| && f == Started(Requests(es)[r], StreamsFor(es, r))
  }

  ghost predicate RegistrationsFollow(es: seq<Event>, s: State) {
    && s.total == Allocations(es) && |s.registrations| == |Requests(es)|
    && (forall r :: 0 <= r < |s.registrations| ==> RegistrationFollows(es, s, r))
    && (forall r: nat :: |s.registrations| <= r ==> StreamsFor(es, r) == [])
  }

  ghost predicate Untouched(es: seq<Event>, n: nat) {
    WrittenTo(es, n) == [] && Close(n) !in es && ReadFails(n) !in es
  }

  ghost predicate StreamsFollow(es: seq<Event>, s: State) {
    && (forall n :: n in s.streams ==> n < s.total && StreamFollows(es, s.streams[n], n))
    && (forall n: nat :: n !in s.streams ==> Untouched(es, n))
  }

  ghost predicate ChannelFollows(es: seq<Event>, s: State) {
    forall i :: 0 <= i < |s.channel| ==> Announces(es, s, s.channel[i])
  }

  ghost predicate Follows(es: seq<Event>, s: State) {
    RegistrationsFollow(es, s) && StreamsFollow(es, s) && ChannelFollows(es, s)
  }

  lemma RegistrationsStep(es: seq<Event>, s: State)
    requires es != [] && RegistrationsFollow(Init(es), s) && Enabled(s, Last(es))
    ensures RegistrationsFollow(es, Apply(s, Last(es)))
  {
    var t := Apply(s, Last(es));
    forall r | 0 <= r < |t.registrations| ensures RegistrationFollows(es, t, r) {
      if r < |s.registrations| {
        assert RegistrationFollows(Init(es), s, r);
      }
    }
  }

  lemma InEvents(es: seq<Event>, e: Event)
    requires es != []
    ensures e in es <==> e in Init(es) || e == Last(es)
  {
    assert es == Init(es) + [Last(es)];
  }

  /** What a step says about a stream that is there. */
  lemma EventOfStream(es: seq<Event>, n: nat)
    requires es != []
    ensures var e := Last(es);
            && WrittenTo(es, n) == (if e.Write? && e.stream == n then WrittenTo(Init(es), n) + e.bytes
                                    else WrittenTo(Init(es), n))
            && (Close(n) in es <==> Close(n) in Init(es) || e == Close(n))
            && (ReadFails(n) in es <==> ReadFails(n) in Init(es) || e == ReadFails(n))
  {
    InEvents(es, Close(n));
    InEvents(es, ReadFails(n));
    assert WrittenTo(Init(es), n) + [] == WrittenTo(Init(es), n);
  }

  lemma StreamFollowsStep(es: seq<Event>, s: State, n: nat)
    requires es != [] && Enabled(s, Last(es)) && n in s.streams && n != s.total
    requires StreamFollows(Init(es), s.streams[n], n)
    ensures n in Apply(s, Last(es)).streams && StreamFollows(es, Apply(s, Last(es)).streams[n], n)
  {
    EventOfStream(es, n);
    assert StreamsFor(Init(es), s.streams[n].registration) <= StreamsFor(es, s.streams[n].registration);
    var t := Apply(s, Last(es));
    match Last(es)
    case Spawn(r) =>
    case NewStream(r) => assert t.streams[n] == s.streams[n];
    case _ =>
  }

  lemma NewStreamFollows(es: seq<Event>, s: State)
    requires es != [] && Last(es).NewStream? && Enabled(s, Last(es)) && Untouched(Init(es), s.total)
    requires s.total == Allocations(Init(es))
    ensures StreamFollows(es, Apply(s, Last(es)).streams[s.total], s.total)
  {
    EventOfStream(es, s.total);
    assert StreamsFor(es, Last(es).registration)[|StreamsFor(Init(es), Last(es).registration)|] == s.total;
  }

  lemma StreamsStep(es: seq<Event>, s: State)
    requires es != [] && StreamsFollow(Init(es), s) && Enabled(s, Last(es)) && s.total == Allocations(Init(es))
    ensures StreamsFollow(es, Apply(s, Last(es)))
  {
    var t := Apply(s, Last(es));
    forall n | n in t.streams ensures n < t.total && StreamFollows(es, t.streams[n], n) {
      if n == s.total {
        NewStreamFollows(es, s);
      } else {
        StreamFollowsStep(es, s, n);
      }
    }
    forall n: nat | n !in t.streams ensures Untouched(es, n) {
      EventOfStream(es, n);
      assert Untouched(Init(es), n);
    }
  }

  lemma AnnouncesStep(es: seq<Event>, s: State, f: Frame)
    requires es != [] && RegistrationsFollow(Init(es), s) && Enabled(s, Last(es)) && Announces(Init(es), s, f)
    ensures Announces(es, Apply(s, Last(es)), f)
  {
    if f.Started? {
      var t := Apply(s, Last(es));
      var r :| 0 <= r < |s.registrations| && s.registrations[r].progress.Announced?
               && r < |Requests(Init(es))| && f == Started(Requests(Init(es))[r], StreamsFor(Init(es), r));
      assert Last(es) != NewStream(r) && Last(es) != SendStarted(r);
      assert t.registrations[r].progress.Announced? && Requests(es)[r] == Requests(Init(es))[r];
      assert StreamsFor(Init(es), r) + [] == StreamsFor(Init(es), r);
      assert f == Started(Requests(es)[r], StreamsFor(es, r));
    }
  }

  lemma ChannelStep(es: seq<Event>, s: State)
    requires es != [] && RegistrationsFollow(Init(es), s) && ChannelFollows(Init(es), s) && Enabled(s, Last(es))
    ensures ChannelFollows(es, Apply(s, Last(es)))
  {
    var t := Apply(s, Last(es));
    RegistrationsStep(es, s);
    forall i | 0 <= i < |t.channel| ensures Announces(es, t, t.channel[i]) {
      if i < |s.channel| {
        assert t.channel[i] == s.channel[i];
        AnnouncesStep(es, s, s.channel[i]);
      } else if Last(es).SendStarted? {
        var r := Last(es).registration;
        assert RegistrationFollows(es, t, r) && t.registrations[r].progress.Announced?;
      }
    }
  }

  lemma {:induction false} ExecFollows(es: seq<Event>)
    requires Feasible(es)
    ensures Follows(es, Exec(es))
  {
    if es != [] {
      ExecFollows(Init(es));
      RegistrationsStep(es, Exec(Init(es)));
      StreamsStep(es, Exec(Init(es)));
      ChannelStep(es, Exec(Init(es)));
    }
  }

  // ---------------------------------------------------------------- results

  /** What was sent about a stream is its announcement, with the id of the request and all streams registered for it,
      then non-empty segments that together are a prefix of what was written to its server end, and then at most the
      end of the stream.  The end is sent only after the server end was closed and everything was sent, unless reading
      failed; and it is sent unless the channel is closed. */
  ghost predicate TracedInOrder(es: seq<Event>, s: State, n: nat) {
    && n in s.streams && s.streams[n].registration < |s.registrations|
    && var st := s.streams[n];
       var r := st.registration;
       var announced := s.registrations[r].progress.Announced?;
       && r < |Requests(es)| && n in StreamsFor(es, r)
       && Trace(s.channel, n) == (if announced then [Started(Requests(es)[r], StreamsFor(es, r))] else [])
                                 + DataFrames(n, st.sent) + (if st.ended then [Ended(n)] else [])
       && (st.sent != [] || st.ended ==> announced)
       && (forall i :: 0 <= i < |st.sent| ==> 0 < |st.sent[i]| <= 4096)
       && Flatten(st.sent) <= WrittenTo(es, n)
       && (st.ended && ReadFails(n) !in es ==> Close(n) in es && Flatten(st.sent) == WrittenTo(es, n))
       && (st.task == Finished && s.open ==> st.ended)
  }

  lemma OkIsInOrder(es: seq<Event>, s: State, n: nat)
    requires StreamOk(s, n) && Follows(es, s)
    ensures TracedInOrder(es, s, n)
  {
    var st := s.streams[n];
    SentIsPrefix(st);
    assert RegistrationFollows(es, s, st.registration) && StreamFollows(es, st, n);
  }

  /** What was sent is a prefix of what was written, and all of it once the end was sent without an error. */
  lemma SentIsPrefix(st: Stream)
    requires Conserved(st)
    ensures Flatten(st.sent) <= st.written
    ensures st.ended && !st.failed ==> st.closed && Flatten(st.sent) == st.written
  {
    assert st.written[..|st.written|] == st.written;
  }

  /** Every stream is traced in order at every point of every run. */
  lemma StreamTrace(es: seq<Event>, n: nat)
    requires Feasible(es) && n in Exec(es).streams
    ensures TracedInOrder(es, Exec(es), n)
  {
    ExecInv(es);
    ExecFollows(es);
    OkIsInOrder(es, Exec(es), n);
  }

  lemma ExecNext(es: seq<Event>, e: Event)
    requires Feasible(es) && Enabled(Exec(es), e)
    ensures Feasible(es + [e]) && Exec(es + [e]) == Apply(Exec(es), e)
  {
    assert Init(es + [e]) == es;
  }

  /** As long as the channel is open, announcing a registration sends the id of its request and all its streams; without
      a channel it is given up. */
  lemma AnnouncementIsSent(es: seq<Event>, r: nat)
    requires Feasible(es) && Enabled(Exec(es), SendStarted(r))
    ensures r < |Requests(es)|
    ensures var s, t := Exec(es), Exec(es + [SendStarted(r)]);
            && t.channel == s.channel + (if s.open then [Started(Requests(es)[r], StreamsFor(es, r))] else [])
            && r < |t.registrations| && (t.registrations[r].progress.Announced? <==> s.open)
  {
    ExecFollows(es);
    ExecNext(es, SendStarted(r));
    assert RegistrationFollows(es, Exec(es), r);
    assert Exec(es).channel + [] == Exec(es).channel;
  }

  /** After its announcement a registration can start its tasks, one for each stream in its order. */
  lemma TaskCanStart(es: seq<Event>, r: nat)
    requires Feasible(es) && r < |Exec(es).registrations| && Exec(es).registrations[r].progress.Announced?
    requires Exec(es).registrations[r].progress.spawned < |StreamsFor(es, r)|
    ensures Enabled(Exec(es), Spawn(r))
    ensures var n, t := StreamsFor(es, r)[Exec(es).registrations[r].progress.spawned], Exec(es + [Spawn(r)]);
            n in t.streams && t.streams[n].task == Reading
  {
    var s := Exec(es);
    ExecInv(es);
    ExecFollows(es);
    assert RegistrationFollows(es, s, r) && Registered(s, r);
    var k := s.registrations[r].progress.spawned;
    assert At(s, s.registrations[r].streams[k], r, k);
    ExecNext(es, Spawn(r));
  }

  /** A task that was started and has not finished is never stuck: it can send what it holds, or read what was written,
      or notice the end; otherwise everything written was read and the server end is open. */
  lemma TaskIsNotStuck(es: seq<Event>, n: nat)
    requires Feasible(es) && n in Exec(es).streams
    requires Exec(es).streams[n].task != NotSpawned && Exec(es).streams[n].task != Finished
    ensures var s := Exec(es);
            || Enabled(s, SendData(n)) || Enabled(s, SendEnded(n)) || Enabled(s, ReadEnd(n)) || Enabled(s, Read(n, 1))
            || (s.streams[n].taken == |WrittenTo(es, n)| && Close(n) !in es)
  {
    ExecInv(es);
    ExecFollows(es);
    assert StreamOk(Exec(es), n) && StreamFollows(es, Exec(es).streams[n], n);
    TaskStep(Exec(es), n);
  }

  lemma TaskStep(s: State, n: nat)
    requires n in s.streams && s.streams[n].task != NotSpawned && s.streams[n].task != Finished
    requires s.streams[n].taken <= |s.streams[n].written|
    ensures || Enabled(s, SendData(n)) || Enabled(s, SendEnded(n)) || Enabled(s, ReadEnd(n)) || Enabled(s, Read(n, 1))
            || (s.streams[n].taken == |s.streams[n].written| && !s.streams[n].closed)
  {
    match s.streams[n].task
    case Sending(_) => assert Enabled(s, SendData(n));
    case Ending => assert Enabled(s, SendEnded(n));
    case _ =>
  }

  /** What a client sees under a wire id. */
  predicate WireConcerns(f: Frame, id: U32) {
    match f
    case Started(_, ns) => exists i :: 0 <= i < |ns| && WireId(ns[i]) == id
    case Data(m, _) => WireId(m) == id
    case Ended(m) => WireId(m) == id
    case Other => false
  }

  function WireTrace(channel: seq<Frame>, id: U32): seq<Frame> {
    if channel == [] then []
    else WireTrace(Init(channel), id) + if WireConcerns(Last(channel), id) then [Last(channel)] else []
  }

  /** While the counter has not come round, a client sees exactly the trace of one stream under its id. */
  lemma {:induction false} WireTraceIsTrace(es: seq<Event>, n: nat)
    requires Feasible(es) && Exec(es).total <= TWO32 && n in Exec(es).streams
    ensures WireTrace(Exec(es).channel, WireId(n)) == Trace(Exec(es).channel, n)
  {
    ExecInv(es);
    var s := Exec(es);
    assert StreamOk(s, n);
    forall i, m: nat | 0 <= i < |s.channel| && Concerns(s.channel[i], m) ensures m < TWO32 {
      assert Known(s, s.channel[i]);
      assert StreamOk(s, m);
    }
    SameFrames(s.channel, n);
  }

  lemma {:induction false} SameFrames(channel: seq<Frame>, n: nat)
    requires n < TWO32 && forall i, m: nat :: 0 <= i < |channel| && Concerns(channel[i], m) ==> m < TWO32
    ensures WireTrace(channel, WireId(n)) == Trace(channel, n)
  {
    if channel != [] {
      var f := Last(channel);
      assert f == channel[|channel| - 1];
      forall i, m: nat | 0 <= i < |Init(channel)| && Concerns(Init(channel)[i], m) ensures m < TWO32 {
        assert Concerns(channel[i], m);
      }
      SameFrames(Init(channel), n);
      SameConcern(f, n);
    }
  }

  lemma SameConcern(f: Frame, n: nat)
    requires n < TWO32 && forall m: nat :: Concerns(f, m) ==> m < TWO32
    ensures WireConcerns(f, WireId(n)) <==> Concerns(f, n)
  {
    match f
    case Started(_, ns) =>
      forall i | 0 <= i < |ns| ensures WireId(ns[i]) == ns[i] {
        assert Concerns(f, ns[i]);
      }
    case Data(m, _) => assert Concerns(f, m);
    case Ended(m) => assert Concerns(f, m);
    case Other =>
  }

  // ---------------------------------------------------------------- the loop of one task

  /** What a read of the duplex gives: bytes, none at its end, or an error. */
  datatype ReadResult = Got(bytes: seq<Byte>) | Failed

  /** The segments read until the end or the first error. */
  function Segments(results: seq<ReadResult>): seq<seq<Byte>> {
    if results == [] || results[0].Failed? || results[0].bytes == [] then []
    else [results[0].bytes] + Segments(results[1..])
  }

  /** A sender of a channel whose receiving end goes away after some more messages. */
  class Sender {
    var frames: seq<Frame>
    var accepts: nat

    constructor (accepts: nat)
      ensures frames == [] && this.accepts == accepts
    {
      frames := [];
      this.accepts := accepts;
    }

    method Send(f: Frame) returns (ok: bool)
      modifies this
      ensures ok == (old(accepts) > 0)
      ensures frames == old(frames) + (if ok then [f] else [])
      ensures accepts == if ok then old(accepts) - 1 else 0
    {
      ok := accepts > 0;
      if ok {
        frames := frames + [f];
        accepts := accepts - 1;
      }
    }
  }

  function UpTo<T>(xs: seq<T>, k: nat): seq<T> {
    if k < |xs| then xs[..k] else xs
  }

  /** One segment of a task; without a receiver there is nothing more to send. */
  method SendSegment(tx: Sender, n: nat, ghost results: seq<ReadResult>, bytes: seq<Byte>) returns (ok: bool)
    requires results != [] && results[0] == Got(bytes) && bytes != []
    modifies tx
    ensures old(tx.frames) + UpTo(TaskFrames(n, results), old(tx.accepts))
         == tx.frames + if ok then UpTo(TaskFrames(n, results[1..]), tx.accepts) else []
  {
    FirstSegment(n, results, tx.accepts);
    ghost var before, rest := tx.frames, TaskFrames(n, results[1..]);
    ok := tx.Send(Data(n, bytes));
    Regroup(before, [Data(n, bytes)], UpTo(rest, tx.accepts));
  }

  lemma Regroup<T>(a: seq<T>, b: seq<T>, c: seq<T>)
    ensures a + (b + c) == a + b + c
  {
  }

  /** A task sends the segments of its stream and then the end, as far as the channel takes them. */
  method RunTask(tx: Sender, n: nat, results: seq<ReadResult>)
    modifies tx
    ensures tx.frames == old(tx.frames) + UpTo(TaskFrames(n, results), old(tx.accepts))
  {
    ghost var goal := tx.frames + UpTo(TaskFrames(n, results), tx.accepts);
    var i := 0;
    assert results[0..] == results;
    while i < |results|
      invariant i <= |results| && tx.frames + UpTo(TaskFrames(n, results[i..]), tx.accepts) == goal
    {
      if results[i].Failed? || results[i].bytes == [] {
        break;
      }
      assert results[i..][1..] == results[i + 1..];
      var ok := SendSegment(tx, n, results[i..], results[i].bytes);
      if !ok {
        return;
      }
      i := i + 1;
    }
    assert TaskFrames(n, results[i..]) == [Ended(n)];
    var _ := tx.Send(Ended(n));
  }

  /** What a task sends when the channel takes everything. */
  function TaskFrames(n: nat, results: seq<ReadResult>): seq<Frame> {
    DataFrames(n, Segments(results)) + [Ended(n)]
  }

  lemma FirstSegment(n: nat, results: seq<ReadResult>, accepts: nat)
    requires results != [] && results[0].Got? && results[0].bytes != []
    ensures UpTo(TaskFrames(n, results), accepts)
         == if accepts == 0 then [] else [Data(n, results[0].bytes)] + UpTo(TaskFrames(n, results[1..]), accepts - 1)
  {
    FramesFront(n, results);
    UpToFront(Data(n, results[0].bytes), TaskFrames(n, results[1..]), accepts);
  }

  lemma FramesFront(n: nat, results: seq<ReadResult>)
    requires results != [] && results[0].Got? && results[0].bytes != []
    ensures TaskFrames(n, results) == [Data(n, results[0].bytes)] + TaskFrames(n, results[1..])
  {
  }

  lemma UpToFront<T>(x: T, rest: seq<T>, k: nat)
    ensures UpTo([x] + rest, k) == if k == 0 then [] else [x] + UpTo(rest, k - 1)
  {
    if 0 < k <= |rest| {
      assert ([x] + rest)[..k] == [x] + rest[..k - 1];
    }
  }

  /** Up to the first result that is empty or an error, each result is a frame of its own; after it comes the end. */
  lemma {:induction false} TaskFramesAre(n: nat, results: seq<ReadResult>, k: nat)
    requires k <= |results| && forall i :: 0 <= i < k ==> results[i].Got? && results[i].bytes != []
    requires k < |results| ==> results[k] == Failed || results[k] == Got([])
    ensures var frames := TaskFrames(n, results);
            && |frames| == k + 1 && frames[k] == Ended(n)
            && forall i :: 0 <= i < k ==> frames[i] == Data(n, results[i].bytes)
    decreases k
  {
    if k > 0 {
      TaskFramesAre(n, results[1..], k - 1);
      FramesFront(n, results);
    }
  }
}
