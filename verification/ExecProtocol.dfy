/**
 One raw, non-tty exec in the agent: two output pumps, one bounded queue, one
 writer and the code that waits for the child, as interleaved steps.
 */
module ExecProtocol {
  import opened Machine

  const READ_CHUNK_BYTES: nat := 16 * 1024
  const EVENT_QUEUE_DEPTH: nat := 64

  datatype Stream = Stdout | Stderr

  /** One value for each output stream. */
  datatype Both<T> = Both(out: T, err: T) {
    function Of(st: Stream): T {
      if st.Stdout? then out else err
    }

    function With(st: Stream, value: T): Both<T> {
      if st.Stdout? then Both(value, err) else Both(out, value)
    }
  }

  datatype Event =
    | Data(stream: Stream, bytes: seq<Byte>)
    | StderrLine(text: string)
    | Exited(code: int, waitStatus: int)

  /** What an exec is asked to do: the child starts, or the agent reports why it did not. */
  datatype Start = Started | NotStarted(message: string, exitCode: int)

  /** How it went: a start that failed, or what waiting for the child gave, which may fail too. */
  datatype Ending = Failed(message: string, exitCode: int) | Waited(status: Option<nat>)

  const EXIT_UNKNOWN: int := -1

  /** `ExitStatus::code`: the exit code in a wait status, unless a signal ended the child. */
  function CodeOf(status: nat): Option<int> {
    if status % 128 == 0 then Some(status / 256 % 256) else None
  }

  /** `synthetic_exit_event`, with `code & 0xff` shifted by eight bits. */
  function SyntheticExit(code: int): Event {
    Exited(code, code % 256 * 256)
  }

  function ExitEvent(ending: Ending): Event {
    match ending
    case Failed(_, code) => SyntheticExit(code)
    case Waited(None) => SyntheticExit(EXIT_UNKNOWN)
    case Waited(Some(status)) =>
      Exited(if CodeOf(status).Some? then CodeOf(status).value else EXIT_UNKNOWN, status)
  }

  datatype Pump = Reading | Holding(bytes: seq<Byte>) | Ended

  /** `end_without_process` takes the first two phases, a started child the next three. */
  datatype Main = NoProcessLine | NoProcessExit | Waiting | Draining | Announcing | Joining | Finished

  datatype Writer = Idle | Writing(event: Event) | Stopped

  /**
   `ending` is how the exec went, once that is known, `read` is what each pump got
   from its pipe, `sent` everything the queue ever took, and `frames` every frame
   written whole.
   */
  datatype State = State(
    pumps: Both<Pump>,
    main: Main,
    writer: Writer,
    queue: seq<Event>,
    failed: bool,
    ending: Option<Ending>,
    read: Both<seq<seq<Byte>>>,
    sent: seq<Event>,
    frames: seq<Event>)

  datatype Action =
    | PumpReads(from: Stream, bytes: seq<Byte>)
    | PumpEnds(from: Stream)
    | PumpSends(from: Stream)
    | ChildExits(status: Option<nat>)
    | OutputsDrained
    | MainSends
    | WriterTakes
    | WriterWrites
    | WriterFails
    | WriterEnds
    | MainJoins

  function Init(start: Start): State {
    match start
    case Started => State(Both(Reading, Reading), Waiting, Idle, [], false, None, Both([], []), [], [])
    case NotStarted(message, code) =>
      State(Both(Ended, Ended), NoProcessLine, Idle, [], false, Some(Failed(message, code)), Both([], []), [], [])
  }

  predicate PumpsEnded(s: State) {
    s.pumps.out.Ended? && s.pumps.err.Ended?
  }

  /** The receiver lives until the writer stops. */
  predicate ReceiverOpen(s: State) {
    !s.writer.Stopped?
  }

  function Enqueue(s: State, e: Event): State {
    s.(queue := s.queue + [e], sent := s.sent + [e])
  }

  /** What the main task has to say: one line if there is no process, and at last the exit. */
  function MainEvent(s: State): Event
    requires s.ending.Some?
  {
    if s.main.NoProcessLine? && s.ending.value.Failed? then StderrLine(s.ending.value.message)
    else ExitEvent(s.ending.value)
  }

  function MainNext(m: Main): Main {
    if m.NoProcessLine? then NoProcessExit else Joining
  }

  predicate Enabled(s: State, a: Action) {
    match a
    case PumpReads(st, bytes) => s.pumps.Of(st).Reading? && 0 < |bytes| <= READ_CHUNK_BYTES
    case PumpEnds(st) => s.pumps.Of(st).Reading?
    case PumpSends(st) => s.pumps.Of(st).Holding? && (ReceiverOpen(s) ==> |s.queue| < EVENT_QUEUE_DEPTH)
    case ChildExits(_) => s.main.Waiting?
    case OutputsDrained => s.main.Draining? && PumpsEnded(s)
    case MainSends =>
      && s.ending.Some? && (s.main.NoProcessLine? || s.main.NoProcessExit? || s.main.Announcing?)
      && (ReceiverOpen(s) ==> |s.queue| < EVENT_QUEUE_DEPTH)
    case WriterTakes => s.writer.Idle? && s.queue != []
    case WriterWrites => s.writer.Writing?
    case WriterFails => s.writer.Writing?
    case WriterEnds => s.writer.Idle? && s.queue == [] && (s.main.Joining? || s.main.Finished?) && PumpsEnded(s)
    case MainJoins => s.main.Joining? && s.writer.Stopped?
  }

  function Step(s: State, a: Action): State
    requires Enabled(s, a)
  {
    match a
    case PumpReads(st, bytes) =>
      s.(pumps := s.pumps.With(st, Holding(bytes)), read := s.read.With(st, s.read.Of(st) + [bytes]))
    case PumpEnds(st) => s.(pumps := s.pumps.With(st, Ended))
    case PumpSends(st) =>
      if ReceiverOpen(s) then Enqueue(s, Data(st, s.pumps.Of(st).bytes)).(pumps := s.pumps.With(st, Reading))
      else s.(pumps := s.pumps.With(st, Ended))
    case ChildExits(status) => s.(main := Draining, ending := Some(Waited(status)))
    case OutputsDrained => s.(main := Announcing)
    case MainSends =>
      (if ReceiverOpen(s) then Enqueue(s, MainEvent(s)) else s).(main := MainNext(s.main))
    case WriterTakes => s.(writer := Writing(s.queue[0]), queue := s.queue[1..])
    case WriterWrites => s.(writer := Idle, frames := s.frames + [s.writer.event])
    case WriterFails => s.(writer := Stopped, queue := [], failed := true)
    case WriterEnds => s.(writer := Stopped)
    case MainJoins => s.(main := Finished)
  }

  /** `s` is reached from `from` by `actions`, each enabled in its turn. */
  ghost predicate Reaches(from: State, actions: seq<Action>, s: State)
    decreases |actions|
  {
    if actions == [] then from == s
    else Enabled(from, actions[0]) && Reaches(Step(from, actions[0]), actions[1..], s)
  }

  // ---- what the events say -------------------------------------------------

  /** The chunks of one stream, in order. */
  function ChunksOf(es: seq<Event>, st: Stream): seq<seq<Byte>> {
    if es == [] then []
    else
      var last := es[|es| - 1];
      ChunksOf(es[..|es| - 1], st) + (if last.Data? && last.stream == st then [last.bytes] else [])
  }

  lemma ChunksOfSnoc(es: seq<Event>, e: Event, st: Stream)
    ensures ChunksOf(es + [e], st) == ChunksOf(es, st) + (if e.Data? && e.stream == st then [e.bytes] else [])
  {
    assert (es + [e])[..|es|] == es;
  }

  lemma {:induction false} ChunksOfPrefix(xs: seq<Event>, ys: seq<Event>, st: Stream)
    requires xs <= ys
    ensures ChunksOf(xs, st) <= ChunksOf(ys, st)
    decreases |ys|
  {
    if xs == ys {
    } else {
      var n := |ys| - 1;
      ChunksOfPrefix(xs, ys[..n], st);
    }
  }

  /** No exit is announced in `es`. */
  predicate NoExit(es: seq<Event>) {
    forall i :: 0 <= i < |es| ==> !es[i].Exited?
  }

  /** If an exit is announced at all, it is the very last event. */
  predicate ExitOnlyLast(es: seq<Event>) {
    forall i :: 0 <= i < |es| - 1 ==> !es[i].Exited?
  }

  function Held(p: Pump): seq<seq<Byte>> {
    if p.Holding? then [p.bytes] else []
  }

  function InFlight(w: Writer): seq<Event> {
    if w.Writing? then [w.event] else []
  }

  // ---- the invariant -------------------------------------------------------

  ghost predicate QueueInv(s: State) {
    && |s.queue| <= EVENT_QUEUE_DEPTH
    && s.frames <= s.sent
    && (!s.failed ==> s.sent == s.frames + InFlight(s.writer) + s.queue)
    && (s.failed ==> s.writer.Stopped?)
    && (s.writer.Stopped? ==> s.queue == [])
  }

  ghost predicate StreamInv(s: State, st: Stream) {
    && ChunksOf(s.sent, st) <= s.read.Of(st)
    && (!s.failed ==> s.read.Of(st) == ChunksOf(s.sent, st) + Held(s.pumps.Of(st)))
  }

  ghost predicate ExitInv(s: State) {
    && ExitOnlyLast(s.sent)
    && (!(s.main.Joining? || s.main.Finished?) ==> NoExit(s.sent))
    && (s.main.Announcing? || s.main.Joining? || s.main.Finished? || s.main.NoProcessLine? || s.main.NoProcessExit? ==>
          PumpsEnded(s))
    && ((s.main.Joining? || s.main.Finished?) && !s.failed ==> s.sent != [] && s.sent[|s.sent| - 1].Exited?)
    && (s.writer.Stopped? && !s.failed ==> s.main.Joining? || s.main.Finished?)
    && (s.main.Finished? ==> s.writer.Stopped?)
  }

  /** The code a wait status stands for: bits 8 to 15 if the low seven are clear, and -1 after a signal. */
  predicate RightStatus(e: Event, status: nat) {
    && e.Exited? && e.waitStatus == status
    && (status % 128 == 0 ==> 0 <= e.code < 256 && (status / 256 - e.code) % 256 == 0)
    && (status % 128 != 0 ==> e.code == -1)
  }

  /** An exit with `code` made up by the agent: its status is that of a plain `exit(code)`. */
  predicate MadeUp(e: Event, code: int) {
    && e.Exited? && e.code == code
    && 0 <= e.waitStatus < 65536 && e.waitStatus % 256 == 0 && (e.waitStatus / 256 - code) % 256 == 0
  }

  /** `e` announces how the exec went. */
  predicate Announces(e: Event, ending: Ending) {
    match ending
    case Failed(_, code) => MadeUp(e, code)
    case Waited(None) => MadeUp(e, -1)
    case Waited(Some(status)) => RightStatus(e, status)
  }

  /** Every exit in `es` announces the ending, and a line of the agent's own is only there without a process. */
  predicate SaysHowItWent(es: seq<Event>, ending: Option<Ending>) {
    forall i :: 0 <= i < |es| ==>
      && (es[i].Exited? ==> ending.Some? && Announces(es[i], ending.value))
      && (es[i].StderrLine? ==> i == 0 && ending.Some? && ending.value.Failed? && es[i].text == ending.value.message)
  }

  /** Without a process: the line, then the exit, and no data. */
  predicate NoProcessInv(s: State) {
    s.ending.Some? && s.ending.value.Failed? ==>
      && PumpsEnded(s) && |s.sent| <= 2 && s.read == Both([], [])
      && (s.main.NoProcessLine? || s.main.NoProcessExit? || s.main.Joining? || s.main.Finished?)
      && (s.main.NoProcessLine? <==> s.sent == [])
      && (|s.sent| >= 1 ==> s.sent[0].StderrLine?)
      && (|s.sent| == 2 ==> s.sent[1].Exited?)
      && (s.main.NoProcessExit? ==> |s.sent| == 1)
  }

  ghost predicate EndingInv(s: State) {
    && (s.main.Waiting? <==> s.ending.None?)
    && (s.failed ==> s.sent != [])
    && (s.main.NoProcessLine? || s.main.NoProcessExit? ==> s.ending.Some? && s.ending.value.Failed?)
    && SaysHowItWent(s.sent, s.ending)
    && NoProcessInv(s)
  }

  /** A chunk as one read gives it. */
  predicate GoodChunk(bytes: seq<Byte>) {
    0 < |bytes| <= 16384
  }

  predicate GoodChunks(es: seq<Event>) {
    forall i :: 0 <= i < |es| && es[i].Data? ==> GoodChunk(es[i].bytes)
  }

  ghost predicate SizeInv(s: State) {
    && GoodChunks(s.sent)
    && (s.pumps.out.Holding? ==> GoodChunk(s.pumps.out.bytes))
    && (s.pumps.err.Holding? ==> GoodChunk(s.pumps.err.bytes))
  }

  ghost predicate Inv(s: State) {
    QueueInv(s) && StreamInv(s, Stdout) && StreamInv(s, Stderr) && ExitInv(s) && EndingInv(s) && SizeInv(s)
  }

  lemma InitHasInv(start: Start)
    ensures Inv(Init(start))
  {
  }

  lemma StepKeepsQueueInv(s: State, a: Action)
    requires Inv(s) && Enabled(s, a)
    ensures QueueInv(Step(s, a))
  {
    hide StreamInv, ExitInv, EndingInv, SizeInv;
    if a.WriterTakes? {
      assert s.queue == [s.queue[0]] + s.queue[1..];
    }
  }

  lemma StepKeepsStreamInv(s: State, a: Action, st: Stream)
    requires Inv(s) && Enabled(s, a)
    ensures StreamInv(Step(s, a), st)
  {
    hide ChunksOf, ExitOnlyLast, NoExit, EndingInv, SizeInv;
    assert StreamInv(s, st);
    match a
    case PumpSends(from) =>
      ChunksOfSnoc(s.sent, Data(from, s.pumps.Of(from).bytes), st);
    case MainSends =>
      ChunksOfSnoc(s.sent, MainEvent(s), st);
    case _ =>
  }

  lemma ExitLastSnoc(es: seq<Event>, e: Event)
    requires NoExit(es)
    ensures ExitOnlyLast(es + [e])
    ensures !e.Exited? ==> NoExit(es + [e])
  {
  }

  lemma StepKeepsExitInv(s: State, a: Action)
    requires Inv(s) && Enabled(s, a)
    ensures ExitInv(Step(s, a))
  {
    hide StreamInv, ExitOnlyLast, NoExit, SaysHowItWent, NoProcessInv, SizeInv;
    match a
    case PumpSends(from) =>
      ExitLastSnoc(s.sent, Data(from, s.pumps.Of(from).bytes));
    case MainSends =>
      ExitLastSnoc(s.sent, MainEvent(s));
    case _ =>
  }

  lemma SyntheticIsMadeUp(code: int)
    ensures MadeUp(SyntheticExit(code), code)
  {
    var low := code % 256;
    assert low * 256 / 256 == low;
    assert (low - code) % 256 == 0 by {
      assert low - code == 256 * -(code / 256);
    }
  }

  lemma StatusIsRight(status: nat)
    ensures RightStatus(ExitEvent(Waited(Some(status))), status)
  {
    var high := status / 256;
    assert (high - high % 256) % 256 == 0 by {
      assert high - high % 256 == 256 * (high / 256);
    }
  }

  lemma ExitAnnounces(ending: Ending)
    ensures Announces(ExitEvent(ending), ending)
  {
    hide RightStatus, MadeUp;
    match ending
    case Failed(_, code) => SyntheticIsMadeUp(code);
    case Waited(None) => SyntheticIsMadeUp(-1);
    case Waited(Some(status)) => StatusIsRight(status);
  }

  /** One more event that says how it went, if it is the main task's. */
  lemma SaysOneMore(es: seq<Event>, e: Event, ending: Option<Ending>)
    requires SaysHowItWent(es, ending)
    requires e.Exited? ==> ending.Some? && Announces(e, ending.value)
    requires e.StderrLine? ==> es == [] && ending.Some? && ending.value.Failed? && e.text == ending.value.message
    ensures SaysHowItWent(es + [e], ending)
  {
    hide Announces;
  }

  lemma NothingSaidYet(es: seq<Event>, ending: Option<Ending>)
    requires SaysHowItWent(es, None)
    ensures SaysHowItWent(es, ending)
  {
    hide Announces;
  }

  lemma StepKeepsSaying(s: State, a: Action)
    requires EndingInv(s) && Enabled(s, a)
    ensures SaysHowItWent(Step(s, a).sent, Step(s, a).ending)
  {
    hide SaysHowItWent, Announces, ExitEvent, PumpsEnded;
    match a
    case MainSends =>
      ExitAnnounces(s.ending.value);
      AnnouncementIsExit(ExitEvent(s.ending.value), s.ending.value);
      SaysOneMore(s.sent, MainEvent(s), s.ending);
    case PumpSends(from) => SaysOneMore(s.sent, Data(from, s.pumps.Of(from).bytes), s.ending);
    case ChildExits(status) => NothingSaidYet(s.sent, Some(Waited(status)));
    case _ =>
  }

  lemma StepKeepsNoProcess(s: State, a: Action)
    requires EndingInv(s) && QueueInv(s) && ExitInv(s) && Enabled(s, a)
    ensures NoProcessInv(Step(s, a))
  {
    hide SaysHowItWent, ExitOnlyLast, NoExit, Announces, ExitEvent;
    if a.MainSends? {
      ExitAnnounces(s.ending.value);
      AnnouncementIsExit(ExitEvent(s.ending.value), s.ending.value);
    }
  }

  lemma StepKeepsEndingInv(s: State, a: Action)
    requires Inv(s) && Enabled(s, a)
    ensures EndingInv(Step(s, a))
  {
    hide StreamInv, ExitOnlyLast, NoExit, SaysHowItWent, NoProcessInv, SizeInv;
    StepKeepsSaying(s, a);
    StepKeepsNoProcess(s, a);
  }

  lemma StepKeepsSizeInv(s: State, a: Action)
    requires SizeInv(s) && Enabled(s, a)
    ensures SizeInv(Step(s, a))
  {
  }

  lemma AnnouncementIsExit(e: Event, ending: Ending)
    requires Announces(e, ending)
    ensures e.Exited?
  {
  }

  lemma StepKeepsInv(s: State, a: Action)
    requires Inv(s) && Enabled(s, a)
    ensures Inv(Step(s, a))
  {
    hide Step, Enabled, QueueInv, StreamInv, ExitInv, EndingInv, SizeInv;
    StepKeepsQueueInv(s, a);
    StepKeepsStreamInv(s, a, Stdout);
    StepKeepsStreamInv(s, a, Stderr);
    StepKeepsExitInv(s, a);
    StepKeepsEndingInv(s, a);
    StepKeepsSizeInv(s, a);
  }

  lemma {:induction false} ReachableHasInv(from: State, actions: seq<Action>, s: State)
    requires Inv(from) && Reaches(from, actions, s)
    ensures Inv(s)
    decreases |actions|
  {
    hide Inv;
    if actions != [] {
      StepKeepsInv(from, actions[0]);
      ReachableHasInv(Step(from, actions[0]), actions[1..], s);
    }
  }

  // ---- what every run promises ---------------------------------------------

  /**
   In every interleaving: the frames are a prefix of queue order, each stream's
   data is in read order, nothing follows an exit, which comes at most once, and an
   exit says how the exec went. No frame of data is empty or longer than one read.
   */
  lemma EveryRunIsOrdered(start: Start, actions: seq<Action>, s: State)
    requires Reaches(Init(start), actions, s)
    ensures s.frames <= s.sent && |s.queue| <= 64
    ensures forall i :: 0 <= i < |s.frames| && s.frames[i].Data? ==> 0 < |s.frames[i].bytes| <= 16384
    ensures forall st :: ChunksOf(s.frames, st) <= s.read.Of(st)
    ensures ExitOnlyLast(s.sent) && ExitOnlyLast(s.frames)
    ensures forall i :: 0 <= i < |s.sent| && s.sent[i].Exited? ==>
              s.ending.Some? && Announces(s.sent[i], s.ending.value)
    ensures forall i :: 0 <= i < |s.frames| && s.frames[i].Exited? ==>
              s.ending.Some? && Announces(s.frames[i], s.ending.value)
  {
    hide Reaches, ChunksOf, Announces, Init;
    InitHasInv(start);
    ReachableHasInv(Init(start), actions, s);
    forall st
      ensures ChunksOf(s.frames, st) <= s.read.Of(st)
    {
      ChunksOfPrefix(s.frames, s.sent, st);
      assert StreamInv(s, st);
    }
  }

  /** The ending is the failed start, or what waiting for the child gave in this run. */
  ghost predicate EndingOf(start: Start, actions: seq<Action>, ending: Ending) {
    match start
    case NotStarted(message, code) => ending == Failed(message, code)
    case Started => ending.Waited? && ChildExits(ending.status) in actions
  }

  lemma {:induction false} EndingIsRecorded(from: State, actions: seq<Action>, s: State)
    requires Inv(from) && Reaches(from, actions, s)
    ensures from.ending.Some? ==> s.ending == from.ending
    ensures from.ending.None? && s.ending.Some? ==>
              s.ending.value.Waited? && ChildExits(s.ending.value.status) in actions
    decreases |actions|
  {
    hide QueueInv, StreamInv, ExitInv, SaysHowItWent, NoProcessInv;
    if actions != [] {
      StepKeepsInv(from, actions[0]);
      EndingStep(from, actions[0]);
      EndingIsRecorded(Step(from, actions[0]), actions[1..], s);
    }
  }

  lemma EndingStep(s: State, a: Action)
    requires EndingInv(s) && Enabled(s, a)
    ensures s.ending.Some? ==> Step(s, a).ending == s.ending
    ensures s.ending.None? ==> Step(s, a).ending == if a.ChildExits? then Some(Waited(a.status)) else None
  {
    hide SaysHowItWent, NoProcessInv;
  }

  lemma RunHasEnding(start: Start, actions: seq<Action>, s: State)
    requires Reaches(Init(start), actions, s)
    ensures s.ending.Some? ==> EndingOf(start, actions, s.ending.value)
    ensures start.NotStarted? ==> s.ending.Some?
  {
    hide Inv, Reaches;
    InitHasInv(start);
    EndingIsRecorded(Init(start), actions, s);
  }

  /**
   When no write fails, a finished run wrote exactly one exit, as its last frame,
   after every byte either pump ever read. That exit announces the status the child
   was waited for with, or the code of a start that failed.
   */
  lemma CleanRunDeliversAll(start: Start, actions: seq<Action>, s: State)
    requires Reaches(Init(start), actions, s)
    requires s.main.Finished? && !s.failed
    ensures s.frames == s.sent && s.frames != []
    ensures var n := |s.frames| - 1;
            && s.frames[n].Exited? && NoExit(s.frames[..n])
            && forall st :: ChunksOf(s.frames[..n], st) == s.read.Of(st)
    ensures s.ending.Some? && EndingOf(start, actions, s.ending.value)
    ensures Announces(s.frames[|s.frames| - 1], s.ending.value)
  {
    hide Reaches, ChunksOf, Announces, Init;
    InitHasInv(start);
    ReachableHasInv(Init(start), actions, s);
    RunHasEnding(start, actions, s);
    FinishedIsComplete(s);
  }

  /**
   If no process started, nothing but the message and then the exit with its code
   is ever queued or written, in this order; a clean finished run wrote both.
   */
  lemma NoProcessRun(message: string, code: int, actions: seq<Action>, s: State)
    requires Reaches(Init(NotStarted(message, code)), actions, s)
    ensures |s.sent| <= 2 && s.frames <= s.sent
    ensures |s.sent| >= 1 ==> s.sent[0] == StderrLine(message)
    ensures |s.sent| == 2 ==> MadeUp(s.sent[1], code)
    ensures s.main.Finished? && !s.failed ==> |s.frames| == 2
  {
    hide Reaches, MadeUp, ChunksOf;
    var start := NotStarted(message, code);
    InitHasInv(start);
    ReachableHasInv(Init(start), actions, s);
    RunHasEnding(start, actions, s);
    if s.main.Finished? && !s.failed {
      FinishedIsComplete(s);
    }
  }

  lemma FinishedIsComplete(s: State)
    requires Inv(s) && s.main.Finished? && !s.failed
    ensures s.frames == s.sent && s.frames != []
    ensures var n := |s.frames| - 1;
            && s.frames[n].Exited? && NoExit(s.frames[..n])
            && forall st :: ChunksOf(s.frames[..n], st) == s.read.Of(st)
  {
    hide ChunksOf, Announces, NoProcessInv;
    var n := |s.sent| - 1;
    assert s.frames + InFlight(s.writer) + s.queue == s.frames;
    forall st
      ensures ChunksOf(s.sent[..n], st) == s.read.Of(st)
    {
      assert StreamInv(s, st);
      ChunksOfSnoc(s.sent[..n], s.sent[n], st);
      assert s.sent[..n] + [s.sent[n]] == s.sent;
    }
  }

  /** Until it is finished, a run can always take another step. */
  lemma NeverStuck(start: Start, actions: seq<Action>, s: State)
    requires Reaches(Init(start), actions, s) && !s.main.Finished?
    ensures exists a :: Enabled(s, a)
  {
    InitHasInv(start);
    ReachableHasInv(Init(start), actions, s);
    var a :=
      if s.writer.Writing? then WriterWrites
      else if s.writer.Idle? && s.queue != [] then WriterTakes
      else if s.pumps.out.Reading? then PumpEnds(Stdout)
      else if s.pumps.err.Reading? then PumpEnds(Stderr)
      else if s.pumps.out.Holding? then PumpSends(Stdout)
      else if s.pumps.err.Holding? then PumpSends(Stderr)
      else if s.main.Waiting? then ChildExits(None)
      else if s.main.Draining? then OutputsDrained
      else if s.main.Joining? then if s.writer.Stopped? then MainJoins else WriterEnds
      else MainSends;
    assert Enabled(s, a);
  }

  function PumpRank(p: Pump): nat {
    match p
    case Reading => 1
    case Holding(_) => 5
    case Ended => 0
  }

  function MainRank(m: Main): nat {
    match m
    case NoProcessLine => 9
    case NoProcessExit => 5
    case Waiting => 7
    case Draining => 6
    case Announcing => 5
    case Joining => 1
    case Finished => 0
  }

  function WriterRank(w: Writer): nat {
    match w
    case Writing(_) => 3
    case Idle => 1
    case Stopped => 0
  }

  /** How many steps are left if no pump reads anything more. */
  function Rank(s: State): nat {
    PumpRank(s.pumps.out) + PumpRank(s.pumps.err) + MainRank(s.main) + WriterRank(s.writer) + 3 * |s.queue|
  }

  function ReadCount(actions: seq<Action>): nat {
    if actions == [] then 0 else (if actions[0].PumpReads? then 1 else 0) + ReadCount(actions[1..])
  }

  lemma StepLowersRank(s: State, a: Action)
    requires Enabled(s, a)
    ensures Rank(Step(s, a)) < Rank(s) + (if a.PumpReads? then 5 else 0)
  {
  }

  /** Runs are bounded by what the pumps read, so once output ends the exec ends too. */
  lemma {:induction false} RunsAreBounded(from: State, actions: seq<Action>, s: State)
    requires Reaches(from, actions, s)
    ensures |actions| + Rank(s) <= Rank(from) + 5 * ReadCount(actions)
    decreases |actions|
  {
    if actions != [] {
      hide Step, Enabled, Rank;
      StepLowersRank(from, actions[0]);
      RunsAreBounded(Step(from, actions[0]), actions[1..], s);
    }
  }

  // ---- after the connection is gone ----------------------------------------

  function Readers(s: State): nat {
    (if s.pumps.out.Reading? then 1 else 0) + (if s.pumps.err.Reading? then 1 else 0)
  }

  lemma StoppedStep(s: State, a: Action)
    requires s.writer.Stopped? && Enabled(s, a)
    ensures Step(s, a).writer.Stopped?
    ensures Readers(Step(s, a)) + (if a.PumpReads? then 1 else 0) <= Readers(s)
  {
  }

  /**
   Once the writer has stopped each pump reads at most once more, so such a run
   ends after a fixed number of steps, whatever the child still prints.
   */
  lemma {:induction false} StoppedReadsAreFew(from: State, actions: seq<Action>, s: State)
    requires from.writer.Stopped? && Reaches(from, actions, s)
    ensures ReadCount(actions) + Readers(s) <= Readers(from) <= 2
    ensures |actions| <= Rank(from) + 10
    decreases |actions|
  {
    hide Step, Enabled, Rank;
    RunsAreBounded(from, actions, s);
    if actions != [] {
      StoppedStep(from, actions[0]);
      StoppedReadsAreFew(Step(from, actions[0]), actions[1..], s);
    }
  }
}
