/** The block of memory an injector and its client share: each writes a field of its
    own, and the injector a counter that tells the client it is still there. The two take
    atomic steps in any order; each access to a shared field is one step. */
module Heartbeat {
  import opened Integers
  import opened Options
  import opened Ticks

  const SILENCE_SECONDS := 5

  datatype ClientCode = NoClientCode | InitOk | InitFailed | ClientUnloading | Restarting
  datatype InjectorCode = NoInjectorCode | RequestUnload

  datatype Block = Block(c2m: ClientCode, m2c: InjectorCode, beat: u32)

  datatype Status = Ok | Unloading | InjectorStopBeat

  /** Where the injector is in listening; at rest, what the last listening heard. */
  datatype Listener = Listening(heard: Option<ClientCode>) | Counting | Sending

  /** Where the client is in dispatching; at rest, what the last dispatch returned. */
  datatype Dispatcher =
    | Returned(status: Option<Status>)
    | Compare | CheckTime | StoreSequence | StoreTime | ReadCode

  datatype State = State(
    block: Block, copy: Block, listener: Listener,
    client: Dispatcher, started: bool, lastSequence: u32, lastHeartbeat: u32, now: nat)

  const EmptyBlock := Block(NoClientCode, NoInjectorCode, 0)
  const Initial := State(EmptyBlock, EmptyBlock, Listening(None), Returned(None), false, 0, 0, 0)

  /** Reading or writing the block from the injector's side can fail. */
  datatype Action =
    | Read(ok: bool) | Count | Send(ok: bool) | Tell(told: InjectorCode, ok: bool)
    | Write(written: ClientCode) | Dispatch | ClientStep
    | Tick(ms: nat)

  // ----- The steps

  function Next(n: u32): u32 {
    if n == 0xFFFF_FFFF then 0 else n + 1
  }

  predicate TooLong(now: u32, since: u32) {
    Elapsed(now, since) > SILENCE_SECONDS * 1000
  }

  function StatusOf(code: InjectorCode): Status {
    if code == RequestUnload then Unloading else Ok
  }

  function StepClient(s: State): State {
    match s.client
    case Returned(_) => s
    case Compare => s.(client := if s.block.beat == s.lastSequence then CheckTime else StoreSequence)
    case CheckTime =>
      s.(client := if TooLong(TickCount(s.now), s.lastHeartbeat) then Returned(Some(InjectorStopBeat)) else ReadCode)
    case StoreSequence => s.(lastSequence := s.block.beat, client := StoreTime)
    case StoreTime => s.(lastHeartbeat := TickCount(s.now), client := ReadCode)
    case ReadCode => s.(client := Returned(Some(StatusOf(s.block.m2c))))
  }

  function Step(s: State, a: Action): State {
    match a
    case Read(ok) =>
      if !s.listener.Listening? then s
      else if ok then s.(copy := s.block, listener := Counting)
      else s.(listener := Listening(None))
    case Count =>
      if s.listener.Counting? then s.(copy := s.copy.(beat := Next(s.copy.beat)), listener := Sending) else s
    case Send(ok) =>
      if !s.listener.Sending? then s
      else if ok then s.(block := s.block.(beat := s.copy.beat), listener := Listening(Some(s.copy.c2m)))
      else s.(listener := Listening(None))
    case Tell(told, ok) =>
      if s.listener.Listening? && ok then s.(block := s.block.(m2c := told)) else s
    case Write(written) =>
      if s.client.Returned? then s.(block := s.block.(c2m := written)) else s
    case Dispatch =>
      if !s.client.Returned? then s
      else if s.started then s.(client := Compare)
      else s.(client := Compare, started := true, lastHeartbeat := TickCount(s.now))
    case ClientStep => StepClient(s)
    case Tick(ms) => s.(now := s.now + ms)
  }

  function Steps(s: State, run: seq<Action>): State {
    if run == [] then s else Step(Steps(s, run[..|run| - 1]), run[|run| - 1])
  }

  function Run(run: seq<Action>): State {
    Steps(Initial, run)
  }

  // ----- The program: calls that nothing interrupts

  class SharedBlock {
    var c2m: ClientCode
    var m2c: InjectorCode
    var beat: u32

    constructor ()
      ensures Value() == EmptyBlock
    {
      c2m, m2c, beat := NoClientCode, NoInjectorCode, 0;
    }

    function Value(): Block
      reads this
    {
      Block(c2m, m2c, beat)
    }
  }

  class InjectorEnd {
    const shared: SharedBlock
    var ipcBlock: Block

    constructor (shared: SharedBlock)
      ensures this.shared == shared && ipcBlock == EmptyBlock
    {
      this.shared, ipcBlock := shared, EmptyBlock;
    }

    /** The steps of the protocol, taken in a row. */
    method ListenToInjectedDll(canRead: bool, canWrite: bool, ghost s: State)
      returns (ok: bool, code: ClientCode)
      requires s.block == shared.Value() && s.copy == ipcBlock && s.listener.Listening?
      modifies this, shared`beat
      ensures ok <==> canRead && canWrite
      ensures ok ==> code == shared.c2m && shared.beat == Next(old(shared.beat))
      ensures Steps(s, [Read(canRead), Count, Send(canWrite)])
           == s.(block := shared.Value(), copy := ipcBlock, listener := Listening(if ok then Some(code) else None))
    {
      code := NoClientCode;
      ThreeSteps(s, Read(canRead), Count, Send(canWrite));
      if !canRead {
        return false, code;
      }
      ipcBlock := shared.Value();
      ok := SendHeartbeat(canWrite);
      if !ok {
        return;
      }
      code := ipcBlock.c2m;
    }

    method SendHeartbeat(canWrite: bool) returns (ok: bool)
      modifies this, shared`beat
      ensures ok == canWrite
      ensures ipcBlock == old(ipcBlock).(beat := Next(old(ipcBlock).beat))
      ensures shared.beat == if ok then ipcBlock.beat else old(shared.beat)
    {
      ipcBlock := ipcBlock.(beat := Next(ipcBlock.beat));
      if !canWrite {
        return false;
      }
      shared.beat := ipcBlock.beat;
      return true;
    }

    method TellTo(code: InjectorCode, canWrite: bool, ghost s: State) returns (ok: bool)
      requires s.block == shared.Value() && s.listener.Listening?
      modifies shared`m2c
      ensures ok == canWrite && shared.m2c == if ok then code else old(shared.m2c)
      ensures Step(s, Tell(code, canWrite)) == s.(block := shared.Value())
    {
      if !canWrite {
        return false;
      }
      shared.m2c := code;
      return true;
    }
  }

  class ClientEnd {
    const shared: SharedBlock
    /** Whether the two that follow, static variables of the program, have been initialised. */
    var started: bool
    var lastSequence: u32
    var lastHeartbeat: u32

    constructor (shared: SharedBlock)
      modifies shared`c2m
      ensures this.shared == shared && !started && lastSequence == 0 && lastHeartbeat == 0
      ensures shared.Value() == old(shared.Value()).(c2m := NoClientCode)
    {
      this.shared := shared;
      started, lastSequence, lastHeartbeat := false, 0, 0;
      new;
      shared.c2m := NoClientCode;
    }

    ghost predicate Matches(s: State)
      reads this, shared
    {
      && s.block == shared.Value()
      && s.started == started && s.lastSequence == lastSequence && s.lastHeartbeat == lastHeartbeat
    }

    method WriteCode(code: ClientCode, ghost s: State)
      requires Matches(s) && s.client.Returned?
      modifies shared`c2m
      ensures shared.c2m == code
      ensures Step(s, Write(code)) == s.(block := shared.Value())
    {
      shared.c2m := code;
    }

    method HeartBeating(tick: u32) returns (beating: bool)
      modifies this
      ensures started
      ensures var since := if old(started) then old(lastHeartbeat) else tick;
              if shared.beat == old(lastSequence)
              then lastSequence == old(lastSequence) && lastHeartbeat == since && beating == !TooLong(tick, since)
              else lastSequence == shared.beat && lastHeartbeat == tick && beating
    {
      if !started {
        started, lastHeartbeat := true, tick;
      }
      if shared.beat == lastSequence {
        if Elapsed(tick, lastHeartbeat) > SILENCE_SECONDS * 1000 {
          return false;
        }
      } else {
        lastSequence := shared.beat;
        lastHeartbeat := tick;
      }
      return true;
    }

    /** The steps of the protocol, taken in a row; the longest way takes four after the first. */
    method DispatchCall(tick: u32, ghost s: State) returns (status: Status)
      requires Matches(s) && s.client.Returned? && tick == TickCount(s.now)
      modifies this
      ensures status != InjectorStopBeat ==> (status == Unloading <==> shared.m2c == RequestUnload)
      ensures Steps(s, [Dispatch, ClientStep, ClientStep, ClientStep, ClientStep])
           == s.(started := started, lastSequence := lastSequence, lastHeartbeat := lastHeartbeat,
                 client := Returned(Some(status)))
    {
      FiveSteps(s, Dispatch, ClientStep);
      var beating := HeartBeating(tick);
      if !beating {
        return InjectorStopBeat;
      }
      if shared.m2c == RequestUnload {
        return Unloading;
      }
      return Ok;
    }
  }

  lemma ThreeSteps(s: State, a: Action, b: Action, c: Action)
    ensures Steps(s, [a, b, c]) == Step(Step(Step(s, a), b), c)
  {
    assert [a, b, c][..2] == [a, b] && [a, b][..1] == [a];
    assert Steps(s, [a]) == Step(s, a);
  }

  lemma FiveSteps(s: State, a: Action, b: Action)
    ensures Steps(s, [a, b, b, b, b]) == Step(Step(Step(Step(Step(s, a), b), b), b), b)
  {
    ThreeSteps(s, a, b, b);
    assert [a, b, b, b, b][..4] == [a, b, b, b] && [a, b, b, b][..3] == [a, b, b];
  }

  // ----- The history of a run

  /** How often the injector has been heard to beat: its successful listenings. */
  function Beats(run: seq<Action>): nat {
    if run == [] then 0
    else
      var (before, a) := (run[..|run| - 1], run[|run| - 1]);
      Beats(before) + if a == Send(true) && Run(before).listener.Sending? then 1 else 0
  }

  /** How many beats there had been when the client last stored the counter. */
  function StoredBeats(run: seq<Action>): nat {
    if run == [] then 0
    else
      var (before, a) := (run[..|run| - 1], run[|run| - 1]);
      if a == ClientStep && Run(before).client.StoreSequence? then Beats(before) else StoredBeats(before)
  }

  /** When the client last stored the time. */
  function StoredAt(run: seq<Action>): nat {
    if run == [] then 0
    else
      var (before, a) := (run[..|run| - 1], run[|run| - 1]);
      var s := Run(before);
      if (a == ClientStep && s.client.StoreTime?) || (a == Dispatch && s.client.Returned? && !s.started)
      then s.now else StoredAt(before)
  }

  function LastWritten(run: seq<Action>): ClientCode {
    if run == [] then NoClientCode
    else
      var (before, a) := (run[..|run| - 1], run[|run| - 1]);
      if a.Write? && Run(before).client.Returned? then a.written else LastWritten(before)
  }

  function LastTold(run: seq<Action>): InjectorCode {
    if run == [] then NoInjectorCode
    else
      var (before, a) := (run[..|run| - 1], run[|run| - 1]);
      if a.Tell? && a.ok && Run(before).listener.Listening? then a.told else LastTold(before)
  }

  // ----- What every run keeps

  function Counter(n: nat): u32 {
    n % 0x1_0000_0000
  }

  lemma NextCounter(n: nat)
    ensures Next(Counter(n)) == Counter(n + 1)
  {}

  ghost predicate BlockAgrees(run: seq<Action>) {
    var s := Run(run);
    && s.block == Block(LastWritten(run), LastTold(run), Counter(Beats(run)))
    && (s.listener.Counting? ==> s.copy.beat == Counter(Beats(run)))
    && (s.listener.Sending? ==> s.copy.beat == Counter(Beats(run) + 1))
  }

  ghost predicate ClientAgrees(run: seq<Action>) {
    var s := Run(run);
    && s.lastSequence == Counter(StoredBeats(run)) && StoredBeats(run) <= Beats(run)
    && (s.started ==> s.lastHeartbeat == TickCount(StoredAt(run)))
    && (!s.client.Returned? ==> s.started)
    && StoredAt(run) <= s.now
  }

  /** In every run, each code in the block is the last its writer has written, and the
      counter is the number of successful listenings. */
  lemma {:induction false} EveryRunAgrees(run: seq<Action>)
    ensures BlockAgrees(run)
  {
    if run != [] {
      EveryRunAgrees(run[..|run| - 1]);
      NextCounter(Beats(run[..|run| - 1]));
    }
  }

  lemma {:induction false} EveryClientAgrees(run: seq<Action>)
    ensures ClientAgrees(run)
  {
    if run != [] {
      EveryRunAgrees(run[..|run| - 1]);
      EveryClientAgrees(run[..|run| - 1]);
    }
  }

  /** A listening that succeeds moves the counter on by one, modulo its range; nothing
      else moves it. */
  lemma OnlyListeningBeats(run: seq<Action>, a: Action)
    ensures var (s, t) := (Run(run), Step(Run(run), a));
            t.block.beat == if a == Send(true) && s.listener.Sending? then Next(s.block.beat) else s.block.beat
  {
    EveryRunAgrees(run);
    NextCounter(Beats(run));
  }

  // ----- What is heard has been said

  /** How many actions came before the last successful reading of the block. */
  function ReadAfter(run: seq<Action>): (n: nat)
    ensures n <= |run|
  {
    if run == [] then 0
    else
      var (before, a) := (run[..|run| - 1], run[|run| - 1]);
      if a == Read(true) && Run(before).listener.Listening? then |before| else ReadAfter(before)
  }

  /** How many actions came before the client last looked at the injector's code. */
  function AskedAfter(run: seq<Action>): (n: nat)
    ensures n <= |run|
  {
    if run == [] then 0
    else
      var (before, a) := (run[..|run| - 1], run[|run| - 1]);
      if a == ClientStep && Run(before).client.ReadCode? then |before| else AskedAfter(before)
  }

  /** A listening that succeeds hears the last code the client had written when the block
      was read. */
  lemma {:induction false} HeardCodeWasWritten(run: seq<Action>)
    ensures var l := Run(run).listener;
      l.Listening? && l.heard.Some? ==> l.heard.value == LastWritten(run[..ReadAfter(run)])
    ensures !Run(run).listener.Listening? ==> Run(run).copy.c2m == LastWritten(run[..ReadAfter(run)])
  {
    if run != [] {
      var before := run[..|run| - 1];
      HeardCodeWasWritten(before);
      EveryRunAgrees(before);
      assert before[..ReadAfter(before)] == run[..ReadAfter(before)];
    }
  }

  /** A dispatch that does not give the injector up returns to unload exactly if that was
      the last the injector had told when the client looked. */
  lemma {:induction false} UnloadingWasTold(run: seq<Action>)
    ensures var c := Run(run).client;
      c.Returned? && c.status.Some? && c.status.value != InjectorStopBeat ==>
        (c.status.value == Unloading <==> LastTold(run[..AskedAfter(run)]) == RequestUnload)
  {
    if run != [] {
      var before := run[..|run| - 1];
      UnloadingWasTold(before);
      EveryRunAgrees(before);
      assert before[..AskedAfter(before)] == run[..AskedAfter(before)];
    }
  }

  /** Writing the counter succeeds: the listening ends with that code. */
  lemma ListeningHears(run: seq<Action>)
    requires Run(run).listener.Sending?
    ensures Step(Run(run), Send(true)).listener == Listening(Some(LastWritten(run[..ReadAfter(run)])))
  {
    HeardCodeWasWritten(run);
  }

  /** Looking at the injector's code ends the dispatch. */
  lemma AskingReturns(run: seq<Action>)
    requires Run(run).client.ReadCode?
    ensures Step(Run(run), ClientStep).client
         == Returned(Some(if LastTold(run) == RequestUnload then Unloading else Ok))
  {
    EveryRunAgrees(run);
  }

  // ----- When the client gives the injector up

  /** Every sample the client has taken of the counter since it last stored one was equal
      to the one stored. */
  predicate SamplesUnchanged(run: seq<Action>) {
    run == [] ||
    var (before, a) := (run[..|run| - 1], run[|run| - 1]);
    var s := Run(before);
    (a == ClientStep && s.client.StoreSequence?) ||
    (&& SamplesUnchanged(before)
     && (a == ClientStep && s.client.Compare? ==> Counter(Beats(before)) == Counter(StoredBeats(before))))
  }

  lemma {:induction false} ChangedSampleIsStored(run: seq<Action>)
    ensures Run(run).client.StoreSequence? || SamplesUnchanged(run)
  {
    if run != [] {
      var before := run[..|run| - 1];
      ChangedSampleIsStored(before);
      EveryRunAgrees(before);
      EveryClientAgrees(before);
    }
  }

  /** How many beats have come since the client last sampled the counter. */
  function BeatsSinceSample(run: seq<Action>): nat {
    if run == [] then 0
    else
      var (before, a) := (run[..|run| - 1], run[|run| - 1]);
      if a == ClientStep && Run(before).client.Compare? then 0
      else BeatsSinceSample(before) + if a == Send(true) && Run(before).listener.Sending? then 1 else 0
  }

  lemma {:induction false} SampleWasStored(run: seq<Action>)
    ensures BeatsSinceSample(run) <= Beats(run)
    ensures Run(run).client.CheckTime? ==> Counter(Beats(run) - BeatsSinceSample(run)) == Run(run).lastSequence
  {
    if run != [] {
      SampleWasStored(run[..|run| - 1]);
      EveryRunAgrees(run[..|run| - 1]);
    }
  }

  lemma SameCounter(n: nat, more: nat)
    ensures Counter(n + more) == Counter(n) <==> Counter(more) == 0
  {}

  predicate GivesUp(s: State) {
    s.client == Returned(Some(InjectorStopBeat))
  }

  /** The client gives the injector up only when all samples have been unchanged since it
      last stored one, and that is longer ago than the limit. It misses the limit only
      when the tick counter has wrapped back below it. */
  lemma GivesUpExactlyWhen(run: seq<Action>)
    requires Run(run).client.CheckTime?
    ensures SamplesUnchanged(run)
    ensures var (s, silence) := (Run(run), Run(run).now - StoredAt(run));
            && 0 <= silence
            && (GivesUp(Step(s, ClientStep)) <==> Counter(silence) > 5000)
            && (GivesUp(Step(s, ClientStep)) ==> silence > 5000)
  {
    ChangedSampleIsStored(run);
    EveryClientAgrees(run);
    ElapsedTime(Run(run).now, StoredAt(run));
  }

  /** The client's next dispatch, if nothing interrupts it, gives the injector up. */
  predicate NextDispatchGivesUp(s: State) {
    GivesUp(Steps(s, [Dispatch, ClientStep, ClientStep]))
  }

  /** It does exactly if, modulo the range of the two counters, there has been no beat since
      the client last stored the counter, and that is longer ago than the limit. */
  lemma UninterruptedDispatch(run: seq<Action>)
    requires Run(run).client.Returned? && Run(run).started
    ensures StoredBeats(run) <= Beats(run) && StoredAt(run) <= Run(run).now
    ensures NextDispatchGivesUp(Run(run)) <==>
      && Counter(Beats(run)) == Counter(StoredBeats(run))
      && Counter(Run(run).now - StoredAt(run)) > 5000
  {
    var s := Run(run);
    EveryRunAgrees(run);
    EveryClientAgrees(run);
    ElapsedTime(s.now, StoredAt(run));
    ThreeSteps(s, Dispatch, ClientStep, ClientStep);
    assert Step(s, Dispatch) == s.(client := Compare);
  }

  /** The client gives up although the counter has moved exactly if the clock says so and,
      modulo the counter's range, a beat has come between its sample and the clock. */
  lemma FalseAlarmExactlyWhen(run: seq<Action>)
    requires Run(run).client.CheckTime?
    ensures StoredAt(run) <= Run(run).now
    ensures var t := Step(Run(run), ClientStep);
      GivesUp(t) && t.block.beat != t.lastSequence <==>
        && Counter(Run(run).now - StoredAt(run)) > 5000
        && Counter(BeatsSinceSample(run)) != 0
  {
    SampleWasStored(run);
    EveryRunAgrees(run);
    GivesUpExactlyWhen(run);
    SameCounter(Beats(run) - BeatsSinceSample(run), BeatsSinceSample(run));
  }

  /** Interrupted between the sample and the clock, a dispatch can give up an injector
      that has just beaten. */
  lemma FalseAlarm()
    ensures var s := Steps(Initial, [Dispatch, ClientStep, Tick(5001)]);
            var t := Step(Steps(s, [Read(true), Count, Send(true)]), ClientStep);
            GivesUp(t) && t.block.beat != t.lastSequence
  {
    ThreeSteps(Initial, Dispatch, ClientStep, Tick(5001));
    ThreeSteps(Steps(Initial, [Dispatch, ClientStep, Tick(5001)]), Read(true), Count, Send(true));
  }
}
