/** The playback engine of `src/player.rs`: the time conversions and one
    iteration of the engine loop, as a pure step function.

    The reader, the decoder and the audio output are foreign code. The model
    sees them only through what they produce: the stream of packet outcomes the
    reader and decoder will deliver from now on, and a log of the effects the
    engine has on the outside world. */
module Player {
  import opened Wrappers

  // ---------------------------------------------------------------------
  // Time conversion
  // ---------------------------------------------------------------------

  /** Symphonia's `Time`: whole seconds plus a fraction in [0, 1). The
      fraction is held exactly, as `fracNum / fracDen`. */
  datatype Time = Time(seconds: nat, fracNum: nat, fracDen: nat) {
    predicate Valid() {
      fracDen > 0 && fracNum < fracDen
    }
  }

  /** `q` is `floor(num * 1000 / den)`, the whole thousandths in `num / den`. */
  predicate IsThousandths(q: int, num: nat, den: nat) {
    q * den <= num * 1000 < (q + 1) * den
  }

  /** `time_to_ms`: the time in whole milliseconds, the sub-millisecond part of
      the fraction truncated. */
  function TimeToMs(t: Time): (ms: nat)
    requires t.Valid()
    ensures ms / 1000 == t.seconds
    ensures IsThousandths(ms % 1000, t.fracNum, t.fracDen)
  {
    var q := t.fracNum * 1000 / t.fracDen;
    assert IsThousandths(q, t.fracNum, t.fracDen);
    assert q < 1000;
    t.seconds * 1000 + q
  }

  /** `ms_to_time`: the `Time` that denotes exactly `ms` milliseconds. */
  function MsToTime(ms: nat): (t: Time)
    ensures t.Valid()
    ensures (t.seconds * t.fracDen + t.fracNum) * 1000 == ms * t.fracDen
  {
    Time(ms / 1000, ms % 1000, 1000)
  }

  /** Converting milliseconds to a `Time` and back is the identity. */
  lemma TimeRoundTrip(ms: nat)
    ensures TimeToMs(MsToTime(ms)) == ms
  {
    var t := MsToTime(ms);
    var r := TimeToMs(t);
    assert r % 1000 == ms % 1000 by {
      assert IsThousandths(r % 1000, ms % 1000, 1000);
    }
  }

  // ---------------------------------------------------------------------
  // Control protocol, session and effects
  // ---------------------------------------------------------------------

  /** `PlayerAction`. The volume is the linear multiplier the caller computed. */
  datatype Action =
    | Play(path: string)
    | Pause
    | Resume
    | Stop
    | Seek(ms: nat)
    | SetVolume(volume: real)

  /** What the reader and the decoder make of the next packet of the stream. */
  datatype PacketOutcome =
      /** Read and decoded; the packet's timestamp through the track's time base. */
    | Decoded(timestamp: Time)
      /** A corrupt frame (`Error::DecodeError`): skipped. */
    | DecodeError
      /** Any other decoder error. */
    | FatalDecodeError
      /** The reader failed, end of stream included. */
    | ReadError

  predicate ValidPackets(packets: seq<PacketOutcome>) {
    forall i :: 0 <= i < |packets| ==> packets[i].Decoded? ==> packets[i].timestamp.Valid()
  }

  /** The loaded track (`PlayerState`): its path and whether its audio output
      has been opened yet. Reader, decoder and time base are abstracted away. */
  datatype Session = Session(path: string, outputOpen: bool)

  /** The variables of `run`: the optional session, the playing flag and the
      volume, together with the shared position cell the engine writes. */
  datatype Engine = Engine(session: Option<Session>, isPlaying: bool, volume: real, position: nat)

  /** What an iteration does to the outside world, in order. */
  datatype Effect =
    | Seeked(target: Time)
    | OutputOpened
    | PositionSet(ms: nat)
    | Written(timestamp: Time, volume: real)
    | SongEnded

  datatype StepResult = StepResult(engine: Engine, remaining: seq<PacketOutcome>, effects: seq<Effect>)

  /** The playing flag is only ever set while a track is loaded. */
  predicate Consistent(e: Engine) {
    e.isPlaying ==> e.session.Some?
  }

  /** The state `run` starts in: no track, not playing, the volume `0.93^4`
      and the position cell at zero. */
  function Initial(): (e: Engine)
    ensures Consistent(e) && e.session.None? && !e.isPlaying
  {
    Engine(None, false, 0.93 * 0.93 * 0.93 * 0.93, 0)
  }

  function CountOf(effects: seq<Effect>, x: Effect): nat {
    if effects == [] then 0
    else (if effects[0] == x then 1 else 0) + CountOf(effects[1..], x)
  }

  lemma CountOfAppend(a: seq<Effect>, b: seq<Effect>, x: Effect)
    ensures CountOf(a + b, x) == CountOf(a, x) + CountOf(b, x)
  {
    if a == [] {
      assert a + b == b;
    } else {
      assert (a + b)[0] == a[0];
      assert (a + b)[1..] == a[1..] + b;
      CountOfAppend(a[1..], b, x);
    }
  }

  // ---------------------------------------------------------------------
  // One iteration of the engine loop
  // ---------------------------------------------------------------------

  /** Applying one received action (the `match result` of `run`). */
  function ApplyAction(e: Engine, a: Action): (r: (Engine, seq<Effect>))
    ensures r.0.position == e.position
    ensures r.0.volume == (if a.SetVolume? then a.volume else e.volume)
    ensures r.0.session != e.session ==> a.Play? || a.Stop?
    ensures r.0.isPlaying != e.isPlaying ==>
              a.Play? || a.Stop? || (e.session.Some? && (a.Pause? || a.Resume?))
    ensures a.Play? ==> r.0.session == Some(Session(a.path, false)) && r.0.isPlaying
    ensures a.Stop? ==> r.0.session.None? && !r.0.isPlaying
    ensures r.1 != [] <==> a.Seek? && e.session.Some?
    ensures r.1 != [] ==> r.1 == [Seeked(MsToTime(a.ms))]
    ensures Consistent(e) ==> Consistent(r.0)
  {
    match a
    case Play(path) => (e.(session := Some(Session(path, false)), isPlaying := true), [])
    case Pause => (if e.session.Some? then e.(isPlaying := false) else e, [])
    case Resume => (if e.session.Some? then e.(isPlaying := true) else e, [])
    case Stop => (e.(session := None, isPlaying := false), [])
    case Seek(ms) => (e, if e.session.Some? then [Seeked(MsToTime(ms))] else [])
    case SetVolume(v) => (e.(volume := v), [])
  }

  /** The decode half of an iteration: nothing unless a track is loaded and
      playing; otherwise read one packet and decode it. */
  function DecodeStep(e: Engine, packets: seq<PacketOutcome>): (r: StepResult)
    requires ValidPackets(packets)
    ensures r.engine.volume == e.volume
    ensures r.remaining != packets <==> e.session.Some? && e.isPlaying && packets != []
    ensures r.remaining != packets ==> r.remaining == packets[1..]
    ensures SongEnded in r.effects <==>
              e.session.Some? && e.isPlaying
              && (packets == [] || packets[0].ReadError? || packets[0].FatalDecodeError?)
    ensures SongEnded in r.effects ==>
              r.effects == [SongEnded] && r.engine.session.None? && !r.engine.isPlaying
              && r.engine.position == e.position
    ensures r.engine.session.Some? ==> e.session.Some? && r.engine.session.value.path == e.session.value.path
    ensures r.engine.session.Some? && e.session.value.outputOpen ==> r.engine.session.value.outputOpen
    ensures OutputOpened in r.effects ==>
              r.engine.session.Some? && r.engine.session.value.outputOpen && !e.session.value.outputOpen
    ensures Consistent(e) ==> Consistent(r.engine)
  {
    if e.session.None? || !e.isPlaying then
      StepResult(e, packets, [])
    else if packets == [] then
      StepResult(e.(session := None, isPlaying := false), [], [SongEnded])
    else
      match packets[0]
      case ReadError =>
        StepResult(e.(session := None, isPlaying := false), packets[1..], [SongEnded])
      case FatalDecodeError =>
        StepResult(e.(session := None, isPlaying := false), packets[1..], [SongEnded])
      case DecodeError =>
        StepResult(e, packets[1..], [])
      case Decoded(t) =>
        var s := e.session.value;
        var ms := TimeToMs(t);
        var opening := if s.outputOpen then [] else [OutputOpened];
        StepResult(e.(session := Some(s.(outputOpen := true)), position := ms),
                   packets[1..], opening + [PositionSet(ms), Written(t, e.volume)])
  }

  /** One iteration of `run`: apply the action received (if any), then take one
      decode step. `packets` is what the session's reader will deliver from
      this point on, after the action has been applied. */
  function Step(e: Engine, received: Option<Action>, packets: seq<PacketOutcome>): (r: StepResult)
    requires ValidPackets(packets)
    ensures r.remaining == packets || (packets != [] && r.remaining == packets[1..])
    ensures CountOf(r.effects, SongEnded) <= 1
    ensures SongEnded in r.effects ==> r.engine.session.None? && !r.engine.isPlaying
    ensures Consistent(e) ==> Consistent(r.engine)
  {
    var applied := if received.Some? then ApplyAction(e, received.value) else (e, []);
    var d := DecodeStep(applied.0, packets);
    assert CountOf(applied.1, SongEnded) == 0;
    assert CountOf(d.effects, SongEnded) <= 1 by {
      if SongEnded in d.effects {
        assert d.effects == [SongEnded];
      } else {
        CountOfAbsent(d.effects, SongEnded);
      }
    }
    CountOfAppend(applied.1, d.effects, SongEnded);
    StepResult(d.engine, d.remaining, applied.1 + d.effects)
  }

  lemma CountOfAbsent(effects: seq<Effect>, x: Effect)
    requires x !in effects
    ensures CountOf(effects, x) == 0
  {
    if effects != [] {
      CountOfAbsent(effects[1..], x);
    }
  }

  // ---------------------------------------------------------------------
  // Properties of one iteration
  // ---------------------------------------------------------------------

  /** Without a track, `Pause`, `Resume` and `Seek` change nothing, consume
      nothing and have no effect (nor does an iteration with no action). */
  lemma NoSessionNoOps(e: Engine, a: Option<Action>, packets: seq<PacketOutcome>)
    requires ValidPackets(packets) && Consistent(e) && e.session.None?
    requires a.None? || a.value.Pause? || a.value.Resume? || a.value.Seek?
    ensures Step(e, a, packets) == StepResult(e, packets, [])
  {
  }

  /** `Stop` always ends with no track and not playing; it consumes nothing
      and never signals the end of a song. */
  lemma StopNeverSignals(e: Engine, packets: seq<PacketOutcome>)
    requires ValidPackets(packets)
    ensures var r := Step(e, Some(Stop), packets);
            r.engine == e.(session := None, isPlaying := false)
            && r.remaining == packets && r.effects == []
  {
  }

  /** `Pause` with a track loaded only clears the playing flag. */
  lemma PauseOnlyClearsPlaying(e: Engine, packets: seq<PacketOutcome>)
    requires ValidPackets(packets) && e.session.Some?
    ensures Step(e, Some(Pause), packets) == StepResult(e.(isPlaying := false), packets, [])
  {
  }

  /** `Resume` with a track loaded behaves as an iteration without action from
      the same state with the playing flag set. */
  lemma ResumeOnlySetsPlaying(e: Engine, packets: seq<PacketOutcome>)
    requires ValidPackets(packets) && e.session.Some?
    ensures Step(e, Some(Resume), packets) == Step(e.(isPlaying := true), None, packets)
  {
  }

  /** `SetVolume` changes only the volume, with or without a track: the
      iteration is the one without action from the state with the new volume. */
  lemma SetVolumeOnlyChangesVolume(e: Engine, v: real, packets: seq<PacketOutcome>)
    requires ValidPackets(packets)
    ensures Step(e, Some(SetVolume(v)), packets) == Step(e.(volume := v), None, packets)
  {
  }

  /** `Seek` with a track loaded asks the reader for the target time and keeps
      the playing flag, the volume and the track. */
  lemma SeekKeepsPlayingAndVolume(e: Engine, ms: nat, packets: seq<PacketOutcome>)
    requires ValidPackets(packets) && e.session.Some?
    ensures var r := Step(e, Some(Seek(ms)), packets);
            && r.effects[0] == Seeked(MsToTime(ms))
            && r == (var d := Step(e, None, packets); d.(effects := [Seeked(MsToTime(ms))] + d.effects))
  {
  }

  /** `Play` replaces whatever was loaded by a fresh track with its output
      unopened, and playing; the same iteration already reads its first packet,
      and opens the output exactly when that packet decodes. */
  lemma PlayStartsFreshSession(e: Engine, path: string, packets: seq<PacketOutcome>)
    requires ValidPackets(packets)
    ensures var r := Step(e, Some(Play(path)), packets);
            && r == DecodeStep(e.(session := Some(Session(path, false)), isPlaying := true), packets)
            && (r.engine.session.Some? ==> r.engine.session.value.path == path)
            && (OutputOpened in r.effects <==> packets != [] && packets[0].Decoded?)
  {
    var r := Step(e, Some(Play(path)), packets);
    if packets != [] && packets[0].Decoded? {
      assert r.effects[0] == OutputOpened;
    }
  }

  /** A read error (end of stream included) or a fatal decode error while
      playing tears the track down and signals exactly once; a corrupt frame is
      skipped and keeps the track. */
  lemma ErrorsTearDownOrSkip(e: Engine, packets: seq<PacketOutcome>)
    requires ValidPackets(packets) && e.session.Some? && e.isPlaying
    ensures var r := Step(e, None, packets);
            && (packets == [] || packets[0].ReadError? || packets[0].FatalDecodeError? ==>
                  r.engine == e.(session := None, isPlaying := false) && r.effects == [SongEnded])
            && (packets != [] && packets[0].DecodeError? ==>
                  r.engine == e && r.effects == [] && r.remaining == packets[1..])
  {
  }

  /** A packet that decodes sets the position to its timestamp in milliseconds
      and then writes with the current volume; the output is opened first if,
      and only if, it was not open yet. */
  lemma DecodeSetsPositionThenWrites(e: Engine, packets: seq<PacketOutcome>)
    requires ValidPackets(packets) && e.session.Some? && e.isPlaying
    requires packets != [] && packets[0].Decoded?
    ensures var r := Step(e, None, packets);
            var t := packets[0].timestamp;
            var tail := [PositionSet(TimeToMs(t)), Written(t, e.volume)];
            && r.engine.position == TimeToMs(t)
            && r.engine.session == Some(e.session.value.(outputOpen := true))
            && r.effects == (if e.session.value.outputOpen then tail else [OutputOpened] + tail)
  {
  }

  // ---------------------------------------------------------------------
  // Runs of iterations
  // ---------------------------------------------------------------------

  /** One iteration's input: the action received, if any, and the reader's
      upcoming packets at that point. */
  datatype Tick = Tick(received: Option<Action>, packets: seq<PacketOutcome>)

  predicate ValidTicks(ticks: seq<Tick>) {
    forall i :: 0 <= i < |ticks| ==> ValidPackets(ticks[i].packets)
  }

  /** The engine state and the effects after running the given iterations. */
  function Run(e: Engine, ticks: seq<Tick>): (r: (Engine, seq<Effect>))
    requires ValidTicks(ticks)
    decreases |ticks|
  {
    if ticks == [] then (e, [])
    else
      var s := Step(e, ticks[0].received, ticks[0].packets);
      var rest := Run(s.engine, ticks[1..]);
      (rest.0, s.effects + rest.1)
  }

  predicate IsPlay(t: Tick) {
    t.received.Some? && t.received.value.Play?
  }

  function CountPlays(ticks: seq<Tick>): nat {
    if ticks == [] then 0 else (if IsPlay(ticks[0]) then 1 else 0) + CountPlays(ticks[1..])
  }

  function Loaded(e: Engine): nat {
    if e.session.Some? then 1 else 0
  }

  /** A one-step bound: the signals of one iteration plus the track left
      loaded never exceed the tracks loaded before it plus a `Play`. */
  lemma StepSignalBound(e: Engine, t: Tick)
    requires ValidPackets(t.packets)
    ensures var r := Step(e, t.received, t.packets);
            CountOf(r.effects, SongEnded) + Loaded(r.engine) <= Loaded(e) + (if IsPlay(t) then 1 else 0)
  {
    var r := Step(e, t.received, t.packets);
    if SongEnded !in r.effects {
      CountOfAbsent(r.effects, SongEnded);
    }
  }

  /** Every song-ended signal is owed to a distinct loaded track: over any run,
      the signals plus the track still loaded at the end never exceed the
      `Play` actions plus the track loaded at the start. In particular `Stop`
      and the other actions never cause a signal of their own. */
  lemma {:induction false} SignalsBoundedByPlays(e: Engine, ticks: seq<Tick>)
    requires ValidTicks(ticks)
    ensures var r := Run(e, ticks);
            CountOf(r.1, SongEnded) + Loaded(r.0) <= CountPlays(ticks) + Loaded(e)
    decreases |ticks|
  {
    if ticks != [] {
      var s := Step(e, ticks[0].received, ticks[0].packets);
      StepSignalBound(e, ticks[0]);
      SignalsBoundedByPlays(s.engine, ticks[1..]);
      CountOfAppend(s.effects, Run(s.engine, ticks[1..]).1, SongEnded);
    }
  }

  /** How many more times the output may still be opened: one for a loaded
      track whose output is not open yet. */
  function OpenBudget(e: Engine): nat {
    if e.session.Some? && !e.session.value.outputOpen then 1 else 0
  }

  lemma DecodeOpenBound(e: Engine, packets: seq<PacketOutcome>)
    requires ValidPackets(packets)
    ensures var d := DecodeStep(e, packets);
            CountOf(d.effects, OutputOpened) + OpenBudget(d.engine) <= OpenBudget(e)
  {
    var d := DecodeStep(e, packets);
    if e.session.Some? && e.isPlaying && packets != [] && packets[0].Decoded? {
      var t := packets[0].timestamp;
      var tail := [PositionSet(TimeToMs(t)), Written(t, e.volume)];
      CountOfAbsent(tail, OutputOpened);
      if e.session.value.outputOpen {
        assert d.effects == tail;
      } else {
        assert d.effects == [OutputOpened] + tail;
        CountOfAppend([OutputOpened], tail, OutputOpened);
      }
    } else {
      assert OutputOpened !in d.effects;
      CountOfAbsent(d.effects, OutputOpened);
    }
  }

  lemma StepOpenBound(e: Engine, t: Tick)
    requires ValidPackets(t.packets) && !IsPlay(t)
    ensures var r := Step(e, t.received, t.packets);
            CountOf(r.effects, OutputOpened) + OpenBudget(r.engine) <= OpenBudget(e)
  {
    var applied := if t.received.Some? then ApplyAction(e, t.received.value) else (e, []);
    var d := DecodeStep(applied.0, t.packets);
    assert CountOf(applied.1, OutputOpened) == 0;
    assert OpenBudget(applied.0) <= OpenBudget(e);
    DecodeOpenBound(applied.0, t.packets);
    CountOfAppend(applied.1, d.effects, OutputOpened);
  }

  /** Without a `Play`, the audio output is opened at most once: at most the
      one time the loaded track still owes. */
  lemma {:induction false} OutputOpenedAtMostOnce(e: Engine, ticks: seq<Tick>)
    requires ValidTicks(ticks)
    requires forall i :: 0 <= i < |ticks| ==> !IsPlay(ticks[i])
    ensures CountOf(Run(e, ticks).1, OutputOpened) <= OpenBudget(e) <= 1
    decreases |ticks|
  {
    if ticks != [] {
      var s := Step(e, ticks[0].received, ticks[0].packets);
      StepOpenBound(e, ticks[0]);
      OutputOpenedAtMostOnce(s.engine, ticks[1..]);
      CountOfAppend(s.effects, Run(s.engine, ticks[1..]).1, OutputOpened);
    }
  }

  /** Actions other than `Play` sent while idle leave the engine idle, the
      position where it was, and have no effect at all. */
  lemma {:induction false} IdleStaysIdle(e: Engine, ticks: seq<Tick>)
    requires ValidTicks(ticks) && Consistent(e) && e.session.None?
    requires forall i :: 0 <= i < |ticks| ==> !IsPlay(ticks[i])
    ensures var r := Run(e, ticks);
            r.0.session.None? && !r.0.isPlaying && r.0.position == e.position && r.1 == []
    decreases |ticks|
  {
    if ticks != [] {
      assert !IsPlay(ticks[0]);
      var s := Step(e, ticks[0].received, ticks[0].packets);
      assert s.engine.session.None? && !s.engine.isPlaying && s.effects == [];
      assert s.engine.position == e.position;
      IdleStaysIdle(s.engine, ticks[1..]);
    }
  }

  // ---------------------------------------------------------------------
  // Receiving actions
  // ---------------------------------------------------------------------

  /** The outcome of the receive at the top of the loop. */
  datatype Intake =
    | Take(received: Option<Action>, rest: seq<Action>)
    | Block
    | Exit

  /** While playing, `try_recv` polls for at most one action and never waits;
      otherwise `recv` waits for the next action, and a closed channel ends the
      engine. `queue` holds the actions sent and not yet received;
      `connected` says whether any sender is still alive. */
  function Receive(isPlaying: bool, queue: seq<Action>, connected: bool): (r: Intake)
    ensures r.Take? && r.received.Some? ==> queue != [] && r.received.value == queue[0] && r.rest == queue[1..]
    ensures r.Take? && r.received.None? ==> isPlaying && queue == [] && r.rest == []
    ensures queue != [] ==> r.Take? && r.received.Some?
    ensures r.Block? <==> !isPlaying && queue == [] && connected
    ensures r.Exit? <==> !isPlaying && queue == [] && !connected
  {
    if queue != [] then Take(Some(queue[0]), queue[1..])
    else if isPlaying then Take(None, [])
    else if connected then Block
    else Exit
  }
}
