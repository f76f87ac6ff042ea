/**
 * The command memory of the message processor against the log of everything that happens to it: the replay
 * behaviour of toolbox/message_processor.go over whole runs.
 */
module CommandMemory {
  import opened Text
  import opened StoreAndForward

  /** What is known of a host: its latest report, and the execution that is remembered for it. */
  datatype Known = Known(latest: Option<StoredReport>, run: Option<Execution>)

  const NOTHING := Known(None, None)

  function KnownStep(m: Known, e: Effect, h: string): Known {
    match e
    case Reported(g, report) => if g == h then m.(latest := Some(report)) else m
    case Expired(lapses) => if h in lapses then NOTHING else m
    case Executed(g, run) => if g == h then m.(run := Some(run)) else m
    case Replayed(_, _, _) => m
    case Erased(g, _, _) => if g == h then m.(run := None) else m
  }

  /** What the effects tell of a host. */
  function Memory(log: seq<Effect>, h: string): Known {
    if log == [] then NOTHING else KnownStep(Memory(log[..|log| - 1], h), log[|log| - 1], h)
  }

  /** What the state holds of a host. */
  function KnownOf(s: State, h: string): Known {
    var list := Listed(s, h);
    Known(if list == [] then None else Some(list[|list| - 1]), Incoming(s, h))
  }

  lemma {:induction false} MemoryAppend(log: seq<Effect>, e: Effect, h: string)
    ensures Memory(log + [e], h) == KnownStep(Memory(log, h), e, h)
  {
    assert (log + [e])[..|log|] == log;
  }

  /** The retention time of the run has passed at the reading. */
  predicate PastRetention(run: Execution, reading: int) { reading - run.receivedAt > RETENTION }

  /** Nothing has been heard of the host for the expiry time. */
  predicate PastExpiry(l: Lapse) { l.reading - l.latest.serverTime > EXPIRY }

  /**
   * An expiry drops hosts whose latest report is past the expiry time, an erasure a run that is past the
   * retention time; a command runs only if the memory holds no run of it; a replay answers from the memory.
   */
  ghost predicate Justified(before: seq<Effect>, e: Effect) {
    match e
    case Reported(_, _) => true
    case Expired(lapses) =>
      forall h :: h in lapses ==> Memory(before, h).latest == Some(lapses[h].latest) && PastExpiry(lapses[h])
    case Erased(h, run, reading) => Memory(before, h).run == Some(run) && PastRetention(run, reading)
    case Executed(h, run) =>
      run.command != "" && (Memory(before, h).run.Some? ==> Memory(before, h).run.value.command != run.command)
    case Replayed(h, asked, response) =>
      && Memory(before, h).run.Some? && response == AsResponse(Memory(before, h).run.value)
      && (asked == "" || asked == response.command)
  }

  ghost predicate AllJustified(log: seq<Effect>) {
    forall j :: 0 <= j < |log| ==> Justified(log[..j], log[j])
  }

  lemma {:induction false} JustifiedAppend(log: seq<Effect>, e: Effect)
    requires AllJustified(log) && Justified(log, e)
    ensures AllJustified(log + [e])
  {
    forall j | 0 <= j < |log + [e]| ensures Justified((log + [e])[..j], (log + [e])[j]) {
      assert (log + [e])[..j] == if j == |log| then log else log[..j];
    }
  }

  /** The log is justified, and tells of every host what the state holds. */
  ghost predicate Tells(log: seq<Effect>, s: State) {
    AllJustified(log) && forall h :: Memory(log, h) == KnownOf(s, h)
  }

  // One report

  lemma {:induction false} PushedLast(s: State, c: Call)
    ensures var list := Listed(Remember(s, c), Host(c)); list != [] && list[|list| - 1] == Stored(c)
  {
  }

  lemma {:induction false} ReportedKnown(s: State, c: Call, h: string)
    ensures KnownOf(Remember(s, c), h) == KnownStep(KnownOf(s, h), Reported(Host(c), Stored(c)), h)
  {
    if h == Host(c) {
      PushedLast(s, c);
    }
  }

  lemma {:induction false} ReportedTells(log: seq<Effect>, s: State, c: Call)
    requires Tells(log, s)
    ensures Tells(log + [Reported(Host(c), Stored(c))], Remember(s, c))
  {
    var e := Reported(Host(c), Stored(c));
    JustifiedAppend(log, e);
    forall h ensures Memory(log + [e], h) == KnownOf(Remember(s, c), h) {
      MemoryAppend(log, e, h);
      ReportedKnown(s, c, h);
    }
  }

  lemma {:induction false} LapsesJustified(log: seq<Effect>, t: State, c: Call)
    requires t.max >= 1 && Tells(log, t)
    ensures Justified(log, Expired(Lapses(t, c)))
  {
    var lapses := Lapses(t, c);
    forall h | h in lapses
      ensures Memory(log, h).latest == Some(lapses[h].latest) && PastExpiry(lapses[h])
    {
      assert Memory(log, h) == KnownOf(t, h);
    }
  }

  lemma {:induction false} ScannedTells(log: seq<Effect>, t: State, c: Call)
    requires t.max >= 1 && Tells(log, t)
    ensures Tells(log + [Expired(Lapses(t, c))], Forget(t, Scanned(t, c)))
  {
    var e := Expired(Lapses(t, c));
    LapsesJustified(log, t, c);
    JustifiedAppend(log, e);
    forall h ensures Memory(log + [e], h) == KnownOf(Forget(t, Scanned(t, c)), h) {
      MemoryAppend(log, e, h);
    }
  }

  /** The effects of a processed command, as many as two, in their order. */
  lemma {:induction false} ProcessShape(s: State, c: Call, log: seq<Effect>)
    requires Memory(log, Host(c)) == KnownOf(s, Host(c))
    ensures var effects := Process(s, c).2;
      && |effects| <= 2
      && (effects != [] ==> Justified(log, effects[0]))
      && (|effects| == 2 ==>
            effects[0].Replayed? && effects[1].Erased? && effects[1].host == Host(c)
            && Memory(log, Host(c)).run == Some(effects[1].run) && PastRetention(effects[1].run, effects[1].reading))
  {
  }

  lemma {:induction false} ProcessKnown(s: State, c: Call, h: string)
    ensures var r := Process(s, c);
      KnownOf(r.0, h) ==
        if r.2 == [] then KnownOf(s, h)
        else if |r.2| == 1 then KnownStep(KnownOf(s, h), r.2[0], h)
        else KnownStep(KnownStep(KnownOf(s, h), r.2[0], h), r.2[1], h)
  {
  }

  lemma {:induction false} ProcessTells(log: seq<Effect>, s: State, c: Call)
    requires Tells(log, s)
    ensures Tells(log + Process(s, c).2, Process(s, c).0)
  {
    var effects, t := Process(s, c).2, Process(s, c).0;
    ProcessShape(s, c, log);
    forall h ensures Memory(log + effects, h) == KnownOf(t, h) {
      ProcessKnown(s, c, h);
      MemoryAppendShort(log, effects, h);
    }
    EffectsJustified(log, effects, Host(c));
  }

  lemma {:induction false} MemoryAppendShort(log: seq<Effect>, effects: seq<Effect>, h: string)
    requires |effects| <= 2
    ensures Memory(log + effects, h) ==
      if effects == [] then Memory(log, h)
      else if |effects| == 1 then KnownStep(Memory(log, h), effects[0], h)
      else KnownStep(KnownStep(Memory(log, h), effects[0], h), effects[1], h)
  {
    if effects == [] {
      assert log + effects == log;
    } else {
      MemoryAppend(log, effects[0], h);
      if |effects| == 1 {
        assert effects == [effects[0]];
      } else {
        MemoryAppend(log + [effects[0]], effects[1], h);
        assert effects == [effects[0]] + [effects[1]];
        Assoc(log, [effects[0]], [effects[1]]);
      }
    }
  }

  lemma {:induction false} EffectsJustified(log: seq<Effect>, effects: seq<Effect>, h: string)
    requires AllJustified(log) && |effects| <= 2 && (effects != [] ==> Justified(log, effects[0]))
    requires |effects| == 2 ==>
      effects[0].Replayed? && effects[1].Erased? && effects[1].host == h
      && Memory(log, h).run == Some(effects[1].run) && PastRetention(effects[1].run, effects[1].reading)
    ensures AllJustified(log + effects)
  {
    if effects == [] {
      assert log + effects == log;
    } else {
      var first := log + [effects[0]];
      JustifiedAppend(log, effects[0]);
      if |effects| == 1 {
        assert effects == [effects[0]];
      } else {
        MemoryAppend(log, effects[0], h);
        assert Justified(first, effects[1]);
        JustifiedAppend(first, effects[1]);
        assert effects == [effects[0]] + [effects[1]];
        Assoc(log, [effects[0]], [effects[1]]);
      }
    }
  }

  // Whole runs

  lemma {:induction false} ReportTells(log: seq<Effect>, s: State, c: Call)
    requires s.max >= 1 && Tells(log, s) && Host(c) != ""
    ensures Tells(log + Effects(s, Report(c)), Step(s, Report(c)))
  {
    var reported, expired := [Reported(Host(c), Stored(c))], [Expired(Lapses(Remember(s, c), c))];
    ReportedTells(log, s, c);
    ScannedTells(log + reported, Remember(s, c), c);
    ProcessTells(log + reported + expired, Keep(s, c), c);
    var effects := Process(Keep(s, c), c).2;
    assert log + Effects(s, Report(c)) == log + reported + expired + effects;
  }

  lemma {:induction false} QuietTells(log: seq<Effect>, s: State, e: Event)
    requires s.max >= 1 && Tells(log, s) && !IsReport(e)
    ensures Tells(log + Effects(s, e), Step(s, e))
  {
    assert log + Effects(s, e) == log;
    forall h ensures Memory(log, h) == KnownOf(Step(s, e), h) {
      assert KnownOf(Step(s, e), h) == KnownOf(s, h);
    }
  }

  /** In every run the state is what the log says, and every effect is justified by the log before it. */
  lemma {:induction false} LogJustified(max: int, canRun: bool, es: seq<Event>)
    requires max >= 1
    ensures Tells(Log(max, canRun, es), After(max, canRun, es))
  {
    if es == [] {
    } else {
      var front, e := es[..|es| - 1], es[|es| - 1];
      var log, s := Log(max, canRun, front), After(max, canRun, front);
      LogJustified(max, canRun, front);
      if IsReport(e) {
        ReportTells(log, s, e.call);
      } else {
        QuietTells(log, s, e);
      }
    }
  }

  /** The effect makes the host forget the run, for one of the three reasons there are. */
  predicate Forgets(e: Effect, h: string, run: Execution) {
    match e
    case Reported(_, _) => false
    case Expired(lapses) => h in lapses && PastExpiry(lapses[h])
    case Erased(g, erased, reading) => g == h && erased == run && PastRetention(run, reading)
    case Executed(g, next) => g == h && next.command != run.command
    case Replayed(_, _, _) => false
  }

  lemma {:induction false} MemoryPersists(log: seq<Effect>, i: nat, j: nat, h: string)
    requires AllJustified(log) && i < j <= |log| && log[i].Executed? && log[i].host == h
    requires forall k :: i < k < j ==> !Forgets(log[k], h, log[i].run)
    ensures Memory(log[..j], h).run == Some(log[i].run)
    decreases j
  {
    assert log[..j][..j - 1] == log[..j - 1];
    if j == i + 1 {
    } else {
      MemoryPersists(log, i, j - 1, h);
      assert Justified(log[..j - 1], log[j - 1]);
    }
  }

  /**
   * Between two executions of the same command for a host, the host forgot the first: another command ran,
   * it was erased past its retention time, or the host expired past the expiry time.
   */
  lemma {:induction false} RerunNeedsForgetting(max: int, canRun: bool, es: seq<Event>, i: nat, j: nat) returns (k: nat)
    requires max >= 1
    requires i < j < |Log(max, canRun, es)|
    requires Log(max, canRun, es)[i].Executed? && Log(max, canRun, es)[j].Executed?
    requires Log(max, canRun, es)[i].host == Log(max, canRun, es)[j].host
    requires Log(max, canRun, es)[i].run.command == Log(max, canRun, es)[j].run.command
    ensures i < k < j
    ensures Forgets(Log(max, canRun, es)[k], Log(max, canRun, es)[i].host, Log(max, canRun, es)[i].run)
  {
    var log := Log(max, canRun, es);
    LogJustified(max, canRun, es);
    assert Justified(log[..j], log[j]);
    if forall k :: i < k < j ==> !Forgets(log[k], log[i].host, log[i].run) {
      MemoryPersists(log, i, j, log[i].host);
      assert false;
    }
    k :| i < k < j && Forgets(log[k], log[i].host, log[i].run);
  }

  lemma {:induction false} EraseReads(s: State, e: Event, k: nat)
    requires s.max >= 1 && k < |Effects(s, e)| && Effects(s, e)[k].Erased?
    ensures e.Report? && Effects(s, e)[k].host == Host(e.call) && Effects(s, e)[k].reading == e.call.replayTime
  {
  }

  /** Every erasure happens at a reading of the clock in a call of its host. */
  lemma {:induction false} ErasedAtReading(max: int, canRun: bool, es: seq<Event>, k: nat) returns (n: nat)
    requires max >= 1 && k < |Log(max, canRun, es)| && Log(max, canRun, es)[k].Erased?
    ensures n < |es| && es[n].Report? && Host(es[n].call) == Log(max, canRun, es)[k].host
    ensures es[n].call.replayTime == Log(max, canRun, es)[k].reading
  {
    var front := es[..|es| - 1];
    var before := Log(max, canRun, front);
    if k < |before| {
      n := ErasedAtReading(max, canRun, front, k);
      assert es[n] == front[n];
    } else {
      n := |es| - 1;
      EraseReads(After(max, canRun, front), es[n], k - |before|);
    }
  }

  /** No call of the host reads a time past the retention of the run. */
  ghost predicate WithinRetention(es: seq<Event>, h: string, run: Execution) {
    forall n :: 0 <= n < |es| && es[n].Report? && Host(es[n].call) == h ==> !PastRetention(run, es[n].call.replayTime)
  }

  lemma {:induction false} ReplaysRemembered(s: State, c: Call, run: Execution)
    requires s.canRun && Incoming(s, Host(c)) == Some(run) && run.command == c.request.command
    ensures var (_, response, effects) := Process(s, c);
      && response == AsResponse(run)
      && effects != [] && effects[0] == Replayed(Host(c), c.request.command, response)
      && forall k :: 0 <= k < |effects| ==> !effects[k].Executed?
  {
  }

  /**
   * A command repeated within the retention time, with no other command and no expiry of the host in between,
   * is answered with the result of its first execution and not executed again.
   */
  lemma {:induction false} RepeatIsReplayed(max: int, es: seq<Event>, i: nat, c: Call)
    requires max >= 1 && i < |Log(max, true, es)| && Log(max, true, es)[i].Executed?
    requires Log(max, true, es)[i].host == Host(c) && Log(max, true, es)[i].run.command == c.request.command
    requires forall k :: i < k < |Log(max, true, es)| ==>
      !OtherCommand(Log(max, true, es)[k], Host(c), c.request.command) && !Expires(Log(max, true, es)[k], Host(c))
    requires WithinRetention(es, Host(c), Log(max, true, es)[i].run)
    requires Host(c) !in Scanned(Remember(After(max, true, es), c), c)
    ensures var (_, response, effects) := Process(Keep(After(max, true, es), c), c);
      && response == AsResponse(Log(max, true, es)[i].run)
      && effects != [] && effects[0] == Replayed(Host(c), c.request.command, response)
      && forall k :: 0 <= k < |effects| ==> !effects[k].Executed?
  {
    var log, s, h := Log(max, true, es), After(max, true, es), Host(c);
    forall k | i < k < |log| ensures !Forgets(log[k], h, log[i].run) {
      NotForgotten(max, es, k, h, log[i].run);
    }
    LogJustified(max, true, es);
    MemoryPersists(log, i, |log|, h);
    assert log[..|log|] == log;
    assert Incoming(s, h) == KnownOf(s, h).run;
    assert Incoming(Keep(s, c), h) == Incoming(s, h);
    ReplaysRemembered(Keep(s, c), c, log[i].run);
  }

  predicate OtherCommand(e: Effect, h: string, cmd: string) { e.Executed? && e.host == h && e.run.command != cmd }

  predicate Expires(e: Effect, h: string) { e.Expired? && h in e.lapses }

  lemma {:induction false} NotForgotten(max: int, es: seq<Event>, k: nat, h: string, run: Execution)
    requires max >= 1 && k < |Log(max, true, es)| && WithinRetention(es, h, run)
    requires !OtherCommand(Log(max, true, es)[k], h, run.command) && !Expires(Log(max, true, es)[k], h)
    ensures !Forgets(Log(max, true, es)[k], h, run)
  {
    if Log(max, true, es)[k].Erased? {
      var n := ErasedAtReading(max, true, es, k);
    }
  }

  predicate Touches(e: Effect, h: string) {
    match e
    case Reported(_, _) => false
    case Expired(lapses) => h in lapses
    case Erased(g, _, _) => g == h
    case Executed(g, _) => g == h
    case Replayed(_, _, _) => false
  }

  lemma {:induction false} MemoryOrigin(log: seq<Effect>, j: nat, h: string) returns (i: nat)
    requires j <= |log| && Memory(log[..j], h).run.Some?
    ensures i < j && log[i] == Executed(h, Memory(log[..j], h).run.value)
    ensures forall k :: i < k < j ==> !Touches(log[k], h)
    decreases j
  {
    assert j > 0 && log[..j][..j - 1] == log[..j - 1];
    if Touches(log[j - 1], h) {
      i := j - 1;
    } else {
      i := MemoryOrigin(log, j - 1, h);
    }
  }

  /** Every replay carries the outcome of the host's latest execution, and answers the command that was asked for. */
  lemma {:induction false} ReplayIsLatestRun(max: int, canRun: bool, es: seq<Event>, j: nat) returns (i: nat)
    requires max >= 1
    requires j < |Log(max, canRun, es)| && Log(max, canRun, es)[j].Replayed?
    ensures var log := Log(max, canRun, es);
      && i < j && log[i].Executed? && log[i].host == log[j].host
      && log[j].response == AsResponse(log[i].run)
      && (log[j].asked == "" || log[j].asked == log[i].run.command)
      && forall k :: i < k < j ==> !Touches(log[k], log[j].host)
  {
    var log := Log(max, canRun, es);
    LogJustified(max, canRun, es);
    assert Justified(log[..j], log[j]);
    i := MemoryOrigin(log, j, log[j].host);
  }

  /** A replay past the retention time is the last one: the run is erased, and the same command would run again. */
  lemma {:induction false} OverdueErased(s: State, c: Call, run: Execution)
    requires s.canRun && Incoming(s, Host(c)) == Some(run) && (c.request.command == "" || c.request.command == run.command)
    ensures Process(s, c).1 == AsResponse(run)
    ensures Incoming(Process(s, c).0, Host(c)) == if PastRetention(run, c.replayTime) then None else Some(run)
  {
  }
}
