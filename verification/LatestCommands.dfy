/**
 * The result cache of the DNS daemon, daemon/dnsd/latest_cmd.go, as interleaved steps of any number of
 * callers of Execute. Every step is one access to the shared fields or one run of the command processor.
 */
module LatestCommands {
  import opened Text

  const TTL := 30

  /** Where a caller of Execute stands. */
  datatype Phase =
    | Idle
    | Arriving(cmd: string)
    | Stamping(cmd: string)
    | Resetting(cmd: string)
    | Looking(cmd: string)
    | Waiting(cmd: string)
    | Marking(cmd: string)
    | Executing(cmd: string)
    | Storing(cmd: string, result: string)
    | Returned(cmd: string, result: string)

  /**
   * latestResult (None for the nil of an execution in progress) and lastPurge, the callers, and two
   * histories: all executions with their results, and the commands executed since the last purge.
   */
  datatype State = State(
    latestResult: map<string, Option<string>>,
    lastPurge: int,
    callers: map<nat, Phase>,
    executed: seq<(string, string)>,
    sincePurge: seq<string>)
  {
    function At(id: nat): Phase { if id in callers then callers[id] else Idle }

    function Go(id: nat, p: Phase): State { this.(callers := callers[id := p]) }
  }

  const INITIAL := State(map[], 0, map[], [], [])

  datatype Event =
    | Begin(id: nat, cmd: string)      // Execute is called
    | Check(id: nat, now: int)         // purgeAfterTTL compares the clock with lastPurge
    | Stamp(id: nat, now: int)         // purgeAfterTTL sets lastPurge
    | Reset(id: nat)                   // purgeAfterTTL replaces the map
    | Look(id: nat)                    // the first get
    | Poll(id: nat)                    // a get in the waiting loop
    | Mark(id: nat)                    // nil is stored
    | Process(id: nat, result: string) // the command processor runs the command
    | Store(id: nat)                   // the result is stored
    | Leave(id: nat)                   // the caller goes on with the result

  predicate Enabled(s: State, e: Event) {
    var p := s.At(e.id);
    match e
    case Begin(_, _) => p.Idle?
    case Check(_, _) => p.Arriving?
    case Stamp(_, _) => p.Stamping?
    case Reset(_) => p.Resetting?
    case Look(_) => p.Looking?
    case Poll(_) => p.Waiting?
    case Mark(_) => p.Marking?
    case Process(_, _) => p.Executing?
    case Store(_) => p.Storing?
    case Leave(_) => p.Returned?
  }

  /** Where get sends a caller; a nil result means to wait. */
  function AfterGet(s: State, cmd: string): Phase {
    if cmd !in s.latestResult then Marking(cmd)
    else match s.latestResult[cmd]
      case None => Waiting(cmd)
      case Some(r) => Returned(cmd, r)
  }

  function Step(s: State, e: Event): State
    requires Enabled(s, e)
  {
    var p := s.At(e.id);
    match e
    case Begin(id, cmd) => s.Go(id, Arriving(cmd))
    case Check(id, now) => s.Go(id, if now - s.lastPurge > TTL then Stamping(p.cmd) else Looking(p.cmd))
    case Stamp(id, now) => s.(lastPurge := now).Go(id, Resetting(p.cmd))
    case Reset(id) => s.(latestResult := map[], sincePurge := []).Go(id, Looking(p.cmd))
    case Look(id) => s.Go(id, AfterGet(s, p.cmd))
    case Poll(id) => s.Go(id, AfterGet(s, p.cmd))
    case Mark(id) => s.(latestResult := s.latestResult[p.cmd := None]).Go(id, Executing(p.cmd))
    case Process(id, result) =>
      s.(executed := s.executed + [(p.cmd, result)], sincePurge := s.sincePurge + [p.cmd])
       .Go(id, Storing(p.cmd, result))
    case Store(id) =>
      s.(latestResult := s.latestResult[p.cmd := Some(p.result)]).Go(id, Returned(p.cmd, p.result))
    case Leave(id) => s.Go(id, Idle)
  }

  /** Every event of the run is enabled when it happens. */
  predicate IsRun(s: State, es: seq<Event>)
    decreases |es|
  {
    es == [] || (Enabled(s, es[0]) && IsRun(Step(s, es[0]), es[1..]))
  }

  function After(s: State, es: seq<Event>): State
    requires IsRun(s, es)
    decreases |es|
  {
    if es == [] then s else After(Step(s, es[0]), es[1..])
  }

  // Markers and results

  predicate Runs(p: Phase, cmd: string) { (p.Executing? || p.Storing?) && p.cmd == cmd }

  ghost predicate SomeoneRuns(s: State, cmd: string) { exists id :: id in s.callers && Runs(s.callers[id], cmd) }

  /** A marker without a result has a caller who is running the command. */
  ghost predicate MarkersLive(s: State) {
    forall cmd :: cmd in s.latestResult && s.latestResult[cmd] == None ==> SomeoneRuns(s, cmd)
  }

  ghost predicate CacheGenuine(s: State) {
    forall cmd :: cmd in s.latestResult && s.latestResult[cmd].Some? ==>
      (cmd, s.latestResult[cmd].value) in s.executed
  }

  ghost predicate CallersGenuine(s: State) {
    forall id :: id in s.callers && (s.callers[id].Storing? || s.callers[id].Returned?) ==>
      (s.callers[id].cmd, s.callers[id].result) in s.executed
  }

  lemma {:induction false} StepKeepsRunner(s: State, e: Event, cmd: string)
    requires Enabled(s, e) && SomeoneRuns(s, cmd) && !(e.Store? && s.At(e.id).cmd == cmd)
    ensures SomeoneRuns(Step(s, e), cmd)
  {
    var id :| id in s.callers && Runs(s.callers[id], cmd);
    var t := Step(s, e);
    assert id in t.callers && Runs(t.callers[id], cmd);
  }

  lemma {:induction false} StepKeepsMarkers(s: State, e: Event)
    requires Enabled(s, e) && MarkersLive(s)
    ensures MarkersLive(Step(s, e))
  {
    var t := Step(s, e);
    forall cmd | cmd in t.latestResult && t.latestResult[cmd] == None ensures SomeoneRuns(t, cmd) {
      if e.Mark? && s.At(e.id).cmd == cmd {
        assert Runs(t.callers[e.id], cmd);
      } else {
        StepKeepsRunner(s, e, cmd);
      }
    }
  }

  lemma {:induction false} StepKeepsGenuine(s: State, e: Event)
    requires Enabled(s, e) && CacheGenuine(s) && CallersGenuine(s)
    ensures CacheGenuine(Step(s, e)) && CallersGenuine(Step(s, e))
  {
    var t := Step(s, e);
    assert forall x :: x in s.executed ==> x in t.executed;
    if e.Process? {
      assert t.executed[|s.executed|] == (s.At(e.id).cmd, e.result);
    }
  }

  lemma {:induction false} RunKeepsInvariants(s: State, es: seq<Event>)
    requires MarkersLive(s) && CacheGenuine(s) && CallersGenuine(s) && IsRun(s, es)
    ensures var t := After(s, es); MarkersLive(t) && CacheGenuine(t) && CallersGenuine(t)
    decreases |es|
  {
    if es == [] {
    } else {
      StepKeepsMarkers(s, es[0]);
      StepKeepsGenuine(s, es[0]);
      RunKeepsInvariants(Step(s, es[0]), es[1..]);
    }
  }

  /** In every reachable state each marker is live, and every result, cached or returned, comes from its command. */
  lemma {:induction false} ReachableStates(es: seq<Event>)
    requires IsRun(INITIAL, es)
    ensures var s := After(INITIAL, es); MarkersLive(s) && CacheGenuine(s) && CallersGenuine(s)
  {
    RunKeepsInvariants(INITIAL, es);
  }

  predicate Filled(s: State, id: nat, cmd: string) {
    cmd in s.latestResult && s.latestResult[cmd].Some? && s.At(id).Returned?
  }

  function StepsOf(es: seq<Event>, id: nat): nat {
    if es == [] then 0 else (if es[0].id == id then 1 else 0) + StepsOf(es[1..], id)
  }

  /** How many steps a caller who runs the command has before it. */
  function StepsLeft(p: Phase): nat { if p.Executing? then 2 else 1 }

  /**
   * A caller who runs the command, in any interleaving with others: until its result is stored its next step
   * remains enabled, and each of its steps brings it closer.
   */
  lemma {:induction false} RunnerProgress(s: State, es: seq<Event>, id: nat, cmd: string) returns (k: nat)
    requires IsRun(s, es) && Runs(s.At(id), cmd)
    ensures k <= |es| && IsRun(s, es[..k])
    ensures var t := After(s, es[..k]);
      || Filled(t, id, cmd)
      || (k == |es| && Runs(t.At(id), cmd) && StepsLeft(t.At(id)) == StepsLeft(s.At(id)) - StepsOf(es, id))
    decreases |es|
  {
    if es == [] {
      k := 0;
    } else if es[0] == Store(id) {
      k := 1;
      assert es[..1] == [es[0]] && es[..1][1..] == [];
    } else {
      var rest := RunnerProgress(Step(s, es[0]), es[1..], id, cmd);
      k := rest + 1;
      assert es[..k][1..] == es[1..][..rest];
    }
  }

  /**
   * Every marker has a caller behind it who fills it in with its second step at the latest, however the steps
   * of others come in between, and who can take a next step until then.
   */
  lemma {:induction false} MarkerResolves(s: State, cmd: string, es: seq<Event>) returns (id: nat, k: nat)
    requires MarkersLive(s) && cmd in s.latestResult && s.latestResult[cmd] == None && IsRun(s, es)
    ensures Runs(s.At(id), cmd) && k <= |es| && IsRun(s, es[..k])
    ensures StepsOf(es, id) >= 2 ==> Filled(After(s, es[..k]), id, cmd)
    ensures Filled(After(s, es[..k]), id, cmd) || Enabled(After(s, es), Store(id))
      || forall result :: Enabled(After(s, es), Process(id, result))
  {
    assert SomeoneRuns(s, cmd);
    id :| id in s.callers && Runs(s.callers[id], cmd);
    k := RunnerProgress(s, es, id, cmd);
    assert es[..|es|] == es;
  }

  /** A caller that looks or waits returns with the result, once it is there. */
  lemma {:induction false} ServedFromCache(s: State, id: nat, cmd: string, result: string)
    requires s.At(id) == Looking(cmd) || s.At(id) == Waiting(cmd)
    requires cmd in s.latestResult && s.latestResult[cmd] == Some(result)
    ensures var e := if s.At(id).Looking? then Look(id) else Poll(id);
      Enabled(s, e) && Step(s, e) == s.Go(id, Returned(cmd, result))
  {
  }

  /** Within the TTL a cached result is returned without another execution. */
  lemma {:induction false} CachedWithinTTL(s: State, id: nat, cmd: string, result: string, now: int)
    requires s.At(id) == Arriving(cmd) && now - s.lastPurge <= TTL
    requires cmd in s.latestResult && s.latestResult[cmd] == Some(result)
    ensures var es := [Check(id, now), Look(id)];
      IsRun(s, es) && After(s, es).At(id) == Returned(cmd, result) && After(s, es).executed == s.executed
  {
    RunTwo(s, Check(id, now), Look(id));
  }

  // At most once

  predicate Active(p: Phase, cmd: string) { !p.Idle? && !p.Returned? && p.cmd == cmd }

  /** No two callers work on the command at the same time. */
  ghost predicate Serial(s: State, cmd: string) {
    forall i, j :: i in s.callers && j in s.callers && Active(s.callers[i], cmd) && Active(s.callers[j], cmd) ==> i == j
  }

  ghost predicate SerialRun(s: State, es: seq<Event>, cmd: string)
    requires IsRun(s, es)
    decreases |es|
  {
    Serial(s, cmd) && (es == [] || SerialRun(Step(s, es[0]), es[1..], cmd))
  }

  function Count(cmds: seq<string>, cmd: string): nat { multiset(cmds)[cmd] }

  ghost predicate SomeoneStores(s: State, cmd: string) {
    exists id :: id in s.callers && s.callers[id].Storing? && s.callers[id].cmd == cmd
  }

  /** The command ran at most once since the purge, and then its result is cached or about to be. */
  ghost predicate OnceAtMost(s: State, cmd: string) {
    && Count(s.sincePurge, cmd) <= 1
    && (Count(s.sincePurge, cmd) == 1 ==> cmd in s.latestResult || SomeoneStores(s, cmd))
    && forall id :: id in s.callers && Active(s.callers[id], cmd) ==>
         && !s.callers[id].Waiting?
         && (s.callers[id].Marking? || s.callers[id].Executing? ==> Count(s.sincePurge, cmd) == 0)
  }

  lemma {:induction false} StepKeepsOnce(s: State, e: Event, cmd: string)
    requires Enabled(s, e) && MarkersLive(s) && Serial(s, cmd) && OnceAtMost(s, cmd)
    ensures OnceAtMost(Step(s, e), cmd)
  {
    var t, p := Step(s, e), s.At(e.id);
    if !p.Idle? && p.cmd == cmd && !p.Returned? {
      ActiveStepKeepsOnce(s, e, cmd);
    } else {
      assert Count(t.sincePurge, cmd) == if e.Reset? then 0 else Count(s.sincePurge, cmd);
      if SomeoneStores(s, cmd) {
        var id :| id in s.callers && s.callers[id].Storing? && s.callers[id].cmd == cmd;
        assert id in t.callers && t.callers[id].Storing?;
      }
    }
  }

  lemma {:induction false} ActiveStepKeepsOnce(s: State, e: Event, cmd: string)
    requires Enabled(s, e) && MarkersLive(s) && Serial(s, cmd) && OnceAtMost(s, cmd)
    requires Active(s.At(e.id), cmd)
    ensures OnceAtMost(Step(s, e), cmd)
  {
    var t := Step(s, e);
    assert forall id :: id in s.callers && id != e.id ==> !Active(s.callers[id], cmd);
    assert forall id :: id in t.callers && id != e.id ==> !Active(t.callers[id], cmd);
    assert SomeoneStores(s, cmd) ==> s.At(e.id).Storing?;
    assert SomeoneRuns(s, cmd) ==> Runs(s.At(e.id), cmd);
    if e.Process? {
      assert Count(t.sincePurge, cmd) == 1;
      assert t.callers[e.id].Storing? && SomeoneStores(t, cmd);
    }
  }

  lemma {:induction false} SerialRunsOnce(s: State, es: seq<Event>, cmd: string)
    requires IsRun(s, es) && MarkersLive(s) && OnceAtMost(s, cmd) && SerialRun(s, es, cmd)
    ensures OnceAtMost(After(s, es), cmd)
    decreases |es|
  {
    if es == [] {
    } else {
      StepKeepsMarkers(s, es[0]);
      StepKeepsOnce(s, es[0], cmd);
      SerialRunsOnce(Step(s, es[0]), es[1..], cmd);
    }
  }

  /** A command whose callers do not overlap runs at most once between purges, whatever other callers do. */
  lemma {:induction false} AtMostOncePerPurge(es: seq<Event>, cmd: string)
    requires IsRun(INITIAL, es) && SerialRun(INITIAL, es, cmd)
    ensures Count(After(INITIAL, es).sincePurge, cmd) <= 1
  {
    SerialRunsOnce(INITIAL, es, cmd);
  }

  /** With a single caller no command overlaps with itself. */
  lemma {:induction false} SingleCallerIsSerial(s: State, es: seq<Event>, id: nat, cmd: string)
    requires IsRun(s, es) && s.callers.Keys <= {id}
    requires forall i :: 0 <= i < |es| ==> es[i].id == id
    ensures SerialRun(s, es, cmd)
    decreases |es|
  {
    if es == [] {
    } else {
      assert es[0].id == id && Step(s, es[0]).callers.Keys <= {id};
      SingleCallerIsSerial(Step(s, es[0]), es[1..], id, cmd);
    }
  }

  /** So a single caller runs every command at most once between purges. */
  lemma {:induction false} SingleCallerRunsOnce(es: seq<Event>, id: nat, cmd: string)
    requires IsRun(INITIAL, es) && forall i :: 0 <= i < |es| ==> es[i].id == id
    ensures Count(After(INITIAL, es).sincePurge, cmd) <= 1
  {
    SingleCallerIsSerial(INITIAL, es, id, cmd);
    AtMostOncePerPurge(es, cmd);
  }

  lemma {:induction false} RunAppend(s: State, a: seq<Event>, b: seq<Event>)
    requires IsRun(s, a) && IsRun(After(s, a), b)
    ensures IsRun(s, a + b) && After(s, a + b) == After(After(s, a), b)
    decreases |a|
  {
    if a == [] {
      assert a + b == b;
    } else {
      assert (a + b)[1..] == a[1..] + b;
      RunAppend(Step(s, a[0]), a[1..], b);
    }
  }

  lemma {:induction false} RunTwo(s: State, a: Event, b: Event)
    requires Enabled(s, a) && Enabled(Step(s, a), b)
    ensures IsRun(s, [a, b]) && After(s, [a, b]) == Step(Step(s, a), b)
  {
    assert [a, b][1..] == [b] && [b][1..] == [];
    assert After(Step(s, a), [b]) == After(Step(Step(s, a), b), []);
  }

  // Overlapping callers

  /** The caller can come to run the command without a purge: nothing it has still to look at keeps it from it. */
  predicate CanRun(s: State, id: nat, cmd: string) {
    var p := s.At(id);
    && !p.Idle? && p.cmd == cmd
    && (p.Marking? || p.Executing? || ((p.Arriving? || p.Looking? || p.Waiting?) && cmd !in s.latestResult))
  }

  /** Neither a purge nor a new call. */
  predicate Continues(es: seq<Event>) { forall i :: 0 <= i < |es| ==> !es[i].Reset? && !es[i].Begin? }

  ghost predicate Overlap(s: State, cmd: string) {
    exists i, j :: i != j && CanRun(s, i, cmd) && CanRun(s, j, cmd)
  }

  ghost predicate RunsAgain(s: State, es: seq<Event>, cmd: string, n: nat) {
    IsRun(s, es) && Continues(es) && Count(After(s, es).sincePurge, cmd) >= Count(s.sincePurge, cmd) + n
  }

  /** A continuation makes nobody able to run the command who was not. */
  lemma {:induction false} StepCanRun(s: State, e: Event, id: nat, cmd: string)
    requires Enabled(s, e) && !e.Reset? && !e.Begin? && CanRun(Step(s, e), id, cmd)
    ensures CanRun(s, id, cmd) && !(e.Process? && e.id == id)
  {
  }

  lemma {:induction false} StepCount(s: State, e: Event, cmd: string)
    requires Enabled(s, e) && !e.Reset?
    ensures Count(Step(s, e).sincePurge, cmd) == Count(s.sincePurge, cmd)
      + if e.Process? && s.At(e.id).cmd == cmd then 1 else 0
  {
  }

  lemma {:induction false} NobodyRuns(s: State, es: seq<Event>, cmd: string)
    requires IsRun(s, es) && Continues(es) && forall i :: !CanRun(s, i, cmd)
    ensures Count(After(s, es).sincePurge, cmd) == Count(s.sincePurge, cmd)
    decreases |es|
  {
    if es == [] {
    } else {
      var e, t := es[0], Step(s, es[0]);
      assert !CanRun(s, e.id, cmd);
      StepCount(s, e, cmd);
      forall i ensures !CanRun(t, i, cmd) {
        if CanRun(t, i, cmd) {
          StepCanRun(s, e, i, cmd);
        }
      }
      NobodyRuns(t, es[1..], cmd);
    }
  }

  lemma {:induction false} OneRuns(s: State, es: seq<Event>, cmd: string)
    requires IsRun(s, es) && Continues(es) && !Overlap(s, cmd)
    ensures Count(After(s, es).sincePurge, cmd) <= Count(s.sincePurge, cmd) + 1
    decreases |es|
  {
    if es == [] {
    } else {
      var e, t := es[0], Step(s, es[0]);
      StepCount(s, e, cmd);
      forall i | CanRun(t, i, cmd) ensures CanRun(s, i, cmd) && !(e.Process? && e.id == i) {
        StepCanRun(s, e, i, cmd);
      }
      if e.Process? && s.At(e.id).cmd == cmd {
        assert CanRun(s, e.id, cmd);
        NobodyRuns(t, es[1..], cmd);
      } else {
        OneRuns(t, es[1..], cmd);
      }
    }
  }

  predicate Ready(p: Phase, cmd: string) { (p.Marking? || p.Executing?) && p.cmd == cmd }

  lemma {:induction false} RunOne(s: State, a: Event)
    requires Enabled(s, a)
    ensures IsRun(s, [a]) && After(s, [a]) == Step(s, a)
  {
    assert [a][1..] == [];
  }

  /** A caller who can run the command gets ready, and nothing else changes. */
  lemma {:induction false} GetReady(s: State, id: nat, cmd: string) returns (es: seq<Event>, p: Phase)
    requires CanRun(s, id, cmd)
    ensures IsRun(s, es) && Continues(es) && Ready(p, cmd) && After(s, es) == s.Go(id, p)
  {
    es, p := [], s.At(id);
    if p.Arriving? {
      es, p := [Check(id, s.lastPurge), Look(id)], Marking(cmd);
      RunTwo(s, Check(id, s.lastPurge), Look(id));
      assert s.callers[id := Looking(cmd)][id := p] == s.callers[id := p];
    } else if p.Looking? {
      es, p := [Look(id)], Marking(cmd);
      RunOne(s, Look(id));
    } else if p.Waiting? {
      es, p := [Poll(id)], Marking(cmd);
      RunOne(s, Poll(id));
    } else {
      assert s.callers[id := p] == s.callers;
    }
  }

  /** A caller who is ready runs the command. */
  lemma {:induction false} RunReady(s: State, id: nat, cmd: string) returns (es: seq<Event>)
    requires Ready(s.At(id), cmd)
    ensures IsRun(s, es) && Continues(es) && After(s, es).sincePurge == s.sincePurge + [cmd]
    ensures forall j :: j != id ==> After(s, es).At(j) == s.At(j)
  {
    if s.At(id).Marking? {
      es := [Mark(id), Process(id, "")];
      RunTwo(s, Mark(id), Process(id, ""));
    } else {
      es := [Process(id, "")];
      RunOne(s, Process(id, ""));
    }
  }

  lemma {:induction false} BothReady(s: State, i: nat, j: nat, cmd: string) returns (es: seq<Event>)
    requires i != j && Ready(s.At(i), cmd) && Ready(s.At(j), cmd)
    ensures IsRun(s, es) && Continues(es) && After(s, es).sincePurge == s.sincePurge + [cmd, cmd]
  {
    var first := RunReady(s, i, cmd);
    var second := RunReady(After(s, first), j, cmd);
    es := first + second;
    RunAppend(s, first, second);
    Assoc(s.sincePurge, [cmd], [cmd]);
  }

  /** Two callers who can run the command both run it, if each checks before the other marks. */
  lemma {:induction false} BothRun(s: State, i: nat, j: nat, cmd: string) returns (es: seq<Event>)
    requires i != j && CanRun(s, i, cmd) && CanRun(s, j, cmd)
    ensures RunsAgain(s, es, cmd, 2) && After(s, es).sincePurge == s.sincePurge + [cmd, cmd]
  {
    var first, p := GetReady(s, i, cmd);
    var s1 := s.Go(i, p);
    var second, q := GetReady(s1, j, cmd);
    var rest := BothReady(s1.Go(j, q), i, j, cmd);
    RunAppend(s1, second, rest);
    RunAppend(s, first, second + rest);
    es := first + (second + rest);
  }

  /**
   * Without a purge or a new call some interleaving runs the command twice, exactly if two callers can come to
   * run it: each waits to mark or to execute it, or has still to look and finds nothing.
   */
  lemma {:induction false} RunsTwiceExactly(s: State, cmd: string)
    ensures (exists es :: RunsAgain(s, es, cmd, 2)) <==> Overlap(s, cmd)
  {
    if es :| RunsAgain(s, es, cmd, 2) {
      if !Overlap(s, cmd) {
        OneRuns(s, es, cmd);
      }
    }
    if Overlap(s, cmd) {
      var i, j :| i != j && CanRun(s, i, cmd) && CanRun(s, j, cmd);
      var es := BothRun(s, i, j, cmd);
      assert RunsAgain(s, es, cmd, 2);
    }
  }

  /** Two callers arrive at the empty cache, and both run the command. */
  lemma {:induction false} OverlapRunsTwice(cmd: string) returns (es: seq<Event>)
    ensures IsRun(INITIAL, es) && Count(After(INITIAL, es).sincePurge, cmd) == 2
    ensures forall i :: 0 <= i < |es| ==> !es[i].Reset?
  {
    var s := INITIAL.Go(0, Arriving(cmd)).Go(1, Arriving(cmd));
    RunTwo(INITIAL, Begin(0, cmd), Begin(1, cmd));
    var rest := BothRun(s, 0, 1, cmd);
    es := [Begin(0, cmd), Begin(1, cmd)] + rest;
    RunAppend(INITIAL, [Begin(0, cmd), Begin(1, cmd)], rest);
    assert After(INITIAL, es).sincePurge == After(s, rest).sincePurge;
  }

  // Executions in progress

  predicate Unpurged(es: seq<Event>) { forall i :: 0 <= i < |es| ==> !es[i].Reset? }

  /** Nobody but the callers given waits to mark or to execute the command. */
  ghost predicate ReadyOnly(s: State, cmd: string, ids: set<nat>) {
    forall i {:trigger Ready(s.At(i), cmd)} :: Ready(s.At(i), cmd) ==> i in ids
  }

  lemma {:induction false} MarkedStep(s: State, e: Event, cmd: string, ids: set<nat>)
    requires Enabled(s, e) && !e.Reset? && cmd in s.latestResult && ReadyOnly(s, cmd, ids)
    ensures var t, rest := Step(s, e), if e.Process? && s.At(e.id).cmd == cmd then ids - {e.id} else ids;
      cmd in t.latestResult && ReadyOnly(t, cmd, rest) && (rest != ids ==> |rest| == |ids| - 1)
    ensures e.Process? && s.At(e.id).cmd == cmd ==> e.id in ids
  {
    var t := Step(s, e);
    forall i | Ready(t.At(i), cmd) ensures i in ids && !(e.Process? && e.id == i) {
      assert Ready(s.At(i), cmd);
    }
    assert e.Process? && s.At(e.id).cmd == cmd ==> Ready(s.At(e.id), cmd);
  }

  /**
   * Once a command is marked or cached, no caller but those that were about to mark or execute it runs it before the
   * next purge, each of them at most once, however many callers arrive.
   */
  lemma {:induction false} MarkedRuns(s: State, es: seq<Event>, cmd: string, ids: set<nat>)
    requires IsRun(s, es) && Unpurged(es) && cmd in s.latestResult && ReadyOnly(s, cmd, ids)
    ensures Count(After(s, es).sincePurge, cmd) <= Count(s.sincePurge, cmd) + |ids|
    decreases |es|
  {
    if es == [] {
    } else {
      var e := es[0];
      MarkedStep(s, e, cmd, ids);
      StepCount(s, e, cmd);
      MarkedRuns(Step(s, e), es[1..], cmd, if e.Process? && s.At(e.id).cmd == cmd then ids - {e.id} else ids);
    }
  }

  /** So a caller that marks a command alone is the only one to run it before the next purge. */
  lemma {:induction false} MarkedRunsOnce(s: State, id: nat, es: seq<Event>, cmd: string)
    requires s.At(id) == Marking(cmd) && (forall i {:trigger Ready(s.At(i), cmd)} :: Ready(s.At(i), cmd) ==> i == id)
    requires IsRun(s, [Mark(id)] + es) && Unpurged(es)
    ensures Count(After(s, [Mark(id)] + es).sincePurge, cmd) <= Count(s.sincePurge, cmd) + 1
  {
    var t, ids := Step(s, Mark(id)), {id};
    assert ([Mark(id)] + es)[1..] == es;
    forall i | Ready(t.At(i), cmd) ensures i in ids {
      assert Ready(s.At(i), cmd);
    }
    MarkedRuns(t, es, cmd, ids);
  }
}
