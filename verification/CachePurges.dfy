/** The purges of the result cache, daemon/dnsd/latest_cmd.go, against the clock, for a single caller. */
module CachePurges {
  import opened LatestCommands

  predicate SingleCaller(es: seq<Event>, id: nat) { forall i :: 0 <= i < |es| ==> es[i].id == id }

  predicate Reads(e: Event) { e.Check? || e.Stamp? }

  /** The clock does not run backwards. */
  ghost predicate Monotone(es: seq<Event>) {
    forall i, j :: 0 <= i < j < |es| && Reads(es[i]) && Reads(es[j]) ==> es[i].now <= es[j].now
  }

  /** The clock does not run backwards, and starts at the given time or later. */
  ghost predicate ClockFrom(es: seq<Event>, clock: int) {
    Monotone(es) && forall i :: 0 <= i < |es| && Reads(es[i]) ==> clock <= es[i].now
  }

  lemma {:induction false} ClockStep(es: seq<Event>, clock: int)
    requires es != [] && ClockFrom(es, clock)
    ensures ClockFrom(es[1..], if Reads(es[0]) then es[0].now else clock)
  {
    var rest := es[1..];
    assert forall i :: 0 <= i < |rest| ==> rest[i] == es[i + 1];
  }

  /** A caller about to stamp has read a time past the TTL. */
  predicate Founded(s: State, id: nat, clock: int) {
    s.callers.Keys <= {id} && (s.At(id).Stamping? ==> clock - s.lastPurge > TTL)
  }

  lemma {:induction false} FoundedStep(s: State, e: Event, id: nat, clock: int)
    requires Enabled(s, e) && e.id == id && Founded(s, id, clock) && (Reads(e) ==> clock <= e.now)
    ensures Founded(Step(s, e), id, if Reads(e) then e.now else clock)
    ensures e.Stamp? ==> e.now - s.lastPurge > TTL && Step(s, e).lastPurge == e.now
    ensures !e.Stamp? ==> Step(s, e).lastPurge == s.lastPurge
  {
  }

  lemma {:induction false} StampAfterTTL(s: State, es: seq<Event>, id: nat, clock: int, j: nat)
    requires IsRun(s, es) && SingleCaller(es, id) && ClockFrom(es, clock) && Founded(s, id, clock)
    requires j < |es| && es[j].Stamp?
    ensures es[j].now - s.lastPurge > TTL
    decreases |es|
  {
    var e := es[0];
    FoundedStep(s, e, id, clock);
    if j == 0 {
    } else {
      ClockStep(es, clock);
      assert es[j] == es[1..][j - 1];
      StampAfterTTL(Step(s, e), es[1..], id, if Reads(e) then e.now else clock, j - 1);
    }
  }

  lemma {:induction false} StampsApartFrom(s: State, es: seq<Event>, id: nat, clock: int, i: nat, j: nat)
    requires IsRun(s, es) && SingleCaller(es, id) && ClockFrom(es, clock) && Founded(s, id, clock)
    requires i < j < |es| && es[i].Stamp? && es[j].Stamp?
    ensures es[j].now - es[i].now > TTL
    decreases |es|
  {
    var e, t := es[0], Step(s, es[0]);
    var now := if Reads(e) then e.now else clock;
    FoundedStep(s, e, id, clock);
    ClockStep(es, clock);
    assert es[j] == es[1..][j - 1];
    if i == 0 {
      StampAfterTTL(t, es[1..], id, now, j - 1);
    } else {
      assert es[i] == es[1..][i - 1];
      StampsApartFrom(t, es[1..], id, now, i - 1, j - 1);
    }
  }

  lemma {:induction false} EarliestReading(es: seq<Event>) returns (clock: int)
    requires Monotone(es)
    ensures ClockFrom(es, clock)
  {
    if es == [] {
      clock := 0;
    } else {
      assert forall i :: 0 <= i < |es[1..]| ==> es[1..][i] == es[i + 1];
      clock := EarliestReading(es[1..]);
      if Reads(es[0]) && es[0].now < clock {
        clock := es[0].now;
      }
      assert forall i :: 0 < i < |es| ==> es[i] == es[1..][i - 1];
    }
  }

  /** With one caller and a clock that does not run backwards, any two purges are more than the TTL apart. */
  lemma {:induction false} PurgesApart(es: seq<Event>, id: nat, i: nat, j: nat)
    requires IsRun(INITIAL, es) && SingleCaller(es, id) && Monotone(es)
    requires i < j < |es| && es[i].Stamp? && es[j].Stamp?
    ensures es[j].now - es[i].now > TTL
  {
    var clock := EarliestReading(es);
    StampsApartFrom(INITIAL, es, id, clock, i, j);
  }

  // Executions

  lemma {:induction false} RunSplit(s: State, a: seq<Event>, b: seq<Event>)
    requires IsRun(s, a + b)
    ensures IsRun(s, a) && IsRun(After(s, a), b) && After(s, a + b) == After(After(s, a), b)
    decreases |a|
  {
    if a == [] {
      assert a + b == b;
    } else {
      assert (a + b)[1..] == a[1..] + b;
      RunSplit(Step(s, a[0]), a[1..], b);
    }
  }

  /** The event executes the command. */
  predicate ExecutesAt(s: State, es: seq<Event>, k: nat, cmd: string) {
    && k < |es| && es[k].Process? && IsRun(s, es[..k])
    && After(s, es[..k]).At(es[k].id) == Executing(cmd)
  }

  /** Without a stamp there is no reset, and what ran since the purge is not forgotten. */
  lemma {:induction false} NoStampNoReset(s: State, es: seq<Event>, id: nat, cmd: string)
    requires IsRun(s, es) && SingleCaller(es, id) && !s.At(id).Resetting?
    requires forall i :: 0 <= i < |es| ==> !es[i].Stamp?
    ensures Count(After(s, es).sincePurge, cmd) >= Count(s.sincePurge, cmd)
    decreases |es|
  {
    if es == [] {
    } else {
      StepCount(s, es[0], cmd);
      NoStampNoReset(Step(s, es[0]), es[1..], id, cmd);
    }
  }

  lemma {:induction false} ExecutionCounts(s: State, es: seq<Event>, k: nat, cmd: string)
    requires IsRun(s, es) && ExecutesAt(s, es, k, cmd)
    ensures IsRun(s, es[..k + 1]) && After(s, es[..k + 1]).At(es[k].id).Storing?
    ensures Count(After(s, es[..k + 1]).sincePurge, cmd) == Count(After(s, es[..k]).sincePurge, cmd) + 1
  {
    assert es[..k + 1] == es[..k] + [es[k]] && es == es[..k + 1] + es[k + 1..];
    RunSplit(s, es[..k + 1], es[k + 1..]);
    RunSplit(s, es[..k], [es[k]]);
    RunOne(After(s, es[..k]), es[k]);
    StepCount(After(s, es[..k]), es[k], cmd);
  }

  /** Between two executions of a command by the only caller the cache is purged. */
  lemma {:induction false} PurgedBetween(es: seq<Event>, id: nat, cmd: string, a: nat, b: nat) returns (i: nat)
    requires IsRun(INITIAL, es) && SingleCaller(es, id)
    requires a < b && ExecutesAt(INITIAL, es, a, cmd) && ExecutesAt(INITIAL, es, b, cmd)
    ensures a < i < b && es[i].Stamp?
  {
    if forall i :: a < i < b ==> !es[i].Stamp? {
      var between := es[a + 1..b];
      assert es[..b] == es[..a + 1] + between;
      ExecutionCounts(INITIAL, es, a, cmd);
      ExecutionCounts(INITIAL, es, b, cmd);
      RunSplit(INITIAL, es[..a + 1], between);
      NoStampNoReset(After(INITIAL, es[..a + 1]), between, id, cmd);
      SingleCallerRunsOnce(es[..b + 1], id, cmd);
      assert false;
    }
    i :| a < i < b && es[i].Stamp?;
  }

  /** So three executions of a command by the only caller take more than the TTL. */
  lemma {:induction false} ThreeRunsTakeTTL(es: seq<Event>, id: nat, cmd: string, a: nat, b: nat, c: nat)
    returns (i: nat, j: nat)
    requires IsRun(INITIAL, es) && SingleCaller(es, id) && Monotone(es) && a < b < c
    requires ExecutesAt(INITIAL, es, a, cmd) && ExecutesAt(INITIAL, es, b, cmd) && ExecutesAt(INITIAL, es, c, cmd)
    ensures a < i < b < j < c && es[i].Stamp? && es[j].Stamp? && es[j].now - es[i].now > TTL
  {
    i := PurgedBetween(es, id, cmd, a, b);
    j := PurgedBetween(es, id, cmd, b, c);
    PurgesApart(es, id, i, j);
  }
}
