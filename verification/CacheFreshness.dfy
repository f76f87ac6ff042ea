/** How old a result of the cache of daemon/dnsd/latest_cmd.go can be, for a single caller. */
module CacheFreshness {
  import opened Text
  import opened LatestCommands
  import opened CachePurges

  lemma {:induction false} PrefixRuns(es: seq<Event>, j: nat)
    requires IsRun(INITIAL, es) && j <= |es|
    ensures IsRun(INITIAL, es[..j])
  {
    assert es == es[..j] + es[j..];
    RunSplit(INITIAL, es[..j], es[j..]);
  }

  /** The state before the j-th event. */
  function StateAt(es: seq<Event>, j: nat): State
    requires IsRun(INITIAL, es) && j <= |es|
  {
    PrefixRuns(es, j);
    After(INITIAL, es[..j])
  }

  lemma {:induction false} StateStep(es: seq<Event>, j: nat)
    requires IsRun(INITIAL, es) && j < |es|
    ensures Enabled(StateAt(es, j), es[j]) && StateAt(es, j + 1) == Step(StateAt(es, j), es[j])
  {
    PrefixRuns(es, j);
    PrefixRuns(es, j + 1);
    assert es[..j + 1] == es[..j] + [es[j]];
    RunSplit(INITIAL, es[..j], [es[j]]);
    RunOne(StateAt(es, j), es[j]);
  }

  /** The reading of the latest stamp among the first j events, zero if there is none. */
  function LastStamp(es: seq<Event>, j: nat): int
    requires j <= |es|
  {
    if j == 0 then 0 else if es[j - 1].Stamp? then es[j - 1].now else LastStamp(es, j - 1)
  }

  lemma {:induction false} LastPurgeIsStamp(es: seq<Event>, j: nat)
    requires IsRun(INITIAL, es) && j <= |es|
    ensures StateAt(es, j).lastPurge == LastStamp(es, j)
  {
    if j == 0 {
      assert es[..0] == [];
    } else {
      LastPurgeIsStamp(es, j - 1);
      StateStep(es, j - 1);
    }
  }

  // A call that finds the TTL over

  /** The event executes the command, with the result. */
  ghost predicate RanAt(es: seq<Event>, id: nat, q: nat, cmd: string, result: string)
    requires IsRun(INITIAL, es) && q < |es|
  {
    es[q] == Process(id, result) && StateAt(es, q).At(id) == Executing(cmd)
  }

  /** An execution of the command between k and j gave the result. */
  ghost predicate RanBetween(es: seq<Event>, id: nat, k: nat, j: nat, cmd: string, result: string)
    requires IsRun(INITIAL, es) && j <= |es|
  {
    exists q :: k < q < j && RanAt(es, id, q, cmd, result)
  }

  /** A call whose check at k found the TTL over: it purges, finds nothing, and runs its command. */
  ghost predicate Renewing(es: seq<Event>, id: nat, k: nat, j: nat)
    requires IsRun(INITIAL, es) && j <= |es|
  {
    var s, p := StateAt(es, j), StateAt(es, j).At(id);
    match p
    case Storing(cmd, result) => RanBetween(es, id, k, j, cmd, result)
    case Returned(cmd, result) => RanBetween(es, id, k, j, cmd, result)
    case Looking(_) => s.latestResult == map[]
    case Arriving(_) => false
    case Waiting(_) => false
    case _ => true
  }

  lemma {:induction false} RenewingStep(es: seq<Event>, id: nat, k: nat, j: nat)
    requires IsRun(INITIAL, es) && SingleCaller(es, id) && k < j < |es| && !es[j].Begin? && Renewing(es, id, k, j)
    ensures Renewing(es, id, k, j + 1)
  {
    StateStep(es, j);
    assert es[j].id == id;
    if es[j].Process? {
      assert RanAt(es, id, j, StateAt(es, j).At(id).cmd, es[j].result);
    }
  }

  /** The result of a call that finds the TTL over comes from an execution in that call. */
  lemma {:induction false} RenewedResult(es: seq<Event>, id: nat, k: nat, j: nat)
    requires IsRun(INITIAL, es) && SingleCaller(es, id) && k < j <= |es|
    requires es[k].Check? && es[k].now - LastStamp(es, k) > TTL
    requires forall i :: k < i < j ==> !es[i].Begin?
    ensures Renewing(es, id, k, j)
  {
    if j == k + 1 {
      LastPurgeIsStamp(es, k);
      StateStep(es, k);
      assert es[k].id == id;
    } else {
      RenewedResult(es, id, k, j - 1);
      RenewingStep(es, id, k, j - 1);
    }
  }

  // Results since the latest stamp

  /** An execution of the command gave the result, and there was no stamp since. */
  ghost predicate RanSinceStamp(es: seq<Event>, id: nat, j: nat, cmd: string, result: string)
    requires IsRun(INITIAL, es) && j <= |es|
  {
    exists q :: 0 <= q < j && RanAt(es, id, q, cmd, result) && NoStampBetween(es, q, j)
  }

  predicate NoStampBetween(es: seq<Event>, q: nat, j: nat)
    requires j <= |es|
  {
    forall i :: q < i < j ==> !es[i].Stamp?
  }

  lemma {:induction false} RanSinceStep(es: seq<Event>, id: nat, j: nat, cmd: string, result: string)
    requires IsRun(INITIAL, es) && j < |es| && RanSinceStamp(es, id, j, cmd, result) && !es[j].Stamp?
    ensures RanSinceStamp(es, id, j + 1, cmd, result)
  {
    var q :| 0 <= q < j && RanAt(es, id, q, cmd, result) && NoStampBetween(es, q, j);
    assert NoStampBetween(es, q, j + 1);
  }

  /** What is cached, about to be cached or returned was executed since the latest stamp, unless a purge is under way. */
  ghost predicate AllSinceStamp(es: seq<Event>, id: nat, j: nat)
    requires IsRun(INITIAL, es) && j <= |es|
  {
    var s, p := StateAt(es, j), StateAt(es, j).At(id);
    && (p.Storing? || p.Returned? ==> RanSinceStamp(es, id, j, p.cmd, p.result))
    && (!p.Resetting? ==> forall cmd :: cmd in s.latestResult && s.latestResult[cmd].Some? ==>
          RanSinceStamp(es, id, j, cmd, s.latestResult[cmd].value))
  }

  lemma {:induction false} SinceStampStep(es: seq<Event>, id: nat, j: nat)
    requires IsRun(INITIAL, es) && SingleCaller(es, id) && j < |es| && AllSinceStamp(es, id, j)
    ensures AllSinceStamp(es, id, j + 1)
  {
    var s, t, e := StateAt(es, j), StateAt(es, j + 1), es[j];
    StateStep(es, j);
    assert e.id == id;
    if e.Stamp? {
    } else if e.Process? {
      assert RanAt(es, id, j, s.At(id).cmd, e.result) && NoStampBetween(es, j, j + 1);
      CachedStays(es, id, j);
    } else {
      if s.At(id).Storing? {
        RanSinceStep(es, id, j, s.At(id).cmd, s.At(id).result);
      }
      CachedStays(es, id, j);
    }
  }

  lemma {:induction false} CachedStays(es: seq<Event>, id: nat, j: nat)
    requires IsRun(INITIAL, es) && j < |es| && AllSinceStamp(es, id, j) && !es[j].Stamp?
    ensures var s := StateAt(es, j); !s.At(id).Resetting? ==>
      forall cmd :: cmd in s.latestResult && s.latestResult[cmd].Some? ==>
        RanSinceStamp(es, id, j + 1, cmd, s.latestResult[cmd].value)
  {
    var s := StateAt(es, j);
    if !s.At(id).Resetting? {
      forall cmd | cmd in s.latestResult && s.latestResult[cmd].Some?
        ensures RanSinceStamp(es, id, j + 1, cmd, s.latestResult[cmd].value)
      {
        RanSinceStep(es, id, j, cmd, s.latestResult[cmd].value);
      }
    }
  }

  lemma {:induction false} ResultsSinceStamp(es: seq<Event>, id: nat, j: nat)
    requires IsRun(INITIAL, es) && SingleCaller(es, id) && j <= |es|
    ensures AllSinceStamp(es, id, j)
  {
    if j == 0 {
      assert es[..0] == [];
    } else {
      ResultsSinceStamp(es, id, j - 1);
      SinceStampStep(es, id, j - 1);
    }
  }

  /**
   * Freshness: with a single caller, a result that a call did not get by running its command was executed since the
   * latest stamp, and the call found the TTL since that stamp not over.
   */
  lemma {:induction false} FreshResult(es: seq<Event>, id: nat, k: nat, m: nat)
    requires IsRun(INITIAL, es) && SingleCaller(es, id) && k < m <= |es| && es[k].Check?
    requires forall i :: k < i < m ==> !es[i].Begin?
    requires StateAt(es, m).At(id).Returned?
    ensures var p := StateAt(es, m).At(id);
      || RanBetween(es, id, k, m, p.cmd, p.result)
      || (RanSinceStamp(es, id, m, p.cmd, p.result) && es[k].now - LastStamp(es, k) <= TTL)
  {
    ResultsSinceStamp(es, id, m);
    if es[k].now - LastStamp(es, k) > TTL {
      RenewedResult(es, id, k, m);
    }
  }
}
