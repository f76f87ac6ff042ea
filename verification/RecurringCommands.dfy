/** Results collected from recurring commands and fetched at will: daemon/common/recurring_cmds.go. */
module RecurringCommands {
  import opened Text
  import opened R = RingBuffer

  function Outputs(process: string -> string, cmds: seq<string>): (r: seq<string>)
    ensures |r| == |cmds| && forall i :: 0 <= i < |cmds| ==> r[i] == process(cmds[i])
  {
    seq(|cmds|, i requires 0 <= i < |cmds| => process(cmds[i]))
  }

  /** RecurringCommands; the command processor is a parameter of the run. */
  class RecurringCommands {
    const maxResults: int
    const preConfigured: seq<string>
    var transient: seq<string>
    var results: R.RingBuffer

    ghost predicate Valid()
      reads this, results, results.buf
    {
      results.Valid() && results.size == maxResults
    }

    constructor (preConfigured: seq<string>, maxResults: int)
      requires maxResults >= 1
      ensures Valid() && fresh(results) && fresh(results.buf)
      ensures transient == [] && results.log == []
      ensures this.preConfigured == preConfigured && this.maxResults == maxResults
    {
      this.preConfigured := preConfigured;
      this.maxResults := maxResults;
      transient := [];
      results := new R.RingBuffer(maxResults);
    }

    method AddTransientCommand(cmd: string)
      requires Valid()
      modifies `transient
      ensures Valid() && transient == old(transient) + [cmd]
    {
      transient := transient + [cmd];
    }

    method ClearTransientCommands()
      requires Valid()
      modifies `transient
      ensures Valid() && transient == []
    {
      transient := [];
    }

    /** runAllCommands: first the pre-configured commands, then the transient ones. */
    method RunAllCommands(process: string -> string)
      requires Valid()
      modifies results`counter, results`log, results.buf
      ensures Valid()
      ensures results.log == old(results.log) + Outputs(process, preConfigured) + Outputs(process, transient)
    {
      for i := 0 to |preConfigured|
        invariant Valid() && results.buf == old(results.buf)
        invariant results.log == old(results.log) + Outputs(process, preConfigured)[..i]
      {
        results.Push(process(preConfigured[i]));
      }
      ghost var middle := results.log;
      assert middle == old(results.log) + Outputs(process, preConfigured);
      var copy := transient;
      for i := 0 to |copy|
        invariant Valid() && results.buf == old(results.buf)
        invariant results.log == middle + Outputs(process, transient)[..i]
      {
        results.Push(process(copy[i]));
      }
      assert Outputs(process, transient)[..|transient|] == Outputs(process, transient);
    }

    method AddArbitraryTextToResult(text: string)
      requires Valid()
      modifies results`counter, results`log, results.buf
      ensures Valid() && results.log == old(results.log) + [text]
    {
      results.Push(text);
    }

    /** GetResults: fetch and clear. */
    method GetResults() returns (ret: seq<string>)
      requires Valid()
      modifies results`buf, results`log
      ensures Valid() && fresh(results.buf)
      ensures ret == NonEmpty(LastN(old(results.log), maxResults))
      ensures results.log == []
    {
      ret := results.GetAll();
      results.Clear();
    }
  }

  // Sequential runs

  datatype Event = Push(text: string) | Fetch

  /** All strings handed out by the fetches of a run, in order; `log` holds the pushes since the last fetch. */
  function Delivered(max: nat, log: seq<string>, es: seq<Event>): seq<string>
    decreases |es|
  {
    if es == [] then []
    else match es[0]
      case Push(text) => Delivered(max, log + [text], es[1..])
      case Fetch => NonEmpty(LastN(log, max)) + Delivered(max, [], es[1..])
  }

  /** All strings pushed before the last fetch of the run. */
  function Offered(log: seq<string>, es: seq<Event>): seq<string>
    decreases |es|
  {
    if es == [] then []
    else match es[0]
      case Push(text) => Offered(log + [text], es[1..])
      case Fetch => log + Offered([], es[1..])
  }

  /** No fetch finds a non-empty string already overwritten. */
  ghost predicate NothingOverwritten(max: nat, log: seq<string>, es: seq<Event>)
    decreases |es|
  {
    es == [] || match es[0]
      case Push(text) => NothingOverwritten(max, log + [text], es[1..])
      case Fetch =>
        && (forall i :: 0 <= i < |log| - max ==> log[i] == "")
        && NothingOverwritten(max, [], es[1..])
  }

  /** At most `max` pushes fall between two fetches. */
  ghost predicate FetchedInTime(max: nat, pushed: nat, es: seq<Event>)
    decreases |es|
  {
    es == [] || match es[0]
      case Push(_) => FetchedInTime(max, pushed + 1, es[1..])
      case Fetch => pushed <= max && FetchedInTime(max, 0, es[1..])
  }

  /** a is a subsequence of b at the strictly increasing positions f. */
  ghost predicate Embeds(a: seq<string>, b: seq<string>, f: seq<nat>) {
    && |f| == |a|
    && (forall i :: 0 <= i < |f| ==> f[i] < |b| && b[f[i]] == a[i])
    && (forall i, j :: 0 <= i < j < |f| ==> f[i] < f[j])
  }

  function Shifted(f: seq<nat>, n: nat): (r: seq<nat>)
    ensures |r| == |f| && forall i :: 0 <= i < |f| ==> r[i] == f[i] + n
  {
    seq(|f|, i requires 0 <= i < |f| => f[i] + n)
  }

  lemma {:induction false} EmbedsAppend(a: seq<string>, b: seq<string>, f: seq<nat>, c: seq<string>, d: seq<string>,
                                        g: seq<nat>)
    requires Embeds(a, b, f) && Embeds(c, d, g)
    ensures Embeds(a + c, b + d, f + Shifted(g, |b|))
  {
    var h := f + Shifted(g, |b|);
    forall i | 0 <= i < |h| ensures h[i] < |b + d| && (b + d)[h[i]] == (a + c)[i] {
      if i >= |f| {
        assert h[i] == g[i - |f|] + |b|;
      }
    }
    forall i, j | 0 <= i < j < |h| ensures h[i] < h[j] {
      if i < |f| <= j {
        assert h[j] == g[j - |f|] + |b|;
      } else if |f| <= i {
        assert h[i] == g[i - |f|] + |b| && h[j] == g[j - |f|] + |b|;
      }
    }
  }

  lemma {:induction false} NonEmptyEmbeds(s: seq<string>) returns (f: seq<nat>)
    ensures Embeds(NonEmpty(s), s, f)
  {
    f := [];
    if s == [] {
    } else {
      var g := NonEmptyEmbeds(s[1..]);
      f := (if s[0] == "" then [] else [0]) + Shifted(g, 1);
      EmbedsAppend(if s[0] == "" then [] else [s[0]], [s[0]], if s[0] == "" then [] else [0], NonEmpty(s[1..]), s[1..], g);
      assert [s[0]] + s[1..] == s;
    }
  }

  lemma {:induction false} LatestEmbeds(log: seq<string>, max: nat) returns (f: seq<nat>)
    ensures Embeds(NonEmpty(LastN(log, max)), log, f)
  {
    var latest := LastN(log, max);
    var dropped := log[..|log| - |latest|];
    var g := NonEmptyEmbeds(latest);
    EmbedsAppend([], dropped, [], NonEmpty(latest), latest, g);
    f := [] + Shifted(g, |dropped|);
    assert dropped + latest == log;
    assert [] + NonEmpty(latest) == NonEmpty(latest);
  }

  /** Nothing is delivered twice or out of order: the deliveries are a subsequence of the pushes. */
  lemma {:induction false} DeliveredOnce(max: nat, log: seq<string>, es: seq<Event>) returns (f: seq<nat>)
    ensures Embeds(Delivered(max, log, es), Offered(log, es), f)
    decreases |es|
  {
    f := [];
    if es == [] {
    } else {
      match es[0]
      case Push(text) =>
        f := DeliveredOnce(max, log + [text], es[1..]);
      case Fetch =>
        var g := LatestEmbeds(log, max);
        var h := DeliveredOnce(max, [], es[1..]);
        EmbedsAppend(NonEmpty(LastN(log, max)), log, g, Delivered(max, [], es[1..]), Offered([], es[1..]), h);
        f := g + Shifted(h, |log|);
    }
  }

  /** Looking only at the latest strings loses something exactly if a dropped one is not empty. */
  lemma {:induction false} LatestComplete(log: seq<string>, max: nat)
    ensures |NonEmpty(LastN(log, max))| <= |NonEmpty(log)|
    ensures NonEmpty(LastN(log, max)) == NonEmpty(log) <==> forall i :: 0 <= i < |log| - max ==> log[i] == ""
    ensures |NonEmpty(LastN(log, max))| == |NonEmpty(log)| ==> NonEmpty(LastN(log, max)) == NonEmpty(log)
  {
    var latest := LastN(log, max);
    var dropped := log[..|log| - |latest|];
    assert log == dropped + latest;
    FilterAppend(IsNonEmpty, dropped, latest);
    NonEmptyNothing(dropped);
    assert forall i :: 0 <= i < |dropped| ==> dropped[i] == log[i];
  }

  lemma {:induction false} NonEmptyNothing(s: seq<string>)
    ensures NonEmpty(s) == [] <==> forall i :: 0 <= i < |s| ==> s[i] == ""
  {
    if s == [] {
    } else {
      NonEmptyNothing(s[1..]);
      assert forall i :: 1 <= i < |s| ==> s[i] == s[1..][i - 1];
    }
  }

  /** Every non-empty push is delivered exactly when no fetch comes too late for one. */
  lemma {:induction false} DeliveredCompletely(max: nat, log: seq<string>, es: seq<Event>)
    ensures |Delivered(max, log, es)| <= |NonEmpty(Offered(log, es))|
    ensures Delivered(max, log, es) == NonEmpty(Offered(log, es)) <==> NothingOverwritten(max, log, es)
    ensures |Delivered(max, log, es)| == |NonEmpty(Offered(log, es))| ==> NothingOverwritten(max, log, es)
    decreases |es|
  {
    if es == [] {
    } else {
      match es[0]
      case Push(text) =>
        DeliveredCompletely(max, log + [text], es[1..]);
      case Fetch =>
        LatestComplete(log, max);
        DeliveredCompletely(max, [], es[1..]);
        FilterAppend(IsNonEmpty, log, Offered([], es[1..]));
    }
  }

  /** In particular nothing is lost if at most `max` pushes fall between two fetches. */
  lemma {:induction false} TimelyFetchesLoseNothing(max: nat, log: seq<string>, es: seq<Event>)
    requires FetchedInTime(max, |log|, es)
    ensures NothingOverwritten(max, log, es)
    decreases |es|
  {
    if es == [] {
    } else {
      match es[0]
      case Push(text) => TimelyFetchesLoseNothing(max, log + [text], es[1..]);
      case Fetch => TimelyFetchesLoseNothing(max, [], es[1..]);
    }
  }
}
