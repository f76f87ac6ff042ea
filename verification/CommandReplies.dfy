/** What the message processor answers to the command requests in reports: toolbox/message_processor.go. */
module CommandReplies {
  import opened Text
  import opened StoreAndForward
  import opened CommandMemory

  /** The run is that of the call: its command, its arrival, and what the command gave. */
  predicate RunsCall(run: Execution, c: Call) {
    && run.command == c.request.command && run.receivedAt == c.arrival
    && run.output == c.output && run.duration == c.duration
  }

  /** The reply tells of the command of the call, its arrival, and what the command gave. */
  predicate RepliesWith(response: Response, c: Call) {
    && response.Response? && response.command == c.request.command && response.receivedAt == c.arrival
    && response.result == c.output && response.duration == c.duration
  }

  lemma {:induction false} ExecutesCall(s: State, e: Event, k: nat)
    requires s.max >= 1 && k < |Effects(s, e)| && Effects(s, e)[k].Executed?
    ensures e.Report? && Effects(s, e)[k].host == Host(e.call) && RunsCall(Effects(s, e)[k].run, e.call)
  {
  }

  /** Every execution is that of a call of its host: its command, arrival, output and duration are those of the call. */
  lemma {:induction false} ExecutedByCall(max: int, canRun: bool, es: seq<Event>, k: nat) returns (n: nat)
    requires max >= 1 && k < |Log(max, canRun, es)| && Log(max, canRun, es)[k].Executed?
    ensures n < |es| && es[n].Report? && Host(es[n].call) == Log(max, canRun, es)[k].host
    ensures RunsCall(Log(max, canRun, es)[k].run, es[n].call)
  {
    var front := es[..|es| - 1];
    var before := Log(max, canRun, front);
    if k < |before| {
      n := ExecutedByCall(max, canRun, front, k);
      assert es[n] == front[n];
    } else {
      n := |es| - 1;
      ExecutesCall(After(max, canRun, front), es[n], k - |before|);
    }
  }

  predicate Remembers(s: State, h: string, cmd: string) { h in s.incoming && s.incoming[h].command == cmd }

  predicate Executes(effects: seq<Effect>) { exists k :: 0 <= k < |effects| && effects[k].Executed? }

  /**
   * A call runs its command exactly if commands are run at all, there is one, the host does not remember it and it
   * does not invoke the processor again; and then the reply carries what the command gave.
   */
  lemma {:induction false} ExecutionReplied(s: State, c: Call)
    ensures var (_, response, effects) := Process(s, c);
      && (Executes(effects) <==>
            s.canRun && c.request.command != "" && !Remembers(s, Host(c), c.request.command)
            && !IsRecursive(c.request.command))
      && (Executes(effects) ==> RepliesWith(response, c))
  {
    var effects := Process(s, c).2;
    assert |effects| == 1 && effects[0].Executed? ==> Executes(effects);
  }

  /** A command that would invoke the processor again is refused, and a processor without commands does not reply. */
  lemma {:induction false} RefusalReplied(s: State, c: Call)
    ensures !s.canRun ==> Process(s, c) == (s, NoResponse, [])
    ensures s.canRun && c.request.command != "" && !Remembers(s, Host(c), c.request.command) && Invokes(c.request.command)
      ==> Process(s, c) == (s, Response(c.request.command, c.arrival, REFUSAL, 0), [])
  {
    RecursiveExactly(c.request.command);
  }

  /** The log before the command request of a call is looked at. */
  function LogBefore(max: int, es: seq<Event>, c: Call): seq<Effect>
    requires max >= 1
  {
    Log(max, true, es) + [Reported(Host(c), Stored(c))] + [Expired(Lapses(Remember(After(max, true, es), c), c))]
  }

  lemma {:induction false} TellsBefore(max: int, es: seq<Event>, c: Call)
    requires max >= 1
    ensures Tells(LogBefore(max, es, c), Keep(After(max, true, es), c))
  {
    var log, s := Log(max, true, es), After(max, true, es);
    LogJustified(max, true, es);
    ReportedTells(log, s, c);
    ScannedTells(log + [Reported(Host(c), Stored(c))], Remember(s, c), c);
  }

  /** Without a remembered run, every execution for the host was forgotten. */
  lemma {:induction false} NothingRemembered(log: seq<Effect>, j: nat, h: string, i: nat) returns (k: nat)
    requires i < j <= |log| && Memory(log[..j], h).run == None && log[i].Executed? && log[i].host == h
    ensures i < k < j && Touches(log[k], h)
    decreases j
  {
    assert log[..j][..j - 1] == log[..j - 1];
    if Touches(log[j - 1], h) {
      k := j - 1;
    } else {
      k := NothingRemembered(log, j - 1, h, i);
    }
  }

  /** The execution is the host's latest, and was not forgotten. */
  ghost predicate LatestRun(log: seq<Effect>, i: nat, h: string) {
    && i < |log| && log[i].Executed? && log[i].host == h
    && forall k :: i < k < |log| ==> !Touches(log[k], h)
  }

  /** The reply carries what the host's latest execution gave that was not forgotten; none if there is none. */
  ghost predicate AnswersLatest(response: Response, log: seq<Effect>, es: seq<Event>, h: string) {
    if response == NoResponse then forall i: nat :: !LatestRun(log, i, h)
    else exists i: nat, n: nat ::
      && LatestRun(log, i, h) && n < |es| && es[n].Report? && Host(es[n].call) == h
      && RunsCall(log[i].run, es[n].call) && RepliesWith(response, es[n].call)
  }

  lemma {:induction false} MemoryReplied(s: State, c: Call)
    requires s.canRun && (c.request.command == "" || Remembers(s, Host(c), c.request.command))
    ensures Process(s, c).1 == if Incoming(s, Host(c)) == None then NoResponse else AsResponse(Incoming(s, Host(c)).value)
  {
  }

  /**
   * A report without a command, or with the command that the host remembers, is answered with the command, arrival,
   * output and duration of the call whose execution is the host's latest and was not forgotten.
   */
  lemma {:induction false} MemoryReply(max: int, es: seq<Event>, c: Call)
    requires max >= 1 && Host(c) != ""
    requires c.request.command == "" || Remembers(Keep(After(max, true, es), c), Host(c), c.request.command)
    ensures AnswersLatest(Process(Keep(After(max, true, es), c), c).1, LogBefore(max, es, c), es, Host(c))
  {
    var s, log, h := Keep(After(max, true, es), c), LogBefore(max, es, c), Host(c);
    TellsBefore(max, es, c);
    MemoryReplied(s, c);
    assert log[..|log|] == log;
    assert Memory(log, h) == KnownOf(s, h);
    if Incoming(s, h) == None {
      NoLatestRun(log, h);
    } else {
      var i, n := LatestOrigin(max, es, c, log);
    }
  }

  lemma {:induction false} NoLatestRun(log: seq<Effect>, h: string)
    requires Memory(log, h).run == None
    ensures forall i: nat :: !LatestRun(log, i, h)
  {
    assert log[..|log|] == log;
    forall i: nat ensures !LatestRun(log, i, h) {
      if LatestRun(log, i, h) {
        var k := NothingRemembered(log, |log|, h, i);
      }
    }
  }

  lemma {:induction false} LatestOrigin(max: int, es: seq<Event>, c: Call, log: seq<Effect>) returns (i: nat, n: nat)
    requires max >= 1 && log == LogBefore(max, es, c) && Memory(log, Host(c)).run.Some?
    ensures LatestRun(log, i, Host(c)) && log[i].run == Memory(log, Host(c)).run.value
    ensures n < |es| && es[n].Report? && Host(es[n].call) == Host(c) && RunsCall(log[i].run, es[n].call)
  {
    var before := Log(max, true, es);
    assert log[..|log|] == log;
    i := MemoryOrigin(log, |log|, Host(c));
    assert i < |before| && log[i] == before[i];
    n := ExecutedByCall(max, true, es, i);
  }

  // Recursive commands

  predicate AllBlank(s: string) { forall i :: 0 <= i < |s| ==> s[i] in "\t\n\U{c}\r " }

  /** `s` begins with c, behind nothing but white space. */
  ghost predicate BlanksThen(s: string, c: char, rest: string) {
    exists gap :: AllBlank(gap) && s == gap + [c] + rest
  }

  /** .0m, an opening brace and a quote, with nothing but white space in between. */
  ghost predicate Invokes(cmd: string) {
    exists before, first, second, rest ::
      cmd == before + ".0m" + first && BlanksThen(first, '{', second) && BlanksThen(second, '"', rest)
  }

  lemma {:induction false} SkipsBlanks(s: string, c: char, rest: string)
    requires c !in "\t\n\U{c}\r "
    ensures BlanksThen(s, c, rest) <==> SkipSpaces(s) == [c] + rest
  {
    if s == "" {
    } else if s[0] in "\t\n\U{c}\r " {
      SkipsBlanks(s[1..], c, rest);
      if BlanksThen(s[1..], c, rest) {
        var gap :| AllBlank(gap) && s[1..] == gap + [c] + rest;
        assert AllBlank([s[0]] + gap) && s == [s[0]] + gap + [c] + rest;
      }
      if BlanksThen(s, c, rest) {
        var gap :| AllBlank(gap) && s == gap + [c] + rest;
        assert gap != "" && s[1..] == gap[1..] + [c] + rest;
        assert AllBlank(gap[1..]);
      }
    } else {
      if BlanksThen(s, c, rest) {
        var gap :| AllBlank(gap) && s == gap + [c] + rest;
        assert s[0] == (gap + [c])[0];
        assert s == [c] + rest;
      }
      if s == [c] + rest {
        assert AllBlank("") && s == "" + [c] + rest;
      }
    }
  }

  lemma {:induction false} RecursiveInvokes(cmd: string, i: nat)
    requires i <= |cmd| && InvokesProcessorAt(cmd[i..])
    ensures Invokes(cmd)
  {
    var first := cmd[i..][3..];
    var t := SkipSpaces(first);
    var u := SkipSpaces(t[1..]);
    assert t == ['{'] + t[1..] && u == ['"'] + u[1..];
    SkipsBlanks(first, '{', t[1..]);
    SkipsBlanks(t[1..], '"', u[1..]);
    assert cmd == cmd[..i] + ".0m" + first;
  }

  lemma {:induction false} InvokesAt(s: string, first: string, second: string, rest: string)
    requires s == ".0m" + first && BlanksThen(first, '{', second) && BlanksThen(second, '"', rest)
    ensures InvokesProcessorAt(s)
  {
    SkipsBlanks(first, '{', second);
    SkipsBlanks(second, '"', rest);
    assert s[3..] == first && (['{'] + second)[1..] == second;
  }

  /** A command is refused exactly if it contains .0m, an opening brace and a quote, with white space in between. */
  lemma {:induction false} RecursiveExactly(cmd: string)
    ensures IsRecursive(cmd) <==> Invokes(cmd)
  {
    if IsRecursive(cmd) {
      var i :| 0 <= i <= |cmd| && InvokesProcessorAt(cmd[i..]);
      RecursiveInvokes(cmd, i);
    }
    if Invokes(cmd) {
      var before, first, second, rest :|
        cmd == before + ".0m" + first && BlanksThen(first, '{', second) && BlanksThen(second, '"', rest);
      assert cmd[|before|..] == ".0m" + first;
      InvokesAt(cmd[|before|..], first, second, rest);
    }
  }
}
