/**
 * The store-and-forward message processor: toolbox/message_processor.go. Clock readings and the outcome of
 * the command processor are inputs; times are in nanoseconds.
 */
module StoreAndForward {
  import opened Text
  import CompactReport

  const SECOND := 1_000_000_000
  const RETENTION := 3000 * SECOND
  const EXPIRY := 72 * 3600 * SECOND
  const DEFAULT_MAX_REPORTS := 864

  /** SubjectReport; the request carries the normalised host name. */
  datatype StoredReport = StoredReport(
    request: CompactReport.Report, clientID: string, serverTime: int, daemonName: string)

  /** IncomingAppCommand: the command, when it was received, its output and its run duration. */
  datatype Execution = Execution(command: string, receivedAt: int, output: string, duration: int)

  /** The answer to the command request in a report. */
  datatype Response = NoResponse | Response(command: string, receivedAt: int, result: string, duration: int)

  const REFUSAL := "error: will not run a recursive store&forward command"

  /**
   * A call of StoreReport with what it reads from the clock: at the arrival, for each subject during the
   * expiry scan, and before a replay. `output` and `duration` come from the command, should it run.
   */
  datatype Call = Call(
    request: CompactReport.Report, clientID: string, daemonName: string,
    arrival: int, scanTime: string -> int, replayTime: int, output: string, duration: int)

  datatype State = State(
    max: int,
    canRun: bool,
    reports: map<string, seq<StoredReport>>,
    incoming: map<string, Execution>,
    outgoing: map<string, string>,
    total: int)

  // The report history

  function Host(c: Call): string { TrimSpace(ToLower(c.request.hostName)) }

  function Stored(c: Call): StoredReport {
    StoredReport(c.request.(hostName := Host(c)), c.clientID, c.arrival, c.daemonName)
  }

  function Push(list: seq<StoredReport>, r: StoredReport, max: int): seq<StoredReport> {
    (if |list| == max && list != [] then list[1..] else list) + [r]
  }

  function Remember(s: State, c: Call): State {
    var list := if Host(c) in s.reports then s.reports[Host(c)] else [];
    s.(reports := s.reports[Host(c) := Push(list, Stored(c), s.max)], total := s.total + 1)
  }

  /** The latest report is older than the expiry time allows. */
  predicate Stale(list: seq<StoredReport>, now: int) {
    list != [] && list[|list| - 1].serverTime < now - EXPIRY
  }

  function ExpiredHosts(s: State, c: Call): set<string> {
    set h | h in s.reports && Stale(s.reports[h], c.scanTime(h))
  }

  function Forget(s: State, hosts: set<string>): State {
    s.(reports := s.reports - hosts, incoming := s.incoming - hosts, outgoing := s.outgoing - hosts)
  }

  predicate ScanDue(s: State)
    requires s.max >= 1
  {
    s.total % s.max == 0
  }

  function Scanned(s: State, c: Call): set<string>
    requires s.max >= 1
  {
    if ScanDue(s) then ExpiredHosts(s, c) else {}
  }

  function Keep(s: State, c: Call): State
    requires s.max >= 1
  {
    var t := Remember(s, c);
    Forget(t, Scanned(t, c))
  }

  /** The latest report of a host that expires, and the reading of the clock against which it is stale. */
  datatype Lapse = Lapse(latest: StoredReport, reading: int)

  function Lapses(s: State, c: Call): (r: map<string, Lapse>)
    requires s.max >= 1
    ensures r.Keys == Scanned(s, c)
  {
    map h | h in Scanned(s, c) :: Lapse(s.reports[h][|s.reports[h]| - 1], c.scanTime(h))
  }

  // Commands

  function SkipSpaces(s: string): string {
    if s != "" && s[0] in "\t\n\U{c}\r " then SkipSpaces(s[1..]) else s
  }

  predicate InvokesProcessorAt(s: string) {
    && ".0m" <= s
    && var t := SkipSpaces(s[3..]);
       t != "" && t[0] == '{' && var u := SkipSpaces(t[1..]); u != "" && u[0] == '"'
  }

  /** RegexNoRecursion: .0m followed by an opening brace and a quote, with white space in between. */
  predicate IsRecursive(cmd: string) {
    exists i :: 0 <= i <= |cmd| && InvokesProcessorAt(cmd[i..])
  }

  /** What happens to the memory of a host, in order; an erasure carries the run and the reading of the clock. */
  datatype Effect =
    | Reported(host: string, report: StoredReport)
    | Expired(lapses: map<string, Lapse>)
    | Executed(host: string, run: Execution)
    | Replayed(host: string, asked: string, response: Response)
    | Erased(host: string, run: Execution, reading: int)

  function AsResponse(e: Execution): Response { Response(e.command, e.receivedAt, e.output, e.duration) }

  function Incoming(s: State, h: string): Option<Execution> {
    if h in s.incoming then Some(s.incoming[h]) else None
  }

  predicate ReplaysMemory(s: State, c: Call) {
    c.request.command == "" || (Host(c) in s.incoming && s.incoming[Host(c)].command == c.request.command)
  }

  predicate Overdue(e: Execution, now: int) { e.receivedAt < now - RETENTION }

  function RunOf(c: Call): Execution { Execution(c.request.command, c.arrival, c.output, c.duration) }

  /** processCommandRequest: the new state, the response, and the effects on the memory. */
  function Process(s: State, c: Call): (State, Response, seq<Effect>) {
    var h, cmd := Host(c), c.request.command;
    if !s.canRun then (s, NoResponse, [])
    else if ReplaysMemory(s, c) then
      match Incoming(s, h)
      case None => (s, NoResponse, [])
      case Some(e) =>
        if Overdue(e, c.replayTime)
        then (s.(incoming := s.incoming - {h}), AsResponse(e),
              [Replayed(h, cmd, AsResponse(e)), Erased(h, e, c.replayTime)])
        else (s, AsResponse(e), [Replayed(h, cmd, AsResponse(e))])
    else if IsRecursive(cmd) then (s, Response(cmd, c.arrival, REFUSAL, 0), [])
    else (s.(incoming := s.incoming[h := RunOf(c)]), AsResponse(RunOf(c)), [Executed(h, RunOf(c))])
  }

  // Runs

  datatype Event = Report(call: Call) | SetOutgoing(host: string, cmd: string)

  function Step(s: State, e: Event): State
    requires s.max >= 1
  {
    match e
    case SetOutgoing(host, cmd) => s.(outgoing := s.outgoing[ToLower(host) := cmd])
    case Report(c) => if Host(c) == "" then s else Process(Keep(s, c), c).0
  }

  function Effects(s: State, e: Event): seq<Effect>
    requires s.max >= 1
  {
    match e
    case SetOutgoing(_, _) => []
    case Report(c) =>
      if Host(c) == "" then []
      else
        [Reported(Host(c), Stored(c)), Expired(Lapses(Remember(s, c), c))] + Process(Keep(s, c), c).2
  }

  function Initial(max: int, canRun: bool): State { State(max, canRun, map[], map[], map[], 0) }

  /** The state after a sequential run. */
  function After(max: int, canRun: bool, es: seq<Event>): (s: State)
    requires max >= 1
    ensures s.max == max && s.canRun == canRun
  {
    if es == [] then Initial(max, canRun) else Step(After(max, canRun, es[..|es| - 1]), es[|es| - 1])
  }

  function Log(max: int, canRun: bool, es: seq<Event>): seq<Effect>
    requires max >= 1
  {
    if es == [] then []
    else
      var front := es[..|es| - 1];
      Log(max, canRun, front) + Effects(After(max, canRun, front), es[|es| - 1])
  }

  // The report history against an unbounded history

  predicate IsReport(e: Event) { e.Report? && Host(e.call) != "" }

  function ReportCount(es: seq<Event>): nat {
    if es == [] then 0 else ReportCount(es[..|es| - 1]) + if IsReport(es[|es| - 1]) then 1 else 0
  }

  /** What a report is kept as: with the host name normalised, and the arrival as its time. */
  function Kept(c: Call, h: string): StoredReport {
    StoredReport(c.request.(hostName := h), c.clientID, c.arrival, c.daemonName)
  }

  /** All reports of a host since it was first seen or last expired. */
  function History(max: int, es: seq<Event>, h: string): seq<StoredReport>
    requires max >= 1
  {
    if es == [] then []
    else
      var before, e := History(max, es[..|es| - 1], h), es[|es| - 1];
      if !IsReport(e) then before
      else
        var now := before + if h == Host(e.call) then [Kept(e.call, h)] else [];
        if ReportCount(es) % max == 0 && Stale(now, e.call.scanTime(h)) then [] else now
  }

  lemma {:induction false} PushKeepsLatest(all: seq<StoredReport>, r: StoredReport, max: int)
    requires max >= 1
    ensures Push(LastN(all, max), r, max) == LastN(all + [r], max)
  {
    if |all| >= max {
      assert LastN(all, max) == all[|all| - max..];
      assert LastN(all + [r], max) == all[|all| - max + 1..] + [r];
      assert all[|all| - max..][1..] == all[|all| - max + 1..];
    } else {
      assert LastN(all, max) == all;
    }
  }

  /** The bounded list of a host, empty if there is none. */
  function Listed(s: State, h: string): seq<StoredReport> { if h in s.reports then s.reports[h] else [] }

  ghost predicate Matches(s: State, all: seq<StoredReport>, h: string)
    requires s.max >= 1
  {
    && Listed(s, h) == LastN(all, s.max)
    && (h in s.reports <==> all != [])
  }

  lemma {:induction false} RememberKeepsMatch(s: State, c: Call, h: string, all: seq<StoredReport>)
    requires s.max >= 1 && Matches(s, all, h)
    ensures Matches(Remember(s, c), all + if h == Host(c) then [Stored(c)] else [], h)
  {
    PushKeepsLatest(all, Stored(c), s.max);
    assert all + [] == all;
  }

  lemma {:induction false} ScanKeepsMatch(t: State, c: Call, h: string, now: seq<StoredReport>)
    requires t.max >= 1 && Matches(t, now, h)
    ensures Matches(Forget(t, Scanned(t, c)), if ScanDue(t) && Stale(now, c.scanTime(h)) then [] else now, h)
  {
    assert now != [] ==> LastN(now, t.max)[|LastN(now, t.max)| - 1] == now[|now| - 1];
    assert h in ExpiredHosts(t, c) <==> Stale(now, c.scanTime(h));
  }

  lemma {:induction false} ReportKeepsMatch(s: State, c: Call, h: string, all: seq<StoredReport>)
    requires s.max >= 1 && Matches(s, all, h)
    ensures var now := all + if h == Host(c) then [Stored(c)] else [];
      Matches(Keep(s, c), if ScanDue(Remember(s, c)) && Stale(now, c.scanTime(h)) then [] else now, h)
  {
    var t, now := Remember(s, c), all + if h == Host(c) then [Stored(c)] else [];
    RememberKeepsMatch(s, c, h, all);
    ScanKeepsMatch(t, c, h, now);
  }

  lemma {:induction false} ProcessKeepsReports(s: State, c: Call)
    ensures Process(s, c).0.reports == s.reports && Process(s, c).0.total == s.total
  {
  }

  lemma {:induction false} TotalCounts(max: int, canRun: bool, es: seq<Event>)
    requires max >= 1
    ensures After(max, canRun, es).total == ReportCount(es)
  {
    if es == [] {
    } else {
      var front, e := es[..|es| - 1], es[|es| - 1];
      TotalCounts(max, canRun, front);
      if IsReport(e) {
        ProcessKeepsReports(Keep(After(max, canRun, front), e.call), e.call);
      }
    }
  }

  /**
   * In every reachable state a host is known exactly if it has reports since it was first seen or last
   * expired, and its list is the latest of them, as many as the limit allows.
   */
  lemma {:induction false} ReportsAreLatest(max: int, canRun: bool, es: seq<Event>, h: string)
    requires max >= 1
    ensures Matches(After(max, canRun, es), History(max, es, h), h)
  {
    if es == [] {
    } else {
      var front, e := es[..|es| - 1], es[|es| - 1];
      ReportsAreLatest(max, canRun, front, h);
      if IsReport(e) {
        var s := After(max, canRun, front);
        TotalCounts(max, canRun, front);
        assert Remember(s, e.call).total == ReportCount(es);
        ReportKeepsMatch(s, e.call, h, History(max, front, h));
        ProcessKeepsReports(Keep(s, e.call), e.call);
        assert Matches(Keep(s, e.call), History(max, es, h), h);
      }
    }
  }

  /** The host that just reported survives the scan unless the clock jumped by the expiry time within the call. */
  lemma {:induction false} ReporterSurvives(s: State, c: Call)
    requires s.max >= 1 && Host(c) != ""
    ensures Host(c) in Step(s, Report(c)).reports <==>
      ((s.total + 1) % s.max == 0 ==> c.scanTime(Host(c)) - EXPIRY <= c.arrival)
  {
    var t := Remember(s, c);
    ProcessKeepsReports(Keep(s, c), c);
    assert t.reports[Host(c)][|t.reports[Host(c)]| - 1] == Stored(c);
  }

  /** No call of the run lasts as long as the expiry time. */
  ghost predicate Prompt(es: seq<Event>) {
    forall i :: 0 <= i < |es| && es[i].Report? ==> es[i].call.scanTime(Host(es[i].call)) - EXPIRY <= es[i].call.arrival
  }

  /** Hosts with a remembered command are among the hosts with reports. */
  lemma {:induction false} CommandsHaveReports(max: int, canRun: bool, es: seq<Event>)
    requires max >= 1 && Prompt(es)
    ensures After(max, canRun, es).incoming.Keys <= After(max, canRun, es).reports.Keys
  {
    if es == [] {
    } else {
      var front, e := es[..|es| - 1], es[|es| - 1];
      assert Prompt(front);
      CommandsHaveReports(max, canRun, front);
      if IsReport(e) {
        var s := After(max, canRun, front);
        ReporterSurvives(s, e.call);
        ProcessKeepsReports(Keep(s, e.call), e.call);
        assert Remember(s, e.call).incoming == s.incoming;
        assert Keep(s, e.call).incoming.Keys <= Keep(s, e.call).reports.Keys;
      }
    }
  }

  // The order of the stored reports

  /** The clock does not run backwards from one report to the next. */
  ghost predicate Chronological(es: seq<Event>) {
    forall i, j :: 0 <= i < j < |es| && es[i].Report? && es[j].Report? ==> es[i].call.arrival <= es[j].call.arrival
  }

  predicate Ascending(list: seq<StoredReport>) {
    forall i, j :: 0 <= i < j < |list| ==> list[i].serverTime <= list[j].serverTime
  }

  /** No report of the history is later than all arrivals. */
  lemma {:induction false} HistoryBefore(max: int, es: seq<Event>, h: string, t: int)
    requires max >= 1 && forall i :: 0 <= i < |es| && es[i].Report? ==> es[i].call.arrival <= t
    ensures forall k :: 0 <= k < |History(max, es, h)| ==> History(max, es, h)[k].serverTime <= t
  {
    if es == [] {
    } else {
      HistoryBefore(max, es[..|es| - 1], h, t);
    }
  }

  lemma {:induction false} HistoryAscending(max: int, es: seq<Event>, h: string)
    requires max >= 1 && Chronological(es)
    ensures Ascending(History(max, es, h))
  {
    if es == [] {
    } else {
      var front, e := es[..|es| - 1], es[|es| - 1];
      HistoryAscending(max, front, h);
      if e.Report? {
        HistoryBefore(max, front, h, e.call.arrival);
      }
    }
  }

  /** With a clock that does not run backwards, every stored list is in ascending order of time. */
  lemma {:induction false} ListsAscending(max: int, canRun: bool, es: seq<Event>, h: string)
    requires max >= 1 && Chronological(es)
    ensures Ascending(Listed(After(max, canRun, es), h))
  {
    HistoryAscending(max, es, h);
    ReportsAreLatest(max, canRun, es, h);
  }

  // Host names

  /** A host is known by its name in lower case, without the white space around it. */
  lemma {:induction false} HostName(c: Call, left: string, name: string, right: string)
    requires c.request.hostName == left + name + right && AllSpace(left) && AllSpace(right) && NoSpaceAround(name)
    ensures Host(c) == ToLower(name)
  {
    assert ToLower(left + name + right) == left + ToLower(name) + right;
    assert ToLower(name) != "" ==> ToLower(name)[0] == LowerChar(name[0]);
    TrimPadded(left, ToLower(name), right);
  }

  // Pending commands

  /** No scan of the run from s removes the host. */
  predicate NeverScanned(max: int, canRun: bool, es: seq<Event>, n: nat, h: string)
    requires max >= 1 && n <= |es|
  {
    forall k :: n <= k < |es| && IsReport(es[k]) ==>
      h !in Scanned(Remember(After(max, canRun, es[..k]), es[k].call), es[k].call)
  }

  lemma {:induction false} KeepsPending(s: State, e: Event, h: string)
    requires s.max >= 1 && h in s.outgoing
    requires e.SetOutgoing? ==> ToLower(e.host) != h
    requires IsReport(e) ==> h !in Scanned(Remember(s, e.call), e.call)
    ensures h in Step(s, e).outgoing && Step(s, e).outgoing[h] == s.outgoing[h]
  {
  }

  /**
   * A pending command is the one set last for the host, in any case of letters, until the host expires: it is what
   * every report of the host is answered with.
   */
  lemma {:induction false} PendingIsLatest(max: int, canRun: bool, es: seq<Event>, n: nat, h: string)
    requires max >= 1 && n < |es| && es[n].SetOutgoing? && ToLower(es[n].host) == h
    requires forall k :: n < k < |es| && es[k].SetOutgoing? ==> ToLower(es[k].host) != h
    requires NeverScanned(max, canRun, es, n, h)
    ensures h in After(max, canRun, es).outgoing && After(max, canRun, es).outgoing[h] == es[n].cmd
  {
    var front, e := es[..|es| - 1], es[|es| - 1];
    if n == |es| - 1 {
    } else {
      assert forall k :: 0 <= k < |front| ==> front[k] == es[k] && front[..k] == es[..k];
      PendingIsLatest(max, canRun, front, n, h);
      KeepsPending(After(max, canRun, front), e, h);
    }
  }

  /** A host that expires loses its pending command. */
  lemma {:induction false} ExpiredHasNonePending(s: State, c: Call, h: string)
    requires s.max >= 1 && Host(c) != "" && h in Scanned(Remember(s, c), c)
    ensures h !in Step(s, Report(c)).outgoing
  {
  }

  /** A scan is due with every max-th report, and then exactly the hosts expire whose latest report is too old. */
  lemma {:induction false} ExpiresExactly(s: State, c: Call, h: string)
    requires s.max >= 1 && Host(c) != "" && h in Remember(s, c).reports && Remember(s, c).reports[h] != []
    ensures var list := Remember(s, c).reports[h];
      h !in Step(s, Report(c)).reports <==>
      (s.total + 1) % s.max == 0 && list[|list| - 1].serverTime < c.scanTime(h) - EXPIRY
  {
    ProcessKeepsReports(Keep(s, c), c);
  }
}
