/** MessageProcessor of toolbox/message_processor.go as an object; every method runs to its end before the next. */
module MessageProcessor {
  import opened Text
  import opened StoreAndForward
  import opened ReportMerge

  class MessageProcessor {
    var subjectReports: map<string, seq<StoredReport>>
    var incomingAppCommands: map<string, Execution>
    var outgoingAppCommands: map<string, string>
    var maxReportsPerHostName: int
    var totalReports: int
    const canRun: bool

    function Contents(): State
      reads this
    {
      State(maxReportsPerHostName, canRun, subjectReports, incomingAppCommands, outgoingAppCommands, totalReports)
    }

    ghost predicate Valid()
      reads this
    {
      maxReportsPerHostName >= 1 && forall h :: h in subjectReports ==> subjectReports[h] != []
    }

    /** Initialise. */
    constructor (maxReports: int, canRun: bool)
      ensures Valid() && Contents() == Initial(if maxReports < 1 then DEFAULT_MAX_REPORTS else maxReports, canRun)
    {
      maxReportsPerHostName := if maxReports < 1 then DEFAULT_MAX_REPORTS else maxReports;
      subjectReports, incomingAppCommands, outgoingAppCommands := map[], map[], map[];
      totalReports := 0;
      this.canRun := canRun;
    }

    method SetOutgoingCommand(hostName: string, cmdContent: string)
      requires Valid()
      modifies `outgoingAppCommands
      ensures Valid() && Contents() == Step(old(Contents()), SetOutgoing(hostName, cmdContent))
    {
      var host := ToLower(hostName);
      if cmdContent == "" {
        outgoingAppCommands := outgoingAppCommands - {host};
      }
      outgoingAppCommands := outgoingAppCommands[host := cmdContent];
    }

    /** removeExpiredSubjects. */
    method RemoveExpiredSubjects(c: Call)
      requires Valid()
      modifies `subjectReports, `incomingAppCommands, `outgoingAppCommands
      ensures Valid() && Contents() == Forget(old(Contents()), ExpiredHosts(old(Contents()), c))
    {
      var todo, subjectsToRemove := subjectReports.Keys, {};
      while todo != {}
        invariant todo <= subjectReports.Keys
        invariant subjectsToRemove ==
          set h | h in subjectReports && h !in todo && Stale(subjectReports[h], c.scanTime(h))
        decreases todo
      {
        var subject :| subject in todo;
        todo := todo - {subject};
        var latestReport := subjectReports[subject][|subjectReports[subject]| - 1];
        if latestReport.serverTime < c.scanTime(subject) - EXPIRY {
          subjectsToRemove := subjectsToRemove + {subject};
        }
      }
      assert subjectsToRemove == ExpiredHosts(Contents(), c);
      subjectReports := subjectReports - subjectsToRemove;
      incomingAppCommands := incomingAppCommands - subjectsToRemove;
      outgoingAppCommands := outgoingAppCommands - subjectsToRemove;
    }

    /** The part of StoreReport that holds the lock. */
    method RecordReport(c: Call)
      requires Valid()
      modifies `subjectReports, `incomingAppCommands, `outgoingAppCommands, `totalReports
      ensures Valid() && Contents() == Keep(old(Contents()), c)
    {
      var host := Host(c);
      var reports := if host in subjectReports then subjectReports[host] else [];
      if |reports| == maxReportsPerHostName {
        reports := reports[1..];
      }
      reports := reports + [Stored(c)];
      subjectReports := subjectReports[host := reports];
      totalReports := totalReports + 1;
      ghost var s := Contents();
      assert s == Remember(old(Contents()), c);
      if totalReports % maxReportsPerHostName == 0 {
        RemoveExpiredSubjects(c);
      } else {
        assert Forget(s, {}) == s;
      }
    }

    /** processCommandRequest. */
    method ProcessCommandRequest(c: Call) returns (resp: Response)
      requires Valid()
      modifies `incomingAppCommands
      ensures Valid() && Contents() == Process(old(Contents()), c).0
      ensures resp == Process(old(Contents()), c).1
    {
      resp := NoResponse;
      if !canRun {
        return;
      }
      var host, appCmd := Host(c), c.request.command;
      var hasPrevious := host in incomingAppCommands;
      if appCmd == "" || (hasPrevious && incomingAppCommands[host].command == appCmd) {
        if hasPrevious {
          var prevCmd := incomingAppCommands[host];
          if prevCmd.receivedAt < c.replayTime - RETENTION {
            incomingAppCommands := incomingAppCommands - {host};
          }
          resp := Response(prevCmd.command, prevCmd.receivedAt, prevCmd.output, prevCmd.duration);
        }
      } else {
        if IsRecursive(appCmd) {
          resp := Response(appCmd, c.arrival, REFUSAL, 0);
          return;
        }
        // A duration of -1 tells that the result is not available yet.
        incomingAppCommands := incomingAppCommands[host := Execution(appCmd, c.arrival, "", -1)];
        incomingAppCommands := incomingAppCommands[host := Execution(appCmd, c.arrival, c.output, c.duration)];
        resp := Response(appCmd, c.arrival, c.output, c.duration);
      }
    }

    /** StoreReport: the reply holds the pending command for the host and the answer to its command request. */
    method StoreReport(c: Call) returns (pending: string, resp: Response)
      requires Valid()
      modifies this
      ensures Valid() && Contents() == Step(old(Contents()), Report(c))
      ensures Host(c) == "" ==> pending == "" && resp == NoResponse
      ensures Host(c) != "" ==>
        var s := Keep(old(Contents()), c);
        && pending == (if Host(c) in s.outgoing then s.outgoing[Host(c)] else "")
        && resp == Process(s, c).1
    {
      pending, resp := "", NoResponse;
      if Host(c) == "" {
        return;
      }
      RecordReport(c);
      if Host(c) in outgoingAppCommands {
        pending := outgoingAppCommands[Host(c)];
      }
      resp := ProcessCommandRequest(c);
    }

    /** GetLatestReportsFromSubject: the tail of the stored list, latest first. */
    method GetLatestReportsFromSubject(hostName: string, maxLimit: int) returns (ret: seq<StoredReport>)
      requires Valid()
      ensures ret == if maxLimit < 1 then [] else Reversed(LastN(Listed(Contents(), ToLower(hostName)), maxLimit))
    {
      var host := ToLower(hostName);
      ret := [];
      if maxLimit < 1 || host !in subjectReports {
        return;
      }
      var reports := subjectReports[host];
      var tail := if |reports| > maxLimit then reports[|reports| - maxLimit..] else reports;
      ret := ReverseByHalves(tail);
    }

    /** GetLatestReports. */
    method GetLatestReports(maxLimit: int)
      returns (ret: seq<StoredReport>, ghost picks: seq<Pick>, ghost taken: map<string, int>)
      requires Valid()
      ensures TakenFromTheEnd(subjectReports, picks, taken) && Fair(subjectReports, taken)
      ensures LatestFirst(ret) && multiset(ret) == multiset(Fetch(subjectReports, picks))
      ensures |picks| == |ret| == if maxLimit < 1 then 0 else Min(maxLimit, |Slots(subjectReports)|)
    {
      ret, picks, taken := ReportMerge.GetLatestReports(subjectReports, maxLimit);
    }
  }

  /** The reversal loop of GetLatestReportsFromSubject: it swaps opposite elements, from the middle outwards. */
  method ReverseByHalves<T>(s: seq<T>) returns (ret: seq<T>)
    ensures ret == Reversed(s)
  {
    ret := s;
    var i := |s| / 2 - 1;
    while i >= 0
      invariant -1 <= i <= |s| / 2 - 1 && |ret| == |s|
      invariant forall j :: i < j < |s| - 1 - i ==> ret[j] == s[|s| - 1 - j]
      invariant forall j :: 0 <= j < |s| && (j <= i || j >= |s| - 1 - i) ==> ret[j] == s[j]
    {
      var opp := |s| - 1 - i;
      ret := ret[i := ret[opp]][opp := ret[i]];
      i := i - 1;
    }
  }
}
