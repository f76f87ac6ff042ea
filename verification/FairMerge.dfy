/** When the fair merge of GetLatestReports returns the latest reports of all subjects, whatever the visiting order. */
module FairMerge {
  import opened Text
  import opened StoreAndForward
  import opened ReportMerge

  type Taken = map<string, int>

  // Visiting orders

  /** The subject has reports left, and of all such subjects none has given fewer. */
  predicate MayVisit(reports: Reports, taken: Taken, h: string)
    requires taken.Keys == reports.Keys
  {
    && h in reports && taken[h] < |reports[h]|
    && forall g :: g in reports && taken[g] < |reports[g]| ==> taken[h] <= taken[g]
  }

  /** The subjects a round has still to ask are exactly those that may be visited. */
  lemma {:induction false} NextSubjects(reports: Reports, index: map<string, int>, taken: Taken, round: int,
                                        todo: set<string>, spent: set<string>, h: string)
    requires InRound(reports, index, taken, round, todo, spent) && todo != {}
    ensures h in todo <==> MayVisit(reports, taken, h)
  {
    var first :| first in todo;
    forall g | g in reports && taken[g] < |reports[g]| ensures if g in todo then taken[g] == round else taken[g] > round {
      assert g in todo || g in index.Keys - todo - spent || g in spent || g in reports.Keys - index.Keys;
    }
  }

  /** Asking the subjects in the order of the visits, one report each time, takes so many from each. */
  ghost predicate IsOrder(reports: Reports, visits: seq<string>, taken: Taken) {
    if visits == [] then taken == map h | h in reports :: 0
    else
      var front, h := visits[..|visits| - 1], visits[|visits| - 1];
      && taken.Keys == reports.Keys && h in taken
      && IsOrder(reports, front, taken[h := taken[h] - 1]) && MayVisit(reports, taken[h := taken[h] - 1], h)
  }

  lemma {:induction false} OrderIsFair(reports: Reports, visits: seq<string>, taken: Taken)
    requires IsOrder(reports, visits, taken)
    ensures Counts(reports, taken) && Fair(reports, taken)
  {
    if visits == [] {
    } else {
      var front, h := visits[..|visits| - 1], visits[|visits| - 1];
      OrderIsFair(reports, front, taken[h := taken[h] - 1]);
    }
  }

  lemma {:induction false} MostServed(hosts: set<string>, taken: Taken) returns (g: string)
    requires hosts != {} && hosts <= taken.Keys
    ensures g in hosts && forall h :: h in hosts ==> taken[h] <= taken[g]
  {
    g :| g in hosts;
    var rest := hosts - {g};
    if rest == {} {
      assert hosts == {g};
    } else {
      var other := MostServed(rest, taken);
      if taken[other] > taken[g] {
        g := other;
      }
    }
  }

  /** The slots a merge takes from the ends of the lists. */
  function TakenSlots(reports: Reports, taken: Taken): (r: set<Pick>)
    requires taken.Keys == reports.Keys
    ensures r <= Slots(reports)
  {
    set p | p in Slots(reports) && Depth(reports, p) <= taken[p.0]
  }

  /** The place of a report counted from the end of its list: the latest has depth one. */
  function Depth(reports: Reports, p: Pick): int
    requires p.0 in reports
  {
    |reports[p.0]| - p.1
  }

  lemma {:induction false} SmallerSet<T>(a: set<T>, b: set<T>)
    requires a < b
    ensures |a| < |b|
  {
    assert b == a + (b - a);
  }

  lemma {:induction false} OneFewer(reports: Reports, taken: Taken, g: string)
    requires Counts(reports, taken) && g in reports && taken[g] > 0
    ensures |TakenSlots(reports, taken[g := taken[g] - 1])| < |TakenSlots(reports, taken)|
  {
    var p := (g, |reports[g]| - taken[g]);
    assert p in TakenSlots(reports, taken) && p !in TakenSlots(reports, taken[g := taken[g] - 1]);
    SmallerSet(TakenSlots(reports, taken[g := taken[g] - 1]), TakenSlots(reports, taken));
  }

  lemma {:induction false} UnvisitMostServed(reports: Reports, taken: Taken, g: string)
    requires Counts(reports, taken) && Fair(reports, taken) && g in reports && taken[g] > 0
    requires forall h :: h in reports ==> taken[h] <= taken[g]
    ensures var t := taken[g := taken[g] - 1]; Counts(reports, t) && Fair(reports, t) && MayVisit(reports, t, g)
  {
  }

  lemma {:induction false} FairHasOrder(reports: Reports, taken: Taken) returns (visits: seq<string>)
    requires Counts(reports, taken) && Fair(reports, taken)
    ensures IsOrder(reports, visits, taken)
    decreases |TakenSlots(reports, taken)|
  {
    if forall h :: h in reports ==> taken[h] == 0 {
      visits := [];
    } else {
      var g := MostServed(reports.Keys, taken);
      OneFewer(reports, taken, g);
      UnvisitMostServed(reports, taken, g);
      var front := FairHasOrder(reports, taken[g := taken[g] - 1]);
      visits := front + [g];
      assert visits[..|visits| - 1] == front;
    }
  }

  /** Some visiting order leads to the numbers of reports taken. */
  ghost predicate HasOrder(reports: Reports, taken: Taken) {
    exists visits :: IsOrder(reports, visits, taken)
  }

  /** The numbers of reports taken are fair exactly if some visiting order leads to them. */
  lemma {:induction false} FairExactly(reports: Reports, taken: Taken)
    ensures HasOrder(reports, taken) <==> Counts(reports, taken) && Fair(reports, taken)
  {
    if HasOrder(reports, taken) {
      var visits :| IsOrder(reports, visits, taken);
      OrderIsFair(reports, visits, taken);
    } else if Counts(reports, taken) && Fair(reports, taken) {
      var visits := FairHasOrder(reports, taken);
    }
  }

  // Full rounds

  /** What the first so many full rounds take. */
  function UpTo(reports: Reports, rounds: int): (r: set<Pick>)
    ensures r <= Slots(reports)
  {
    set p | p in Slots(reports) && Depth(reports, p) <= rounds
  }

  /** So many rounds are completed within the limit, and one more is not. */
  ghost predicate FullRounds(reports: Reports, limit: int, rounds: nat) {
    |UpTo(reports, rounds)| <= limit < |UpTo(reports, rounds + 1)|
  }

  /** What some visiting order may take: the full rounds, and the next level if the limit goes into it. */
  ghost predicate MayTake(reports: Reports, limit: int, rounds: nat, p: Pick) {
    && p in Slots(reports)
    && (Depth(reports, p) <= rounds || (Depth(reports, p) == rounds + 1 && |UpTo(reports, rounds)| < limit))
  }

  /** What some visiting order leaves behind: everything beyond the full rounds. */
  predicate MayLeave(reports: Reports, rounds: nat, p: Pick) {
    p in Slots(reports) && Depth(reports, p) > rounds
  }

  function Time(reports: Reports, p: Pick): int
    requires p in Slots(reports)
  {
    reports[p.0][p.1].serverTime
  }

  /** Nothing the rounds may leave behind is later than something they may take. */
  ghost predicate RoundsTakeLatest(reports: Reports, limit: int) {
    forall rounds: nat, p, q ::
      FullRounds(reports, limit, rounds) && MayTake(reports, limit, rounds, p) && MayLeave(reports, rounds, q) ==>
      Time(reports, q) <= Time(reports, p)
  }

  function Quota(reports: Reports, limit: int): int {
    if limit < 1 then 0 else Min(limit, |Slots(reports)|)
  }

  /** The numbers of reports that some visiting order takes within the limit. */
  ghost predicate Outcome(reports: Reports, limit: int, taken: Taken) {
    && HasOrder(reports, taken) && taken.Keys == reports.Keys
    && |TakenSlots(reports, taken)| == Quota(reports, limit)
  }

  /** No report is left behind that is later than a report taken. */
  ghost predicate LeavesNoneLater(reports: Reports, taken: Taken)
    requires taken.Keys == reports.Keys
  {
    forall p, q :: p in TakenSlots(reports, taken) && q in Slots(reports) - TakenSlots(reports, taken) ==>
      Time(reports, q) <= Time(reports, p)
  }

  /** Within the limit a merge takes all of the full rounds and nothing beyond the next one. */
  lemma {:induction false} TakenBetween(reports: Reports, limit: int, taken: Taken, rounds: nat)
    requires Counts(reports, taken) && Fair(reports, taken) && |TakenSlots(reports, taken)| == limit
    requires FullRounds(reports, limit, rounds)
    ensures UpTo(reports, rounds) <= TakenSlots(reports, taken) <= UpTo(reports, rounds + 1)
  {
    var all := TakenSlots(reports, taken);
    if p :| p in UpTo(reports, rounds) && p !in all {
      forall q | q in all ensures q in UpTo(reports, rounds) {
        assert taken[q.0] <= taken[p.0] + 1;
      }
      SmallerSet(all, UpTo(reports, rounds));
    }
    if p :| p in all && p !in UpTo(reports, rounds + 1) {
      forall q | q in UpTo(reports, rounds + 1) ensures q in all {
        assert taken[q.0] < |reports[q.0]| ==> taken[p.0] <= taken[q.0] + 1;
      }
      SmallerSet(UpTo(reports, rounds + 1), all);
    }
  }

  lemma {:induction false} FindRounds(reports: Reports, limit: int, n: nat) returns (rounds: nat)
    requires 0 <= limit < |UpTo(reports, n)|
    ensures FullRounds(reports, limit, rounds)
  {
    assert UpTo(reports, 0) == {};
    if |UpTo(reports, n - 1)| <= limit {
      rounds := n - 1;
    } else {
      rounds := FindRounds(reports, limit, n - 1);
    }
  }

  /** A merge that leaves a report behind has come to an end in some round. */
  lemma {:induction false} EndsInRound(reports: Reports, limit: int, taken: Taken, q: Pick) returns (rounds: nat)
    requires Counts(reports, taken) && Fair(reports, taken) && |TakenSlots(reports, taken)| == limit
    requires q in Slots(reports) - TakenSlots(reports, taken)
    ensures FullRounds(reports, limit, rounds)
  {
    var n := taken[q.0] + 1;
    var next := (q.0, |reports[q.0]| - n);
    assert next in UpTo(reports, n) && next !in TakenSlots(reports, taken);
    assert TakenSlots(reports, taken) <= UpTo(reports, n);
    SmallerSet(TakenSlots(reports, taken), UpTo(reports, n));
    rounds := FindRounds(reports, limit, n);
  }

  lemma {:induction false} NonEmptySize<T>(all: set<T>, x: T)
    requires x in all
    ensures |all| > 0
  {
    assert all != {};
  }

  lemma {:induction false} OutcomeTakesLatest(reports: Reports, limit: int, taken: Taken, p: Pick, q: Pick)
    requires RoundsTakeLatest(reports, limit) && Outcome(reports, limit, taken)
    requires p in TakenSlots(reports, taken) && q in Slots(reports) - TakenSlots(reports, taken)
    ensures Time(reports, q) <= Time(reports, p)
  {
    var all := TakenSlots(reports, taken);
    FairExactly(reports, taken);
    SmallerSet(all, Slots(reports));
    NonEmptySize(all, p);
    var rounds := EndsInRound(reports, limit, taken, q);
    TakenBetween(reports, limit, taken, rounds);
    if p !in UpTo(reports, rounds) {
      SmallerSet(UpTo(reports, rounds), all);
    }
    assert MayTake(reports, limit, rounds, p) && MayLeave(reports, rounds, q);
  }

  // A visiting order for every choice in the last round

  lemma {:induction false} SubsetOfSize<T>(need: set<T>, all: set<T>, n: nat) returns (some: set<T>)
    requires need <= all && |need| <= n <= |all|
    ensures need <= some <= all && |some| == n
    decreases n - |need|
  {
    if |need| == n {
      some := need;
    } else {
      assert need != all;
      var x :| x in all && x !in need;
      some := SubsetOfSize(need + {x}, all, n);
    }
  }

  /** The full rounds, and those reports of the next level that are among the extras. */
  function Partial(reports: Reports, rounds: nat, extra: set<Pick>): Taken {
    map h | h in reports ::
      if |reports[h]| <= rounds then |reports[h]|
      else if (h, |reports[h]| - rounds - 1) in extra then rounds + 1
      else rounds
  }

  lemma {:induction false} PartialIsFair(reports: Reports, rounds: nat, extra: set<Pick>)
    ensures Counts(reports, Partial(reports, rounds, extra)) && Fair(reports, Partial(reports, rounds, extra))
  {
  }

  lemma {:induction false} PartialSlots(reports: Reports, rounds: nat, extra: set<Pick>)
    requires extra <= UpTo(reports, rounds + 1) - UpTo(reports, rounds)
    ensures TakenSlots(reports, Partial(reports, rounds, extra)) == UpTo(reports, rounds) + extra
  {
    var taken := Partial(reports, rounds, extra);
    forall p | p in Slots(reports)
      ensures p in TakenSlots(reports, taken) <==> p in UpTo(reports, rounds) + extra
    {
      if Depth(reports, p) == rounds + 1 {
        assert p == (p.0, |reports[p.0]| - rounds - 1);
      }
    }
  }

  lemma {:induction false} DisjointSize<T>(a: set<T>, b: set<T>)
    requires a !! b
    ensures |a + b| == |a| + |b|
  {
  }

  lemma {:induction false} LevelSize(reports: Reports, rounds: nat)
    ensures |UpTo(reports, rounds + 1) - UpTo(reports, rounds)|
         == |UpTo(reports, rounds + 1)| - |UpTo(reports, rounds)|
  {
    var next, level := UpTo(reports, rounds + 1), UpTo(reports, rounds + 1) - UpTo(reports, rounds);
    assert next == UpTo(reports, rounds) + level;
    DisjointSize(UpTo(reports, rounds), level);
  }

  lemma {:induction false} SubsetSize<T>(a: set<T>, b: set<T>)
    requires a <= b
    ensures |a| <= |b|
  {
    if a == b {
    } else {
      SmallerSet(a, b);
    }
  }

  lemma {:induction false} PartialOutcome(reports: Reports, limit: int, rounds: nat, extra: set<Pick>)
    requires FullRounds(reports, limit, rounds) && |extra| == limit - |UpTo(reports, rounds)|
    requires extra <= UpTo(reports, rounds + 1) - UpTo(reports, rounds)
    ensures Outcome(reports, limit, Partial(reports, rounds, extra))
    ensures TakenSlots(reports, Partial(reports, rounds, extra)) == UpTo(reports, rounds) + extra
  {
    PartialIsFair(reports, rounds, extra);
    PartialSlots(reports, rounds, extra);
    FairExactly(reports, Partial(reports, rounds, extra));
    DisjointSize(UpTo(reports, rounds), extra);
    SubsetSize(UpTo(reports, rounds + 1), Slots(reports));
  }

  /** Any two reports of different subjects, one that may be taken and one that may be left, in one outcome. */
  lemma {:induction false} TakeOneLeaveOther(reports: Reports, limit: int, rounds: nat, p: Pick, q: Pick)
    returns (taken: Taken)
    requires FullRounds(reports, limit, rounds)
    requires MayTake(reports, limit, rounds, p) && MayLeave(reports, rounds, q) && p.0 != q.0
    ensures Outcome(reports, limit, taken)
    ensures p in TakenSlots(reports, taken) && q !in TakenSlots(reports, taken)
  {
    var full, level := UpTo(reports, rounds), UpTo(reports, rounds + 1) - UpTo(reports, rounds);
    var need, others := if p in full then {} else {p}, level - {q};
    LevelSize(reports, rounds);
    assert |others| >= |level| - 1;
    assert need <= others && |need| <= limit - |full|;
    var extra := SubsetOfSize(need, others, limit - |full|);
    PartialOutcome(reports, limit, rounds, extra);
    taken := Partial(reports, rounds, extra);
  }

  ghost predicate AllAscending(reports: Reports) { forall h :: h in reports ==> Ascending(reports[h]) }

  /**
   * With every list in ascending order of time, no visiting order leaves behind a report later than one it
   * takes, exactly if nothing the rounds may leave behind is later than something they may take.
   */
  lemma {:induction false} LatestExactly(reports: Reports, limit: int)
    requires AllAscending(reports)
    ensures (forall taken :: Outcome(reports, limit, taken) ==> LeavesNoneLater(reports, taken))
       <==> RoundsTakeLatest(reports, limit)
  {
    if RoundsTakeLatest(reports, limit) {
      forall taken, p, q | Outcome(reports, limit, taken) && p in TakenSlots(reports, taken)
                           && q in Slots(reports) - TakenSlots(reports, taken)
        ensures Time(reports, q) <= Time(reports, p)
      {
        OutcomeTakesLatest(reports, limit, taken, p, q);
      }
    }
    if forall taken :: Outcome(reports, limit, taken) ==> LeavesNoneLater(reports, taken) {
      forall rounds: nat, p, q | FullRounds(reports, limit, rounds) && MayTake(reports, limit, rounds, p)
                                 && MayLeave(reports, rounds, q)
        ensures Time(reports, q) <= Time(reports, p)
      {
        if p.0 == q.0 {
          assert Ascending(reports[p.0]) && q.1 <= p.1;
        } else {
          var taken := TakeOneLeaveOther(reports, limit, rounds, p, q);
        }
      }
    }
  }

  /** In the runs of the message processor whose clock does not run backwards, the condition decides. */
  lemma {:induction false} LatestInRuns(max: int, canRun: bool, es: seq<Event>, limit: int)
    requires max >= 1 && Chronological(es)
    ensures var reports := After(max, canRun, es).reports;
      (forall taken :: Outcome(reports, limit, taken) ==> LeavesNoneLater(reports, taken))
      <==> RoundsTakeLatest(reports, limit)
  {
    var s := After(max, canRun, es);
    forall h | h in s.reports ensures Ascending(s.reports[h]) {
      ListsAscending(max, canRun, es, h);
      assert s.reports[h] == Listed(s, h);
    }
    LatestExactly(s.reports, limit);
  }

  /** The numbers of reports taken in a merge are an outcome. */
  lemma {:induction false} MergeIsOutcome(reports: Reports, limit: int, picks: seq<Pick>, taken: Taken)
    requires TakenFromTheEnd(reports, picks, taken) && Fair(reports, taken) && |picks| == Quota(reports, limit)
    ensures Outcome(reports, limit, taken)
    ensures forall p :: p in picks <==> p in TakenSlots(reports, taken)
  {
    forall p | p in Slots(reports) ensures p in picks <==> p in TakenSlots(reports, taken) {
      assert p == (p.0, p.1);
    }
    DistinctSize(picks, TakenSlots(reports, taken));
    FairExactly(reports, taken);
  }
}
