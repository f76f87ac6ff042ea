/** The fair merge of the reports of all subjects: GetLatestReports of toolbox/message_processor.go. */
module ReportMerge {
  import opened Text
  import opened StoreAndForward

  type Reports = map<string, seq<StoredReport>>

  /** A report of a subject, by its position in storage. */
  type Pick = (string, int)

  function Slots(reports: Reports): set<Pick> {
    set h, i | h in reports && 0 <= i < |reports[h]| :: (h, i)
  }

  ghost predicate InStore(reports: Reports, picks: seq<Pick>) {
    forall k :: 0 <= k < |picks| ==> picks[k] in Slots(reports)
  }

  function Fetch(reports: Reports, picks: seq<Pick>): (r: seq<StoredReport>)
    requires InStore(reports, picks)
    ensures |r| == |picks| && forall k :: 0 <= k < |picks| ==> r[k] == reports[picks[k].0][picks[k].1]
  {
    seq(|picks|, k requires 0 <= k < |picks| =>
      assert picks[k] in Slots(reports);
      reports[picks[k].0][picks[k].1])
  }

  ghost predicate Distinct<T>(s: seq<T>) { forall i, j :: 0 <= i < j < |s| ==> s[i] != s[j] }

  /** How many reports each subject has given: at most all of them. */
  ghost predicate Counts(reports: Reports, taken: map<string, int>) {
    taken.Keys == reports.Keys && forall h :: h in reports ==> 0 <= taken[h] <= |reports[h]|
  }

  /** The picks are, without repetition, the latest taken[h] reports of every subject h. */
  ghost predicate TakenFromTheEnd(reports: Reports, picks: seq<Pick>, taken: map<string, int>) {
    && Counts(reports, taken) && InStore(reports, picks) && Distinct(picks)
    && forall h, i :: (h, i) in Slots(reports) ==> ((h, i) in picks <==> |reports[h]| - taken[h] <= i)
  }

  /** A subject with reports left over has given at most one fewer than any other. */
  ghost predicate Fair(reports: Reports, taken: map<string, int>)
    requires Counts(reports, taken)
  {
    forall g, h :: g in reports && h in reports && taken[h] < |reports[h]| ==> taken[g] <= taken[h] + 1
  }

  predicate LatestFirst(s: seq<StoredReport>) {
    forall i, j :: 0 <= i < j < |s| ==> s[i].serverTime >= s[j].serverTime
  }

  // Sorting

  method Insert(s: seq<StoredReport>, x: StoredReport) returns (r: seq<StoredReport>)
    requires LatestFirst(s)
    ensures LatestFirst(r) && multiset(r) == multiset(s) + multiset{x}
  {
    var i := 0;
    while i < |s| && s[i].serverTime > x.serverTime
      invariant 0 <= i <= |s| && forall j :: 0 <= j < i ==> s[j].serverTime > x.serverTime
    {
      i := i + 1;
    }
    InsertedInOrder(s, i, x);
    InsertedContents(s, i, x);
    r := s[..i] + [x] + s[i..];
  }

  lemma {:induction false} InsertedInOrder(s: seq<StoredReport>, i: nat, x: StoredReport)
    requires LatestFirst(s) && i <= |s| && (forall j :: 0 <= j < i ==> s[j].serverTime > x.serverTime)
    requires i < |s| ==> s[i].serverTime <= x.serverTime
    ensures LatestFirst(s[..i] + [x] + s[i..])
  {
    var r := s[..i] + [x] + s[i..];
    assert forall k :: 0 <= k < |r| ==> r[k] == if k < i then s[k] else if k == i then x else s[k - 1];
  }

  lemma {:induction false} InsertedContents<T>(s: seq<T>, i: nat, x: T)
    requires i <= |s|
    ensures multiset(s[..i] + [x] + s[i..]) == multiset(s) + multiset{x}
  {
    assert s == s[..i] + s[i..];
  }

  /** sort.Slice by descending server time. */
  method SortLatestFirst(s: seq<StoredReport>) returns (r: seq<StoredReport>)
    ensures LatestFirst(r) && multiset(r) == multiset(s)
  {
    r := [];
    for k := 0 to |s|
      invariant LatestFirst(r) && multiset(r) == multiset(s[..k])
    {
      r := Insert(r, s[k]);
      assert s[..k + 1] == s[..k] + [s[k]];
    }
    assert s[..|s|] == s;
  }

  // One round

  /** At the start of a round the subjects in `index` have given `round` reports, the others all they had. */
  ghost predicate RoundStart(reports: Reports, index: map<string, int>, taken: map<string, int>, round: int) {
    && Counts(reports, taken) && index.Keys <= reports.Keys && round >= 0
    && forall h :: h in reports ==>
         if h in index then taken[h] == round && index[h] == |reports[h]| - 1 - round >= 0
         else taken[h] == |reports[h]| <= round
  }

  /** Within a round the subjects in `todo` are still to be asked, those in `spent` have given their last report. */
  ghost predicate InRound(reports: Reports, index: map<string, int>, taken: map<string, int>, round: int,
                          todo: set<string>, spent: set<string>)
  {
    && Counts(reports, taken) && index.Keys <= reports.Keys && round >= 0
    && todo <= index.Keys && spent <= index.Keys - todo
    && (forall h :: h in todo ==> taken[h] == round && index[h] == |reports[h]| - 1 - round >= 0)
    && (forall h :: h in index.Keys - todo - spent ==>
          taken[h] == round + 1 && index[h] == |reports[h]| - 2 - round >= 0)
    && (forall h :: h in spent ==> taken[h] == round + 1 == |reports[h]|)
    && (forall h :: h in reports.Keys - index.Keys ==> taken[h] == |reports[h]| <= round)
  }

  lemma {:induction false} InRoundIsFair(reports: Reports, index: map<string, int>, taken: map<string, int>, round: int,
                                         todo: set<string>, spent: set<string>)
    requires InRound(reports, index, taken, round, todo, spent)
    ensures Fair(reports, taken)
  {
    forall g, h | g in reports && h in reports && taken[h] < |reports[h]| ensures taken[g] <= taken[h] + 1 {
      assert h in index && g in reports;
      assert h in todo || h in index.Keys - todo - spent;
    }
  }

  /** Taking the next report of a subject keeps the picks the latest of every subject. */
  lemma {:induction false} TakeNext(reports: Reports, picks: seq<Pick>, taken: map<string, int>, h: string, i: int)
    requires TakenFromTheEnd(reports, picks, taken) && h in reports
    requires i == |reports[h]| - taken[h] - 1 >= 0
    ensures TakenFromTheEnd(reports, picks + [(h, i)], taken[h := taken[h] + 1])
  {
    assert (h, i) in Slots(reports);
    forall g, j | (g, j) in Slots(reports)
      ensures (g, j) in picks + [(h, i)] <==> |reports[g]| - taken[h := taken[h] + 1][g] <= j
    {
      assert (g, j) in picks + [(h, i)] <==> (g, j) in picks || (g, j) == (h, i);
    }
  }

  /** The bookkeeping of one visit. */
  lemma {:induction false} VisitKeepsRound(reports: Reports, index: map<string, int>, taken: map<string, int>, round: int,
                                           todo: set<string>, spent: set<string>, h: string)
    requires InRound(reports, index, taken, round, todo, spent) && h in todo
    ensures index[h := index[h] - 1].Keys == index.Keys
    ensures var t := taken[h := taken[h] + 1];
      if index[h] == 0 then InRound(reports, index, t, round, todo - {h}, spent + {h})
      else InRound(reports, index[h := index[h] - 1], t, round, todo - {h}, spent)
  {
  }

  lemma {:induction false} RoundBegins(reports: Reports, index: map<string, int>, taken: map<string, int>, round: int)
    requires RoundStart(reports, index, taken, round)
    ensures InRound(reports, index, taken, round, index.Keys, {})
  {
  }

  lemma {:induction false} RoundEnds(reports: Reports, index: map<string, int>, taken: map<string, int>, round: int,
                                     spent: set<string>)
    requires InRound(reports, index, taken, round, {}, spent)
    ensures RoundStart(reports, index - spent, taken, round + 1)
  {
    forall h | h in reports
      ensures if h in index - spent then taken[h] == round + 1 && (index - spent)[h] == |reports[h]| - 2 - round >= 0
              else taken[h] == |reports[h]| <= round + 1
    {
      if h in index - spent {
        assert h in index.Keys - {} - spent;
      } else if h !in spent {
        assert h in reports.Keys - index.Keys;
      }
    }
  }

  lemma {:induction false} FetchAppend(reports: Reports, picks: seq<Pick>, h: string, i: int)
    requires InStore(reports, picks) && h in reports && 0 <= i < |reports[h]|
    ensures InStore(reports, picks + [(h, i)])
    ensures Fetch(reports, picks + [(h, i)]) == Fetch(reports, picks) + [reports[h][i]]
  {
    assert (h, i) in Slots(reports);
  }

  /** Collects one report from each subject, in any order, until the limit is reached. */
  method Round(reports: Reports, start: map<string, int>, maxLimit: int, collected: seq<StoredReport>,
               ghost picks0: seq<Pick>, ghost taken0: map<string, int>, ghost round: int)
    returns (ret: seq<StoredReport>, index: map<string, int>, ghost picks: seq<Pick>, ghost taken: map<string, int>)
    requires RoundStart(reports, start, taken0, round) && TakenFromTheEnd(reports, picks0, taken0)
    requires collected == Fetch(reports, picks0) && |collected| < maxLimit && start != map[]
    ensures TakenFromTheEnd(reports, picks, taken) && ret == Fetch(reports, picks) && Fair(reports, taken)
    ensures |collected| < |ret| <= maxLimit
    ensures |ret| < maxLimit ==> RoundStart(reports, index, taken, round + 1)
  {
    ret, index, picks, taken := collected, start, picks0, taken0;
    var todo, noMoreReports := start.Keys, {};
    RoundBegins(reports, start, taken0, round);
    while todo != {} && |ret| < maxLimit
      invariant index.Keys == start.Keys
      invariant InRound(reports, index, taken, round, todo, noMoreReports)
      invariant TakenFromTheEnd(reports, picks, taken) && ret == Fetch(reports, picks)
      invariant |collected| <= |ret| <= maxLimit && (|ret| == |collected| ==> todo == start.Keys)
      decreases todo
    {
      var subject :| subject in todo;
      var current := index[subject];
      TakeNext(reports, picks, taken, subject, current);
      FetchAppend(reports, picks, subject, current);
      VisitKeepsRound(reports, index, taken, round, todo, noMoreReports, subject);
      ret := ret + [reports[subject][current]];
      picks, taken := picks + [(subject, current)], taken[subject := taken[subject] + 1];
      todo := todo - {subject};
      if current == 0 {
        noMoreReports := noMoreReports + {subject};
      } else {
        index := index[subject := current - 1];
      }
    }
    InRoundIsFair(reports, index, taken, round, todo, noMoreReports);
    if todo == {} {
      RoundEnds(reports, index, taken, round, noMoreReports);
    }
    index := index - noMoreReports;
  }

  // All rounds

  lemma {:induction false} DistinctSize<T>(s: seq<T>, all: set<T>)
    requires Distinct(s) && forall x :: x in s ==> x in all
    ensures |s| <= |all|
    ensures (forall x :: x in all ==> x in s) ==> |s| == |all|
  {
    if s == [] {
      if forall x :: x in all ==> x in s {
        assert all == {};
      }
    } else {
      var rest := s[1..];
      DistinctSize(rest, all - {s[0]});
      assert forall x :: x in s ==> x == s[0] || x in rest;
      assert forall x :: x in rest ==> x in s && x != s[0];
    }
  }

  /** GetLatestReports, for every order in which the subjects are visited. */
  method GetLatestReports(reports: Reports, maxLimit: int)
    returns (ret: seq<StoredReport>, ghost picks: seq<Pick>, ghost taken: map<string, int>)
    ensures TakenFromTheEnd(reports, picks, taken) && Fair(reports, taken)
    ensures LatestFirst(ret) && multiset(ret) == multiset(Fetch(reports, picks))
    ensures |picks| == |ret| == if maxLimit < 1 then 0 else Min(maxLimit, |Slots(reports)|)
  {
    ret, picks := [], [];
    taken := map h | h in reports :: 0;
    if maxLimit < 1 {
      return;
    }
    var index := map h | h in reports && |reports[h]| > 0 :: |reports[h]| - 1;
    ghost var round := 0;
    while |ret| < maxLimit && index != map[]
      invariant TakenFromTheEnd(reports, picks, taken) && ret == Fetch(reports, picks) && Fair(reports, taken)
      invariant |ret| <= maxLimit
      invariant |ret| < maxLimit ==> RoundStart(reports, index, taken, round)
      decreases maxLimit - |ret|
    {
      ret, index, picks, taken := Round(reports, index, maxLimit, ret, picks, taken, round);
      round := round + 1;
    }
    CountPicks(reports, picks, taken);
    ghost var collected := ret;
    ret := SortLatestFirst(ret);
    SameSize(ret, collected);
  }

  lemma {:induction false} CountPicks(reports: Reports, picks: seq<Pick>, taken: map<string, int>)
    requires TakenFromTheEnd(reports, picks, taken)
    ensures |picks| <= |Slots(reports)|
    ensures (forall h :: h in reports ==> taken[h] == |reports[h]|) ==> |picks| == |Slots(reports)|
  {
    DistinctSize(picks, Slots(reports));
  }

  lemma {:induction false} SameSize<T>(a: seq<T>, b: seq<T>)
    requires multiset(a) == multiset(b)
    ensures |a| == |b|
  {
    assert |multiset(a)| == |a| && |multiset(b)| == |b|;
  }

  /**
   * The merge is fair rather than latest: two reports from two subjects, one of which has two later ones,
   * always include the early report of the other.
   */
  lemma {:induction false} FairBeforeLatest(reports: Reports, picks: seq<Pick>, taken: map<string, int>)
    requires reports.Keys == {"a", "b"} && |reports["a"]| == 2 && |reports["b"]| == 1
    requires reports["b"][0].serverTime < reports["a"][0].serverTime <= reports["a"][1].serverTime
    requires TakenFromTheEnd(reports, picks, taken) && Fair(reports, taken) && |picks| == 2
    ensures ("b", 0) in picks && ("a", 0) !in picks
  {
    var all := Slots(reports);
    assert all == {("a", 0), ("a", 1), ("b", 0)};
    DistinctSize(picks, all);
    if ("b", 0) !in picks {
      assert taken["b"] == 0;
      forall x | x in picks ensures x == ("a", 1) {
        assert x in all;
      }
      DistinctSize(picks, {("a", 1)});
    }
  }
}
