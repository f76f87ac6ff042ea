/** Program flags and daemon shedding: launcher/supervisor.go. */
module Supervisor {
  import opened Text

  predicate IsFlag(s: string) { s != "" && s[0] == '-' }

  // RemoveFromFlags

  /** One string in the loop of RemoveFromFlags: whether it is kept, and the switches connectNext and deleted. */
  function Visit(condition: string -> bool, str: string, connectNext: bool, deleted: bool): (bool, bool, bool) {
    if !IsFlag(str) then (connectNext != deleted, connectNext, deleted)
    else if condition(str) then (false, '=' !in str, true)
    else (true, true, false)
  }

  /** What the loop of RemoveFromFlags keeps. */
  function Remaining(condition: string -> bool, flags: seq<string>, connectNext: bool, deleted: bool): seq<string> {
    if flags == [] then []
    else
      var v := Visit(condition, flags[0], connectNext, deleted);
      (if v.0 then [flags[0]] else []) + Remaining(condition, flags[1..], v.1, v.2)
  }

  function Removed(condition: string -> bool, flags: seq<string>): seq<string> {
    Remaining(condition, flags, false, false)
  }

  /** The body of the loop of RemoveFromFlags. */
  method VisitFlag(condition: string -> bool, str: string, connectNext: bool, deleted: bool)
    returns (keep: bool, connect: bool, delete: bool)
    ensures (keep, connect, delete) == Visit(condition, str, connectNext, deleted)
  {
    keep, connect, delete := false, connectNext, deleted;
    if IsFlag(str) {
      connect := true;
      if condition(str) {
        if '=' in str {
          connect := false;
        }
        delete := true;
      } else {
        keep := true;
        delete := false;
      }
    } else if (!deleted && connectNext) || (deleted && !connectNext) {
      keep := true;
    }
  }

  /** RemoveFromFlags. */
  method RemoveFromFlags(condition: string -> bool, flags: seq<string>) returns (ret: seq<string>)
    ensures ret == Removed(condition, flags)
  {
    ret := [];
    var connectNext, deleted := false, false;
    for i := 0 to |flags|
      invariant ret + Remaining(condition, flags[i..], connectNext, deleted) == Removed(condition, flags)
    {
      assert flags[i..][1..] == flags[i + 1..];
      var keep;
      keep, connectNext, deleted := VisitFlag(condition, flags[i], connectNext, deleted);
      var kept := if keep then [flags[i]] else [];
      Assoc(ret, kept, Remaining(condition, flags[i + 1..], connectNext, deleted));
      ret := ret + kept;
    }
  }

  /** A flag and the values behind it. */
  datatype Group = Group(flag: string, values: seq<string>)

  predicate IsGroup(g: Group) { IsFlag(g.flag) && NoFlags(g.values) }

  predicate NoFlags(values: seq<string>) { forall i :: 0 <= i < |values| ==> !IsFlag(values[i]) }

  function Flat(groups: seq<Group>): seq<string> {
    if groups == [] then [] else [groups[0].flag] + groups[0].values + Flat(groups[1..])
  }

  /** What is left of one group: a deleted flag takes its values along, unless it carries one itself. */
  function Trimmed(condition: string -> bool, g: Group): seq<string> {
    if !condition(g.flag) then [g.flag] + g.values
    else if '=' in g.flag then g.values
    else []
  }

  function AllTrimmed(condition: string -> bool, groups: seq<Group>): seq<string> {
    if groups == [] then [] else Trimmed(condition, groups[0]) + AllTrimmed(condition, groups[1..])
  }

  lemma {:induction false} RemainingValues(condition: string -> bool, values: seq<string>, rest: seq<string>,
                                           connectNext: bool, deleted: bool)
    requires NoFlags(values)
    ensures Remaining(condition, values + rest, connectNext, deleted)
         == (if connectNext != deleted then values else []) + Remaining(condition, rest, connectNext, deleted)
  {
    if values == [] {
      assert values + rest == rest;
    } else {
      assert (values + rest)[1..] == values[1..] + rest;
      RemainingValues(condition, values[1..], rest, connectNext, deleted);
      assert [values[0]] + values[1..] == values;
    }
  }

  lemma {:induction false} RemainingGroup(condition: string -> bool, g: Group, rest: seq<string>, connectNext: bool,
                                          deleted: bool)
    requires IsGroup(g)
    ensures var v := Visit(condition, g.flag, connectNext, deleted);
      Remaining(condition, [g.flag] + g.values + rest, connectNext, deleted)
      == Trimmed(condition, g) + Remaining(condition, rest, v.1, v.2)
  {
    var v := Visit(condition, g.flag, connectNext, deleted);
    var flags := [g.flag] + g.values + rest;
    assert flags[0] == g.flag && flags[1..] == g.values + rest;
    RemainingValues(condition, g.values, rest, v.1, v.2);
    Assoc(if v.0 then [g.flag] else [], if v.1 != v.2 then g.values else [], Remaining(condition, rest, v.1, v.2));
  }

  lemma {:induction false} RemainingGroups(condition: string -> bool, groups: seq<Group>, connectNext: bool,
                                           deleted: bool)
    requires forall i :: 0 <= i < |groups| ==> IsGroup(groups[i])
    ensures Remaining(condition, Flat(groups), connectNext, deleted) == AllTrimmed(condition, groups)
  {
    if groups == [] {
    } else {
      var g, rest := groups[0], Flat(groups[1..]);
      var v := Visit(condition, g.flag, connectNext, deleted);
      assert IsGroup(g);
      RemainingGroups(condition, groups[1..], v.1, v.2);
      RemainingGroup(condition, g, rest, connectNext, deleted);
    }
  }

  /** RemoveFromFlags on every list of flags: values before the first flag go, then each group is trimmed. */
  lemma {:induction false} RemovedExactly(condition: string -> bool, lead: seq<string>, groups: seq<Group>)
    requires NoFlags(lead) && forall i :: 0 <= i < |groups| ==> IsGroup(groups[i])
    ensures Removed(condition, lead + Flat(groups)) == AllTrimmed(condition, groups)
  {
    RemainingValues(condition, lead, Flat(groups), false, false);
    RemainingGroups(condition, groups, false, false);
  }

  /** Every list of flags has that shape. */
  lemma {:induction false} ParseFlags(flags: seq<string>) returns (lead: seq<string>, groups: seq<Group>)
    ensures NoFlags(lead) && forall i :: 0 <= i < |groups| ==> IsGroup(groups[i])
    ensures flags == lead + Flat(groups)
  {
    lead, groups := [], [];
    if flags == [] {
    } else {
      var values, rest := ParseFlags(flags[1..]);
      assert flags == [flags[0]] + values + Flat(rest);
      if IsFlag(flags[0]) {
        groups := [Group(flags[0], values)] + rest;
        assert groups[1..] == rest;
      } else {
        lead, groups := [flags[0]] + values, rest;
      }
    }
  }

  /** The options -k=v, -k v and -k. */
  predicate IsOption(g: Group) { IsGroup(g) && |g.values| <= 1 && ('=' in g.flag ==> g.values == []) }

  function Unless(condition: string -> bool, groups: seq<Group>): seq<Group> {
    if groups == [] then []
    else (if condition(groups[0].flag) then [] else [groups[0]]) + Unless(condition, groups[1..])
  }

  /** On lists of options, removing from the flags is filtering the options. */
  lemma {:induction false} RemovedOptions(condition: string -> bool, groups: seq<Group>)
    requires forall i :: 0 <= i < |groups| ==> IsOption(groups[i])
    ensures Removed(condition, Flat(groups)) == Flat(Unless(condition, groups))
  {
    RemovedExactly(condition, [], groups);
    assert [] + Flat(groups) == Flat(groups);
    TrimmedOptions(condition, groups);
  }

  lemma {:induction false} TrimmedOptions(condition: string -> bool, groups: seq<Group>)
    requires forall i :: 0 <= i < |groups| ==> IsOption(groups[i])
    ensures AllTrimmed(condition, groups) == Flat(Unless(condition, groups))
  {
    if groups == [] {
    } else {
      TrimmedOptions(condition, groups[1..]);
      assert IsOption(groups[0]);
      var rest := Unless(condition, groups[1..]);
      assert ([groups[0]] + rest)[1..] == rest && [] + rest == rest;
    }
  }

  /** No flag that meets the condition is left. */
  lemma {:induction false} RemovedClean(condition: string -> bool, flags: seq<string>, connectNext: bool, deleted: bool)
    ensures forall s :: s in Remaining(condition, flags, connectNext, deleted) && IsFlag(s) ==> !condition(s)
    ensures |Remaining(condition, flags, connectNext, deleted)| <= |flags|
    decreases |flags|
  {
    if flags == [] {
    } else {
      RemovedClean(condition, flags[1..], true, true);
      RemovedClean(condition, flags[1..], false, true);
      RemovedClean(condition, flags[1..], true, false);
      RemovedClean(condition, flags[1..], false, false);
    }
  }

  // The shed sequence

  const AUTO_UNLOCK := "autounlock"

  const SHED_ORDER := [
    "maintenance", "serialport", "simpleipsvcd", "snmpd", "dnsd", "sockd", "smtpd", "httpd",
    "insecurehttpd", "plainsocket", "telegram", "phonehome"]

  function Without(names: seq<string>, x: string): seq<string> {
    if names == [] then [] else (if names[0] == x then [] else [names[0]]) + Without(names[1..], x)
  }

  function Rounds(order: seq<string>, names: seq<string>): seq<seq<string>>
    decreases |order|
  {
    if order == [] || |names| == 1 then []
    else if order[0] in names then [Without(names, order[0])] + Rounds(order[1..], Without(names, order[0]))
    else Rounds(order[1..], names)
  }

  /** One round of the loop in initialise. */
  method ShedOne(remaining: seq<string>, toShed: string) returns (thisRound: seq<string>, willShed: bool)
    ensures thisRound == Without(remaining, toShed) && willShed == (toShed in remaining)
  {
    thisRound, willShed := [], false;
    for i := 0 to |remaining|
      invariant thisRound + Without(remaining[i..], toShed) == Without(remaining, toShed)
      invariant willShed == (toShed in remaining[..i])
    {
      WithoutStep(thisRound, remaining, i, toShed);
      if remaining[i] == toShed {
        willShed := true;
      } else {
        thisRound := thisRound + [remaining[i]];
      }
    }
  }

  /** One name in the loop of a round. */
  lemma {:induction false} WithoutStep(kept: seq<string>, names: seq<string>, i: nat, x: string)
    requires i < |names|
    ensures kept + Without(names[i..], x)
         == (if names[i] == x then kept else kept + [names[i]]) + Without(names[i + 1..], x)
    ensures x in names[..i + 1] <==> x in names[..i] || names[i] == x
  {
    var rest := Without(names[i + 1..], x);
    assert names[i..][1..] == names[i + 1..];
    if names[i] == x {
      assert [] + rest == rest;
    } else {
      Assoc(kept, [names[i]], rest);
    }
    assert names[..i + 1] == names[..i] + [names[i]];
  }

  method BuildShedSequence(order: seq<string>, names: seq<string>) returns (sequence: seq<seq<string>>)
    ensures sequence == Rounds(order, names)
  {
    sequence := [];
    var remaining := names;
    for i := 0 to |order|
      invariant sequence + Rounds(order[i..], remaining) == Rounds(order, names)
    {
      assert order[i..][1..] == order[i + 1..];
      if |remaining| == 1 {
        return;
      }
      var thisRound, willShed := ShedOne(remaining, order[i]);
      if willShed {
        Assoc(sequence, [thisRound], Rounds(order[i + 1..], thisRound));
        remaining := thisRound;
        sequence := sequence + [thisRound];
      }
    }
  }

  lemma {:induction false} WithoutCount(names: seq<string>, x: string)
    ensures multiset(Without(names, x)) == multiset(names)[x := 0]
    ensures |Without(names, x)| == |names| - multiset(names)[x]
  {
    if names == [] {
    } else {
      WithoutCount(names[1..], x);
      assert names == [names[0]] + names[1..];
    }
  }

  /** The names are distinct, and at most one of them is not in the shed order. */
  ghost predicate Sheddable(order: seq<string>, names: seq<string>) {
    && (forall x :: x in names ==> multiset(names)[x] == 1)
    && (forall x, y :: x in names && y in names ==> x in order || y in order || x == y)
  }

  ghost predicate NoneEmpty(rounds: seq<seq<string>>) { forall i :: 0 <= i < |rounds| ==> rounds[i] != [] }

  ghost predicate FullPlan(order: seq<string>, names: seq<string>) {
    |Rounds(order, names)| == |names| - 1 && NoneEmpty(Rounds(order, names))
  }

  lemma {:induction false} RoundsBounded(order: seq<string>, names: seq<string>)
    requires names != [] && NoneEmpty(Rounds(order, names))
    ensures |Rounds(order, names)| <= |names| - 1
    decreases |order|
  {
    if order == [] || |names| == 1 {
    } else if order[0] in names {
      var next := Without(names, order[0]);
      WithoutCount(names, order[0]);
      assert Rounds(order, names)[0] == next && Rounds(order, names)[1..] == Rounds(order[1..], next);
      RoundsBounded(order[1..], next);
    } else {
      RoundsBounded(order[1..], names);
    }
  }

  lemma {:induction false} WithoutMembers(names: seq<string>, o: string)
    ensures forall x :: x in Without(names, o) <==> x in names && x != o
    ensures forall x :: x in Without(names, o) ==> multiset(Without(names, o))[x] == multiset(names)[x]
  {
    WithoutCount(names, o);
    assert forall x :: x in Without(names, o) <==> x in multiset(Without(names, o));
    assert forall x :: x in names <==> x in multiset(names);
  }

  /** Dropping a name that occurs. */
  lemma {:induction false} SheddableStep(order: seq<string>, names: seq<string>)
    requires order != [] && order[0] in names
    ensures var next := Without(names, order[0]);
      Sheddable(order, names) <==> |next| == |names| - 1 && Sheddable(order[1..], next)
  {
    var o, next := order[0], Without(names, order[0]);
    WithoutCount(names, o);
    WithoutMembers(names, o);
    assert forall x :: x in order <==> x == o || x in order[1..];
    if |next| == |names| - 1 && Sheddable(order[1..], next) {
      forall x | x in names ensures multiset(names)[x] == 1 {
        assert x == o || x in next;
      }
      forall x, y | x in names && y in names ensures x in order || y in order || x == y {
        assert x == o || x in next;
        assert y == o || y in next;
      }
    }
  }

  /** A name of the order that does not occur makes no difference. */
  lemma {:induction false} SheddableSkip(order: seq<string>, names: seq<string>)
    requires order != [] && order[0] !in names
    ensures Sheddable(order, names) <==> Sheddable(order[1..], names)
  {
    assert forall x :: x in order <==> x == order[0] || x in order[1..];
  }

  /**
   * The shed sequence has one non-empty entry fewer than there are daemons exactly when the names are
   * distinct and at most one of them is not in the shed order.
   */
  lemma {:induction false} ShedExactly(order: seq<string>, names: seq<string>)
    requires names != []
    ensures FullPlan(order, names) <==> Sheddable(order, names)
    decreases |order|
  {
    if |names| == 1 {
      assert names == [names[0]];
      assert multiset(names)[names[0]] == 1;
    } else if order == [] {
      NothingToShed(names);
    } else if order[0] in names {
      var next := Without(names, order[0]);
      WithoutCount(names, order[0]);
      SheddableStep(order, names);
      PlanStep(order, names);
      if next != [] {
        ShedExactly(order[1..], next);
        if NoneEmpty(Rounds(order[1..], next)) {
          RoundsBounded(order[1..], next);
        }
      }
    } else {
      SheddableSkip(order, names);
      ShedExactly(order[1..], names);
    }
  }

  lemma {:induction false} NothingToShed(names: seq<string>)
    requires |names| > 1
    ensures !Sheddable([], names)
  {
    var x, y := names[0], names[1];
    assert x in names && y in names;
    if x == y {
      assert names == [x, x] + names[2..];
      assert multiset(names)[x] >= 2;
    }
  }

  /** A round and the rounds that follow it. */
  lemma {:induction false} PlanStep(order: seq<string>, names: seq<string>)
    requires order != [] && |names| > 1 && order[0] in names
    ensures var next := Without(names, order[0]);
      && |Rounds(order, names)| == 1 + |Rounds(order[1..], next)|
      && (NoneEmpty(Rounds(order, names)) <==> next != [] && NoneEmpty(Rounds(order[1..], next)))
  {
    var rounds, rest := Rounds(order, names), Rounds(order[1..], Without(names, order[0]));
    assert rounds[0] == Without(names, order[0]);
    assert forall i :: 0 < i < |rounds| ==> rounds[i] == rest[i - 1];
    assert forall i :: 0 <= i < |rest| ==> rest[i] == rounds[i + 1];
  }

  /** The daemons before and after the i-th shedding. */
  function Before(names: seq<string>, rounds: seq<seq<string>>, i: nat): seq<string>
    requires i < |rounds|
  {
    if i == 0 then names else rounds[i - 1]
  }

  lemma {:induction false} RoundsSubset(order: seq<string>, names: seq<string>, i: nat, x: string)
    requires i < |Rounds(order, names)| && x in Rounds(order, names)[i]
    ensures x in names
    decreases |order|
  {
    var rounds := Rounds(order, names);
    if order[0] in names {
      var next := Without(names, order[0]);
      assert rounds[0] == next && rounds[1..] == Rounds(order[1..], next);
      WithoutMembers(names, order[0]);
      if i == 0 {
      } else {
        RoundsSubset(order[1..], next, i - 1, x);
      }
    } else {
      RoundsSubset(order[1..], names, i, x);
    }
  }

  /** None of the first n daemons of the shed order is among the names. */
  predicate NoneOfFirst(order: seq<string>, n: nat, names: seq<string>)
    requires n <= |order|
  {
    forall q :: 0 <= q < n ==> order[q] !in names
  }

  lemma {:induction false} NoneOfFirstLater(order: seq<string>, n: nat, names: seq<string>)
    requires order != [] && n < |order| && order[0] !in names && NoneOfFirst(order[1..], n, names)
    ensures NoneOfFirst(order, n + 1, names)
  {
    assert forall q :: 0 < q < |order| ==> order[q] == order[1..][q - 1];
  }

  /**
   * Each entry is the previous one without the remaining daemon that comes earliest in the shed order, and the other
   * daemons stay in their order.
   */
  lemma {:induction false} RoundsNested(order: seq<string>, names: seq<string>, i: nat) returns (p: nat)
    requires i < |Rounds(order, names)|
    ensures var rounds := Rounds(order, names);
      && p < |order| && order[p] in Before(names, rounds, i) && NoneOfFirst(order, p, Before(names, rounds, i))
      && rounds[i] == Without(Before(names, rounds, i), order[p])
      && |rounds[i]| < |Before(names, rounds, i)|
    decreases |order|
  {
    var rounds := Rounds(order, names);
    if order[0] in names {
      var next := Without(names, order[0]);
      assert rounds[0] == next && rounds[1..] == Rounds(order[1..], next);
      if i == 0 {
        p := 0;
        WithoutCount(names, order[0]);
      } else {
        p := RoundsNested(order[1..], next, i - 1);
        assert Before(names, rounds, i) == Before(next, rounds[1..], i - 1);
        NotBefore(order, names, next, i - 1);
        NoneOfFirstLater(order, p, Before(names, rounds, i));
        p := p + 1;
      }
    } else {
      p := RoundsNested(order[1..], names, i);
      NotInRounds(order[1..], names, i, order[0]);
      NoneOfFirstLater(order, p, Before(names, rounds, i));
      p := p + 1;
    }
  }

  lemma {:induction false} NotInRounds(order: seq<string>, names: seq<string>, i: nat, x: string)
    requires i < |Rounds(order, names)| && x !in names
    ensures x !in Before(names, Rounds(order, names), i)
  {
    if i > 0 && x in Rounds(order, names)[i - 1] {
      RoundsSubset(order, names, i - 1, x);
    }
  }

  lemma {:induction false} NotBefore(order: seq<string>, names: seq<string>, next: seq<string>, i: nat)
    requires order != [] && next == Without(names, order[0]) && i < |Rounds(order[1..], next)|
    ensures order[0] !in Before(next, Rounds(order[1..], next), i)
  {
    WithoutMembers(names, order[0]);
    NotInRounds(order[1..], next, i, order[0]);
  }

  /** With names that can be shed, each entry has one daemon fewer. */
  lemma {:induction false} RoundSizes(order: seq<string>, names: seq<string>, i: nat)
    requires Sheddable(order, names) && i < |Rounds(order, names)|
    ensures |Rounds(order, names)[i]| == |names| - 1 - i
    decreases |order|
  {
    var rounds := Rounds(order, names);
    if order[0] in names {
      var next := Without(names, order[0]);
      assert rounds[0] == next && rounds[1..] == Rounds(order[1..], next);
      SheddableStep(order, names);
      if i == 0 {
      } else {
        RoundSizes(order[1..], next, i - 1);
      }
    } else {
      SheddableSkip(order, names);
      RoundSizes(order[1..], names, i);
    }
  }

  /** A daemon that is not in the shed order is never shed. */
  lemma {:induction false} NeverShed(order: seq<string>, names: seq<string>, x: string)
    requires x in names && x !in order
    ensures forall i :: 0 <= i < |Rounds(order, names)| ==> x in Rounds(order, names)[i]
    decreases |order|
  {
    if order == [] || |names| == 1 {
    } else if order[0] in names {
      WithoutCount(names, order[0]);
      assert x in multiset(names) && x in multiset(Without(names, order[0]));
      NeverShed(order[1..], Without(names, order[0]), x);
    } else {
      NeverShed(order[1..], names, x);
    }
  }

  // Launch parameters

  predicate HasPrefix(s: string, prefix: string) { prefix <= s }

  predicate IsDaemonsFlag(s: string) { HasPrefix(s, "-daemons") }

  predicate IsSupervisorFlag(s: string) { HasPrefix(s, "-supervisor") }

  predicate IsNotConfigFlag(s: string) { !HasPrefix(s, "-config") }

  /** The flags that remain from the command line. */
  function LaunchFlags(cliFlags: seq<string>, daemons: nat, attempt: int): seq<string> {
    var first := if attempt >= 0 then Removed(IsSupervisorFlag, cliFlags) else cliFlags;
    var reduced := if attempt >= 1 then Removed(IsNotConfigFlag, first) else first;
    if attempt > daemons + 1 then Overwritten(reduced, cliFlags) else reduced
  }

  /** copy(dst, src) of Go. */
  function Overwritten(dst: seq<string>, src: seq<string>): seq<string> {
    var n := Min(|dst|, |src|);
    src[..n] + dst[n..]
  }

  function LaunchDaemons(names: seq<string>, shed: seq<seq<string>>, attempt: int): Option<seq<string>> {
    if 1 < attempt < |names| + 1 then
      if attempt - 2 < |shed| then Some(shed[attempt - 2]) else None
    else Some(names)
  }

  /** What is launched: the program flags and the daemons, or nothing where the index would be out of range. */
  function LaunchParameters(cliFlags: seq<string>, names: seq<string>, shed: seq<seq<string>>, attempt: int)
    : Option<(seq<string>, seq<string>)>
  {
    match LaunchDaemons(names, shed, attempt)
    case None => None
    case Some(daemons) =>
      Some((LaunchFlags(cliFlags, |names|, attempt) + (if attempt >= 0 then ["-supervisor=false"] else [])
            + ["-daemons", Join(daemons, ',')], daemons))
  }

  class Supervisor {
    var cliFlags: seq<string>
    const daemonNames: seq<string>
    var shedSequence: seq<seq<string>>

    constructor (cliFlags: seq<string>, daemonNames: seq<string>)
      ensures this.cliFlags == cliFlags && this.daemonNames == daemonNames && shedSequence == []
    {
      this.cliFlags, this.daemonNames, shedSequence := cliFlags, daemonNames, [];
    }

    /** initialise, without loggers and output buffers. */
    method Initialise()
      modifies this
      ensures cliFlags == Removed(IsDaemonsFlag, old(cliFlags))
      ensures shedSequence == Rounds(SHED_ORDER, daemonNames)
    {
      cliFlags := RemoveFromFlags(IsDaemonsFlag, cliFlags);
      shedSequence := BuildShedSequence(SHED_ORDER, daemonNames);
    }

    /** GetLaunchParameters; no result stands for the panic on an index beyond the shed sequence. */
    method GetLaunchParameters(nthAttempt: int) returns (r: Option<(seq<string>, seq<string>)>)
      ensures r == LaunchParameters(cliFlags, daemonNames, shedSequence, nthAttempt)
    {
      var addFlags: seq<string> := [];
      var flags, daemons := cliFlags, daemonNames;
      if nthAttempt >= 0 {
        flags := RemoveFromFlags(IsSupervisorFlag, flags);
        addFlags := ["-supervisor=false"];
      }
      if nthAttempt >= 1 {
        flags := RemoveFromFlags(IsNotConfigFlag, flags);
      }
      if nthAttempt > 1 && nthAttempt < |daemonNames| + 1 {
        if nthAttempt - 2 >= |shedSequence| {
          return None;
        }
        daemons := shedSequence[nthAttempt - 2];
      }
      if nthAttempt > |daemonNames| + 1 {
        flags := Overwritten(flags, cliFlags);
        daemons := Overwritten(daemons, daemonNames);
      }
      assert Overwritten(daemonNames, daemonNames) == daemonNames;
      r := Some((flags + addFlags + ["-daemons", Join(daemons, ',')], daemons));
    }
  }

  /** The attempt comes to a launch, with some daemon to start. */
  predicate Launches(names: seq<string>, attempt: int) {
    var d := LaunchDaemons(names, Rounds(SHED_ORDER, names), attempt);
    d.Some? && d.value != []
  }

  /** As many non-empty entries as there are attempts are all the entries there are. */
  lemma {:induction false} EnoughRounds(order: seq<string>, names: seq<string>)
    requires names != [] && |Rounds(order, names)| >= |names| - 1
    requires forall i :: 0 <= i < |names| - 1 ==> Rounds(order, names)[i] != []
    ensures |Rounds(order, names)| == |names| - 1
    decreases |order|
  {
    if order == [] || |names| == 1 {
    } else if order[0] in names {
      var rounds, next := Rounds(order, names), Without(names, order[0]);
      WithoutCount(names, order[0]);
      assert rounds[0] == next && rounds[1..] == Rounds(order[1..], next);
      EnoughRounds(order[1..], next);
    } else {
      EnoughRounds(order[1..], names);
    }
  }

  /**
   * Every attempt starts some daemon, and none fails on the shed sequence, exactly if the names are distinct
   * and at most one of them is not in the shed order.
   */
  lemma {:induction false} EveryAttemptLaunches(names: seq<string>)
    requires names != []
    ensures (forall attempt :: Launches(names, attempt)) <==> Sheddable(SHED_ORDER, names)
  {
    var rounds := Rounds(SHED_ORDER, names);
    ShedExactly(SHED_ORDER, names);
    if forall attempt :: Launches(names, attempt) {
      assert Launches(names, |names|);
      forall i | 0 <= i < |names| - 1 ensures rounds[i] != [] {
        assert Launches(names, i + 2);
      }
      EnoughRounds(SHED_ORDER, names);
    }
  }

  /** The daemon that unlocks the other services is started in every attempt that launches. */
  lemma {:induction false} AutoUnlockStays(names: seq<string>, attempt: int)
    requires AUTO_UNLOCK in names
    ensures var d := LaunchDaemons(names, Rounds(SHED_ORDER, names), attempt); d.Some? ==> AUTO_UNLOCK in d.value
  {
    assert AUTO_UNLOCK[0] == 'a';
    assert forall i :: 0 <= i < |SHED_ORDER| ==> SHED_ORDER[i][0] != 'a';
    NeverShed(SHED_ORDER, names, AUTO_UNLOCK);
  }

  /** Between the first retry and one after the last shedding, no option but the configuration file is left. */
  lemma {:induction false} RetriesAreReduced(cliFlags: seq<string>, daemons: nat, attempt: int)
    requires 1 <= attempt <= daemons + 1
    ensures forall s :: s in LaunchFlags(cliFlags, daemons, attempt) && IsFlag(s) ==> HasPrefix(s, "-config")
  {
    RemovedClean(IsNotConfigFlag, Removed(IsSupervisorFlag, cliFlags), false, false);
  }

  /** Beyond that, the reduced flags are overwritten by as many of the original ones. */
  lemma {:induction false} LateRetriesAreNot(cliFlags: seq<string>, daemons: nat, attempt: int)
    requires attempt > daemons + 1
    ensures var reduced := Removed(IsNotConfigFlag, Removed(IsSupervisorFlag, cliFlags));
      && |reduced| <= |cliFlags|
      && LaunchFlags(cliFlags, daemons, attempt) == cliFlags[..|reduced|]
      && (LaunchFlags(cliFlags, daemons, attempt) == reduced <==> reduced <= cliFlags)
  {
    RemovedClean(IsSupervisorFlag, cliFlags, false, false);
    RemovedClean(IsNotConfigFlag, Removed(IsSupervisorFlag, cliFlags), false, false);
  }

  predicate IsConfig(g: Group) { HasPrefix(g.flag, "-config") }

  /** The options for the configuration file. */
  function Configs(groups: seq<Group>): seq<Group> {
    if groups == [] then [] else (if IsConfig(groups[0]) then [groups[0]] else []) + Configs(groups[1..])
  }

  lemma {:induction false} ConfigIsNotSupervisor(s: string)
    requires HasPrefix(s, "-config")
    ensures !IsSupervisorFlag(s)
  {
    assert "-supervisor"[1] == 's' && "-config"[1] == 'c';
  }

  lemma {:induction false} ReducedOptions(groups: seq<Group>)
    ensures Unless(IsNotConfigFlag, Unless(IsSupervisorFlag, groups)) == Configs(groups)
  {
    if groups == [] {
    } else {
      var g, rest := groups[0], Unless(IsSupervisorFlag, groups[1..]);
      ReducedOptions(groups[1..]);
      if IsConfig(g) {
        ConfigIsNotSupervisor(g.flag);
      }
      assert ([g] + rest)[1..] == rest && [] + rest == rest;
    }
  }

  lemma {:induction false} UnlessOptions(condition: string -> bool, groups: seq<Group>)
    requires forall i :: 0 <= i < |groups| ==> IsOption(groups[i])
    ensures forall i :: 0 <= i < |Unless(condition, groups)| ==> IsOption(Unless(condition, groups)[i])
  {
    if groups == [] {
    } else {
      assert IsOption(groups[0]);
      UnlessOptions(condition, groups[1..]);
    }
  }

  /** No option for the configuration file comes after another option. */
  predicate ConfigsFirst(groups: seq<Group>) {
    forall i, j :: 0 <= i < j < |groups| && IsConfig(groups[j]) ==> IsConfig(groups[i])
  }

  lemma {:induction false} SomeConfig(groups: seq<Group>)
    ensures Configs(groups) == [] <==> forall i :: 0 <= i < |groups| ==> !IsConfig(groups[i])
    ensures Configs(groups) != [] ==> IsConfig(Configs(groups)[0])
  {
    if groups == [] {
    } else {
      SomeConfig(groups[1..]);
      assert forall i :: 0 < i < |groups| ==> groups[i] == groups[1..][i - 1];
    }
  }

  lemma {:induction false} ConfigsFirstStep(groups: seq<Group>)
    requires groups != []
    ensures ConfigsFirst(groups) <==>
      if IsConfig(groups[0]) then ConfigsFirst(groups[1..]) else Configs(groups[1..]) == []
  {
    var rest := groups[1..];
    SomeConfig(rest);
    assert forall i :: 0 <= i < |rest| ==> rest[i] == groups[i + 1];
    assert forall i :: 0 < i < |groups| ==> groups[i] == rest[i - 1];
  }

  lemma {:induction false} PrefixBehind<T>(a: seq<T>, b: seq<T>, c: seq<T>)
    ensures a + b <= a + c <==> b <= c
  {
    if a + b <= a + c {
      assert b == (a + b)[|a|..] && c == (a + c)[|a|..];
    }
  }

  /** The options for the configuration file come first exactly if they make up the beginning of the flags. */
  lemma {:induction false} ConfigsFirstExactly(groups: seq<Group>)
    ensures Flat(Configs(groups)) <= Flat(groups) <==> ConfigsFirst(groups)
  {
    if groups == [] {
    } else {
      var g, rest := groups[0], groups[1..];
      ConfigsFirstStep(groups);
      if IsConfig(g) {
        ConfigsFirstExactly(rest);
        assert ([g] + Configs(rest))[1..] == Configs(rest);
        PrefixBehind([g.flag] + g.values, Flat(Configs(rest)), Flat(rest));
      } else {
        SomeConfig(rest);
        assert Configs(groups) == Configs(rest);
        assert Flat(groups)[0] == g.flag;
      }
    }
  }

  lemma {:induction false} ReducedFlags(groups: seq<Group>)
    requires forall i :: 0 <= i < |groups| ==> IsOption(groups[i])
    ensures Removed(IsNotConfigFlag, Removed(IsSupervisorFlag, Flat(groups))) == Flat(Configs(groups))
  {
    RemovedOptions(IsSupervisorFlag, groups);
    UnlessOptions(IsSupervisorFlag, groups);
    RemovedOptions(IsNotConfigFlag, Unless(IsSupervisorFlag, groups));
    ReducedOptions(groups);
  }

  /**
   * On lists of options, the attempts after the last shedding keep the configuration file alone, as the
   * earlier retries do, exactly if no option for it comes after another option.
   */
  lemma {:induction false} LateRetriesExactly(groups: seq<Group>, daemons: nat, attempt: int)
    requires attempt > daemons + 1 && forall i :: 0 <= i < |groups| ==> IsOption(groups[i])
    ensures LaunchFlags(Flat(groups), daemons, attempt) == Flat(Configs(groups)) <==> ConfigsFirst(groups)
    ensures forall a :: 1 <= a <= daemons + 1 ==> LaunchFlags(Flat(groups), daemons, a) == Flat(Configs(groups))
  {
    ReducedFlags(groups);
    LateRetriesAreNot(Flat(groups), daemons, attempt);
    ConfigsFirstExactly(groups);
  }

  /** An option before the one for the configuration file takes its place, and the configuration file is lost. */
  lemma {:induction false} LateRetryLosesConfig()
    ensures var flags := ["-gomaxprocs", "4", "-config", "c.json"];
      LaunchFlags(flags, 1, 2) == ["-config", "c.json"] && LaunchFlags(flags, 1, 3) == ["-gomaxprocs", "4"]
  {
    var flags := ["-gomaxprocs", "4", "-config", "c.json"];
    var groups := ExampleOptions(flags);
    ReducedFlags(groups);
    LateRetriesAreNot(flags, 1, 3);
  }

  lemma {:induction false} ExampleOptions(flags: seq<string>) returns (groups: seq<Group>)
    requires flags == ["-gomaxprocs", "4", "-config", "c.json"]
    ensures forall i :: 0 <= i < |groups| ==> IsOption(groups[i])
    ensures Flat(groups) == flags && Flat(Configs(groups)) == ["-config", "c.json"]
  {
    var config := [Group("-config", ["c.json"])];
    groups := [Group("-gomaxprocs", ["4"])] + config;
    assert groups[1..] == config && config[1..] == [];
    assert Flat(config) == ["-config", "c.json"];
    GomaxprocsIsOther();
    assert Configs(config) == config && Configs(groups) == config;
  }

  lemma {:induction false} GomaxprocsIsOther()
    ensures !HasPrefix("-gomaxprocs", "-config")
  {
    assert "-gomaxprocs"[1] == 'g' && "-config"[1] == 'c';
  }

  // The first launch, and the daemons of every attempt

  /** The options that belong to the supervised program. */
  predicate IsOwn(g: Group) { !HasPrefix(g.flag, "-daemons") && !HasPrefix(g.flag, "-supervisor") }

  lemma {:induction false} OwnOptions(groups: seq<Group>)
    ensures Unless(IsSupervisorFlag, Unless(IsDaemonsFlag, groups)) == Filter(IsOwn, groups)
  {
    if groups == [] {
    } else {
      var g, rest := groups[0], Unless(IsDaemonsFlag, groups[1..]);
      OwnOptions(groups[1..]);
      assert ([g] + rest)[1..] == rest && [] + rest == rest;
    }
  }

  /**
   * The normal start, with the flags as initialise leaves them: every option but those for daemons and supervisor, in
   * their order, then no supervisor and all daemons.
   */
  lemma {:induction false} FirstLaunch(groups: seq<Group>, names: seq<string>, shed: seq<seq<string>>)
    requires forall i :: 0 <= i < |groups| ==> IsOption(groups[i])
    ensures LaunchParameters(Removed(IsDaemonsFlag, Flat(groups)), names, shed, 0) ==
      Some((Flat(Filter(IsOwn, groups)) + ["-supervisor=false", "-daemons", Join(names, ',')], names))
  {
    RemovedOptions(IsDaemonsFlag, groups);
    UnlessOptions(IsDaemonsFlag, groups);
    RemovedOptions(IsSupervisorFlag, Unless(IsDaemonsFlag, groups));
    OwnOptions(groups);
    assert ["-supervisor=false"] + ["-daemons", Join(names, ',')] == ["-supervisor=false", "-daemons", Join(names, ',')];
    Assoc(Flat(Filter(IsOwn, groups)), ["-supervisor=false"], ["-daemons", Join(names, ',')]);
  }

  /**
   * A retry passes on the options for the configuration file alone, or after the last shedding as many of the original
   * flags, then no supervisor and the daemons of the attempt.
   */
  lemma {:induction false} RetryLaunch(groups: seq<Group>, names: seq<string>, shed: seq<seq<string>>, attempt: int)
    requires attempt >= 1 && forall i :: 0 <= i < |groups| ==> IsOption(groups[i])
    ensures |Flat(Configs(groups))| <= |Flat(groups)|
    ensures match LaunchDaemons(names, shed, attempt)
      case None => LaunchParameters(Flat(groups), names, shed, attempt) == None
      case Some(d) =>
        var flags := if attempt <= |names| + 1 then Flat(Configs(groups)) else Flat(groups)[..|Flat(Configs(groups))|];
        LaunchParameters(Flat(groups), names, shed, attempt)
        == Some((flags + ["-supervisor=false", "-daemons", Join(d, ',')], d))
  {
    ReducedFlags(groups);
    LateRetriesAreNot(Flat(groups), |names|, |names| + 2);
    match LaunchDaemons(names, shed, attempt)
    case None =>
    case Some(d) =>
      var end := ["-daemons", Join(d, ',')];
      assert ["-supervisor=false"] + end == ["-supervisor=false", "-daemons", Join(d, ',')];
      Assoc(LaunchFlags(Flat(groups), |names|, attempt), ["-supervisor=false"], end);
      if attempt > |names| + 1 {
        LateRetriesAreNot(Flat(groups), |names|, attempt);
      }
  }

  /**
   * How many daemons each attempt starts, for names that can be shed: all of them at first and after the last
   * shedding, and in between one fewer each time.
   */
  lemma {:induction false} DaemonsOfAttempt(names: seq<string>, attempt: int)
    requires names != [] && Sheddable(SHED_ORDER, names)
    ensures var d := LaunchDaemons(names, Rounds(SHED_ORDER, names), attempt);
      && d.Some?
      && (attempt <= 1 || attempt > |names| ==> d.value == names)
      && (1 < attempt <= |names| ==> |d.value| == |names| + 1 - attempt)
  {
    ShedExactly(SHED_ORDER, names);
    if 1 < attempt <= |names| {
      RoundSizes(SHED_ORDER, names, attempt - 2);
    }
  }
}
