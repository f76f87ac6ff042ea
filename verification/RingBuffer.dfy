/** The ring buffer of log lines: lalog/ring_buffer.go. */
module RingBuffer {
  import opened Text

  predicate IsNonEmpty(s: string) { s != "" }

  function NonEmpty(s: seq<string>): seq<string> { Filter(IsNonEmpty, s) }

  /** The slot of the i-th latest element when the latest one is in slot `current`. */
  function Slot(current: int, i: int, size: int): int {
    if i <= current then current - i else current - i + size
  }

  /** The slots from the latest to the oldest; slots never written since the last clearing are empty. */
  function Recent(log: seq<string>, size: nat): (r: seq<string>)
    ensures |r| == size
    ensures forall i :: 0 <= i < size ==> r[i] == if i < |log| then log[|log| - 1 - i] else ""
  {
    seq(size, i requires 0 <= i < size => if i < |log| then log[|log| - 1 - i] else "")
  }

  /** What is fed to an iterator function that decides from everything fed so far whether to go on. */
  function Fed(goOn: seq<string> -> bool, fed: seq<string>, rest: seq<string>): seq<string>
    decreases |rest|
  {
    if rest == [] then fed
    else if rest[0] == "" then Fed(goOn, fed, rest[1..])
    else if goOn(fed + [rest[0]]) then Fed(goOn, fed + [rest[0]], rest[1..])
    else fed + [rest[0]]
  }

  /** RingBuffer; `log` is the history of pushes since the last Clear. */
  class RingBuffer {
    const size: int
    var counter: int
    var buf: array<string>
    ghost var log: seq<string>

    ghost predicate Valid()
      reads this, buf
    {
      && size >= 1 && buf.Length == size && counter >= 0
      && forall i :: 0 <= i < size ==> buf[Slot(counter % size, i, size)] == Recent(log, size)[i]
    }

    constructor (size: int)
      requires size >= 1
      ensures Valid() && fresh(buf) && this.size == size && log == []
    {
      this.size := size;
      counter := 0;
      buf := new string[size](_ => "");
      log := [];
    }

    method Push(elem: string)
      requires Valid()
      modifies `counter, `log, buf
      ensures Valid() && log == old(log) + [elem]
    {
      ghost var before := counter % size;
      counter := counter + 1;
      var elemIndex := counter % size;
      NextSlot(counter - 1, size);
      buf[elemIndex] := elem;
      log := log + [elem];
      forall i | 0 <= i < size ensures buf[Slot(elemIndex, i, size)] == Recent(log, size)[i] {
        if i > 0 {
          assert Slot(elemIndex, i, size) == Slot(before, i - 1, size);
          assert old(buf[Slot(before, i - 1, size)]) == old(Recent(log, size))[i - 1];
        }
      }
    }

    method Clear()
      requires Valid()
      modifies `buf, `log
      ensures Valid() && fresh(buf) && log == []
    {
      buf := new string[size](_ => "");
      log := [];
    }

    /** IterateReverse; returns what the iterator function was fed. */
    method IterateReverse(goOn: seq<string> -> bool) returns (fed: seq<string>)
      requires Valid()
      ensures fed == Fed(goOn, [], Recent(log, size))
    {
      fed := FeedAround(buf, goOn, counter % size, Recent(log, size));
    }

    /** GetAll: oldest first, the non-empty strings among the last `size` pushes since the last Clear. */
    method GetAll() returns (ret: seq<string>)
      requires Valid()
      ensures ret == NonEmpty(LastN(log, size))
    {
      var reversed := IterateReverse(_ => true);
      FedEverything(_ => true, [], Recent(log, size));
      assert reversed == NonEmpty(Recent(log, size));
      RecentReversed(log, size);
      ret := ReversedCopy(reversed);
    }

    /** The loop of GetAll. */
    static method ReversedCopy(reversed: seq<string>) returns (ret: seq<string>)
      ensures ret == Reversed(reversed)
    {
      var out := new string[|reversed|](_ => "");
      for i := 0 to |reversed|
        invariant forall j :: 0 <= j < i ==> out[|reversed| - 1 - j] == reversed[j]
      {
        out[out.Length - 1 - i] := reversed[i];
      }
      ret := out[..];
      assert forall j :: 0 <= j < |ret| ==> ret[j] == reversed[|reversed| - 1 - j];
      assert ret == Reversed(reversed);
    }
  }

  /** The slots from `high` down to `low` hold the strings of `part`. */
  ghost predicate Holds(buf: array<string>, part: seq<string>, high: int, low: int)
    requires 0 <= low <= high + 1 <= buf.Length && |part| == high + 1 - low
    reads buf
  {
    forall i :: 0 <= i < |part| ==> buf[high - i] == part[i]
  }

  /** Both loops of IterateReverse: from the current slot down, and from the last slot down to the one behind it. */
  method FeedAround(buf: array<string>, goOn: seq<string> -> bool, currentIndex: int, ghost all: seq<string>)
    returns (fed: seq<string>)
    requires 0 <= currentIndex < buf.Length == |all|
    requires forall i :: 0 <= i < |all| ==> buf[Slot(currentIndex, i, |all|)] == all[i]
    ensures fed == Fed(goOn, [], all)
  {
    ghost var first, second := all[..currentIndex + 1], all[currentIndex + 1..];
    HeldSlots(buf, all, currentIndex);
    var stopped;
    fed, stopped := FeedDown(buf, goOn, [], currentIndex, 0, first, second);
    assert all == first + second;
    if stopped {
      return;
    }
    fed, stopped := FeedDown(buf, goOn, fed, buf.Length - 1, currentIndex + 1, second, []);
    assert second + [] == second;
  }

  lemma {:induction false} HeldSlots(buf: array<string>, all: seq<string>, current: int)
    requires 0 <= current < buf.Length == |all|
    requires forall i :: 0 <= i < |all| ==> buf[Slot(current, i, |all|)] == all[i]
    ensures Holds(buf, all[..current + 1], current, 0)
    ensures Holds(buf, all[current + 1..], buf.Length - 1, current + 1)
  {
    var first, second := all[..current + 1], all[current + 1..];
    forall i | 0 <= i < |first| ensures buf[current - i] == first[i] {
      assert Slot(current, i, |all|) == current - i;
    }
    forall i | 0 <= i < |second| ensures buf[buf.Length - 1 - i] == second[i] {
      assert Slot(current, current + 1 + i, |all|) == buf.Length - 1 - i;
    }
  }

  /**
   * A loop of IterateReverse: feeds the slots from `high` down to `low` on top of what was fed before, with
   * `rest` to come. `stopped` tells that the iterator function returned false.
   */
  method FeedDown(buf: array<string>, goOn: seq<string> -> bool, before: seq<string>, high: int, low: int,
                  ghost part: seq<string>, ghost rest: seq<string>)
    returns (fed: seq<string>, stopped: bool)
    requires 0 <= low <= high + 1 <= buf.Length && |part| == high + 1 - low && Holds(buf, part, high, low)
    ensures Fed(goOn, before, part + rest) == if stopped then fed else Fed(goOn, fed, rest)
  {
    fed, stopped := before, false;
    var i := high;
    while i >= low
      invariant low - 1 <= i <= high
      invariant Fed(goOn, fed, part[high - i..] + rest) == Fed(goOn, before, part + rest)
    {
      FedStep(goOn, fed, part, high - i, rest);
      var value := buf[i];
      assert value == part[high - i];
      if value != "" {
        fed := fed + [value];
        if !goOn(fed) {
          return fed, true;
        }
      }
      i := i - 1;
    }
    assert part[|part|..] + rest == rest;
  }

  lemma {:induction false} FedStep(goOn: seq<string> -> bool, fed: seq<string>, part: seq<string>, k: nat,
                                   rest: seq<string>)
    requires k < |part|
    ensures Fed(goOn, fed, part[k..] + rest) ==
      if part[k] == "" then Fed(goOn, fed, part[k + 1..] + rest)
      else if goOn(fed + [part[k]]) then Fed(goOn, fed + [part[k]], part[k + 1..] + rest)
      else fed + [part[k]]
  {
    var all := part[k..] + rest;
    assert all[0] == part[k] && all[1..] == part[k + 1..] + rest;
  }

  lemma {:induction false} NextSlot(counter: int, size: int)
    requires counter >= 0 && size >= 1
    ensures (counter + 1) % size == if counter % size == size - 1 then 0 else counter % size + 1
  {
    var q, r := counter / size, counter % size;
    assert counter + 1 == q * size + r + 1;
    if r == size - 1 {
      assert counter + 1 == (q + 1) * size;
      ModMultiple(q + 1, 0, size);
    } else {
      ModMultiple(q, r + 1, size);
    }
  }

  lemma {:induction false} ModMultiple(q: int, r: int, size: int)
    requires 0 <= r < size
    ensures (q * size + r) % size == r
  {
    var n := q * size + r;
    var d := q - n / size;
    assert n == (n / size) * size + n % size;
    assert d * size == q * size - (n / size) * size;
    if d >= 1 {
      MulAtLeast(d, size);
    } else if d <= -1 {
      MulAtLeast(-d, size);
    }
  }

  lemma {:induction false} MulAtLeast(d: int, size: int)
    requires d >= 1 && size >= 1
    ensures d * size >= size
  {
    assert d * size == (d - 1) * size + size;
    assert (d - 1) * size >= 0;
  }

  lemma {:induction false} FedEverything(goOn: seq<string> -> bool, fed: seq<string>, rest: seq<string>)
    requires forall x :: goOn(x)
    ensures Fed(goOn, fed, rest) == fed + NonEmpty(rest)
    decreases |rest|
  {
    if rest == [] {
    } else {
      FedEverything(goOn, fed, rest[1..]);
      FedEverything(goOn, fed + [rest[0]], rest[1..]);
    }
  }

  /** Newest first with empty slots, or oldest first without: the same strings. */
  lemma {:induction false} RecentReversed(log: seq<string>, size: nat)
    ensures Reversed(NonEmpty(Recent(log, size))) == NonEmpty(LastN(log, size))
    decreases size
  {
    if log == [] {
      AllEmpty(Recent(log, size));
    } else if size > 0 {
      var last, front := log[|log| - 1], log[..|log| - 1];
      RecentReversed(front, size - 1);
      assert log == front + [last];
      ReversedStep(last, Recent(front, size - 1), LastN(front, size - 1));
      RecentFirst(front, last, size);
    }
  }

  lemma {:induction false} ReversedStep(x: string, recent: seq<string>, latest: seq<string>)
    requires Reversed(NonEmpty(recent)) == NonEmpty(latest)
    ensures Reversed(NonEmpty([x] + recent)) == NonEmpty(latest + [x])
  {
    FilterAppend(IsNonEmpty, [x], recent);
    FilterAppend(IsNonEmpty, latest, [x]);
    ReversedAppend(NonEmpty([x]), NonEmpty(recent));
    assert NonEmpty([x]) == (if x == "" then [] else [x]) == Reversed(NonEmpty([x]));
  }

  lemma {:induction false} RecentFirst(front: seq<string>, last: string, size: nat)
    requires size > 0
    ensures Recent(front + [last], size) == [last] + Recent(front, size - 1)
    ensures LastN(front + [last], size) == LastN(front, size - 1) + [last]
  {
    var log, first := front + [last], Recent(front + [last], size);
    assert first[0] == last;
    assert first[1..] == Recent(front, size - 1);
    assert first == [last] + first[1..];
  }

  lemma {:induction false} ReversedAppend<T>(a: seq<T>, b: seq<T>)
    ensures Reversed(a + b) == Reversed(b) + Reversed(a)
  {
  }

  lemma {:induction false} AllEmpty(s: seq<string>)
    requires forall i :: 0 <= i < |s| ==> s[i] == ""
    ensures NonEmpty(s) == []
  {
    if s == [] {
    } else {
      AllEmpty(s[1..]);
    }
  }

  /**
   * What an iterator function is fed: a beginning of the non-empty strings, as long as it agrees to go on, and up to
   * and including the first string at which it does not.
   */
  ghost predicate FedUntilDeclined(goOn: seq<string> -> bool, before: nat, fed: seq<string>, all: seq<string>) {
    && before <= |fed| && fed <= all
    && (forall k :: before < k < |fed| ==> goOn(fed[..k]))
    && (|fed| < |all| ==> before < |fed| && !goOn(fed))
  }

  lemma {:induction false} FedExactly(goOn: seq<string> -> bool, fed: seq<string>, rest: seq<string>)
    ensures FedUntilDeclined(goOn, |fed|, Fed(goOn, fed, rest), fed + NonEmpty(rest))
    decreases |rest|
  {
    if rest == [] {
    } else if rest[0] == "" {
      FedExactly(goOn, fed, rest[1..]);
    } else {
      var next := fed + [rest[0]];
      Assoc(fed, [rest[0]], NonEmpty(rest[1..]));
      if goOn(next) {
        FedExactly(goOn, next, rest[1..]);
        assert Fed(goOn, next, rest[1..])[..|next|] == next;
      } else {
        assert next <= next + NonEmpty(rest[1..]);
      }
    }
  }
}
