/** The fixed-window rate limiter: misc/ratelimit.go. The clock is an input, in whole seconds. */
module RateLimit {
  import opened Text

  datatype Limit = Limit(unitSecs: int, maxCount: int)

  /** lastTimestamp, counter and logged. */
  datatype Window = Window(start: int, counter: map<string, int>, logged: set<string>)

  datatype Hit = Hit(actor: string, now: int, logIfLimitHit: bool)

  const FRESH := Window(0, map[], {})

  predicate ValidLimit(l: Limit) { l.unitSecs >= 1 && l.maxCount >= 1 }

  function CountOf(w: Window, actor: string): int { if actor in w.counter then w.counter[actor] else 0 }

  function Roll(l: Limit, w: Window, now: int): Window {
    if now - w.start >= l.unitSecs then Window(now, map[], {}) else w
  }

  predicate Accepts(l: Limit, w: Window, h: Hit) { CountOf(Roll(l, w, h.now), h.actor) < l.maxCount }

  function AddHit(l: Limit, w: Window, h: Hit): Window {
    var v := Roll(l, w, h.now);
    if CountOf(v, h.actor) < l.maxCount then v.(counter := v.counter[h.actor := CountOf(v, h.actor) + 1])
    else if h.logIfLimitHit then v.(logged := v.logged + {h.actor})
    else v
  }

  /** The factors that Initialise tries, in its order. */
  const FACTORS: seq<int> := [11, 7, 5, 3, 2]

  /** The rescaling in Initialise: a limit per second becomes the same rate over the largest factor that divides it. */
  method Rescale(l: Limit) returns (r: Limit)
    requires ValidLimit(l)
    ensures ValidLimit(r) && r.maxCount * l.unitSecs == l.maxCount * r.unitSecs
    ensures l.unitSecs != 1 ==> r == l
    ensures l.unitSecs == 1 ==>
      && (r.unitSecs == 1 || (r.unitSecs in FACTORS && l.maxCount % r.unitSecs == 0))
      && forall f :: f in FACTORS && l.maxCount % f == 0 ==> f <= r.unitSecs
  {
    r := l;
    if l.unitSecs == 1 {
      for i := 0 to |FACTORS|
        invariant r == l
        invariant forall j :: 0 <= j < i ==> l.maxCount % FACTORS[j] != 0
      {
        var factor := FACTORS[i];
        if l.maxCount % factor == 0 {
          r := Limit(factor, l.maxCount * factor);
          return;
        }
      }
    }
  }

  /** RateLimit; the mutex makes each call atomic. */
  class RateLimiter {
    var limit: Limit
    var lastTimestamp: int
    var counter: map<string, int>
    var logged: set<string>

    constructor (unitSecs: int, maxCount: int)
      ensures limit == Limit(unitSecs, maxCount) && Contents() == FRESH
    {
      limit := Limit(unitSecs, maxCount);
      lastTimestamp, counter, logged := 0, map[], {};
    }

    function Contents(): Window
      reads this
    {
      Window(lastTimestamp, counter, logged)
    }

    /** Initialise; false stands for the panic on a useless limit. */
    method Initialise() returns (ok: bool)
      modifies this
      ensures Contents() == old(Contents()).(counter := map[])
      ensures ok == ValidLimit(old(limit))
      ensures if ok then ValidLimit(limit) && limit.maxCount * old(limit).unitSecs == old(limit).maxCount * limit.unitSecs
              else limit == old(limit)
    {
      counter := map[];
      ok := limit.unitSecs >= 1 && limit.maxCount >= 1;
      if ok {
        limit := Rescale(limit);
      }
    }

    method Add(actor: string, now: int, logIfLimitHit: bool) returns (ok: bool)
      modifies `lastTimestamp, `counter, `logged
      requires ValidLimit(limit)
      ensures Contents() == AddHit(limit, old(Contents()), Hit(actor, now, logIfLimitHit))
      ensures ok == Accepts(limit, old(Contents()), Hit(actor, now, logIfLimitHit))
    {
      if now - lastTimestamp >= limit.unitSecs {
        counter := map[];
        logged := {};
        lastTimestamp := now;
      }
      if actor in counter {
        var count := counter[actor];
        if count >= limit.maxCount {
          if actor !in logged && logIfLimitHit {
            logged := logged + {actor};
          }
          return false;
        } else {
          counter := counter[actor := count + 1];
        }
      } else {
        counter := counter[actor := 1];
      }
      return true;
    }
  }

  // Whole runs

  function After(l: Limit, w: Window, hits: seq<Hit>): Window
    decreases |hits|
  {
    if hits == [] then w else After(l, AddHit(l, w, hits[0]), hits[1..])
  }

  predicate Counts(l: Limit, w: Window, h: Hit, actor: string, from: int, to: int) {
    h.actor == actor && from <= h.now < to && Accepts(l, w, h)
  }

  /** How many hits of the actor in the span [from, to) are accepted in the run. */
  function AcceptedIn(l: Limit, w: Window, hits: seq<Hit>, actor: string, from: int, to: int): nat
    decreases |hits|
  {
    if hits == [] then 0
    else
      (if Counts(l, w, hits[0], actor, from, to) then 1 else 0) +
      AcceptedIn(l, AddHit(l, w, hits[0]), hits[1..], actor, from, to)
  }

  /** The clock does not run backwards. */
  predicate Chronological(start: int, hits: seq<Hit>)
    decreases |hits|
  {
    hits == [] || (start <= hits[0].now && Chronological(hits[0].now, hits[1..]))
  }

  ghost predicate Within(l: Limit, w: Window) {
    forall a :: a in w.counter ==> 0 <= w.counter[a] <= l.maxCount
  }

  /**
   * From time t on, a window that opened at w.start can be replaced at most k times before `to`, and each
   * window takes at most maxCount hits of the actor.
   */
  ghost predicate RollsLeft(l: Limit, w: Window, t: int, to: int, k: nat) {
    to <= t + k * l.unitSecs || to <= w.start + (k + 1) * l.unitSecs
  }

  lemma {:induction false} BoundFrom(l: Limit, w: Window, hits: seq<Hit>, actor: string, t: int, to: int, k: nat)
    requires ValidLimit(l) && Within(l, w) && Chronological(t, hits) && RollsLeft(l, w, t, to, k)
    ensures AcceptedIn(l, w, hits, actor, t, to) <= l.maxCount - CountOf(w, actor) + k * l.maxCount
    decreases |hits|
  {
    if hits == [] {
    } else if hits[0].now < to {
      var h, w' := hits[0], AddHit(l, w, hits[0]);
      AcceptedLater(l, w', hits[1..], actor, t, h.now, to);
      if h.now - w.start >= l.unitSecs {
        assert k >= 1 && to <= h.now + k * l.unitSecs;
        assert (k - 1 + 1) * l.unitSecs == k * l.unitSecs;
        BoundFrom(l, w', hits[1..], actor, h.now, to, k - 1);
        assert (k - 1) * l.maxCount == k * l.maxCount - l.maxCount;
      } else {
        BoundFrom(l, w', hits[1..], actor, h.now, to, k);
      }
    } else {
      NothingAfter(l, w, hits, actor, t, to);
    }
    assert k * l.maxCount >= 0;
  }

  /** The lower end of the span does not matter for hits behind it. */
  lemma {:induction false} AcceptedLater(l: Limit, w: Window, hits: seq<Hit>, actor: string, t: int, u: int, to: int)
    requires t <= u && Chronological(u, hits)
    ensures AcceptedIn(l, w, hits, actor, t, to) == AcceptedIn(l, w, hits, actor, u, to)
    decreases |hits|
  {
    if hits == [] {
    } else {
      AcceptedLater(l, AddHit(l, w, hits[0]), hits[1..], actor, t, hits[0].now, to);
      AcceptedLater(l, AddHit(l, w, hits[0]), hits[1..], actor, u, hits[0].now, to);
    }
  }

  lemma {:induction false} NothingAfter(l: Limit, w: Window, hits: seq<Hit>, actor: string, t: int, to: int)
    requires Chronological(to, hits)
    ensures AcceptedIn(l, w, hits, actor, t, to) == 0
    decreases |hits|
  {
    if hits == [] {
    } else {
      ChronologicalEarlier(to, hits[0].now, hits[1..]);
      NothingAfter(l, AddHit(l, w, hits[0]), hits[1..], actor, t, to);
    }
  }

  lemma {:induction false} ChronologicalEarlier(t: int, u: int, hits: seq<Hit>)
    requires t <= u && Chronological(u, hits)
    ensures Chronological(t, hits)
  {
  }

  /**
   * Whole runs: in any span of m units of time, at most (m + 1) times the limit is accepted per actor.
   */
  lemma {:induction false} RateBound(l: Limit, w: Window, hits: seq<Hit>, actor: string, start: int, from: int, m: nat)
    requires ValidLimit(l) && Within(l, w) && Chronological(start, hits)
    ensures AcceptedIn(l, w, hits, actor, from, from + m * l.unitSecs) <= (m + 1) * l.maxCount
    decreases |hits|
  {
    var to := from + m * l.unitSecs;
    assert (m + 1) * l.maxCount == m * l.maxCount + l.maxCount >= 0;
    if hits == [] {
    } else {
      var h := hits[0];
      if h.now < from {
        RateBound(l, AddHit(l, w, h), hits[1..], actor, h.now, from, m);
      } else {
        BoundFrom(l, w, hits, actor, from, to, m);
      }
    }
  }

  // Refusals

  lemma {:induction false} WindowMovesForward(l: Limit, w: Window, hits: seq<Hit>)
    requires ValidLimit(l)
    ensures After(l, w, hits).start >= w.start
    decreases |hits|
  {
    if hits == [] {
    } else {
      WindowMovesForward(l, AddHit(l, w, hits[0]), hits[1..]);
    }
  }

  /** The counter of an actor is made of accepted hits of the current window. */
  lemma {:induction false} CounterIsRecent(l: Limit, w: Window, hits: seq<Hit>, actor: string, to: int)
    requires ValidLimit(l) && Within(l, w) && Chronological(w.start, hits)
    requires forall i :: 0 <= i < |hits| ==> hits[i].now < to
    ensures var v := After(l, w, hits);
      CountOf(v, actor) <= AcceptedIn(l, w, hits, actor, v.start, to) + if v.start == w.start then CountOf(w, actor) else 0
    decreases |hits|
  {
    if hits == [] {
    } else {
      var h, w' := hits[0], AddHit(l, w, hits[0]);
      ChronologicalEarlier(w'.start, h.now, hits[1..]);
      CounterIsRecent(l, w', hits[1..], actor, to);
      WindowMovesForward(l, w', hits[1..]);
      assert CountOf(w', actor) == (if h.now - w.start >= l.unitSecs then 0 else CountOf(w, actor))
        + if h.actor == actor && Accepts(l, w, h) then 1 else 0;
    }
  }

  lemma {:induction false} AcceptedMore(l: Limit, w: Window, hits: seq<Hit>, actor: string, t: int, u: int, to: int)
    requires t <= u
    ensures AcceptedIn(l, w, hits, actor, t, to) >= AcceptedIn(l, w, hits, actor, u, to)
    decreases |hits|
  {
    if hits == [] {
    } else {
      AcceptedMore(l, AddHit(l, w, hits[0]), hits[1..], actor, t, u, to);
    }
  }

  /** A hit is refused only if the actor already had maxCount accepted hits less than one unit of time ago. */
  lemma {:induction false} RefusedOnlyWhenBusy(l: Limit, hits: seq<Hit>, h: Hit)
    requires ValidLimit(l) && Chronological(0, hits) && forall i :: 0 <= i < |hits| ==> hits[i].now <= h.now
    requires !Accepts(l, After(l, FRESH, hits), h)
    ensures AcceptedIn(l, FRESH, hits, h.actor, h.now - l.unitSecs + 1, h.now + 1) >= l.maxCount
  {
    var v := After(l, FRESH, hits);
    CounterIsRecent(l, FRESH, hits, h.actor, h.now + 1);
    AcceptedMore(l, FRESH, hits, h.actor, h.now - l.unitSecs + 1, v.start, h.now + 1);
  }
}
