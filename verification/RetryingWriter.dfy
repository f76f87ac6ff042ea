/** The retrying chunked writer: WriteWithRetry of daemon/sockd/quirky.go. */
module RetryingWriter {
  import opened Text

  const MAX_ATTEMPTS := 3

  /** What the connection does with one attempt; a broken connection reports "closed" or "broken". */
  datatype Attempt =
    | Success
    | NoDeadline                           // SetWriteDeadline fails, nothing is written
    | Failure(accepted: nat, broken: bool) // Write fails after a strict prefix of the data

  /** How many bytes of n go out. */
  function Accepted(a: Attempt, n: nat): nat {
    match a
    case Success => n
    case NoDeadline => 0
    case Failure(accepted, _) => if accepted < n then accepted else if n == 0 then 0 else n - 1
  }

  /** How many of the first n attempts fail. */
  function Failures(conn: nat -> Attempt, n: nat): nat {
    if n == 0 then 0 else Failures(conn, n - 1) + if conn(n - 1) == Success then 0 else 1
  }

  /** The attempt breaks the connection, or fails after part of its data. */
  predicate Ends(a: Attempt) { a.Failure? && (a.broken || a.accepted > 0) }

  /** The attempts at one portion: the inner loop of WriteWithRetry. */
  method SendPortion(conn: nat -> Attempt, data: seq<Byte>, attemptsBefore: nat, errBefore: bool, clock: nat)
    returns (attempts: nat, err: bool, part: seq<Byte>, written: nat, stop: bool, ticks: nat)
    requires attemptsBefore <= MAX_ATTEMPTS && (errBefore <==> attemptsBefore == MAX_ATTEMPTS)
    ensures attemptsBefore <= attempts <= MAX_ATTEMPTS && part <= data
    ensures ticks <= clock + MAX_ATTEMPTS
    ensures !stop ==> (err <==> attempts == MAX_ATTEMPTS)
    ensures !stop && !err ==> part == data && written == |data|
    ensures err ==> written == 0 && (stop || part == []) && (|part| < |data| || data == [])
    ensures stop ==> err && attempts < MAX_ATTEMPTS
    ensures stop ==> ticks > clock && Ends(conn(ticks - 1)) && |part| <= conn(ticks - 1).accepted
    ensures Failures(conn, ticks) == Failures(conn, clock) + attempts - attemptsBefore + if stop then 1 else 0
  {
    attempts, err, ticks := attemptsBefore, errBefore, clock;
    part, written, stop := [], 0, false;
    while attempts < MAX_ATTEMPTS
      invariant attemptsBefore <= attempts <= MAX_ATTEMPTS && part == [] && written == 0 && !stop
      invariant err <==> attempts > attemptsBefore || errBefore
      invariant ticks == clock + attempts - attemptsBefore
      invariant Failures(conn, ticks) == Failures(conn, clock) + attempts - attemptsBefore
    {
      var a := conn(ticks);
      var writtenBytes := Accepted(a, |data|);
      ticks := ticks + 1;
      err := a != Success;
      if a != NoDeadline {
        part := data[..writtenBytes];
        if !err {
          written := writtenBytes;
          return;
        } else if a.broken {
          stop := true;
          return;
        } else if writtenBytes > 0 {
          stop := true; // the connection is closed, its stream is broken
          return;
        }
      }
      attempts := attempts + 1;
    }
  }

  lemma {:induction false} PortionBounds(length: nat, portions: nat, p: nat)
    requires portions >= 1 && p < portions
    ensures var size := length / portions;
      0 <= p * size <= (p + 1) * size <= length && (length > 0 ==> p * size < length)
  {
    var size := length / portions;
    assert length == portions * size + length % portions;
    MulBounds(size, p, portions);
  }

  lemma {:induction false} MulBounds(size: nat, p: nat, portions: nat)
    requires p < portions
    ensures 0 <= p * size <= (p + 1) * size <= portions * size
    ensures size > 0 ==> p * size < portions * size
    ensures size == 0 ==> p * size == 0
  {
    var left := portions - p - 1;
    assert portions * size == p * size + size + left * size;
    assert left * size >= 0 && p * size >= 0;
  }

  /** What went out, and some of the bytes that come next. */
  lemma {:induction false} PrefixGrows(buf: seq<Byte>, sent: seq<Byte>, end: nat, part: seq<Byte>)
    requires sent <= buf && |sent| <= end <= |buf| && part <= buf[|sent|..end]
    ensures sent + part <= buf
  {
    assert sent == buf[..|sent|];
    assert sent + part == buf[..|sent| + |part|];
  }

  /**
   * WriteWithRetry; sent is everything the connection has accepted, in order. An error is returned only after three
   * failed attempts, or after one that broke the connection or failed after part of its data.
   */
  method WriteWithRetry(conn: nat -> Attempt, buf: seq<Byte>, maxPortions: nat)
    returns (totalWritten: nat, err: bool, sent: seq<Byte>, ghost ticks: nat)
    requires maxPortions >= 1
    ensures sent <= buf && totalWritten <= |sent|
    ensures !err ==> sent == buf && totalWritten == |buf|
    ensures buf != [] && sent == buf ==> !err
    ensures err ==> Failures(conn, ticks) == MAX_ATTEMPTS || (ticks > 0 && Ends(conn(ticks - 1)))
    ensures !err ==> Failures(conn, ticks) < MAX_ATTEMPTS
    ensures totalWritten < |sent| ==> ticks > 0 && Ends(conn(ticks - 1)) && |sent| - totalWritten <= conn(ticks - 1).accepted
  {
    var attempts, clock := 0, 0;
    ticks := 0;
    var size := |buf| / maxPortions;
    totalWritten, err, sent := 0, false, [];
    var portion := 0;
    while portion < maxPortions
      invariant 0 <= portion <= maxPortions && attempts <= MAX_ATTEMPTS
      invariant err <==> attempts == MAX_ATTEMPTS
      invariant ticks == clock && Failures(conn, ticks) == attempts
      invariant sent <= buf && totalWritten == |sent|
      invariant !err ==> |sent| == if portion == maxPortions then |buf| else portion * size
      invariant err ==> buf == [] || |sent| < |buf|
    {
      PortionBounds(|buf|, maxPortions, portion);
      var bufStart, bufEnd := portion * size, (portion + 1) * size;
      if portion == maxPortions - 1 {
        bufEnd := |buf|;
      }
      var data := buf[bufStart..bufEnd];
      var part, written, stop;
      ghost var failed := err;
      attempts, err, part, written, stop, clock := SendPortion(conn, data, attempts, err, clock);
      ticks := clock;
      if failed {
        assert part == [] && sent + part == sent;
      } else {
        PrefixGrows(buf, sent, bufEnd, part);
      }
      sent := sent + part;
      totalWritten := totalWritten + written;
      if stop {
        return;
      }
      portion := portion + 1;
    }
  }
}
