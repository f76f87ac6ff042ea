/** The circular log of the latest output bytes: lalog/byte_log_writer.go. */
module ByteLog {
  import opened Text

  /** The fields of ByteLogWriter. */
  datatype Log = Log(maxBytes: nat, latestBytes: seq<Byte>, latestPos: nat, everFull: bool, currentSize: nat)

  function NewLog(maxBytes: nat): Log { Log(maxBytes, [], 0, false, 0) }

  /** copy(s[from:to], t) of Go. */
  function Copied(s: seq<Byte>, from: nat, to: nat, t: seq<Byte>): (r: seq<Byte>)
    requires from <= to <= |s|
    ensures |r| == |s|
  {
    var n := Min(to - from, |t|);
    s[..from] + t[..n] + s[from + n..]
  }

  function Zeros(n: nat): (r: seq<Byte>)
    ensures |r| == n && forall i :: 0 <= i < n ==> r[i] == 0
  {
    seq(n, _ => 0)
  }

  /** The buffer length that doubling reaches. */
  function GrownLength(length: nat, expected: nat, maxBytes: nat): (r: nat)
    requires length <= maxBytes
    ensures length <= r <= maxBytes && Min(expected, maxBytes) <= r
    decreases maxBytes - length
  {
    if length >= expected then length
    else
      var newSize := Min(if length == 0 then 2 else 2 * length, maxBytes);
      if newSize == length then length else GrownLength(newSize, expected, maxBytes)
  }

  lemma {:induction false} GrowthStep(length: nat, expected: nat, maxBytes: nat, newSize: nat)
    requires length < expected && length < newSize
    requires length <= maxBytes && newSize == Min(if length == 0 then 2 else 2 * length, maxBytes)
    ensures GrownLength(length, expected, maxBytes) == GrownLength(newSize, expected, maxBytes)
    ensures newSize >= expected ==> GrownLength(newSize, expected, maxBytes) == newSize
  {
  }

  /** The bytes at the beginning of a longer buffer of zeros. */
  function Grown(bytes: seq<Byte>, length: nat): (r: seq<Byte>)
    requires |bytes| <= length
    ensures |r| == length && forall i :: 0 <= i < length ==> r[i] == if i < |bytes| then bytes[i] else 0
  {
    seq(length, i requires 0 <= i < length => if i < |bytes| then bytes[i] else 0)
  }

  ghost predicate Valid(w: Log) {
    && |w.latestBytes| <= w.maxBytes && w.latestPos <= w.currentSize <= |w.latestBytes|
    && (w.latestPos < w.maxBytes || w.maxBytes == 0)
    && if w.everFull then w.currentSize == |w.latestBytes| == w.maxBytes
       else w.currentSize == w.latestPos
  }

  function Sized(w: Log, expected: nat): Log
    requires |w.latestBytes| <= w.maxBytes
  {
    w.(currentSize := Min(if w.currentSize < expected then expected else w.currentSize, w.maxBytes),
       latestBytes := Grown(w.latestBytes, GrownLength(|w.latestBytes|, expected, w.maxBytes)))
  }

  /** A short write into a buffer that has been sized for it. */
  function Placed(v: Log, input: seq<Byte>): Log
    requires v.latestPos <= v.currentSize <= |v.latestBytes|
  {
    var room, n := v.currentSize - v.latestPos, |v.latestBytes|;
    var bytes := Copied(v.latestBytes, v.latestPos, n, input);
    if room >= |input| then
      var next := v.latestPos + |input|;
      v.(latestBytes := bytes,
         latestPos := if next == v.maxBytes then 0 else next,
         everFull := v.everFull || next == v.maxBytes)
    else
      v.(latestBytes := Copied(bytes, 0, room, input[room..]), latestPos := room, everFull := true)
  }

  /** A write that is at least as long as the buffer. */
  function Replaced(v: Log, input: seq<Byte>): Log
    requires |input| >= v.maxBytes
  {
    v.(latestBytes := Copied(v.latestBytes, 0, |v.latestBytes|, input[|input| - v.maxBytes..]),
       everFull := true, latestPos := 0)
  }

  function Written(v: Log, input: seq<Byte>): Log
    requires v.latestPos <= v.currentSize <= |v.latestBytes|
  {
    if |input| >= v.maxBytes then Replaced(v, input) else Placed(v, input)
  }

  function Absorbed(w: Log, input: seq<Byte>): Log
    requires Valid(w)
  {
    Written(Sized(w, |input| + w.latestPos), input)
  }

  function Retrieved(w: Log): seq<Byte>
    requires Valid(w)
  {
    if w.everFull then w.latestBytes[w.latestPos..] + w.latestBytes[..w.latestPos]
    else w.latestBytes[..w.latestPos]
  }

  function AsciiOnly(bytes: seq<Byte>): (r: seq<Byte>)
    ensures |r| == |bytes|
    ensures forall i :: 0 <= i < |bytes| ==> r[i] == if 32 <= bytes[i] < 127 || 9 <= bytes[i] <= 13 then bytes[i] else 63
  {
    seq(|bytes|, i requires 0 <= i < |bytes| => if 32 <= bytes[i] < 127 || 9 <= bytes[i] <= 13 then bytes[i] else 63)
  }

  lemma {:induction false} GrownTwice(bytes: seq<Byte>, length: nat, newLength: nat)
    requires |bytes| <= length <= newLength
    ensures |Grown(bytes, length)| == length && Grown(Grown(bytes, length), newLength) == Grown(bytes, newLength)
  {
  }

  method CopyInto(dst: array<Byte>, from: nat, to: nat, src: seq<Byte>)
    requires from <= to <= dst.Length
    modifies dst
    ensures dst[..] == Copied(old(dst[..]), from, to, src)
  {
    var n := Min(to - from, |src|);
    forall i | 0 <= i < n {
      dst[from + i] := src[i];
    }
  }

  /** ByteLogWriter; the mutex makes each call atomic, forwarding to the destination is left out. */
  class ByteLogWriter {
    const maxBytes: nat
    var latestBytes: array<Byte>
    var latestPos: int
    var everFull: bool
    var currentSize: int

    constructor (maxBytes: nat)
      ensures fresh(latestBytes) && latestPos == currentSize == 0 && Contents() == NewLog(maxBytes)
    {
      this.maxBytes := maxBytes;
      latestBytes := new Byte[0];
      latestPos, currentSize, everFull := 0, 0, false;
    }

    function Contents(): Log
      requires latestPos >= 0 && currentSize >= 0
      reads this, latestBytes
    {
      Log(maxBytes, latestBytes[..], latestPos, everFull, currentSize)
    }

    ghost predicate Ready()
      reads this, latestBytes
    {
      latestPos >= 0 && currentSize >= 0 && Valid(Contents())
    }

    method EnsureSize(expectedSize: nat)
      requires latestPos >= 0 && currentSize >= 0 && latestBytes.Length <= maxBytes
      modifies this
      ensures latestPos >= 0 && currentSize >= 0 && Contents() == Sized(old(Contents()), expectedSize)
      ensures latestBytes == old(latestBytes) || fresh(latestBytes)
    {
      if currentSize < expectedSize {
        currentSize := expectedSize;
      }
      if currentSize > maxBytes {
        currentSize := maxBytes;
      }
      Enlarge(expectedSize);
    }

    /** A longer buffer with the same bytes at its beginning. */
    method Grow(newSize: nat)
      requires latestBytes.Length <= newSize
      modifies `latestBytes
      ensures fresh(latestBytes) && latestBytes[..] == Grown(old(latestBytes[..]), newSize)
    {
      var contents := latestBytes[..];
      latestBytes := new Byte[newSize](i => if 0 <= i < |contents| then contents[i] else 0);
    }

    /** The doubling loop of ensureSize. */
    method Enlarge(expectedSize: nat)
      requires latestBytes.Length <= maxBytes
      modifies `latestBytes
      ensures latestBytes == old(latestBytes) || fresh(latestBytes)
      ensures latestBytes[..] ==
        Grown(old(latestBytes[..]), GrownLength(old(latestBytes.Length), expectedSize, maxBytes))
    {
      ghost var target := GrownLength(latestBytes.Length, expectedSize, maxBytes);
      while true
        invariant old(latestBytes.Length) <= latestBytes.Length <= maxBytes
        invariant latestBytes == old(latestBytes) || fresh(latestBytes)
        invariant latestBytes[..] == Grown(old(latestBytes[..]), latestBytes.Length)
        invariant GrownLength(latestBytes.Length, expectedSize, maxBytes) == target
        decreases maxBytes - latestBytes.Length
      {
        if latestBytes.Length < expectedSize {
          var newSize := latestBytes.Length * 2;
          if newSize == 0 {
            newSize := 2;
          }
          if newSize > maxBytes {
            newSize := maxBytes;
          }
          if newSize == latestBytes.Length {
            return;
          }
          GrowthStep(latestBytes.Length, expectedSize, maxBytes, newSize);
          GrownTwice(old(latestBytes[..]), latestBytes.Length, newSize);
          Grow(newSize);
          if newSize >= expectedSize {
            return;
          }
        } else {
          return;
        }
      }
    }

    /** The first branch of absorb. */
    method Replace(input: seq<Byte>)
      requires latestPos >= 0 && currentSize >= 0 && |input| >= maxBytes
      modifies this, latestBytes
      ensures latestBytes == old(latestBytes)
      ensures latestPos >= 0 && currentSize >= 0 && Contents() == Replaced(old(Contents()), input)
    {
      CopyInto(latestBytes, 0, latestBytes.Length, input[|input| - maxBytes..]);
      everFull := true;
      latestPos := 0;
    }

    /** The other branches of absorb. */
    method Place(input: seq<Byte>)
      requires 0 <= latestPos <= currentSize <= latestBytes.Length
      modifies this, latestBytes
      ensures latestBytes == old(latestBytes)
      ensures latestPos >= 0 && currentSize >= 0 && Contents() == Placed(old(Contents()), input)
    {
      var room := currentSize - latestPos;
      CopyInto(latestBytes, latestPos, latestBytes.Length, input);
      if room >= |input| {
        latestPos := latestPos + |input|;
        if latestPos == maxBytes {
          everFull := true;
          latestPos := 0;
        }
      } else {
        CopyInto(latestBytes, 0, room, input[room..]);
        latestPos := room;
        everFull := true;
      }
    }

    /** absorb. */
    method Absorb(input: seq<Byte>)
      requires Ready()
      modifies this, latestBytes
      ensures Ready() && Contents() == Absorbed(old(Contents()), input)
      ensures latestBytes == old(latestBytes) || fresh(latestBytes)
    {
      ghost var before := Contents();
      EnsureSize(|input| + latestPos);
      WriteSized(before, input);
    }

    method WriteSized(ghost before: Log, input: seq<Byte>)
      requires latestPos >= 0 && currentSize >= 0
      requires Valid(before) && Contents() == Sized(before, |input| + before.latestPos)
      modifies this, latestBytes
      ensures latestBytes == old(latestBytes)
      ensures Ready() && Contents() == Absorbed(before, input)
    {
      SizedWritable(before, input);
      Write(Sized(before, |input| + before.latestPos), input);
    }

    /** The branches of absorb, with the buffer sized for the input. */
    method Write(ghost v: Log, input: seq<Byte>)
      requires latestPos >= 0 && currentSize >= 0 && Contents() == v && Writable(v, input)
      modifies this, latestBytes
      ensures latestBytes == old(latestBytes)
      ensures Ready() && Contents() == Written(v, input)
    {
      if |input| >= maxBytes {
        Replace(input);
      } else {
        Place(input);
      }
    }

    /** Retrieve. */
    method Retrieve(asciiOnly: bool) returns (ret: seq<Byte>)
      requires Ready()
      ensures ret == if asciiOnly then AsciiOnly(Retrieved(Contents())) else Retrieved(Contents())
    {
      if everFull {
        var bufCopy := new Byte[currentSize](_ => 0);
        CopiedTwice(bufCopy[..], latestBytes[latestPos..currentSize], latestBytes[..latestPos]);
        CopyInto(bufCopy, 0, bufCopy.Length, latestBytes[latestPos..currentSize]);
        CopyInto(bufCopy, latestBytes.Length - latestPos, currentSize, latestBytes[..latestPos]);
        ret := bufCopy[..];
        assert ret == latestBytes[latestPos..currentSize] + latestBytes[..latestPos];
        assert latestBytes[latestPos..currentSize] == latestBytes[..][latestPos..];
        assert latestBytes[..latestPos] == latestBytes[..][..latestPos];
      } else {
        var bufCopy := new Byte[latestPos](_ => 0);
        CopyInto(bufCopy, 0, bufCopy.Length, latestBytes[..latestPos]);
        ret := bufCopy[..];
        assert ret == latestBytes[..][..latestPos];
      }
      if asciiOnly {
        ret := AsciiOnly(ret);
      }
    }
  }

  /** The buffer is ready for the branches of absorb. */
  ghost predicate Writable(v: Log, input: seq<Byte>) {
    v.latestPos <= v.currentSize <= |v.latestBytes| && Valid(Written(v, input))
  }

  lemma {:induction false} SizedWritable(w: Log, input: seq<Byte>)
    requires Valid(w)
    ensures Writable(Sized(w, |input| + w.latestPos), input)
  {
    AbsorbValid(w, input);
  }

  lemma {:induction false} CopiedTwice(s: seq<Byte>, a: seq<Byte>, b: seq<Byte>)
    requires |s| == |a| + |b|
    ensures Copied(Copied(s, 0, |s|, a), |a|, |s|, b) == a + b
  {
  }

  // Every run

  /** A write that runs past the end of the buffer. */
  predicate Crosses(maxBytes: nat, pos: nat, n: nat) { n < maxBytes < pos + n }

  /** How a write of n bytes moves the position. */
  function NextPos(maxBytes: nat, pos: nat, n: nat): nat {
    if n >= maxBytes || pos + n == maxBytes then 0
    else if pos + n < maxBytes then pos + n
    else if pos <= maxBytes then maxBytes - pos
    else 0
  }

  lemma {:induction false} AbsorbValid(w: Log, input: seq<Byte>)
    requires Valid(w)
    ensures Valid(Absorbed(w, input))
    ensures Absorbed(w, input).latestPos == NextPos(w.maxBytes, w.latestPos, |input|)
    ensures Absorbed(w, input).maxBytes == w.maxBytes
    ensures Absorbed(w, input).everFull <==> w.everFull || |input| + w.latestPos >= w.maxBytes
  {
  }

  /** How much has been written, as far as the log can tell. */
  predicate Tracks(w: Log, total: nat) {
    if w.everFull then total >= w.maxBytes else total == w.latestPos
  }

  /** Whatever is written, the log keeps as many bytes as it should. */
  lemma {:induction false} LengthKept(w: Log, total: nat, input: seq<Byte>)
    requires Valid(w) && Tracks(w, total)
    ensures Valid(Absorbed(w, input)) && Tracks(Absorbed(w, input), total + |input|)
    ensures |Retrieved(Absorbed(w, input))| == Min(total + |input|, w.maxBytes)
  {
    AbsorbValid(w, input);
  }

  ghost predicate Faithful(w: Log, history: seq<Byte>) {
    Valid(w) && Tracks(w, |history|) && Retrieved(w) == LastN(history, w.maxBytes)
  }

  /** A crossing write is handled well if as much runs over the end as fits before it. */
  predicate Safe(maxBytes: nat, pos: nat, n: nat) {
    Crosses(maxBytes, pos, n) ==> n == 2 * (maxBytes - pos)
  }

  /** v is w after a write that is at least as long as the buffer. */
  ghost predicate WroteAll(w: Log, input: seq<Byte>, v: Log) {
    && Valid(v) && v.maxBytes == w.maxBytes <= |input| && v.everFull && v.latestPos == 0
    && v.latestBytes == input[|input| - w.maxBytes..]
  }

  /** v is w after a write that stays inside the buffer. */
  ghost predicate WroteInside(w: Log, input: seq<Byte>, v: Log) {
    var p, q := w.latestPos, w.latestPos + |input|;
    && Valid(v) && v.maxBytes == w.maxBytes && q <= |v.latestBytes|
    && p <= |w.latestBytes|
    && v.latestPos == (if q == w.maxBytes then 0 else q)
    && (v.everFull <==> w.everFull || q == w.maxBytes)
    && v.latestBytes[..q] == w.latestBytes[..p] + input
    && (w.everFull ==> q <= |w.latestBytes| && v.latestBytes[q..] == w.latestBytes[q..])
  }

  /** v is w after a write that crosses the end of the buffer. */
  ghost predicate WroteAcross(w: Log, input: seq<Byte>, v: Log) {
    var room := w.maxBytes - w.latestPos;
    && 1 <= room < |input| < w.maxBytes
    && Valid(v) && v.maxBytes == w.maxBytes && v.everFull && v.latestPos == room
    && w.latestPos <= |w.latestBytes|
    && AcrossBytes(v.latestBytes, w.latestBytes[..w.latestPos], input)
  }

  /** b holds what a write across the end leaves of `before`, the bytes before the position. */
  ghost predicate AcrossBytes(b: seq<Byte>, before: seq<Byte>, input: seq<Byte>) {
    var p := |before|;
    var room := |b| - p;
    && 1 <= room < |input|
    && var k := Min(room, |input| - room);
       && (forall i :: 0 <= i < k && i < |b| ==> b[i] == input[room + i])
       && (forall i :: k <= i < p ==> b[i] == before[i])
       && (forall i :: k <= i && p <= i < |b| ==> b[i] == input[i - p])
  }

  lemma {:induction false} AbsorbAll(w: Log, input: seq<Byte>)
    requires Valid(w) && |input| >= w.maxBytes
    ensures WroteAll(w, input, Absorbed(w, input))
  {
  }

  lemma {:induction false} AbsorbInside(w: Log, input: seq<Byte>)
    requires Valid(w) && |input| < w.maxBytes && w.latestPos + |input| <= w.maxBytes
    ensures WroteInside(w, input, Absorbed(w, input))
  {
    var v := Sized(w, |input| + w.latestPos);
    SizedInside(w, input);
    AbsorbValid(w, input);
    InsideFrom(w, v, input);
  }

  /** v is w with the buffer at the size that the input needs. */
  ghost predicate Roomy(w: Log, v: Log, n: nat) {
    && v.maxBytes == w.maxBytes && v.latestPos == w.latestPos <= |w.latestBytes| && v.everFull == w.everFull
    && w.latestPos + n <= v.currentSize <= |v.latestBytes|
    && v.latestBytes[..w.latestPos] == w.latestBytes[..w.latestPos]
    && (w.everFull ==> v.latestBytes == w.latestBytes)
  }

  lemma {:induction false} SizedInside(w: Log, input: seq<Byte>)
    requires Valid(w) && w.latestPos + |input| <= w.maxBytes
    ensures Roomy(w, Sized(w, |input| + w.latestPos), |input|)
  {
    SizedPrefix(w, |input| + w.latestPos);
  }

  lemma {:induction false} InsideFrom(w: Log, v: Log, input: seq<Byte>)
    requires Roomy(w, v, |input|) && |input| < w.maxBytes && Valid(Written(v, input))
    ensures WroteInside(w, input, Written(v, input))
  {
    PlacedInside(v, input);
  }

  lemma {:induction false} PlacedInside(v: Log, input: seq<Byte>)
    requires v.latestPos + |input| <= v.currentSize <= |v.latestBytes|
    ensures var b, q := Placed(v, input).latestBytes, v.latestPos + |input|;
      |b| == |v.latestBytes| && b[..q] == v.latestBytes[..v.latestPos] + input && b[q..] == v.latestBytes[q..]
  {
  }

  lemma {:induction false} AbsorbAcross(w: Log, input: seq<Byte>)
    requires Valid(w) && Crosses(w.maxBytes, w.latestPos, |input|)
    ensures WroteAcross(w, input, Absorbed(w, input))
  {
    SizedFully(w, input);
    AbsorbValid(w, input);
    AcrossFrom(w, Sized(w, |input| + w.latestPos), input);
  }

  /** v is w with the buffer at its full size. */
  ghost predicate FullSize(w: Log, v: Log) {
    && v.maxBytes == w.maxBytes == |v.latestBytes| == v.currentSize && v.latestPos == w.latestPos
    && w.latestPos <= |w.latestBytes| && w.latestPos <= w.maxBytes
    && v.latestBytes[..w.latestPos] == w.latestBytes[..w.latestPos]
  }

  lemma {:induction false} SizedPrefix(w: Log, expected: nat)
    requires Valid(w)
    ensures |Sized(w, expected).latestBytes| == GrownLength(|w.latestBytes|, expected, w.maxBytes)
    ensures Sized(w, expected).latestBytes[..w.latestPos] == w.latestBytes[..w.latestPos]
  {
  }

  lemma {:induction false} SizedFully(w: Log, input: seq<Byte>)
    requires Valid(w) && Crosses(w.maxBytes, w.latestPos, |input|)
    ensures FullSize(w, Sized(w, |input| + w.latestPos))
  {
    SizedPrefix(w, |input| + w.latestPos);
  }

  lemma {:induction false} AcrossFrom(w: Log, v: Log, input: seq<Byte>)
    requires FullSize(w, v) && Crosses(w.maxBytes, w.latestPos, |input|) && w.latestPos < w.maxBytes
    requires Valid(Written(v, input))
    ensures WroteAcross(w, input, Written(v, input))
  {
    PlacedAcross(v, input);
  }

  lemma {:induction false} PlacedAcross(v: Log, input: seq<Byte>)
    requires v.latestPos < v.currentSize == |v.latestBytes| < v.latestPos + |input|
    ensures |Placed(v, input).latestBytes| == |v.latestBytes|
    ensures AcrossBytes(Placed(v, input).latestBytes, v.latestBytes[..v.latestPos], input)
  {
    var b, s, p, room := Placed(v, input).latestBytes, v.latestBytes, v.latestPos, v.currentSize - v.latestPos;
    var k := Min(room, |input| - room);
    forall i | 0 <= i < |s|
      ensures b[i] == if i < k then input[room + i] else if i < p then s[i] else input[i - p]
    {
      CopiedAt(s, p, |s|, input, i);
      CopiedAt(Copied(s, p, |s|, input), 0, room, input[room..], i);
    }
  }

  lemma {:induction false} CopiedAt(s: seq<Byte>, from: nat, to: nat, t: seq<Byte>, i: nat)
    requires from <= to <= |s| && i < |s|
    ensures Copied(s, from, to, t)[i] == if from <= i < from + Min(to - from, |t|) then t[i - from] else s[i]
  {
  }

  /** The three kinds of writes. */
  ghost predicate Wrote(w: Log, input: seq<Byte>, v: Log) {
    if |input| >= w.maxBytes then WroteAll(w, input, v)
    else if w.latestPos + |input| <= w.maxBytes then WroteInside(w, input, v)
    else WroteAcross(w, input, v)
  }

  lemma {:induction false} AbsorbEffect(w: Log, input: seq<Byte>)
    requires Valid(w)
    ensures Wrote(w, input, Absorbed(w, input))
  {
    if |input| >= w.maxBytes {
      AbsorbAll(w, input);
    } else if w.latestPos + |input| <= w.maxBytes {
      AbsorbInside(w, input);
    } else {
      AbsorbAcross(w, input);
    }
  }

  lemma {:induction false} LastAppend(a: seq<Byte>, b: seq<Byte>, n: nat)
    requires |a| >= n >= |b|
    ensures LastN(a + b, n) == LastN(a, n)[|b|..] + b
  {
    var s, from := a + b, |a| + |b| - n;
    assert LastN(s, n) == s[from..] == a[from..] + b;
    assert LastN(a, n) == a[|a| - n..] && a[|a| - n..][|b|..] == a[from..];
  }

  lemma {:induction false} FaithfulInside(w: Log, history: seq<Byte>, input: seq<Byte>, v: Log)
    requires Faithful(w, history) && |input| < w.maxBytes && WroteInside(w, input, v)
    ensures Faithful(v, history + input)
  {
    if w.everFull {
      FaithfulInsideFull(w, history, input, v);
    } else {
      var p, q, a, b := w.latestPos, w.latestPos + |input|, w.latestBytes, v.latestBytes;
      assert history == a[..p];
      if v.everFull {
        assert b[..q] == b;
      }
    }
  }

  lemma {:induction false} FaithfulInsideFull(w: Log, history: seq<Byte>, input: seq<Byte>, v: Log)
    requires Faithful(w, history) && w.everFull && |input| < w.maxBytes && WroteInside(w, input, v)
    ensures Faithful(v, history + input)
  {
    var p, q, a, b := w.latestPos, w.latestPos + |input|, w.latestBytes, v.latestBytes;
    LastAppend(history, input, w.maxBytes);
    assert Retrieved(w)[|input|..] == a[q..] + a[..p];
    assert b == b[..q] + b[q..];
  }

  lemma {:induction false} FaithfulAcross(w: Log, history: seq<Byte>, input: seq<Byte>, v: Log)
    requires Faithful(w, history) && WroteAcross(w, input, v)
    requires |input| == 2 * (w.maxBytes - w.latestPos)
    ensures Faithful(v, history + input)
  {
    AcrossContents(w, input, v);
    FaithfulFrom(w, history, input, v);
  }

  lemma {:induction false} AcrossContents(w: Log, input: seq<Byte>, v: Log)
    requires WroteAcross(w, input, v) && |input| == 2 * (w.maxBytes - w.latestPos)
    ensures Retrieved(v) == w.latestBytes[w.maxBytes - w.latestPos..w.latestPos] + input
  {
    var p, room := w.latestPos, w.maxBytes - w.latestPos;
    AcrossRotated(v.latestBytes, w.latestBytes[..p], input);
    assert w.latestBytes[..p][room..] == w.latestBytes[room..p];
  }

  lemma {:induction false} FaithfulFrom(w: Log, history: seq<Byte>, input: seq<Byte>, v: Log)
    requires Faithful(w, history) && Valid(v) && v.everFull && v.maxBytes == w.maxBytes > |input|
    requires |input| == 2 * (w.maxBytes - w.latestPos)
    requires Retrieved(v) == w.latestBytes[w.maxBytes - w.latestPos..w.latestPos] + input
    ensures Faithful(v, history + input)
  {
    var kept := w.latestPos - (w.maxBytes - w.latestPos);
    LatestKept(w, history, kept);
    assert |history| + |input| >= w.maxBytes && w.maxBytes - |input| == kept;
    LastOfAppend(history, input, w.maxBytes);
  }

  lemma {:induction false} AcrossRotated(b: seq<Byte>, before: seq<Byte>, input: seq<Byte>)
    requires AcrossBytes(b, before, input) && |input| == 2 * (|b| - |before|) && |b| - |before| <= |before|
    ensures var room := |b| - |before|; b[room..] + b[..room] == before[room..] + input
  {
    var p, room := |before|, |b| - |before|;
    assert b[room..p] == before[room..] && b[p..] == input[..room] && b[..room] == input[room..];
    assert b[room..] == b[room..p] + b[p..];
  }

  lemma {:induction false} LastOfAppend(a: seq<Byte>, b: seq<Byte>, n: nat)
    requires |b| <= n <= |a| + |b|
    ensures LastN(a + b, n) == LastN(a, n - |b|) + b
  {
    var from := |a| + |b| - n;
    assert LastN(a + b, n) == (a + b)[from..] == a[from..] + b;
    assert LastN(a, n - |b|) == a[from..];
  }

  /** The bytes right before the position are the latest ones. */
  lemma {:induction false} LatestKept(w: Log, history: seq<Byte>, n: nat)
    requires Faithful(w, history) && n <= w.latestPos
    ensures w.latestBytes[w.latestPos - n..w.latestPos] == LastN(history, n)
  {
    var r, p := Retrieved(w), w.latestPos;
    assert r[|r| - n..] == w.latestBytes[p - n..p];
    assert LastN(history, w.maxBytes)[|r| - n..] == LastN(history, n);
  }

  /** A safe write keeps the log equal to the latest bytes. */
  lemma {:induction false} SafeKeepsFaithful(w: Log, history: seq<Byte>, input: seq<Byte>)
    requires Faithful(w, history) && Safe(w.maxBytes, w.latestPos, |input|)
    ensures Faithful(Absorbed(w, input), history + input)
  {
    AbsorbEffect(w, input);
    FaithfulAfter(w, history, input, Absorbed(w, input));
  }

  lemma {:induction false} FaithfulAll(w: Log, history: seq<Byte>, input: seq<Byte>, v: Log)
    requires WroteAll(w, input, v)
    ensures Faithful(v, history + input)
  {
    assert Retrieved(v) == v.latestBytes;
    assert LastN(history + input, w.maxBytes) == input[|input| - w.maxBytes..];
  }

  lemma {:induction false} FaithfulAfter(w: Log, history: seq<Byte>, input: seq<Byte>, v: Log)
    requires Faithful(w, history) && Safe(w.maxBytes, w.latestPos, |input|) && Wrote(w, input, v)
    ensures Faithful(v, history + input)
  {
    if |input| >= w.maxBytes {
      FaithfulAll(w, history, input, v);
    } else if w.latestPos + |input| <= w.maxBytes {
      FaithfulInside(w, history, input, v);
    } else {
      FaithfulAcross(w, history, input, v);
    }
  }

  function Ones(n: nat): (r: seq<Byte>)
    ensures |r| == n && forall i :: 0 <= i < n ==> r[i] == 1
  {
    seq(n, _ => 1)
  }

  predicate AllZero(s: seq<Byte>) { forall i :: 0 <= i < |s| ==> s[i] == 0 }

  lemma {:induction false} ZerosKept(w: Log, history: seq<Byte>)
    requires Faithful(w, history) && AllZero(history)
    ensures forall i :: 0 <= i < w.latestPos ==> w.latestBytes[i] == 0
  {
    var p := w.latestPos;
    LatestKept(w, history, p);
    var latest := LastN(history, p);
    assert w.latestBytes[p - p..p] == latest;
    forall i | 0 <= i < p ensures w.latestBytes[i] == 0 {
      assert w.latestBytes[i] == latest[i];
    }
  }

  /** Ones written across the end after zeros: in the rotated buffer the ones are not all at the end. */
  lemma {:induction false} OnesMisplaced(b: seq<Byte>, before: seq<Byte>, n: nat) returns (i: nat)
    requires AcrossBytes(b, before, Ones(n)) && AllZero(before) && n < |b| && n != 2 * (|b| - |before|)
    ensures i < |b|
    ensures var room := |b| - |before|;
      var r := b[room..] + b[..room];
      r[i] != if i < |b| - n then 0 else 1
  {
    var p, room, max := |before|, |b| - |before|, |b|;
    var r := b[room..] + b[..room];
    if n - room > room {
      i := max - n;
      assert r[i] == b[room + i] == before[room + i];
    } else if room <= p {
      i := max - 1;
      assert r[i] == b[room - 1] == before[room - 1];
    } else {
      i := 0;
      assert r[0] == b[room] == Ones(n)[room - p];
    }
  }

  /** Ones written across the end after zeros end up in the wrong place. */
  lemma {:induction false} AcrossBreaks(w: Log, history: seq<Byte>, n: nat, v: Log)
    requires Faithful(w, history) && AllZero(history) && WroteAcross(w, Ones(n), v)
    requires n != 2 * (w.maxBytes - w.latestPos)
    ensures Retrieved(v) != LastN(history + Ones(n), w.maxBytes)
  {
    assert AllZero(w.latestBytes[..w.latestPos]) by { ZerosKept(w, history); }
    var i := RetrievedOnes(w, n, v);
    ExpectedOnes(history, n, w.maxBytes, i);
  }

  lemma {:induction false} RetrievedOnes(w: Log, n: nat, v: Log) returns (i: nat)
    requires WroteAcross(w, Ones(n), v) && n != 2 * (w.maxBytes - w.latestPos)
    requires AllZero(w.latestBytes[..w.latestPos])
    ensures i < w.maxBytes && |Retrieved(v)| == w.maxBytes
    ensures Retrieved(v)[i] != if i < w.maxBytes - n then 0 else 1
  {
    i := OnesMisplaced(v.latestBytes, w.latestBytes[..w.latestPos], n);
  }

  lemma {:induction false} ExpectedOnes(history: seq<Byte>, n: nat, max: nat, i: nat)
    requires AllZero(history) && n <= max <= |history| + n && i < max
    ensures LastN(history + Ones(n), max)[i] == if i < max - n then 0 else 1
  {
  }

  /** After an unsafe write the log is wrong for some bytes: zeros before, ones now. */
  lemma {:induction false} UnsafeBreaks(w: Log, history: seq<Byte>, n: nat)
    requires Faithful(w, history) && AllZero(history) && !Safe(w.maxBytes, w.latestPos, n)
    ensures !Faithful(Absorbed(w, Ones(n)), history + Ones(n))
  {
    AbsorbEffect(w, Ones(n));
    AcrossBreaks(w, history, n, Absorbed(w, Ones(n)));
  }

  // Runs of writes

  function Lengths(writes: seq<seq<Byte>>): (r: seq<nat>)
    ensures |r| == |writes| && forall i :: 0 <= i < |writes| ==> r[i] == |writes[i]|
  {
    seq(|writes|, i requires 0 <= i < |writes| => |writes[i]|)
  }

  /** Every write of the run is safe; this depends on the lengths alone. */
  predicate SafeLengths(maxBytes: nat, pos: nat, lengths: seq<nat>)
    decreases |lengths|
  {
    lengths == [] ||
    (Safe(maxBytes, pos, lengths[0]) && SafeLengths(maxBytes, NextPos(maxBytes, pos, lengths[0]), lengths[1..]))
  }

  /** After every write of the run the log holds the latest bytes. */
  ghost predicate AlwaysFaithful(w: Log, history: seq<Byte>, writes: seq<seq<Byte>>)
    requires Valid(w)
    decreases |writes|
  {
    Faithful(w, history) &&
    (writes == [] ||
     (Valid(Absorbed(w, writes[0])) && AlwaysFaithful(Absorbed(w, writes[0]), history + writes[0], writes[1..])))
  }

  lemma {:induction false} SafeRun(w: Log, history: seq<Byte>, writes: seq<seq<Byte>>)
    requires Faithful(w, history) && SafeLengths(w.maxBytes, w.latestPos, Lengths(writes))
    ensures AlwaysFaithful(w, history, writes)
    decreases |writes|
  {
    if writes == [] {
    } else {
      AbsorbValid(w, writes[0]);
      SafeKeepsFaithful(w, history, writes[0]);
      assert Lengths(writes)[1..] == Lengths(writes[1..]);
      SafeRun(Absorbed(w, writes[0]), history + writes[0], writes[1..]);
    }
  }

  lemma {:induction false} UnsafeNow(w: Log, history: seq<Byte>, n: nat, rest: seq<seq<Byte>>)
    requires Faithful(w, history) && AllZero(history) && !Safe(w.maxBytes, w.latestPos, n)
    ensures !AlwaysFaithful(w, history, [Ones(n)] + rest)
  {
    UnsafeBreaks(w, history, n);
  }

  /** A safe write of zeros only puts the failure off. */
  lemma {:induction false} SafeZeros(w: Log, history: seq<Byte>, n: nat) returns (v: Log)
    requires Faithful(w, history) && AllZero(history) && Safe(w.maxBytes, w.latestPos, n)
    ensures Faithful(v, history + Zeros(n)) && AllZero(history + Zeros(n))
    ensures v.maxBytes == w.maxBytes && v.latestPos == NextPos(w.maxBytes, w.latestPos, n)
    ensures forall rest: seq<seq<Byte>> ::
      AlwaysFaithful(w, history, [Zeros(n)] + rest) ==> AlwaysFaithful(v, history + Zeros(n), rest)
  {
    AbsorbValid(w, Zeros(n));
    SafeKeepsFaithful(w, history, Zeros(n));
    v := Absorbed(w, Zeros(n));
    forall rest: seq<seq<Byte>> | AlwaysFaithful(w, history, [Zeros(n)] + rest)
      ensures AlwaysFaithful(v, history + Zeros(n), rest)
    {
      assert ([Zeros(n)] + rest)[1..] == rest;
    }
  }

  lemma {:induction false} LengthsFirst(first: seq<Byte>, rest: seq<seq<Byte>>, lengths: seq<nat>)
    requires lengths != [] && |first| == lengths[0] && Lengths(rest) == lengths[1..]
    ensures Lengths([first] + rest) == lengths
  {
    assert lengths == [lengths[0]] + lengths[1..];
  }

  lemma {:induction false} UnsafeRun(w: Log, history: seq<Byte>, lengths: seq<nat>) returns (writes: seq<seq<Byte>>)
    requires Faithful(w, history) && AllZero(history) && !SafeLengths(w.maxBytes, w.latestPos, lengths)
    ensures Lengths(writes) == lengths && !AlwaysFaithful(w, history, writes)
    decreases |lengths|
  {
    var n := lengths[0];
    if Safe(w.maxBytes, w.latestPos, n) {
      var v := SafeZeros(w, history, n);
      var rest := UnsafeRun(v, history + Zeros(n), lengths[1..]);
      LengthsFirst(Zeros(n), rest, lengths);
      writes := [Zeros(n)] + rest;
    } else {
      var rest := seq(|lengths| - 1, i requires 0 <= i < |lengths| - 1 => Zeros(lengths[i + 1]));
      UnsafeNow(w, history, n, rest);
      LengthsFirst(Ones(n), rest, lengths);
      writes := [Ones(n)] + rest;
    }
  }

  /**
   * The log holds the latest bytes after every write, for all bytes of the given lengths, exactly when each
   * write that crosses the end of the buffer runs over it by as much as fitted before it.
   */
  lemma {:induction false} FaithfulExactly(maxBytes: nat, lengths: seq<nat>)
    ensures SafeLengths(maxBytes, 0, lengths) <==>
      forall writes: seq<seq<Byte>> :: Lengths(writes) == lengths ==> AlwaysFaithful(NewLog(maxBytes), [], writes)
  {
    var w := NewLog(maxBytes);
    assert Faithful(w, []);
    if SafeLengths(maxBytes, 0, lengths) {
      forall writes: seq<seq<Byte>> | Lengths(writes) == lengths ensures AlwaysFaithful(w, [], writes) {
        SafeRun(w, [], writes);
      }
    } else {
      var writes := UnsafeRun(w, [], lengths);
    }
  }

  function AfterWrites(w: Log, writes: seq<seq<Byte>>): (r: Log)
    requires Valid(w)
    ensures Valid(r) && r.maxBytes == w.maxBytes
    decreases |writes|
  {
    if writes == [] then w
    else
      AbsorbValid(w, writes[0]);
      AfterWrites(Absorbed(w, writes[0]), writes[1..])
  }

  lemma {:induction false} RunTracks(w: Log, total: nat, writes: seq<seq<Byte>>)
    requires Valid(w) && Tracks(w, total)
    ensures Tracks(AfterWrites(w, writes), total + |Concat(writes)|)
    decreases |writes|
  {
    if writes == [] {
    } else {
      LengthKept(w, total, writes[0]);
      var v := Absorbed(w, writes[0]);
      RunTracks(v, total + |writes[0]|, writes[1..]);
      assert AfterWrites(w, writes) == AfterWrites(v, writes[1..]);
      assert total + |writes[0]| + |Concat(writes[1..])| == total + |Concat(writes)|;
    }
  }

  /** Whatever is written, the log keeps min(total, maxBytes) bytes and its position stays in range. */
  lemma {:induction false} RunKeepsLength(maxBytes: nat, writes: seq<seq<Byte>>)
    ensures var w := AfterWrites(NewLog(maxBytes), writes);
      && (w.latestPos < maxBytes || w.latestPos == maxBytes == 0)
      && |Retrieved(w)| == Min(|Concat(writes)|, maxBytes)
  {
    RunTracks(NewLog(maxBytes), 0, writes);
  }
}
