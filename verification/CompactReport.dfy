/** The compact form of a subject report: toolbox/message_processor_struct.go. */
module CompactReport {
  import opened Text
  import opened Dtmf

  type Int64 = i: int | -0x8000_0000_0000_0000 <= i < 0x8000_0000_0000_0000

  /** The fields of SubjectReportRequest that travel; times are whole seconds since the epoch. */
  datatype Report = Report(
    hostName: string,
    command: string,
    responseCommand: string,
    responseResult: string,
    platform: string,
    comment: string,
    ip: string,
    receivedAt: Int64,
    runDuration: Int64)

  datatype DecodeError = NoError | Truncated | NothingDecoded

  const FIELDS := 9
  const TEXT_FIELDS := 7

  // Numbers as text: the %d verb and strconv.Atoi

  function Digit(n: nat): char
    requires n < 10
  {
    (n + '0' as int) as char
  }

  function DecimalNat(n: nat): (r: string)
    ensures r != "" && forall i :: 0 <= i < |r| ==> IsDigit(r[i])
  {
    if n < 10 then [Digit(n)] else DecimalNat(n / 10) + [Digit(n % 10)]
  }

  function Decimal(n: int): string {
    if n < 0 then "-" + DecimalNat(-n) else DecimalNat(n)
  }

  function Value(digits: string): nat
    requires forall i :: 0 <= i < |digits| ==> IsDigit(digits[i])
  {
    if digits == "" then 0
    else
      var last := digits[|digits| - 1];
      assert IsDigit(last);
      10 * Value(digits[..|digits| - 1]) + (last as int - '0' as int)
  }

  function Clamp(n: int): Int64 {
    if n < -0x8000_0000_0000_0000 then -0x8000_0000_0000_0000
    else if n >= 0x8000_0000_0000_0000 then 0x7fff_ffff_ffff_ffff
    else n
  }

  /** strconv.Atoi with its error ignored: 0 for text that is no number, the nearest number if out of range. */
  function Atoi(s: string): Int64 {
    var digits := if s != "" && (s[0] == '-' || s[0] == '+') then s[1..] else s;
    if digits == "" || exists i :: 0 <= i < |digits| && !IsDigit(digits[i]) then 0
    else
      var v: int := Value(digits);
      Clamp(if s[0] == '-' then -v else v)
  }

  lemma {:induction false} ValueOfDecimal(n: nat)
    ensures Value(DecimalNat(n)) == n
  {
    if n < 10 {
      assert [Digit(n)][..0] == "";
    } else {
      ValueOfDecimal(n / 10);
      assert DecimalNat(n)[..|DecimalNat(n)| - 1] == DecimalNat(n / 10);
    }
  }

  lemma {:induction false} AtoiPositive(n: nat)
    ensures Atoi(DecimalNat(n)) == Clamp(n)
  {
    ValueOfDecimal(n);
    assert IsDigit(DecimalNat(n)[0]);
  }

  lemma {:induction false} AtoiNegative(n: int)
    requires n >= 0
    ensures Atoi("-" + DecimalNat(n)) == Clamp(-n)
  {
    ValueOfDecimal(n);
    assert ("-" + DecimalNat(n))[1..] == DecimalNat(n);
  }

  lemma {:induction false} AtoiDecimal(n: Int64)
    ensures Atoi(Decimal(n)) == n
  {
    var m: int := n;
    if m < 0 {
      AtoiNegative(-m);
    } else {
      AtoiPositive(m);
    }
  }

  // Lines

  /** strings.ReplaceAll for single characters. */
  function ReplaceAll(s: string, a: char, b: char): (r: string)
    ensures |r| == |s| && forall i :: 0 <= i < |s| ==> r[i] == if s[i] == a then b else s[i]
  {
    seq(|s|, i requires 0 <= i < |s| => if s[i] == a then b else s[i])
  }

  function Flatten(s: string): string { ReplaceAll(s, '\n', LINE_SEPARATOR) }

  function Restore(s: string): string { ReplaceAll(s, LINE_SEPARATOR, '\n') }

  // Writing and reading

  /** The components, from most important to least important. */
  function Fields(r: Report): (f: seq<string>)
    ensures |f| == FIELDS
  {
    [r.hostName, r.command, r.responseCommand, Flatten(r.responseResult), r.platform, Flatten(r.comment), r.ip,
     Decimal(r.receivedAt), Decimal(r.runDuration)]
  }

  /** SerialiseCompact. */
  function Serialise(r: Report): string { Join(Fields(r), FIELD_SEPARATOR) }

  /** The report after the components have been assigned to it; missing components leave their field alone. */
  function Assign(r: Report, c: seq<string>): Report {
    Report(
      if |c| > 0 then c[0] else r.hostName,
      if |c| > 1 then c[1] else r.command,
      if |c| > 2 then c[2] else r.responseCommand,
      if |c| > 3 then Restore(c[3]) else r.responseResult,
      if |c| > 4 then c[4] else r.platform,
      if |c| > 5 then Restore(c[5]) else r.comment,
      if |c| > 6 then c[6] else r.ip,
      if |c| > 7 then Atoi(c[7]) else r.receivedAt,
      if |c| > 8 then Atoi(c[8]) else r.runDuration)
  }

  function Deserialised(r: Report, input: string): Report { Assign(r, Split(input, FIELD_SEPARATOR)) }

  function Outcome(input: string): DecodeError {
    var c := Split(input, FIELD_SEPARATOR);
    if |c| != FIELDS then Truncated else if c[0] == "" then NothingDecoded else NoError
  }

  /** SubjectReportRequest, whose fields DeserialiseFromCompact assigns one by one. */
  class SubjectReportRequest {
    var hostName: string
    var command: string
    var responseCommand: string
    var responseResult: string
    var platform: string
    var comment: string
    var ip: string
    var receivedAt: Int64
    var runDuration: Int64

    constructor (r: Report)
      ensures Contents() == r
    {
      hostName, command, responseCommand := r.hostName, r.command, r.responseCommand;
      responseResult, platform, comment, ip := r.responseResult, r.platform, r.comment, r.ip;
      receivedAt, runDuration := r.receivedAt, r.runDuration;
    }

    function Contents(): Report
      reads this
    {
      Report(hostName, command, responseCommand, responseResult, platform, comment, ip, receivedAt, runDuration)
    }

    method DeserialiseFromCompact(input: string) returns (err: DecodeError)
      modifies this
      ensures Contents() == Deserialised(old(Contents()), input)
      ensures err == Outcome(input)
    {
      var components := Split(input, FIELD_SEPARATOR);
      if |components| > 0 {
        hostName := components[0];
      }
      if |components| > 1 {
        command := components[1];
      }
      if |components| > 2 {
        responseCommand := components[2];
      }
      if |components| > 3 {
        responseResult := Restore(components[3]);
      }
      if |components| > 4 {
        platform := components[4];
      }
      if |components| > 5 {
        comment := Restore(components[5]);
      }
      if |components| > 6 {
        ip := components[6];
      }
      if |components| > 7 {
        receivedAt := Atoi(components[7]);
      }
      if |components| > 8 {
        runDuration := Atoi(components[8]);
      }
      err := if |components| != FIELDS then Truncated
             else if hostName == "" then NothingDecoded
             else NoError;
    }
  }

  // What the format promises

  function TextField(r: Report, i: nat): string
    requires i < TEXT_FIELDS
  {
    [r.hostName, r.command, r.responseCommand, r.responseResult, r.platform, r.comment, r.ip][i]
  }

  predicate Agree(a: Report, b: Report, i: nat)
    requires i < FIELDS
  {
    if i < TEXT_FIELDS then TextField(a, i) == TextField(b, i)
    else if i == 7 then a.receivedAt == b.receivedAt
    else a.runDuration == b.runDuration
  }

  /** No text field contains the field separator. */
  ghost predicate Separable(r: Report) {
    forall i :: 0 <= i < TEXT_FIELDS ==> FIELD_SEPARATOR !in TextField(r, i)
  }

  ghost predicate LineSafe(r: Report) {
    LINE_SEPARATOR !in r.responseResult && LINE_SEPARATOR !in r.comment
  }

  lemma {:induction false} FieldsSeparable(r: Report)
    requires Separable(r)
    ensures forall i :: 0 <= i < FIELDS ==> FIELD_SEPARATOR !in Fields(r)[i]
  {
    forall i | 0 <= i < FIELDS ensures FIELD_SEPARATOR !in Fields(r)[i] {
      if i < TEXT_FIELDS {
        assert FIELD_SEPARATOR !in TextField(r, i);
      }
    }
  }

  lemma {:induction false} RestoreFlatten(s: string)
    ensures Restore(Flatten(s)) == s <==> LINE_SEPARATOR !in s
  {
    if LINE_SEPARATOR in s {
      var i :| 0 <= i < |s| && s[i] == LINE_SEPARATOR;
      assert Restore(Flatten(s))[i] == '\n';
    }
  }

  lemma {:induction false} AssignFields(r0: Report, r: Report)
    ensures Assign(r0, Fields(r)) == r <==> LineSafe(r)
    ensures forall i :: 0 <= i < FIELDS && i != 3 && i != 5 ==> Agree(Assign(r0, Fields(r)), r, i)
  {
    RestoreFlatten(r.responseResult);
    RestoreFlatten(r.comment);
    AtoiDecimal(r.receivedAt);
    AtoiDecimal(r.runDuration);
  }

  lemma {:induction false} SplitJoinCount<T>(parts: seq<seq<T>>, sep: T)
    requires parts != []
    ensures |Split(Join(parts, sep), sep)| >= |parts|
  {
    if |parts| == 1 {
    } else {
      SplitAppend(parts[0], sep, Join(parts[1..], sep));
      SplitJoinCount(parts[1..], sep);
    }
  }

  /** What is read never contains a separator. */
  lemma {:induction false} AssignedSeparable(r0: Report, input: string)
    requires |Split(input, FIELD_SEPARATOR)| >= FIELDS
    ensures Separable(Deserialised(r0, input)) && LineSafe(Deserialised(r0, input))
  {
    SplitParts(input, FIELD_SEPARATOR);
    var got, c := Deserialised(r0, input), Split(input, FIELD_SEPARATOR);
    assert got.responseResult == Restore(c[3]) && got.comment == Restore(c[5]);
    forall i | 0 <= i < TEXT_FIELDS ensures FIELD_SEPARATOR !in TextField(got, i) {
      assert FIELD_SEPARATOR !in c[i];
    }
  }

  /** Reading undoes writing exactly when no text contains the field separator and no lines the line separator. */
  lemma {:induction false} RoundTripExactly(r0: Report, r: Report)
    ensures Deserialised(r0, Serialise(r)) == r <==> Separable(r) && LineSafe(r)
    ensures Separable(r) ==> Outcome(Serialise(r)) == if r.hostName == "" then NothingDecoded else NoError
  {
    SplitJoinCount(Fields(r), FIELD_SEPARATOR);
    AssignedSeparable(r0, Serialise(r));
    if Separable(r) {
      FieldsSeparable(r);
      SplitJoin(Fields(r), FIELD_SEPARATOR);
      AssignFields(r0, r);
    }
  }

  // Truncation

  /**
   * got is what r0 becomes by reading r cut inside field j: earlier fields are exact, the cut field (if
   * it is text) is a prefix of the original followed by `extra`, later fields are those of r0; a cut number is what
   * its remaining numerals and `extra` make.
   */
  ghost predicate CutRecovery(got: Report, r0: Report, r: Report, j: nat, t: nat, extra: string) {
    && j < FIELDS
    && (forall i :: 0 <= i < j ==> Agree(got, r, i))
    && (forall i :: j < i < FIELDS ==> Agree(got, r0, i))
    && (j < TEXT_FIELDS ==> t <= |TextField(r, j)| && TextField(got, j) == TextField(r, j)[..t] + extra)
    && (j == 7 ==> t <= |Decimal(r.receivedAt)| && got.receivedAt == Atoi(Decimal(r.receivedAt)[..t] + extra))
    && (j == 8 ==> t <= |Decimal(r.runDuration)| && got.runDuration == Atoi(Decimal(r.runDuration)[..t] + extra))
  }

  /** Where a joined text is cut at n: the number of whole parts, and how much of the next one is left. */
  function CutAt<T>(parts: seq<seq<T>>, n: nat): (nat, nat)
    requires parts != []
  {
    if |parts| == 1 || n <= |parts[0]| then (0, n)
    else
      var rest := CutAt(parts[1..], n - |parts[0]| - 1);
      (rest.0 + 1, rest.1)
  }

  lemma {:induction false} CutAtInRange<T>(parts: seq<seq<T>>, sep: T, n: nat)
    requires parts != [] && n <= |Join(parts, sep)|
    ensures var (j, t) := CutAt(parts, n); j < |parts| && t <= |parts[j]|
    ensures n == |Join(parts, sep)| ==> CutAt(parts, n) == (|parts| - 1, |parts[|parts| - 1]|)
  {
    if |parts| == 1 || n <= |parts[0]| {
    } else {
      var rest := parts[1..];
      assert |Join(parts, sep)| == |parts[0]| + 1 + |Join(rest, sep)|;
      CutAtInRange(rest, sep, n - |parts[0]| - 1);
      assert forall i :: 0 <= i < |rest| ==> rest[i] == parts[i + 1];
    }
  }

  /** A joined text cut at n, with something separator-free behind it, splits into whole parts and a cut one. */
  lemma {:induction false} SplitCut<T>(parts: seq<seq<T>>, sep: T, n: nat, extra: seq<T>)
    requires parts != [] && (forall i :: 0 <= i < |parts| ==> sep !in parts[i]) && sep !in extra
    requires n <= |Join(parts, sep)|
    ensures var (j, t) := CutAt(parts, n);
      && j < |parts| && t <= |parts[j]|
      && Split(Join(parts, sep)[..n] + extra, sep) == parts[..j] + [parts[j][..t] + extra]
  {
    var whole := Join(parts, sep);
    CutAtInRange(parts, sep, n);
    if |parts| == 1 || n <= |parts[0]| {
      assert whole[..n] == parts[0][..n];
      SplitNone(parts[0][..n] + extra, sep);
      assert parts[..0] + [parts[0][..n] + extra] == [parts[0][..n] + extra];
    } else {
      var rest, m := Join(parts[1..], sep), n - |parts[0]| - 1;
      var (i, t) := CutAt(parts[1..], m);
      SplitCut(parts[1..], sep, m, extra);
      assert whole[..n] + extra == parts[0] + [sep] + (rest[..m] + extra);
      SplitAppend(parts[0], sep, rest[..m] + extra);
      SplitNone(parts[0], sep);
      assert [parts[0]] + parts[1..][..i] == parts[..i + 1];
      Assoc([parts[0]], parts[1..][..i], [parts[1..][i][..t] + extra]);
    }
  }

  /** The number of whole parts is the number of separators before the cut. */
  lemma {:induction false} CutCountsSeparators<T>(parts: seq<seq<T>>, sep: T, n: nat)
    requires parts != [] && (forall i :: 0 <= i < |parts| ==> sep !in parts[i]) && n <= |Join(parts, sep)|
    ensures CutAt(parts, n).0 == multiset(Join(parts, sep)[..n])[sep]
  {
    SplitCut(parts, sep, n, []);
    assert Join(parts, sep)[..n] + [] == Join(parts, sep)[..n];
    ComponentCount(Join(parts, sep)[..n], sep);
  }

  /** A cut behind the separator that follows the i-th part leaves the part whole. */
  lemma {:induction false} CutBehindPart<T>(parts: seq<seq<T>>, sep: T, n: nat, i: nat)
    requires i + 1 < |parts| && |Join(parts[..i + 1], sep)| < n <= |Join(parts, sep)|
    ensures CutAt(parts, n).0 > i
    decreases i
  {
    assert parts[..i + 1][0] == parts[0];
    if i == 0 {
      assert parts[..1] == [parts[0]];
    } else {
      assert parts[..i + 1][1..] == parts[1..][..i];
      CutBehindPart(parts[1..], sep, n - |parts[0]| - 1, i - 1);
    }
  }

  lemma {:induction false} RestoreCut(s: string, t: nat, extra: string)
    requires t <= |s| && LINE_SEPARATOR !in s && LINE_SEPARATOR !in extra
    ensures Restore(Flatten(s)[..t] + extra) == s[..t] + extra
  {
    assert forall i :: 0 <= i < t ==> s[..t][i] == s[i] && s[i] in s;
    assert forall i :: 0 <= i < |extra| ==> extra[i] in extra;
  }

  lemma {:induction false} AssignedField(r0: Report, r: Report, c: seq<string>, i: nat)
    requires LineSafe(r) && i < |c| && i < FIELDS && c[i] == Fields(r)[i]
    ensures Agree(Assign(r0, c), r, i)
  {
    if i == 3 {
      RestoreFlatten(r.responseResult);
    } else if i == 5 {
      RestoreFlatten(r.comment);
    } else if i == 7 {
      AtoiDecimal(r.receivedAt);
    } else if i == 8 {
      AtoiDecimal(r.runDuration);
    }
  }

  lemma {:induction false} UnassignedField(r0: Report, c: seq<string>, i: nat)
    requires |c| <= i < FIELDS
    ensures Agree(Assign(r0, c), r0, i)
  {
  }

  lemma {:induction false} CutField(r0: Report, r: Report, c: seq<string>, j: nat, t: nat, extra: string)
    requires LineSafe(r) && LINE_SEPARATOR !in extra && j < TEXT_FIELDS && t <= |Fields(r)[j]|
    requires j < |c| && c[j] == Fields(r)[j][..t] + extra
    ensures t <= |TextField(r, j)| && TextField(Assign(r0, c), j) == TextField(r, j)[..t] + extra
  {
    if j == 3 {
      RestoreCut(r.responseResult, t, extra);
    } else if j == 5 {
      RestoreCut(r.comment, t, extra);
    }
  }

  lemma {:induction false} AssignCut(r0: Report, r: Report, j: nat, t: nat, extra: string)
    requires LineSafe(r) && LINE_SEPARATOR !in extra && j < FIELDS && t <= |Fields(r)[j]|
    ensures CutRecovery(Assign(r0, Fields(r)[..j] + [Fields(r)[j][..t] + extra]), r0, r, j, t, extra)
  {
    var f := Fields(r);
    var c := f[..j] + [f[j][..t] + extra];
    var got := Assign(r0, c);
    forall i | 0 <= i < j ensures Agree(got, r, i) {
      AssignedField(r0, r, c, i);
    }
    forall i | j < i < FIELDS ensures Agree(got, r0, i) {
      UnassignedField(r0, c, i);
    }
    if j < TEXT_FIELDS {
      CutField(r0, r, c, j, t, extra);
    }
  }

  /** Reading any prefix of a serialised report, even with something else behind it. */
  lemma {:induction false} ReadTruncated(r0: Report, r: Report, n: nat, extra: string)
    requires Separable(r) && LineSafe(r) && n <= |Serialise(r)|
    requires FIELD_SEPARATOR !in extra && LINE_SEPARATOR !in extra
    ensures var (j, t) := CutAt(Fields(r), n);
      && j == multiset(Serialise(r)[..n])[FIELD_SEPARATOR]
      && CutRecovery(Deserialised(r0, Serialise(r)[..n] + extra), r0, r, j, t, extra)
      && (Outcome(Serialise(r)[..n] + extra) == Truncated <==> j < FIELDS - 1)
    ensures n == |Serialise(r)| ==> CutAt(Fields(r), n).0 == FIELDS - 1
  {
    FieldsSeparable(r);
    var (j, t) := CutAt(Fields(r), n);
    CutCountsSeparators(Fields(r), FIELD_SEPARATOR, n);
    CutAtInRange(Fields(r), FIELD_SEPARATOR, n);
    SplitCut(Fields(r), FIELD_SEPARATOR, n, extra);
    AssignCut(r0, r, j, t, extra);
  }

  /** The truncation error is reported exactly for inputs that do not have nine components. */
  lemma {:induction false} TruncationReported(input: string)
    ensures Outcome(input) == Truncated <==> multiset(input)[FIELD_SEPARATOR] != FIELDS - 1
  {
    ComponentCount(input, FIELD_SEPARATOR);
  }

  lemma {:induction false} ComponentCount<T>(s: seq<T>, sep: T)
    ensures |Split(s, sep)| == multiset(s)[sep] + 1
  {
    if s == [] {
    } else {
      assert s == [s[0]] + s[1..];
      ComponentCount(s[1..], sep);
    }
  }
}
