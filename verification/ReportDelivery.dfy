/**
 * A subject report from its sender to the message processor by way of a DNS query: serialised, encoded,
 * cut into labels, rejoined, decoded and deserialised.
 */
module ReportDelivery {
  import opened Text
  import opened Dtmf
  import opened DnsQuery
  import opened DnsWire
  import opened CompactReport

  /** The report without the characters that have no code. */
  function Transmitted(r: Report): Report {
    Report(Kept(r.hostName), Kept(r.command), Kept(r.responseCommand), Restore(Kept(Flatten(r.responseResult))),
           Kept(r.platform), Restore(Kept(Flatten(r.comment))), Kept(r.ip), r.receivedAt, r.runDuration)
  }

  lemma {:induction false} KeptAppend(a: string, b: string)
    ensures Kept(a + b) == Kept(a) + Kept(b)
  {
    if a == "" {
      assert a + b == b;
    } else {
      assert (a + b)[1..] == a[1..] + b;
      KeptAppend(a[1..], b);
    }
  }

  function AllKept(parts: seq<string>): (r: seq<string>)
    ensures |r| == |parts| && forall i :: 0 <= i < |parts| ==> r[i] == Kept(parts[i])
  {
    seq(|parts|, i requires 0 <= i < |parts| => Kept(parts[i]))
  }

  lemma {:induction false} KeptJoin(parts: seq<string>)
    ensures Kept(Join(parts, FIELD_SEPARATOR)) == Join(AllKept(parts), FIELD_SEPARATOR)
  {
    if |parts| <= 1 {
    } else {
      var rest := Join(parts[1..], FIELD_SEPARATOR);
      KeptAppend(parts[0], [FIELD_SEPARATOR] + rest);
      KeptAppend([FIELD_SEPARATOR], rest);
      assert parts[0] + [FIELD_SEPARATOR] + rest == parts[0] + ([FIELD_SEPARATOR] + rest);
      KeptAll([FIELD_SEPARATOR]);
      KeptJoin(parts[1..]);
      assert AllKept(parts)[1..] == AllKept(parts[1..]);
    }
  }

  lemma {:induction false} DigitHasCode(c: char)
    requires IsDigit(c) || c == '-'
    ensures EncodeSymbol(c) != ""
  {
  }

  lemma {:induction false} KeptDecimal(n: int)
    ensures Kept(Decimal(n)) == Decimal(n)
  {
    forall i | 0 <= i < |Decimal(n)| ensures Code(EncodeSymbol, Decimal(n)[i]) != "" {
      DigitHasCode(Decimal(n)[i]);
    }
    KeptAll(Decimal(n));
  }

  lemma {:induction false} FlattenKept(s: string)
    ensures Flatten(Restore(Kept(s))) == Kept(s)
  {
    KeptEncodable(EncodeSymbol, s);
    assert Code(EncodeSymbol, '\n') == "";
  }

  lemma {:induction false} TransmittedFields(r: Report)
    ensures Fields(Transmitted(r)) == AllKept(Fields(r))
  {
    FlattenKept(Flatten(r.responseResult));
    FlattenKept(Flatten(r.comment));
    KeptDecimal(r.receivedAt);
    KeptDecimal(r.runDuration);
    var f, g := Fields(r), Fields(Transmitted(r));
    assert g[0] == Kept(f[0]) && g[1] == Kept(f[1]) && g[2] == Kept(f[2]);
    assert g[3] == Kept(f[3]) && g[4] == Kept(f[4]) && g[5] == Kept(f[5]);
    assert g[6] == Kept(f[6]) && g[7] == Kept(f[7]) && g[8] == Kept(f[8]);
  }

  /** Encoding drops the same characters from the serialised report as from its fields. */
  lemma {:induction false} KeptSerialised(r: Report)
    ensures Kept(Serialise(r)) == Serialise(Transmitted(r))
  {
    KeptJoin(Fields(r));
    TransmittedFields(r);
  }

  lemma {:induction false} TransmittedClean(r: Report)
    requires Separable(r)
    ensures Separable(Transmitted(r)) && LineSafe(Transmitted(r))
  {
    FieldsSeparable(r);
    TransmittedFields(r);
    forall i | 0 <= i < TEXT_FIELDS ensures FIELD_SEPARATOR !in Fields(Transmitted(r))[i] {
      assert FIELD_SEPARATOR !in Fields(r)[i];
      KeptEncodable(EncodeSymbol, Fields(r)[i]);
    }
    SeparableByFields(Transmitted(r));
  }

  lemma {:induction false} SeparableByFields(r: Report)
    requires forall i :: 0 <= i < TEXT_FIELDS ==> FIELD_SEPARATOR !in Fields(r)[i]
    ensures Separable(r)
  {
    forall i | 0 <= i < TEXT_FIELDS ensures FIELD_SEPARATOR !in TextField(r, i) {
      assert FIELD_SEPARATOR !in Fields(r)[i];
      assert Fields(r)[i] == TextField(r, i) || Fields(r)[i] == Flatten(TextField(r, i));
      FlattenKeepsSeparator(TextField(r, i));
    }
  }

  lemma {:induction false} FlattenKeepsSeparator(s: string)
    ensures FIELD_SEPARATOR in s <==> FIELD_SEPARATOR in Flatten(s)
  {
    if FIELD_SEPARATOR in s {
      var k :| 0 <= k < |s| && s[k] == FIELD_SEPARATOR;
      assert Flatten(s)[k] == FIELD_SEPARATOR;
    }
  }

  /** Every character of the report has a code; a line break travels as the line separator. */
  ghost predicate FullyEncodable(r: Report) {
    forall i, n :: 0 <= i < FIELDS && 0 <= n < |Fields(r)[i]| ==> Code(EncodeSymbol, Fields(r)[i][n]) != ""
  }

  /** A report made of encodable characters is transmitted unchanged. */
  lemma {:induction false} TransmittedUnchanged(r: Report)
    requires FullyEncodable(r) && LineSafe(r)
    ensures Transmitted(r) == r
  {
    forall i | 0 <= i < FIELDS ensures Kept(Fields(r)[i]) == Fields(r)[i] {
      KeptAll(Fields(r)[i]);
    }
    assert Fields(r)[0] == r.hostName && Fields(r)[1] == r.command && Fields(r)[2] == r.responseCommand;
    assert Fields(r)[4] == r.platform && Fields(r)[6] == r.ip;
    assert Fields(r)[3] == Flatten(r.responseResult) && Fields(r)[5] == Flatten(r.comment);
    RestoreFlatten(r.responseResult);
    RestoreFlatten(r.comment);
  }

  /** The app command that carries a report: a password and the trigger, followed by the report. */
  function ReportCommand(prefix: string, r: Report): string { prefix + Serialise(r) }

  lemma {:induction false} KeptCommand(prefix: string, r: Report)
    ensures Kept(ReportCommand(prefix, r)) == Kept(prefix) + Serialise(Transmitted(r))
  {
    KeptAppend(prefix, Serialise(r));
    KeptSerialised(r);
  }

  /** What the sender's budget lets through of the encoded report command. */
  function DeliveredOf(prefix: string, r: Report, domain: string): nat {
    Delivered(Encode(ReportCommand(prefix, r)), NAME_BUDGET - |domain|)
  }

  /**
   * What the receiver makes of the part of the decoded query behind the command prefix, when the report was
   * cut after n characters: as many fields are exact as there are field separators before the cut.
   */
  ghost predicate Recovers(body: string, r0: Report, r: Report, n: nat, extra: string) {
    var (j, t) := CutAt(Fields(r), n);
    && n <= |Serialise(r)| && j == multiset(Serialise(r)[..n])[FIELD_SEPARATOR]
    && CutRecovery(Deserialised(r0, body), r0, r, j, t, extra)
    && (Outcome(body) == Truncated <==> j < FIELDS - 1)
  }

  lemma {:induction false} CutBehindPrefix(p: string, body: string, k: nat, extra: string)
    requires |p| <= k <= |p + body|
    ensures var q := (p + body)[..k] + extra; p <= q && q[|p|..] == body[..k - |p|] + extra
  {
    var front := body[..k - |p|];
    assert (p + body)[..k] == p + front;
    Assoc(p, front, extra);
  }

  lemma {:induction false} BodyRecovered(r0: Report, r: Report, p: string, k: nat, extra: string)
    requires Separable(r) && LineSafe(r) && |p| <= k <= |p + Serialise(r)|
    requires extra == "" || (|extra| == 1 && IsDigit(extra[0]))
    ensures var q := (p + Serialise(r))[..k] + extra; p <= q && Recovers(q[|p|..], r0, r, k - |p|, extra)
  {
    var body := Serialise(r);
    var m := k - |p|;
    ReadTruncated(r0, r, m, extra);
    CutBehindPrefix(p, body, k, extra);
  }

  /**
   * End to end, truncated or not: the receiver reads the first k characters of the command and at most one
   * decimal digit more, where k covers every character whose code was delivered in full; and unless the cut
   * falls into the command prefix, every field that ended before it arrives exactly, and the cut field is a
   * prefix of the original with at most that digit behind it.
   */
  lemma {:induction false} ReportDelivered(r0: Report, r: Report, prefix: string, domain: string)
    returns (k: nat, extra: string)
    requires TwoLabels(domain) && Separable(r)
    ensures CutReading(EncodeSymbol, Kept(prefix) + Serialise(Transmitted(r)), DeliveredOf(prefix, r, domain), k, extra,
                       Decoded(Query(ReportCommand(prefix, r), domain)))
    ensures |Kept(prefix)| <= k ==>
      && Kept(prefix) <= Decoded(Query(ReportCommand(prefix, r), domain))
      && Recovers(Decoded(Query(ReportCommand(prefix, r), domain))[|Kept(prefix)|..], r0, Transmitted(r),
                  k - |Kept(prefix)|, extra)
  {
    KeptCommand(prefix, r);
    k, extra := QueryTruncated(ReportCommand(prefix, r), domain);
    if |Kept(prefix)| <= k {
      TransmittedClean(r);
      BodyRecovered(r0, Transmitted(r), Kept(prefix), k, extra);
    }
  }

  /** The command up to and including the separator behind the i-th field. */
  function UpToField(p: string, r: Report, i: nat): string
    requires i < FIELDS - 1
  {
    p + (Join(Fields(r)[..i + 1], FIELD_SEPARATOR) + [FIELD_SEPARATOR])
  }

  lemma {:induction false} JoinPrefix(parts: seq<string>, i: nat)
    requires i + 1 < |parts|
    ensures Join(parts[..i + 1], FIELD_SEPARATOR) + [FIELD_SEPARATOR] <= Join(parts, FIELD_SEPARATOR)
    decreases i
  {
    var first, rest := parts[0], Join(parts[1..], FIELD_SEPARATOR);
    assert Join(parts, FIELD_SEPARATOR) == first + [FIELD_SEPARATOR] + rest;
    if i == 0 {
      assert parts[..1] == [first];
    } else {
      JoinPrefix(parts[1..], i - 1);
      assert parts[..i + 1][0] == first && parts[..i + 1][1..] == parts[1..][..i];
      var front := Join(parts[1..][..i], FIELD_SEPARATOR);
      Assoc(first + [FIELD_SEPARATOR], front, [FIELD_SEPARATOR]);
    }
  }

  /** Every field arrives exactly if it was delivered in full, together with the separator behind it. */
  lemma {:induction false} FieldDelivered(r0: Report, r: Report, prefix: string, domain: string, i: nat)
    requires TwoLabels(domain) && Separable(r) && i < FIELDS - 1
    requires |EncodeWith(EncodeSymbol, UpToField(Kept(prefix), Transmitted(r), i))| <= DeliveredOf(prefix, r, domain)
    ensures var q := Decoded(Query(ReportCommand(prefix, r), domain));
      Kept(prefix) <= q && Agree(Deserialised(r0, q[|Kept(prefix)|..]), Transmitted(r), i)
  {
    var p, s := Kept(prefix), Transmitted(r);
    var k, extra := ReportDelivered(r0, r, prefix, domain);
    CutCoversField(EncodeSymbol, p, s, DeliveredOf(prefix, r, domain), k, extra,
                   Decoded(Query(ReportCommand(prefix, r), domain)), i);
  }

  lemma {:induction false} CutCoversField(enc: EncodeTable, p: string, s: Report, n: nat, k: nat, extra: string,
                                          read: string, i: nat)
    requires i < FIELDS - 1 && CutReading(enc, p + Serialise(s), n, k, extra, read)
    requires |EncodeWith(enc, UpToField(p, s, i))| <= n
    ensures |p| <= k && CutAt(Fields(s), k - |p|).0 > i
  {
    var m := |UpToField(p, s, i)|;
    JoinPrefix(Fields(s), i);
    assert (p + Serialise(s))[..m] == UpToField(p, s, i);
    CutReadsDelivered(enc, p + Serialise(s), n, k, extra, read, m);
    CutBehindPart(Fields(s), FIELD_SEPARATOR, k - |p|, i);
  }

  /** A report whose command fits the query arrives whole. */
  lemma {:induction false} ReportDeliveredInFull(r0: Report, r: Report, prefix: string, domain: string)
    requires TwoLabels(domain) && Separable(r)
    requires Fits(|Encode(ReportCommand(prefix, r))|, NAME_BUDGET - |domain|)
    ensures var q := Decoded(Query(ReportCommand(prefix, r), domain));
      && Kept(prefix) <= q
      && Deserialised(r0, q[|Kept(prefix)|..]) == Transmitted(r)
      && Outcome(q[|Kept(prefix)|..]) == if Transmitted(r).hostName == "" then NothingDecoded else NoError
  {
    QueryRoundTrip(ReportCommand(prefix, r), domain);
    KeptCommand(prefix, r);
    TransmittedClean(r);
    RoundTripExactly(r0, Transmitted(r));
    assert (Kept(prefix) + Serialise(Transmitted(r)))[|Kept(prefix)|..] == Serialise(Transmitted(r));
  }

  /**
   * The same from the packet: a question that carries the query, with invisible lengths of the last command
   * label and of the labels of the domain, delivers the report as the query does.
   */
  lemma {:induction false} ReportFromPacket(packet: seq<Byte>, labels: seq<seq<Byte>>, domainLabels: seq<string>,
                                            r0: Report, r: Report, prefix: string, domain: string)
    returns (k: nat, extra: string)
    requires TwoLabels(domain) && Separable(r)
    requires CarriesQuery(packet, labels, Encode(ReportCommand(prefix, r)), domain, domainLabels)
    requires !IsVisibleLength(DeliveredOf(prefix, r, domain) % MAX_LABEL) && InvisibleFrom(domainLabels, 0)
    ensures CutReading(EncodeSymbol, Kept(prefix) + Serialise(Transmitted(r)), DeliveredOf(prefix, r, domain), k, extra,
                       Decoded(Extracted(packet)))
    ensures |Kept(prefix)| <= k ==>
      && Kept(prefix) <= Decoded(Extracted(packet))
      && Recovers(Decoded(Extracted(packet))[|Kept(prefix)|..], r0, Transmitted(r), k - |Kept(prefix)|, extra)
  {
    QueryOverTheWire(packet, labels, ReportCommand(prefix, r), domain, domainLabels);
    k, extra := ReportDelivered(r0, r, prefix, domain);
  }
}
