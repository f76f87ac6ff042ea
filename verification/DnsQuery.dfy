/**
 * App commands in DNS names: GetDNSQuery of daemon/phonehome/dns_query_builder.go writes them,
 * DecodeDTMFCommandInput of daemon/dnsd/query.go reads them.
 */
module DnsQuery {
  import opened Text
  import opened Dtmf

  const COMMAND_PREFIX: char := '_'
  const MAX_LABEL := 60
  const NAME_BUDGET := 246
  const MAX_NAME := 253

  // Writing

  /** The labels that the loop of GetDNSQuery cuts from the encoded command. */
  function CommandLabels(encoded: string, capacity: int): seq<string>
    decreases |encoded|
  {
    var n := Min(Min(MAX_LABEL, |encoded|), capacity);
    if n < 1 then [] else [encoded[..n]] + CommandLabels(encoded[n..], capacity - n - 1)
  }

  function Dotted(labels: seq<string>): string {
    if labels == [] then "" else labels[0] + "." + Dotted(labels[1..])
  }

  function QueryLabels(encoded: string, domain: string): seq<string> {
    CommandLabels(encoded, NAME_BUDGET - |domain|)
  }

  /** The name that carries an encoded command. */
  function QueryName(encoded: string, domain: string): string {
    [COMMAND_PREFIX] + "." + Dotted(QueryLabels(encoded, domain)) + domain
  }

  function Query(cmd: string, domain: string): string { QueryName(Encode(cmd), domain) }

  /** The loop of GetDNSQuery. */
  method WriteLabels(encoded: string, capacity: int) returns (out: string)
    ensures out == Dotted(CommandLabels(encoded, capacity))
  {
    out := "";
    var encodedAppCmd, labelsCapacity := encoded, capacity;
    while true
      invariant out + Dotted(CommandLabels(encodedAppCmd, labelsCapacity))
             == Dotted(CommandLabels(encoded, capacity))
      decreases |encodedAppCmd|
    {
      var labelLen := Min(Min(MAX_LABEL, |encodedAppCmd|), labelsCapacity);
      if labelLen < 1 {
        break;
      }
      ghost var first, rest := LabelStep(encodedAppCmd, labelsCapacity);
      Assoc(out, first + ".", rest);
      Assoc(out, first, ".");
      out := out + encodedAppCmd[..labelLen];
      out := out + ".";
      encodedAppCmd := encodedAppCmd[labelLen..];
      labelsCapacity := labelsCapacity - labelLen - 1;
    }
  }

  /** GetDNSQuery. */
  method GetDNSQuery(appCmd: string, domainName: string) returns (out: string)
    ensures out == Query(appCmd, domainName)
  {
    var encodedAppCmd := EncodeToDTMF(EncodeSymbol, appCmd);
    var labels := WriteLabels(encodedAppCmd, NAME_BUDGET - |domainName|);
    out := [COMMAND_PREFIX] + "." + labels + domainName;
  }

  lemma {:induction false} LabelStep(encoded: string, capacity: int) returns (first: string, rest: string)
    requires encoded != "" && capacity >= 1
    ensures var n := Min(Min(MAX_LABEL, |encoded|), capacity);
      first == encoded[..n] && rest == Dotted(CommandLabels(encoded[n..], capacity - n - 1))
    ensures Dotted(CommandLabels(encoded, capacity)) == first + "." + rest
  {
    var n := Min(Min(MAX_LABEL, |encoded|), capacity);
    var labels := CommandLabels(encoded[n..], capacity - n - 1);
    first, rest := encoded[..n], Dotted(labels);
    assert ([first] + labels)[1..] == labels;
  }

  /** m encoded characters and the dots between their labels of 60 fit the capacity. */
  predicate Fits(m: nat, capacity: int) { m == 0 || m + (m - 1) / MAX_LABEL <= capacity }

  /** How much of the encoded command is in the labels. */
  function Delivered(encoded: string, capacity: int): nat { |Concat(CommandLabels(encoded, capacity))| }

  /** The labels carry the longest prefix of the encoded command that fits the capacity. */
  lemma {:induction false} LabelsCarryLongestPrefix(encoded: string, capacity: int)
    ensures var m := Delivered(encoded, capacity);
      && m <= |encoded| && Concat(CommandLabels(encoded, capacity)) == encoded[..m]
      && Fits(m, capacity) && (m < |encoded| ==> !Fits(m + 1, capacity))
    decreases |encoded|
  {
    var n := Min(Min(MAX_LABEL, |encoded|), capacity);
    if n < 1 {
    } else {
      var rest, left := encoded[n..], capacity - n - 1;
      LabelsCarryLongestPrefix(rest, left);
      var labels, m := CommandLabels(encoded, capacity), Delivered(rest, left);
      assert labels[0] == encoded[..n] && labels[1..] == CommandLabels(rest, left);
      assert encoded[..n] + rest[..m] == encoded[..n + m];
      assert n < MAX_LABEL ==> CommandLabels(rest, left) == [];
    }
  }

  /** Every label is 1 to 60 characters long, and only the last one may be shorter than 60. */
  lemma {:induction false} LabelSizes(encoded: string, capacity: int)
    ensures var labels, m := CommandLabels(encoded, capacity), Delivered(encoded, capacity);
      && (forall i :: 0 <= i < |labels| ==> 1 <= |labels[i]| <= MAX_LABEL)
      && (forall i :: 0 <= i < |labels| - 1 ==> |labels[i]| == MAX_LABEL)
      && |Dotted(labels)| == m + |labels| && m <= MAX_LABEL * |labels| < m + MAX_LABEL
    decreases |encoded|
  {
    var n := Min(Min(MAX_LABEL, |encoded|), capacity);
    if n < 1 {
    } else {
      var rest, left := encoded[n..], capacity - n - 1;
      LabelSizes(rest, left);
      var labels := CommandLabels(encoded, capacity);
      assert labels[0] == encoded[..n] && labels[1..] == CommandLabels(rest, left);
      assert n < MAX_LABEL ==> CommandLabels(rest, left) == [];
    }
  }

  /** The whole command is delivered exactly when it fits. */
  lemma {:induction false} DeliveredInFull(encoded: string, capacity: int)
    ensures Delivered(encoded, capacity) == |encoded| <==> Fits(|encoded|, capacity)
  {
    LabelsCarryLongestPrefix(encoded, capacity);
  }

  /** Limits of section 2.3.4 of RFC 1035: short labels, and a short name for a domain within the budget. */
  lemma {:induction false} QuerySize(encoded: string, domain: string)
    ensures |domain| <= NAME_BUDGET ==> |QueryName(encoded, domain)| <= 249
    ensures |domain| > NAME_BUDGET ==> QueryLabels(encoded, domain) == []
    ensures forall i :: 0 <= i < |QueryLabels(encoded, domain)| ==> 1 <= |QueryLabels(encoded, domain)[i]| <= MAX_LABEL
  {
    LabelsCarryLongestPrefix(encoded, NAME_BUDGET - |domain|);
    LabelSizes(encoded, NAME_BUDGET - |domain|);
  }

  // Reading

  /** The labels that remain when white space is trimmed and empty labels are dropped. */
  function Lint(labels: seq<string>): seq<string> {
    if labels == [] then []
    else (if TrimSpace(labels[0]) == "" then [] else [TrimSpace(labels[0])]) + Lint(labels[1..])
  }

  function NameLabels(name: string): seq<string> { Lint(Split(name, '.')) }

  /** What DecodeDTMFCommandInput returns. */
  function DecodedWith(table: DecodeTable, name: string): string {
    if |name| < 2 || |name| > MAX_NAME || name[0] != COMMAND_PREFIX then ""
    else
      var labels := NameLabels(name[1..]);
      if |labels| < 3 then "" else Machine(table, "", Concat(labels[..|labels| - 2]))
  }

  function Decoded(name: string): string { DecodedWith(DecodeWord, name) }

  /** The first position from i on where the character is (or is not) a digit. */
  function NextDigit(s: string, i: nat, digit: bool): (r: nat)
    requires i <= |s|
    ensures i <= r <= |s|
    ensures forall j :: i <= j < r ==> IsDigit(s[j]) != digit
    ensures r < |s| ==> IsDigit(s[r]) == digit
    decreases |s| - i
  {
    if i == |s| || IsDigit(s[i]) == digit then i else NextDigit(s, i + 1, digit)
  }

  /** All matches of the regular expression [0-9]+ from position i on. */
  function DigitRuns(s: string, i: nat): seq<(nat, nat)>
    requires i <= |s|
    decreases |s| - i
  {
    var a := NextDigit(s, i, true);
    if a == |s| then []
    else
      var b := NextDigit(s, a, false);
      [(a, b)] + DigitRuns(s, b)
  }

  /** The letters from i up to the next digit run, followed by the decoded run. */
  method DecodeRun(table: DecodeTable, s: string, i: nat, run: (nat, nat)) returns (text: string)
    requires i <= |s| && DigitRuns(s, i) != [] && run == DigitRuns(s, i)[0]
    ensures i <= run.0 < run.1 <= |s| && DigitRuns(s, i)[1..] == DigitRuns(s, run.1)
    ensures Machine(table, "", s[i..]) == text + Machine(table, "", s[run.1..])
  {
    ghost var letters, digits, rest := RunStep(table, s, i);
    Assoc(letters, digits, rest);
    text := DTMFDecode(table, s[run.0..run.1]);
    if i < run.0 {
      text := s[i..run.0] + text;
    }
  }

  /** The loop of DecodeDTMFCommandInput over the digit runs. */
  method DecodeRuns(table: DecodeTable, s: string) returns (decoded: string)
    ensures decoded == Machine(table, "", s)
  {
    var runs := DigitRuns(s, 0);
    decoded := "";
    var strIdx := 0;
    assert s[0..] == s;
    for k := 0 to |runs|
      invariant 0 <= strIdx <= |s|
      invariant runs[k..] == DigitRuns(s, strIdx)
      invariant decoded + Machine(table, "", s[strIdx..]) == Machine(table, "", s)
    {
      assert runs[k] == runs[k..][0] && runs[k + 1..] == runs[k..][1..];
      var text := DecodeRun(table, s, strIdx, runs[k]);
      Assoc(decoded, text, Machine(table, "", s[runs[k].1..]));
      decoded := decoded + text;
      strIdx := runs[k].1;
    }
    NoMoreRuns(table, s, strIdx);
    if strIdx < |s| {
      decoded := decoded + s[strIdx..];
    }
  }

  lemma {:induction false} NoMoreRuns(table: DecodeTable, s: string, i: nat)
    requires i <= |s| && DigitRuns(s, i) == []
    ensures Machine(table, "", s[i..]) == s[i..]
  {
    MachineOnOthers(table, s[i..], "");
    assert s[i..] + "" == s[i..];
  }

  lemma {:induction false} RunStep(table: DecodeTable, s: string, i: nat)
    returns (letters: string, digits: string, rest: string)
    requires i <= |s| && DigitRuns(s, i) != []
    ensures var (a, b) := DigitRuns(s, i)[0];
      && i <= a < b <= |s|
      && DigitRuns(s, i)[1..] == DigitRuns(s, b)
      && letters == s[i..a]
      && digits == Translate(table, Words("", s[a..b]), false)
      && rest == Machine(table, "", s[b..])
    ensures Machine(table, "", s[i..]) == letters + (digits + rest)
  {
    var (a, b) := DigitRuns(s, i)[0];
    assert s[i..] == s[i..a] + s[a..];
    MachineOnOthers(table, s[i..a], s[a..]);
    DigitStep(table, s, a, b);
    letters, digits, rest := s[i..a], Translate(table, Words("", s[a..b]), false), Machine(table, "", s[b..]);
  }

  lemma {:induction false} DigitStep(table: DecodeTable, s: string, a: nat, b: nat)
    requires a <= b <= |s| && (forall j :: a <= j < b ==> IsDigit(s[j])) && (b < |s| ==> !IsDigit(s[b]))
    ensures Machine(table, "", s[a..])
         == Translate(table, Words("", s[a..b]), false) + Machine(table, "", s[b..])
  {
    var run, rest := s[a..b], s[b..];
    assert s[a..] == run + rest;
    MachineOnDigits(table, "", run, rest);
  }

  /** The loop of DecodeDTMFCommandInput that discovers labels. */
  method LintLabels(parts: seq<string>) returns (dnsLabels: seq<string>)
    ensures dnsLabels == Lint(parts)
  {
    dnsLabels := [];
    for i := 0 to |parts|
      invariant dnsLabels + Lint(parts[i..]) == Lint(parts)
    {
      assert parts[i..][1..] == parts[i + 1..];
      var trimmedLabel := TrimSpace(parts[i]);
      var found := if trimmedLabel != "" then [trimmedLabel] else [];
      Assoc(dnsLabels, found, Lint(parts[i + 1..]));
      dnsLabels := dnsLabels + found;
    }
  }

  /** DecodeDTMFCommandInput. */
  method DecodeDTMFCommandInput(table: DecodeTable, queriedName: string) returns (decodedCommand: string)
    ensures decodedCommand == DecodedWith(table, queriedName)
  {
    if |queriedName| < 2 || |queriedName| > MAX_NAME || queriedName[0] != COMMAND_PREFIX {
      return "";
    }
    var dnsLabels := LintLabels(Split(queriedName[1..], '.'));
    if |dnsLabels| < 3 {
      return "";
    }
    dnsLabels := dnsLabels[..|dnsLabels| - 2];
    decodedCommand := DecodeRuns(table, Concat(dnsLabels));
  }

  function AllTrimmed(labels: seq<string>): (r: seq<string>)
    ensures |r| == |labels| && forall i :: 0 <= i < |labels| ==> r[i] == TrimSpace(labels[i])
  {
    seq(|labels|, i requires 0 <= i < |labels| => TrimSpace(labels[i]))
  }

  predicate NotEmpty(part: string) { part != "" }

  /** The labels are those between the full stops, trimmed, without the empty ones. */
  lemma {:induction false} LintExactly(labels: seq<string>)
    ensures Lint(labels) == Filter(NotEmpty, AllTrimmed(labels))
  {
    if labels == [] {
    } else {
      LintExactly(labels[1..]);
      assert AllTrimmed(labels)[1..] == AllTrimmed(labels[1..]);
    }
  }

  /** Nothing is read but from a name of 2 to 253 characters with the prefix, and at least one label before the domain. */
  lemma {:induction false} CommandNamesOnly(table: DecodeTable, name: string)
    requires DecodedWith(table, name) != ""
    ensures 2 <= |name| <= 253 && name[0] == '_'
    ensures |Filter(NotEmpty, AllTrimmed(Split(name[1..], '.')))| >= 3
  {
    LintExactly(Split(name[1..], '.'));
  }

  // Writing and reading together

  lemma {:induction false} LintAppend(a: seq<string>, b: seq<string>)
    ensures Lint(a + b) == Lint(a) + Lint(b)
  {
    if a == [] {
      assert a + b == b;
    } else {
      assert (a + b)[1..] == a[1..] + b;
      LintAppend(a[1..], b);
    }
  }

  predicate PlainLabel(part: string) {
    part != "" && forall i :: 0 <= i < |part| ==> IsAlphanumeric(part[i])
  }

  lemma {:induction false} LintPlain(labels: seq<string>)
    requires forall i :: 0 <= i < |labels| ==> PlainLabel(labels[i])
    ensures Lint(labels) == labels
  {
    if labels == [] {
    } else {
      TrimNothing(labels[0]);
      LintPlain(labels[1..]);
    }
  }

  lemma {:induction false} SplitDotted(labels: seq<string>, domain: string)
    requires forall i :: 0 <= i < |labels| ==> PlainLabel(labels[i])
    ensures Split(Dotted(labels) + domain, '.') == labels + Split(domain, '.')
  {
    if labels == [] {
      assert Dotted(labels) + domain == domain;
    } else {
      var first, rest := labels[0], Dotted(labels[1..]);
      assert PlainLabel(first);
      SplitDotted(labels[1..], domain);
      SplitFirst(first, rest + domain);
      Assoc(first + ".", rest, domain);
      Assoc([first], labels[1..], Split(domain, '.'));
      assert [first] + labels[1..] == labels;
    }
  }

  lemma {:induction false} SplitFirst(first: string, rest: string)
    requires PlainLabel(first)
    ensures Split(first + "." + rest, '.') == [first] + Split(rest, '.')
  {
    SplitAppend(first, '.', rest);
    SplitNone(first, '.');
  }

  lemma {:induction false} LabelsPlain(encoded: string, capacity: int)
    requires forall i :: 0 <= i < |encoded| ==> IsAlphanumeric(encoded[i])
    ensures forall i :: 0 <= i < |CommandLabels(encoded, capacity)| ==> PlainLabel(CommandLabels(encoded, capacity)[i])
    decreases |encoded|
  {
    var n := Min(Min(MAX_LABEL, |encoded|), capacity);
    if n < 1 {
    } else {
      LabelsPlain(encoded[n..], capacity - n - 1);
    }
  }

  lemma {:induction false} LintQuery(labels: seq<string>, domain: seq<string>)
    requires forall i :: 0 <= i < |labels| ==> PlainLabel(labels[i])
    ensures Lint([""] + (labels + domain)) == labels + Lint(domain)
  {
    LintAppend([""], labels + domain);
    LintAppend(labels, domain);
    LintPlain(labels);
    assert [""][1..] == [];
    assert Lint([""]) == [];
  }

  lemma {:induction false} QueryNameLabels(encoded: string, domain: string)
    requires Alphanumeric(encoded)
    ensures NameLabels(QueryName(encoded, domain)[1..]) == QueryLabels(encoded, domain) + NameLabels(domain)
  {
    var labels := QueryLabels(encoded, domain);
    LabelsPlain(encoded, NAME_BUDGET - |domain|);
    var rest := Dotted(labels) + domain;
    assert QueryName(encoded, domain)[1..] == "" + "." + rest;
    SplitAppend("", '.', rest);
    SplitDotted(labels, domain);
    LintQuery(labels, Split(domain, '.'));
  }

  predicate TwoLabels(domain: string) { |NameLabels(domain)| == 2 }

  /** The reader decodes exactly the delivered part of the encoded command, for every domain of two labels. */
  lemma {:induction false} ReadQuery(table: DecodeTable, encoded: string, domain: string)
    requires TwoLabels(domain) && Alphanumeric(encoded)
    ensures var m := Delivered(encoded, NAME_BUDGET - |domain|);
      m <= |encoded| && DecodedWith(table, QueryName(encoded, domain)) == Machine(table, "", encoded[..m])
  {
    var labels := QueryLabels(encoded, domain);
    LabelsCarryLongestPrefix(encoded, NAME_BUDGET - |domain|);
    QueryNameLabels(encoded, domain);
    QuerySize(encoded, domain);
    var all := labels + NameLabels(domain);
    assert all[..|all| - 2] == labels;
    if labels == [] {
      assert encoded[..0] == "";
    }
  }

  /** What is read from a whole encoding. */
  lemma {:induction false} WholeReading(enc: EncodeTable, dec: DecodeTable, cmd: string, m: nat, read: string)
    requires Matching(enc, dec) && m == |EncodeWith(enc, cmd)|
    requires read == Machine(dec, "", EncodeWith(enc, cmd)[..m])
    ensures read == KeptBy(enc, cmd)
  {
    assert EncodeWith(enc, cmd)[..m] == EncodeWith(enc, cmd);
    DecodeEncodeWith(enc, dec, cmd);
  }

  lemma {:induction false} QueryRoundTripWith(enc: EncodeTable, dec: DecodeTable, cmd: string, domain: string)
    requires Matching(enc, dec) && Alphanumeric(EncodeWith(enc, cmd)) && TwoLabels(domain)
    requires Delivered(EncodeWith(enc, cmd), NAME_BUDGET - |domain|) == |EncodeWith(enc, cmd)|
    ensures DecodedWith(dec, QueryName(EncodeWith(enc, cmd), domain)) == KeptBy(enc, cmd)
  {
    var encoded := EncodeWith(enc, cmd);
    ReadQuery(dec, encoded, domain);
    WholeReading(enc, dec, cmd, |encoded|, DecodedWith(dec, QueryName(encoded, domain)));
  }

  /** Exact round trip for every command that fits; characters without a code are dropped. */
  lemma {:induction false} QueryRoundTrip(cmd: string, domain: string)
    requires TwoLabels(domain)
    requires Fits(|Encode(cmd)|, NAME_BUDGET - |domain|)
    ensures Decoded(Query(cmd, domain)) == Kept(cmd)
  {
    TablesFit(cmd);
    DeliveredInFull(Encode(cmd), NAME_BUDGET - |domain|);
    QueryRoundTripWith(EncodeSymbol, DecodeWord, cmd, domain);
  }

  /**
   * For every command, fitting or not, the reader gets a prefix of it and at most one decimal digit more; every
   * character whose code was delivered in full is there.
   */
  lemma {:induction false} QueryTruncatedWith(enc: EncodeTable, dec: DecodeTable, cmd: string, domain: string)
    returns (k: nat, extra: string)
    requires Matching(enc, dec) && Alphanumeric(EncodeWith(enc, cmd)) && TwoLabels(domain)
    ensures CutReading(enc, KeptBy(enc, cmd), Delivered(EncodeWith(enc, cmd), NAME_BUDGET - |domain|), k, extra,
                       DecodedWith(dec, QueryName(EncodeWith(enc, cmd), domain)))
  {
    var encoded := EncodeWith(enc, cmd);
    ReadQuery(dec, encoded, domain);
    k, extra := DecodeTruncatedWith(enc, dec, cmd, Delivered(encoded, NAME_BUDGET - |domain|));
  }

  /** In particular every encodable command that fits arrives unchanged. */
  lemma {:induction false} EncodableRoundTrip(cmd: string, domain: string)
    requires TwoLabels(domain) && Fits(|Encode(cmd)|, NAME_BUDGET - |domain|)
    requires forall i :: 0 <= i < |cmd| ==> Code(EncodeSymbol, cmd[i]) != ""
    ensures Decoded(Query(cmd, domain)) == cmd
  {
    QueryRoundTrip(cmd, domain);
    KeptAll(cmd);
  }

  /** The tables of the original fit each other and encode into letters and digits. */
  lemma {:induction false} TablesFit(cmd: string)
    ensures Matching(EncodeSymbol, DecodeWord) && Alphanumeric(EncodeWith(EncodeSymbol, cmd))
  {
    assert Matching(EncodeSymbol, DecodeWord) by {
      TablesMatch();
    }
    assert Alphanumeric(EncodeWith(EncodeSymbol, cmd)) by {
      EncodedAlphabet(cmd);
    }
  }

  /** The same with the tables of the original. */
  lemma {:induction false} QueryTruncated(cmd: string, domain: string) returns (k: nat, extra: string)
    requires TwoLabels(domain)
    ensures CutReading(EncodeSymbol, Kept(cmd), Delivered(Encode(cmd), NAME_BUDGET - |domain|), k, extra,
                       Decoded(Query(cmd, domain)))
  {
    TablesFit(cmd);
    k, extra := QueryTruncatedWith(EncodeSymbol, DecodeWord, cmd, domain);
  }
}
