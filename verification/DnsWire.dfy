/** Text queries on the wire (section 4.1.2 of RFC 1035): the name extraction of daemon/dnsd/query.go. */
module DnsWire {
  import opened Text
  import opened Dtmf
  import opened DnsQuery

  const MIN_NAME_QUERY_SIZE := 14
  const HEADER_SIZE := 12
  const MAX_EXTRACTED := 255
  const TXT_IN: seq<Byte> := [0, 16, 0, 1]

  function Chars(bytes: seq<Byte>): (r: string)
    ensures |r| == |bytes| && forall i :: 0 <= i < |bytes| ==> r[i] == bytes[i] as char
  {
    seq(|bytes|, i requires 0 <= i < |bytes| => bytes[i] as char)
  }

  /** recoverFullStopSymbols, one byte. */
  function RecoverByte(b: Byte): Byte {
    if b <= 44 || (58 <= b <= 64) || (91 <= b <= 96 && b != 95) then 46 else b
  }

  function Recover(bytes: seq<Byte>): (r: seq<Byte>)
    ensures |r| == |bytes| && forall i :: 0 <= i < |bytes| ==> r[i] == RecoverByte(bytes[i])
  {
    seq(|bytes|, i requires 0 <= i < |bytes| => RecoverByte(bytes[i]))
  }

  /** recoverFullStopSymbols, in place. */
  method RecoverFullStopSymbols(data: array<Byte>)
    modifies data
    ensures data[..] == Recover(old(data[..]))
  {
    for i := 0 to data.Length
      invariant forall j :: 0 <= j < i ==> data[j] == RecoverByte(old(data[j]))
      invariant forall j :: i <= j < data.Length ==> data[j] == old(data[j])
    {
      var b := data[i];
      if b <= 44 || (58 <= b <= 64) || (91 <= b <= 96 && b != 95) {
        data[i] := 46;
      }
    }
  }

  /** bytes.Index of the type and class fields TXT and IN, from position i on; -1 if there is none. */
  function IndexOfMagic(s: seq<Byte>, i: nat): (r: int)
    ensures r == -1 || i <= r <= |s| - |TXT_IN|
    decreases |s| - i
  {
    if i + |TXT_IN| > |s| then -1
    else if s[i..i + |TXT_IN|] == TXT_IN then i
    else IndexOfMagic(s, i + 1)
  }

  function Extracted(packet: seq<Byte>): string {
    if |packet| < MIN_NAME_QUERY_SIZE then ""
    else
      var at := IndexOfMagic(packet[13..], 0);
      if at < 1 || at - 1 > MAX_EXTRACTED then "" else Chars(Recover(packet[13..13 + at - 1]))
  }

  /** ExtractTextQueryInput. */
  method ExtractTextQueryInput(packet: seq<Byte>) returns (name: string)
    ensures name == Extracted(packet)
  {
    if |packet| < MIN_NAME_QUERY_SIZE {
      return "";
    }
    var at := IndexOfMagic(packet[13..], 0);
    if at < 1 {
      return "";
    }
    at := at + 13;
    var queried := packet[13..at - 1];
    var queriedNameBytes := new Byte[|queried|](i requires 0 <= i < |queried| => queried[i]);
    assert queriedNameBytes[..] == queried;
    if queriedNameBytes.Length > MAX_EXTRACTED {
      return "";
    }
    RecoverFullStopSymbols(queriedNameBytes);
    name := Chars(queriedNameBytes[..]);
  }

  /** Letters, numerals, the marks - . / _ and bytes behind the letters stay, other bytes become full stops. */
  lemma {:induction false} RecoveredByte(b: Byte)
    ensures var c := b as char;
      RecoverByte(b) == if IsLetter(c) || IsDigit(c) || c in "-./_" || c > 'z' then b else '.' as int
  {
  }

  /** Never more than 255 characters are extracted, and none from a packet without room for a question. */
  lemma {:induction false} ExtractedBounded(packet: seq<Byte>)
    ensures |Extracted(packet)| <= 255 && (|packet| < 14 ==> Extracted(packet) == "")
  {
  }

  // Well-formed text questions

  /** Letters, digits, hyphen and underscore. */
  predicate IsNameByte(b: Byte) {
    b == 45 || 48 <= b <= 57 || 65 <= b <= 90 || b == 95 || 97 <= b <= 122
  }

  predicate WellFormedLabel(part: seq<Byte>) {
    1 <= |part| <= 63 && forall i :: 0 <= i < |part| ==> IsNameByte(part[i])
  }

  predicate WellFormedName(labels: seq<seq<Byte>>) {
    && (forall i :: 0 <= i < |labels| ==> WellFormedLabel(labels[i]))
    && |WireName(labels)| < 255
  }

  /** Each label behind its length, section 3.1 of RFC 1035, without the final empty label. */
  function WireName(labels: seq<seq<Byte>>): seq<int> {
    if labels == [] then [] else [|labels[0]|] + labels[0] + WireName(labels[1..])
  }

  ghost predicate IsTextQuestion(packet: seq<Byte>, labels: seq<seq<Byte>>) {
    && |packet| >= HEADER_SIZE + |WireName(labels)| + 5
    && var rest := packet[HEADER_SIZE..];
       && rest[..|WireName(labels)|] == WireName(labels)
       && rest[|WireName(labels)|] == 0
       && rest[|WireName(labels)| + 1..|WireName(labels)| + 5] == TXT_IN
  }

  /** What a label length turns into: these lengths are visible characters, the others become full stops. */
  predicate IsVisibleLength(n: nat) { n == 45 || 47 <= n <= 57 }

  /** No label from position i on has a visible length. */
  predicate InvisibleFrom<T>(parts: seq<seq<T>>, i: nat) {
    forall j :: i <= j < |parts| ==> !IsVisibleLength(|parts[j]|)
  }

  function Separator(n: nat): char { if IsVisibleLength(n) then n as char else '.' }

  function RenderedTail(labels: seq<seq<Byte>>): string
    requires forall i :: 0 <= i < |labels| ==> WellFormedLabel(labels[i])
  {
    if labels == [] then ""
    else [Separator(|labels[0]|)] + Chars(labels[0]) + RenderedTail(labels[1..])
  }

  function Rendered(labels: seq<seq<Byte>>): string
    requires forall i :: 0 <= i < |labels| ==> WellFormedLabel(labels[i])
  {
    if labels == [] then "" else Chars(labels[0]) + RenderedTail(labels[1..])
  }

  function Texts(labels: seq<seq<Byte>>): (r: seq<string>)
    ensures |r| == |labels| && forall i :: 0 <= i < |labels| ==> r[i] == Chars(labels[i])
  {
    seq(|labels|, i requires 0 <= i < |labels| => Chars(labels[i]))
  }

  lemma {:induction false} WireNameBytes(labels: seq<seq<Byte>>)
    requires forall i :: 0 <= i < |labels| ==> WellFormedLabel(labels[i])
    ensures forall i :: 0 <= i < |WireName(labels)| ==> 1 <= WireName(labels)[i] <= 255
  {
    if labels == [] {
    } else {
      WireNameBytes(labels[1..]);
    }
  }

  /** The first match of the magic is the real type and class field, right behind the closing empty label. */
  lemma {:induction false} FirstMagic(s: seq<Byte>, end: nat, i: nat)
    requires i <= end + 1 && end + 5 <= |s|
    requires forall j :: 0 <= j < end ==> s[j] != 0
    requires s[end] == 0 && s[end + 1..end + 5] == TXT_IN
    ensures IndexOfMagic(s, i) == end + 1
    decreases end + 1 - i
  {
    if i <= end {
      assert s[i..i + 4][0] == s[i] && s[i..i + 4][1] == s[i + 1];
      assert s[end + 1] == s[end + 1..end + 5][0] == 0;
      assert TXT_IN[0] == 0 && TXT_IN[1] == 16;
      FirstMagic(s, end, i + 1);
    } else {
      assert i + |TXT_IN| == end + 5;
    }
  }

  function Shown(bytes: seq<Byte>): string { Chars(Recover(bytes)) }

  lemma {:induction false} ShownAppend(a: seq<Byte>, b: seq<Byte>)
    ensures Shown(a + b) == Shown(a) + Shown(b)
  {
    assert forall i :: 0 <= i < |a + b| ==> Shown(a + b)[i] == (Shown(a) + Shown(b))[i];
  }

  lemma {:induction false} ShownLabel(part: seq<Byte>)
    requires WellFormedLabel(part)
    ensures Shown(part) == Chars(part)
    ensures |part| as Byte == |part| && Shown([|part| as Byte]) == [Separator(|part|)]
  {
  }

  lemma {:induction false} ShownTail(labels: seq<seq<Byte>>, bytes: seq<Byte>)
    requires forall i :: 0 <= i < |labels| ==> WellFormedLabel(labels[i])
    requires bytes == WireName(labels)
    ensures Shown(bytes) == RenderedTail(labels)
  {
    if labels == [] {
    } else {
      var first: seq<Byte>, rest: seq<Byte> := [|labels[0]|], bytes[1 + |labels[0]|..];
      assert rest == WireName(labels[1..]);
      assert bytes == first + (labels[0] + rest);
      ShownAppend(first, labels[0] + rest);
      ShownAppend(labels[0], rest);
      ShownLabel(labels[0]);
      ShownTail(labels[1..], rest);
    }
  }

  /** The magic of a text question, counted from behind the first length byte. */
  lemma {:induction false} MagicPosition(packet: seq<Byte>, labels: seq<seq<Byte>>)
    requires WellFormedName(labels) && IsTextQuestion(packet, labels) && labels != []
    ensures IndexOfMagic(packet[13..], 0) == |WireName(labels)|
  {
    var size, rest, body := |WireName(labels)|, packet[HEADER_SIZE..], packet[13..];
    WireNameBytes(labels);
    assert |body| >= size + 4;
    assert forall j :: 0 <= j < |body| ==> body[j] == rest[j + 1];
    assert forall j :: 0 <= j < size ==> rest[j] == rest[..size][j];
    assert body[size..size + 4] == rest[size + 1..size + 5];
    FirstMagic(body, size - 1, 0);
  }

  lemma {:induction false} NameBytes(packet: seq<Byte>, labels: seq<seq<Byte>>) returns (tail: seq<Byte>)
    requires WellFormedName(labels) && IsTextQuestion(packet, labels) && labels != []
    ensures tail == WireName(labels[1..])
    ensures packet[13..13 + |WireName(labels)| - 1] == labels[0] + tail
  {
    var size := |WireName(labels)|;
    var name := packet[13..13 + size - 1];
    assert name == packet[HEADER_SIZE..][..size][1..];
    assert WireName(labels)[1..] == labels[0] + WireName(labels[1..]);
    tail := name[|labels[0]|..];
    assert tail == WireName(labels[1..]);
  }

  lemma {:induction false} SliceOfSlice<T>(s: seq<T>, a: nat, b: nat, c: nat)
    requires a <= |s| && b <= c <= |s| - a
    ensures s[a..][b..c] == s[a + b..a + c]
  {
  }

  /** What is extracted from every well-formed text question. */
  lemma {:induction false} ExtractedName(packet: seq<Byte>, labels: seq<seq<Byte>>)
    requires WellFormedName(labels) && IsTextQuestion(packet, labels)
    ensures Extracted(packet) == Rendered(labels)
  {
    if labels == [] {
      var rest := packet[HEADER_SIZE..];
      assert WireName(labels) == [] && rest[1..5] == TXT_IN;
      SliceOfSlice(packet, 13, 0, 4);
      SliceOfSlice(packet, HEADER_SIZE, 1, 5);
    } else {
      MagicPosition(packet, labels);
      var tail := NameBytes(packet, labels);
      ShownAppend(labels[0], tail);
      ShownLabel(labels[0]);
      ShownTail(labels[1..], tail);
    }
  }

  lemma {:induction false} RenderedTailPlain(labels: seq<seq<Byte>>)
    requires forall i :: 0 <= i < |labels| ==> WellFormedLabel(labels[i])
    ensures |RenderedTail(labels)| == |WireName(labels)|
    ensures labels != [] ==>
      (RenderedTail(labels) == "." + Join(Texts(labels), '.')
       <==> InvisibleFrom(labels, 0))
  {
    if labels == [] {
    } else {
      RenderedTailPlain(labels[1..]);
      var first, rest := [Separator(|labels[0]|)], RenderedTail(labels[1..]);
      var joined := "." + Join(Texts(labels), '.');
      assert Texts(labels)[1..] == Texts(labels[1..]);
      if |labels| > 1 {
        assert joined == "." + Chars(labels[0]) + ("." + Join(Texts(labels[1..]), '.'));
        var plain := "." + Join(Texts(labels[1..]), '.');
        assert RenderedTail(labels) == joined ==> first == "." && rest == plain by {
          var n := 1 + |labels[0]|;
          assert RenderedTail(labels)[n..] == rest && joined[n..] == plain;
          assert RenderedTail(labels)[0] == first[0] && joined[0] == '.';
        }
        assert InvisibleFrom(labels[1..], 0) <==> InvisibleFrom(labels, 1) by {
          assert forall i :: 1 <= i < |labels| ==> labels[i] == labels[1..][i - 1];
        }
      } else {
        assert joined == "." + Chars(labels[0]);
        assert RenderedTail(labels)[0] == first[0] && joined[0] == '.';
      }
    }
  }

  /** The extracted name is the labels joined by full stops exactly when no later length is a visible character. */
  lemma {:induction false} ExtractedExactly(packet: seq<Byte>, labels: seq<seq<Byte>>)
    requires WellFormedName(labels) && IsTextQuestion(packet, labels)
    ensures Extracted(packet) == Join(Texts(labels), '.')
       <==> InvisibleFrom(labels, 1)
  {
    ExtractedName(packet, labels);
    if |labels| > 1 {
      var first, tail := Chars(labels[0]), RenderedTail(labels[1..]);
      RenderedTailPlain(labels[1..]);
      var plain := "." + Join(Texts(labels[1..]), '.');
      assert Texts(labels)[1..] == Texts(labels[1..]);
      assert Join(Texts(labels), '.') == first + plain;
      assert first + tail == first + plain <==> tail == plain by {
        assert (first + tail)[|first|..] == tail && (first + plain)[|first|..] == plain;
      }
      assert forall i :: 1 <= i < |labels| ==> labels[i] == labels[1..][i - 1];
    }
  }

  /** One length that leaks into the name: a label of 50 characters is announced by the digit 2. */
  lemma {:induction false} VisibleLengthWitness(packet: seq<Byte>, part: seq<Byte>)
    requires WellFormedLabel(part) && |part| == 50
    requires IsTextQuestion(packet, [[95], part])
    ensures Extracted(packet) != Join(Texts([[95], part]), '.')
  {
    var labels: seq<seq<Byte>> := [[95], part];
    assert WireName(labels[1..]) == [50] + part + WireName(labels[1..][1..]);
    assert |WireName(labels)| == 53;
    ExtractedExactly(packet, labels);
    assert IsVisibleLength(|labels[1]|);
  }

  lemma {:induction false} JoinDotted(front: seq<string>, back: seq<string>)
    requires back != []
    ensures Join(front + back, '.') == Dotted(front) + Join(back, '.')
  {
    if front == [] {
      assert front + back == back;
    } else {
      assert (front + back)[1..] == front[1..] + back;
      JoinDotted(front[1..], back);
    }
  }

  lemma {:induction false} QueryIsJoined(encoded: string, domain: string, domainLabels: seq<string>)
    requires domainLabels != [] && domain == Join(domainLabels, '.')
    ensures QueryName(encoded, domain) == Join(["_"] + QueryLabels(encoded, domain) + domainLabels, '.')
  {
    var front := ["_"] + QueryLabels(encoded, domain);
    JoinDotted(front, domainLabels);
    assert front[1..] == QueryLabels(encoded, domain);
    assert Dotted(front) == "_" + "." + Dotted(front[1..]);
  }

  /** The lengths of the command labels are all invisible exactly when that of the last one is. */
  lemma {:induction false} CommandLengths(encoded: string, capacity: int)
    ensures var labels, m := CommandLabels(encoded, capacity), Delivered(encoded, capacity);
      InvisibleFrom(labels, 0) <==> !IsVisibleLength(m % MAX_LABEL)
  {
    var labels, m := CommandLabels(encoded, capacity), Delivered(encoded, capacity);
    LabelSizes(encoded, capacity);
    if labels != [] {
      LastLength(labels);
      LastVisible(labels);
      LengthModulo(|labels| - 1, |labels[|labels| - 1]|);
    }
  }

  lemma {:induction false} LengthModulo(full: nat, last: nat)
    requires 1 <= last <= MAX_LABEL
    ensures IsVisibleLength((MAX_LABEL * full + last) % MAX_LABEL) <==> IsVisibleLength(last)
  {
    assert (MAX_LABEL * full + last) % MAX_LABEL == if last == MAX_LABEL then 0 else last;
  }

  lemma {:induction false} LastVisible(labels: seq<string>)
    requires labels != [] && forall i :: 0 <= i < |labels| - 1 ==> |labels[i]| == MAX_LABEL
    requires 1 <= |labels[|labels| - 1]| <= MAX_LABEL
    ensures InvisibleFrom(labels, 0) <==> !IsVisibleLength(|labels[|labels| - 1]|)
  {
  }

  lemma {:induction false} LastLength(labels: seq<string>)
    requires labels != [] && forall i :: 0 <= i < |labels| - 1 ==> |labels[i]| == MAX_LABEL
    ensures |Concat(labels)| == MAX_LABEL * (|labels| - 1) + |labels[|labels| - 1]|
  {
    if |labels| == 1 {
      assert labels[1..] == [];
    } else {
      LastLength(labels[1..]);
    }
  }

  /** The question in the packet carries the query for the encoded command. */
  ghost predicate CarriesQuery(packet: seq<Byte>, labels: seq<seq<Byte>>, encoded: string, domain: string,
                               domainLabels: seq<string>)
  {
    && domainLabels != [] && domain == Join(domainLabels, '.')
    && WellFormedName(labels) && IsTextQuestion(packet, labels)
    && Texts(labels) == ["_"] + QueryLabels(encoded, domain) + domainLabels
  }

  /**
   * A query crosses the wire intact exactly when the last command label and the labels of the domain
   * have invisible lengths.
   */
  lemma {:induction false} QueryIntact(packet: seq<Byte>, labels: seq<seq<Byte>>, encoded: string, domain: string,
                                       domainLabels: seq<string>)
    requires CarriesQuery(packet, labels, encoded, domain, domainLabels)
    ensures Extracted(packet) == QueryName(encoded, domain) <==>
      && !IsVisibleLength(Delivered(encoded, NAME_BUDGET - |domain|) % MAX_LABEL)
      && InvisibleFrom(domainLabels, 0)
  {
    QueryIsJoined(encoded, domain, domainLabels);
    ExtractedExactly(packet, labels);
    IntactLengths(labels, encoded, domain, domainLabels);
  }

  lemma {:induction false} IntactLengths(labels: seq<seq<Byte>>, encoded: string, domain: string,
                                         domainLabels: seq<string>)
    requires Texts(labels) == ["_"] + QueryLabels(encoded, domain) + domainLabels
    ensures InvisibleFrom(labels, 1) <==>
      && !IsVisibleLength(Delivered(encoded, NAME_BUDGET - |domain|) % MAX_LABEL)
      && InvisibleFrom(domainLabels, 0)
  {
    CommandLengths(encoded, NAME_BUDGET - |domain|);
    WireLengths(labels, QueryLabels(encoded, domain), domainLabels);
  }

  /** Then the reader of the packet decodes the delivered part of the command. */
  lemma {:induction false} QueryOverTheWire(packet: seq<Byte>, labels: seq<seq<Byte>>, cmd: string, domain: string,
                                            domainLabels: seq<string>)
    requires CarriesQuery(packet, labels, Encode(cmd), domain, domainLabels) && TwoLabels(domain)
    requires !IsVisibleLength(Delivered(Encode(cmd), NAME_BUDGET - |domain|) % MAX_LABEL)
    requires InvisibleFrom(domainLabels, 0)
    ensures Extracted(packet) == Query(cmd, domain)
    ensures var m := Delivered(Encode(cmd), NAME_BUDGET - |domain|);
      m <= |Encode(cmd)| && Decoded(Extracted(packet)) == Decode(Encode(cmd)[..m])
  {
    QueryIntact(packet, labels, Encode(cmd), domain, domainLabels);
    EncodedAlphabet(cmd);
    ReadQuery(DecodeWord, Encode(cmd), domain);
  }

  lemma {:induction false} WireLengths(labels: seq<seq<Byte>>, command: seq<string>, domain: seq<string>)
    requires Texts(labels) == ["_"] + command + domain
    ensures InvisibleFrom(labels, 1) <==> InvisibleFrom(command, 0) && InvisibleFrom(domain, 0)
  {
    var texts := Texts(labels);
    assert forall i :: 0 <= i < |labels| ==> |texts[i]| == |labels[i]|;
    assert InvisibleFrom(labels, 1) <==> InvisibleFrom(texts, 1);
    InvisibleParts(["_"], command, domain);
  }

  lemma {:induction false} InvisibleParts(lead: seq<string>, command: seq<string>, domain: seq<string>)
    ensures InvisibleFrom(lead + command + domain, |lead|) <==> InvisibleFrom(command, 0) && InvisibleFrom(domain, 0)
  {
    var all, n, m := lead + command + domain, |lead|, |lead + command|;
    assert forall i :: 0 <= i < |command| ==> all[n + i] == command[i];
    assert forall i :: 0 <= i < |domain| ==> all[m + i] == domain[i];
    assert forall i :: n <= i < m ==> all[i] == command[i - n];
    assert forall i :: m <= i < |all| ==> all[i] == domain[i - m];
  }
}
