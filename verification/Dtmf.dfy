/**
 * The DTMF code: toolbox/dtmf.go (decoder) and the encoder of daemon/phonehome/dns_query_builder.go.
 * Encoder and decoder take their tables as parameters; the tables themselves come last.
 */
module Dtmf {
  import opened Text

  type EncodeTable = char -> string
  type DecodeTable = string -> Option<char>

  const FIELD_SEPARATOR: char := '\U{1f}'
  const LINE_SEPARATOR: char := '\U{1e}'

  predicate IsLetter(c: char) { 'a' <= c <= 'z' || 'A' <= c <= 'Z' }

  predicate IsDigit(c: char) { '0' <= c <= '9' }

  predicate DigitWord(word: string) { forall i :: 0 <= i < |word| ==> '1' <= word[i] <= '9' }

  /** What the encoder writes for one character; nothing for a character without a code. */
  function Code(table: EncodeTable, c: char): string {
    if IsLetter(c) then [c] else table(c)
  }

  function EncodeWith(table: EncodeTable, s: string): string {
    if s == "" then "" else Code(table, s[0]) + EncodeWith(table, s[1..])
  }

  /** The text that survives encoding: characters without a code are dropped. */
  function KeptBy(table: EncodeTable, s: string): string {
    if s == "" then ""
    else (if Code(table, s[0]) == "" then "" else [s[0]]) + KeptBy(table, s[1..])
  }

  lemma {:induction false} KeptEncodable(table: EncodeTable, s: string)
    ensures forall i :: 0 <= i < |KeptBy(table, s)| ==>
      Code(table, KeptBy(table, s)[i]) != "" && KeptBy(table, s)[i] in s
  {
    if s == "" {
    } else {
      KeptEncodable(table, s[1..]);
    }
  }

  // The decoder works in two passes: it cuts the digits into words, then translates the words.

  function Pending(word: string): seq<string> { if word == "" then [] else [word] }

  /** One key press while `word` is under way: the words it ends and the word it leaves under way. */
  function Press(word: string, key: char): (seq<string>, string) {
    if key == '1' then
      if word != "" && word[0] != '1' then ([word], "1") else ([], word + "1")
    else if '2' <= key <= '9' then
      if word != "" && word[|word| - 1] != key && word[0] != '1' then ([word], [key])
      else ([], word + [key])
    else if key == '0' then ([if word == "" then " " else word], "")
    else if key == '*' then (Pending(word) + ["*"], "")
    else ([], word)
  }

  function Words(word: string, digits: string): seq<string>
    decreases |digits|
  {
    if digits == "" then Pending(word)
    else Press(word, digits[0]).0 + Words(Press(word, digits[0]).1, digits[1..])
  }

  function Meaning(table: DecodeTable, word: string, shift: bool): string {
    match table(word)
    case None => ""
    case Some(c) => if shift then [UpperChar(c)] else [c]
  }

  function Translate(table: DecodeTable, words: seq<string>, shift: bool): string {
    if words == [] then ""
    else if words[0] == "*" then Translate(table, words[1..], !shift)
    else Meaning(table, words[0], shift) + Translate(table, words[1..], shift)
  }

  lemma {:induction false} TranslateOne(table: DecodeTable, word: string, shift: bool)
    requires word != "*"
    ensures Translate(table, [word], shift) == Meaning(table, word, shift)
  {
    assert [word][1..] == [];
  }

  lemma {:induction false} TranslateAppend(table: DecodeTable, a: seq<string>, b: seq<string>, shift: bool)
    requires "*" !in a
    ensures Translate(table, a + b, shift) == Translate(table, a, shift) + Translate(table, b, shift)
  {
    if a == [] {
      assert a + b == b;
    } else {
      assert (a + b)[1..] == a[1..] + b;
      TranslateAppend(table, a[1..], b, shift);
    }
  }

  lemma {:induction false} WordsIgnoreTrailingSpace(word: string, digits: string, c: char)
    requires IsSpace(c)
    ensures Words(word, digits + [c]) == Words(word, digits)
    decreases |digits|
  {
    if digits == "" {
      assert (digits + [c])[1..] == "";
    } else {
      assert (digits + [c])[1..] == digits[1..] + [c];
      WordsIgnoreTrailingSpace(Press(word, digits[0]).1, digits[1..], c);
    }
  }

  lemma {:induction false} WordsIgnoreTrimLeft(digits: string)
    ensures Words("", TrimLeft(digits)) == Words("", digits)
    decreases |digits|
  {
    if digits == "" || !IsSpace(digits[0]) {
    } else {
      WordsIgnoreTrimLeft(digits[1..]);
    }
  }

  lemma {:induction false} WordsIgnoreTrimRight(digits: string)
    ensures Words("", TrimRight(digits)) == Words("", digits)
    decreases |digits|
  {
    if digits == "" || !IsSpace(digits[|digits| - 1]) {
    } else {
      var front := digits[..|digits| - 1];
      assert digits == front + [digits[|digits| - 1]];
      WordsIgnoreTrailingSpace("", front, digits[|digits| - 1]);
      WordsIgnoreTrimRight(front);
    }
  }

  /** The switch in the first loop of DTMFDecode. */
  method PressKey(word: string, key: char) returns (ended: seq<string>, next: string)
    ensures (ended, next) == Press(word, key)
  {
    assert "" + [key] == [key];
    ended, next := [], word;
    if key == '1' {
      if |next| > 0 && next[0] != '1' {
        ended, next := [next], "";
      }
      next := next + [key];
    } else if '2' <= key <= '9' {
      if |next| > 0 && next[|next| - 1] != key && next[0] != '1' {
        ended, next := [next], "";
      }
      next := next + [key];
    } else if key == '0' {
      if |next| == 0 {
        ended := [" "];
      } else {
        ended, next := [next], "";
      }
    } else if key == '*' {
      if |next| > 0 {
        ended, next := [next], "";
      }
      ended := ended + ["*"];
    }
  }

  /** The first loop of DTMFDecode. */
  method CutWords(digits: string) returns (words: seq<string>)
    ensures words == Words("", digits)
  {
    words := [];
    var word := "";
    for i := 0 to |digits|
      invariant words + Words(word, digits[i..]) == Words("", digits)
    {
      var ended, next := PressKey(word, digits[i]);
      assert digits[i..][1..] == digits[i + 1..];
      Assoc(words, ended, Words(next, digits[i + 1..]));
      words, word := words + ended, next;
    }
    if |word| > 0 {
      words := words + [word];
    }
  }

  /** The second loop of DTMFDecode. */
  method TranslateWords(table: DecodeTable, words: seq<string>) returns (message: string)
    ensures message == Translate(table, words, false)
  {
    message := "";
    var shift := false;
    for i := 0 to |words|
      invariant message + Translate(table, words[i..], shift) == Translate(table, words, false)
    {
      assert words[i..][1..] == words[i + 1..];
      if words[i] == "*" {
        shift := !shift;
      } else {
        var decoded, piece := table(words[i]), "";
        if decoded.Some? {
          piece := if shift then [UpperChar(decoded.value)] else [decoded.value];
        }
        Assoc(message, piece, Translate(table, words[i + 1..], shift));
        message := message + piece;
      }
    }
  }

  /** DTMFDecode; trimming the input makes no difference. */
  method DTMFDecode(table: DecodeTable, input: string) returns (message: string)
    ensures message == Translate(table, Words("", input), false)
  {
    var digits := TrimSpace(input);
    WordsIgnoreTrimLeft(input);
    WordsIgnoreTrimRight(TrimLeft(input));
    if |digits| == 0 {
      return "";
    }
    var words := CutWords(digits);
    message := TranslateWords(table, words);
  }

  // Letters and digit sequences mixed, as they arrive in the labels of a query.

  /** Reads mixed text with `word` under way: a character that is no digit ends the digit sequence. */
  function Machine(table: DecodeTable, word: string, s: string): string
    decreases |s|
  {
    if s == "" then Translate(table, Pending(word), false)
    else if IsDigit(s[0]) then
      Translate(table, Press(word, s[0]).0, false) + Machine(table, Press(word, s[0]).1, s[1..])
    else Translate(table, Pending(word), false) + [s[0]] + Machine(table, "", s[1..])
  }

  /** The machine agrees with DTMFDecode on a maximal run of digits. */
  lemma {:induction false} MachineOnDigits(table: DecodeTable, word: string, run: string, rest: string)
    requires DigitWord(word)
    requires forall i :: 0 <= i < |run| ==> IsDigit(run[i])
    requires rest != "" ==> !IsDigit(rest[0])
    ensures Machine(table, word, run + rest)
         == Translate(table, Words(word, run), false) + Machine(table, "", rest)
    decreases |run|
  {
    if run == "" {
      assert run + rest == rest;
    } else {
      assert (run + rest)[1..] == run[1..] + rest;
      var press := Press(word, run[0]);
      MachineOnDigits(table, press.1, run[1..], rest);
      TranslateAppend(table, press.0, Words(press.1, run[1..]), false);
      Assoc(Translate(table, press.0, false), Translate(table, Words(press.1, run[1..]), false), Machine(table, "", rest));
    }
  }

  lemma {:induction false} MachineOnOthers(table: DecodeTable, others: string, rest: string)
    requires forall i :: 0 <= i < |others| ==> !IsDigit(others[i])
    ensures Machine(table, "", others + rest) == others + Machine(table, "", rest)
    decreases |others|
  {
    if others == "" {
      assert others + rest == rest;
    } else {
      assert (others + rest)[1..] == others[1..] + rest;
      MachineOnOthers(table, others[1..], rest);
      assert others == [others[0]] + others[1..];
    }
  }

  /** Digits from 1 to 9 extend a word that starts with 1. */
  lemma {:induction false} MachineCollects(table: DecodeTable, word: string, digits: string, rest: string)
    requires word != "" && word[0] == '1'
    requires DigitWord(digits)
    ensures Machine(table, word, digits + rest) == Machine(table, word + digits, rest)
    decreases |digits|
  {
    if digits == "" {
      assert digits + rest == rest && word + digits == word;
    } else {
      assert (digits + rest)[1..] == digits[1..] + rest;
      assert word + digits == word + [digits[0]] + digits[1..];
      MachineCollects(table, word + [digits[0]], digits[1..], rest);
    }
  }

  /** A word that starts with 1 is read as what it stands for, at the end or when 0 ends it. */
  lemma {:induction false} MachineOnWord(table: DecodeTable, w: string, rest: string)
    requires w != "" && w[0] == '1' && DigitWord(w)
    ensures Machine(table, "", w) == Meaning(table, w, false)
    ensures Machine(table, "", w + "0" + rest) == Meaning(table, w, false) + Machine(table, "", rest)
  {
    TranslateOne(table, w, false);
    MachineStarts(table, w, "");
    assert w + "" == w;
    MachineStarts(table, w, "0" + rest);
    Assoc(w, "0", rest);
    assert ("0" + rest)[1..] == rest;
  }

  lemma {:induction false} MachineStarts(table: DecodeTable, w: string, rest: string)
    requires w != "" && w[0] == '1' && DigitWord(w)
    ensures Machine(table, "", w + rest) == Machine(table, w, rest)
  {
    var tail := w[1..];
    assert "" + "1" == "1" && "1" + tail == w && (w + rest)[1..] == tail + rest;
    MachineCollects(table, "1", tail, rest);
  }

  // What makes an encoding and a decoding table fit each other.

  /** `code` is a word of the decoding table for `c`, ended by 0, whose proper prefixes mean digits. */
  ghost predicate ReadsBack(table: DecodeTable, c: char, code: string) {
    && 2 <= |code| && code[0] == '1' && code[|code| - 1] == '0'
    && DigitWord(code[..|code| - 1])
    && table(code[..|code| - 1]) == Some(c)
    && forall n :: 1 <= n < |code| - 1 ==>
         table(code[..n]).Some? && IsDigit(table(code[..n]).value)
  }

  ghost predicate MatchingAt(enc: EncodeTable, dec: DecodeTable, c: char) {
    if c == ' ' then enc(c) == "0" && dec(" ") == Some(' ')
    else enc(c) == "" || IsLetter(c) || ReadsBack(dec, c, enc(c))
  }

  ghost predicate Matching(enc: EncodeTable, dec: DecodeTable) {
    forall c :: MatchingAt(enc, dec, c)
  }

  /** A code word is read back as its character, whatever follows it. */
  lemma {:induction false} MachineOnCode(enc: EncodeTable, dec: DecodeTable, c: char, rest: string)
    requires Matching(enc, dec) && Code(enc, c) != ""
    ensures Machine(dec, "", Code(enc, c) + rest) == [c] + Machine(dec, "", rest)
  {
    assert MatchingAt(enc, dec, c);
    var k := Code(enc, c);
    if IsLetter(c) || c == ' ' {
      TranslateOne(dec, " ", false);
      assert (k + rest)[1..] == rest;
    } else {
      var w := k[..|k| - 1];
      assert k + rest == w + "0" + rest;
      MachineOnWord(dec, w, rest);
    }
  }

  /** Decoding undoes encoding on the encodable part of any text. */
  lemma {:induction false} DecodeEncodeWith(enc: EncodeTable, dec: DecodeTable, s: string)
    requires Matching(enc, dec)
    ensures Machine(dec, "", EncodeWith(enc, s)) == KeptBy(enc, s)
    decreases |s|
  {
    if s == "" {
    } else {
      DecodeEncodeWith(enc, dec, s[1..]);
      if Code(enc, s[0]) != "" {
        MachineOnCode(enc, dec, s[0], EncodeWith(enc, s[1..]));
      } else {
        assert EncodeWith(enc, s) == EncodeWith(enc, s[1..]);
      }
    }
  }

  /** A cut-off code word means nothing, its own character, or one decimal digit. */
  lemma {:induction false} MachineOnCutCode(enc: EncodeTable, dec: DecodeTable, c: char, n: nat)
    requires Matching(enc, dec) && n < |Code(enc, c)|
    ensures var r := Machine(dec, "", Code(enc, c)[..n]);
      if n == 0 then r == ""
      else if n + 1 == |Code(enc, c)| then r == [c]
      else |r| == 1 && IsDigit(r[0])
  {
    if n > 0 {
      assert MatchingAt(enc, dec, c);
      var w := Code(enc, c)[..n];
      assert DigitWord(w);
      MachineOnWord(dec, w, "");
    }
  }

  lemma {:induction false} EncodeLonger(enc: EncodeTable, s: string, k: nat)
    requires k < |s| && Code(enc, s[k]) != ""
    ensures |EncodeWith(enc, s[..k])| < |EncodeWith(enc, s[..k + 1])|
    decreases |s|
  {
    assert s[..k + 1][1..] == s[1..][..k];
    if k == 0 {
    } else {
      assert s[..k][1..] == s[1..][..k - 1];
      EncodeLonger(enc, s[1..], k - 1);
    }
  }

  lemma {:induction false} EncodeShorter(enc: EncodeTable, s: string, a: nat, b: nat)
    requires a <= b <= |s|
    ensures |EncodeWith(enc, s[..a])| <= |EncodeWith(enc, s[..b])|
    decreases |s|
  {
    if a == 0 {
    } else {
      assert s[..a][1..] == s[1..][..a - 1] && s[..b][1..] == s[1..][..b - 1];
      EncodeShorter(enc, s[1..], a - 1, b - 1);
    }
  }

  /**
   * Truncation: what is read from any prefix of an encoded text is a prefix of the text, followed by
   * at most one decimal digit; every character whose code arrived in full is there.
   */
  ghost predicate CutReading(enc: EncodeTable, kept: string, n: nat, k: nat, extra: string, read: string) {
    && k <= |kept|
    && read == kept[..k] + extra
    && (extra == "" || (|extra| == 1 && IsDigit(extra[0]) && k < |kept|))
    && |EncodeWith(enc, kept[..k])| <= n + 1
    && (k < |kept| ==> n < |EncodeWith(enc, kept[..k + 1])|)
  }

  /** Characters whose codes fit into what was delivered are read. */
  lemma {:induction false} CutReadsDelivered(enc: EncodeTable, kept: string, n: nat, k: nat, extra: string,
                                             read: string, m: nat)
    requires CutReading(enc, kept, n, k, extra, read) && m <= |kept| && |EncodeWith(enc, kept[..m])| <= n
    ensures m <= k
  {
    if k < m {
      EncodeShorter(enc, kept, k + 1, m);
    }
  }

  /** The cut falls into the code of the first character. */
  lemma {:induction false} CutInFirst(enc: EncodeTable, dec: DecodeTable, s: string, n: nat)
    returns (k: nat, extra: string)
    requires Matching(enc, dec) && s != "" && n < |Code(enc, s[0])|
    ensures CutReading(enc, KeptBy(enc, s), n, k, extra, Machine(dec, "", EncodeWith(enc, s)[..n]))
  {
    var code, kept := Code(enc, s[0]), KeptBy(enc, s);
    assert kept == [s[0]] + KeptBy(enc, s[1..]);
    assert kept[..1] == [s[0]] && kept[..1][1..] == "" && kept[..0] == "";
    assert EncodeWith(enc, kept[..1]) == code;
    assert EncodeWith(enc, s)[..n] == code[..n];
    MachineOnCutCode(enc, dec, s[0], n);
    if 0 < n && n + 1 == |code| {
      k, extra := 1, "";
      if 1 < |kept| {
        KeptEncodable(enc, s);
        EncodeLonger(enc, kept, 1);
      }
    } else {
      k, extra := 0, Machine(dec, "", code[..n]);
    }
  }

  /** The cut falls behind the code of the first character. */
  lemma {:induction false} CutLater(enc: EncodeTable, dec: DecodeTable, s: string, n: nat, j: nat, extra: string)
    requires Matching(enc, dec) && s != "" && Code(enc, s[0]) != ""
    requires |Code(enc, s[0])| <= n <= |EncodeWith(enc, s)|
    requires var m := n - |Code(enc, s[0])|;
      CutReading(enc, KeptBy(enc, s[1..]), m, j, extra, Machine(dec, "", EncodeWith(enc, s[1..])[..m]))
    ensures CutReading(enc, KeptBy(enc, s), n, j + 1, extra, Machine(dec, "", EncodeWith(enc, s)[..n]))
  {
    var c, m := s[0], n - |Code(enc, s[0])|;
    var tail := EncodeWith(enc, s[1..])[..m];
    assert EncodeWith(enc, s)[..n] == Code(enc, c) + tail;
    MachineOnCode(enc, dec, c, tail);
    CutBehind(enc, c, KeptBy(enc, s[1..]), m, j, extra, Machine(dec, "", tail));
  }

  lemma {:induction false} CutBehind(enc: EncodeTable, c: char, kept: string, m: nat, j: nat, extra: string,
                                     read: string)
    requires CutReading(enc, kept, m, j, extra, read)
    ensures CutReading(enc, [c] + kept, m + |Code(enc, c)|, j + 1, extra, [c] + read)
  {
    Assoc([c], kept[..j], extra);
    assert ([c] + kept)[..j + 1] == [c] + kept[..j];
    EncodeFirst(enc, c, kept, j);
    if j < |kept| {
      EncodeFirst(enc, c, kept, j + 1);
    }
  }

  lemma {:induction false} EncodeFirst(enc: EncodeTable, c: char, rest: string, j: nat)
    requires j <= |rest|
    ensures |EncodeWith(enc, ([c] + rest)[..j + 1])| == |Code(enc, c)| + |EncodeWith(enc, rest[..j])|
  {
    var s := ([c] + rest)[..j + 1];
    assert s[0] == c && s[1..] == rest[..j];
  }

  lemma {:induction false} DecodeTruncatedWith(enc: EncodeTable, dec: DecodeTable, s: string, n: nat)
    returns (k: nat, extra: string)
    requires Matching(enc, dec) && n <= |EncodeWith(enc, s)|
    ensures CutReading(enc, KeptBy(enc, s), n, k, extra, Machine(dec, "", EncodeWith(enc, s)[..n]))
    decreases |s|
  {
    if s == "" {
      k, extra := 0, "";
      assert EncodeWith(enc, s)[..n] == "";
    } else if n < |Code(enc, s[0])| {
      k, extra := CutInFirst(enc, dec, s, n);
    } else if Code(enc, s[0]) == "" {
      k, extra := DecodeTruncatedWith(enc, dec, s[1..], n);
      assert EncodeWith(enc, s) == EncodeWith(enc, s[1..]);
      assert KeptBy(enc, s) == KeptBy(enc, s[1..]);
    } else {
      var j, e := DecodeTruncatedWith(enc, dec, s[1..], n - |Code(enc, s[0])|);
      CutLater(enc, dec, s, n, j, e);
      k, extra := j + 1, e;
    }
  }

  // The tables of the original.

  /** DTMFEncodeTable; "" stands for a missing entry. */
  function EncodeSymbol(c: char): string {
    match c
    case ' ' => "0"
    case '!' => "1110" case '@' => "1120" case '#' => "1130" case '$' => "1140" case '%' => "1150"
    case '^' => "1160" case '&' => "1170" case '*' => "1180" case '(' => "1190"
    case '`' => "1210" case '~' => "1220" case ')' => "1230" case '-' => "1240" case '_' => "1250"
    case '=' => "1260" case '+' => "1270" case '[' => "1280" case '{' => "1290"
    case ']' => "1310" case '}' => "1320" case '\\' => "1330" case '|' => "1340" case ';' => "1350"
    case ':' => "1360" case '\'' => "1370" case '"' => "1380" case ',' => "1390"
    case '<' => "1410" case '.' => "1420" case '>' => "1430" case '/' => "1440" case '?' => "1450"
    case '\U{1f}' => "1460" case '\U{1e}' => "1470"
    case '0' => "10" case '1' => "110" case '2' => "120" case '3' => "130" case '4' => "140"
    case '5' => "150" case '6' => "160" case '7' => "170" case '8' => "180" case '9' => "190"
    case _ => ""
  }

  /** The letters on a key: DTMFDecodeTable maps n presses of a key to its n-th letter. */
  function KeyLetters(key: char): string {
    match key
    case '2' => "abc" case '3' => "def" case '4' => "ghi" case '5' => "jkl"
    case '6' => "mno" case '7' => "pqrs" case '8' => "tuv" case '9' => "wxyz"
    case _ => ""
  }

  /** The symbol rows of DTMFDecodeTable: 1, row, column stands for the column-th symbol of the row. */
  function SymbolRow(row: char): string {
    match row
    case '1' => "!@#$%^&*("
    case '2' => "`~)-_=+[{"
    case '3' => "]}\\|;:'\","
    case '4' => "<.>/?\U{1f}\U{1e}"
    case _ => ""
  }

  /** DTMFDecodeTable. */
  function DecodeWord(word: string): Option<char> {
    if word == "" then None
    else if word == " " then Some(' ')
    else if word[0] != '1' then
      if |word| <= |KeyLetters(word[0])| && forall i :: 0 <= i < |word| ==> word[i] == word[0]
      then Some(KeyLetters(word[0])[|word| - 1])
      else None
    else if |word| == 1 then Some('0')
    else if !('1' <= word[1] <= '9') then None
    else if |word| == 2 then Some(word[1])
    else if |word| == 3 && 0 <= word[2] as int - '1' as int < |SymbolRow(word[1])|
    then Some(SymbolRow(word[1])[word[2] as int - '1' as int])
    else None
  }

  /** Numerals have codes of three keys (two for zero), symbols of four. */
  predicate IsNumeralCode(k: string) {
    k == "10" || (|k| == 3 && k[0] == '1' && '1' <= k[1] <= '9' && k[2] == '0')
  }

  predicate IsSymbolCode(k: string) {
    |k| == 4 && k[0] == '1' && '1' <= k[1] <= '4' && '1' <= k[2] <= '9' && k[3] == '0'
  }

  lemma {:induction false} CodeShape(c: char)
    requires c != ' ' && EncodeSymbol(c) != ""
    ensures if IsDigit(c) then IsNumeralCode(EncodeSymbol(c)) else IsSymbolCode(EncodeSymbol(c))
  {
  }

  lemma {:induction false} NumeralMeaning(c: char)
    requires IsDigit(c) && IsNumeralCode(EncodeSymbol(c))
    ensures var k := EncodeSymbol(c);
      DecodeWord(if k == "10" then "1" else ['1', k[1]]) == Some(c)
  {
  }

  lemma {:induction false} SymbolMeaning(c: char)
    requires c != ' ' && !IsDigit(c) && IsSymbolCode(EncodeSymbol(c))
    ensures var k := EncodeSymbol(c); DecodeWord(['1', k[1], k[2]]) == Some(c)
  {
  }

  lemma {:induction false} TablesMatchAt(c: char)
    ensures MatchingAt(EncodeSymbol, DecodeWord, c)
  {
    var k := EncodeSymbol(c);
    if c != ' ' && k != "" && !IsLetter(c) {
      CodeShape(c);
      if IsDigit(c) {
        NumeralMeaning(c);
        assert if k == "10" then k[..1] == "1" else k[..2] == ['1', k[1]];
      } else {
        SymbolMeaning(c);
        assert k[..3] == ['1', k[1], k[2]];
      }
    }
  }

  /** The two tables of the original fit each other. */
  lemma {:induction false} TablesMatch()
    ensures Matching(EncodeSymbol, DecodeWord)
  {
    forall c ensures MatchingAt(EncodeSymbol, DecodeWord, c) {
      TablesMatchAt(c);
    }
  }

  function Encode(s: string): string { EncodeWith(EncodeSymbol, s) }

  function Kept(s: string): string { KeptBy(EncodeSymbol, s) }

  function Decode(s: string): string { Machine(DecodeWord, "", s) }

  /** Text made of characters with a code survives encoding. */
  lemma {:induction false} KeptAll(s: string)
    requires forall i :: 0 <= i < |s| ==> Code(EncodeSymbol, s[i]) != ""
    ensures Kept(s) == s
  {
    if s == "" {
    } else {
      KeptAll(s[1..]);
    }
  }

  /** EncodeToDTMF. */
  method EncodeToDTMF(table: EncodeTable, input: string) returns (out: string)
    ensures out == EncodeWith(table, input)
  {
    out := "";
    for i := 0 to |input|
      invariant out + EncodeWith(table, input[i..]) == EncodeWith(table, input)
    {
      assert input[i..][1..] == input[i + 1..];
      var c, piece := input[i], "";
      if 'a' <= c <= 'z' || 'A' <= c <= 'Z' {
        piece := [c];
      } else if table(c) != "" {
        piece := table(c);
      }
      Assoc(out, piece, EncodeWith(table, input[i + 1..]));
      out := out + piece;
    }
  }

  /** Decoding undoes encoding on the encodable part of any text. */
  lemma {:induction false} DecodeEncode(s: string)
    ensures Decode(Encode(s)) == Kept(s)
  {
    TablesMatch();
    DecodeEncodeWith(EncodeSymbol, DecodeWord, s);
  }

  /** What is read from a cut-off encoding: see CutReading. */
  lemma {:induction false} DecodeTruncated(s: string, n: nat) returns (k: nat, extra: string)
    requires n <= |Encode(s)|
    ensures CutReading(EncodeSymbol, Kept(s), n, k, extra, Decode(Encode(s)[..n]))
  {
    TablesMatch();
    k, extra := DecodeTruncatedWith(EncodeSymbol, DecodeWord, s, n);
  }

  predicate IsAlphanumeric(c: char) { IsLetter(c) || IsDigit(c) }

  lemma {:induction false} CodeAlphabet(c: char)
    ensures forall i :: 0 <= i < |Code(EncodeSymbol, c)| ==> IsAlphanumeric(Code(EncodeSymbol, c)[i])
  {
    if !IsLetter(c) && c != ' ' && EncodeSymbol(c) != "" {
      CodeShape(c);
    }
  }

  /** Encoded text is made of letters and digits only. */
  predicate Alphanumeric(s: string) { forall i :: 0 <= i < |s| ==> IsAlphanumeric(s[i]) }

  /** Encoded text consists of letters and digits. */
  lemma {:induction false} EncodedAlphabet(s: string)
    ensures Alphanumeric(Encode(s))
    decreases |s|
  {
    if s == "" {
    } else {
      CodeAlphabet(s[0]);
      EncodedAlphabet(s[1..]);
      assert Encode(s) == Code(EncodeSymbol, s[0]) + Encode(s[1..]);
    }
  }
}
