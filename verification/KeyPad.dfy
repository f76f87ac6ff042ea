/**
 * The key pad behind toolbox/dtmf.go: what every sequence of key presses means, and how a text is typed. The items
 * of an input are defined by the keys alone, not by the loops of the decoder.
 */
module KeyPad {
  import opened Text
  import opened Dtmf

  /** What is typed: a letter key so many times, a word of digits that begins with 1, a space, or the shift key. */
  datatype Item =
    | Run(key: char, presses: nat, ended: bool)
    | Numeral(word: string, ended: bool)
    | Space
    | Shift

  predicate IsLetterKey(c: char) { '2' <= c <= '9' }

  predicate IsKey(c: char) { IsDigit(c) || c == '*' }

  function Repeat(key: char, n: nat): (r: string)
    ensures |r| == n && forall i :: 0 <= i < n ==> r[i] == key
  {
    seq(n, _ => key)
  }

  /** The keys of an item; a word that is ended has 0 behind it. */
  function Keys(item: Item): string {
    match item
    case Run(key, n, ended) => Repeat(key, n) + if ended then "0" else ""
    case Numeral(word, ended) => word + if ended then "0" else ""
    case Space => "0"
    case Shift => "*"
  }

  function Typed(items: seq<Item>): string {
    if items == [] then "" else Keys(items[0]) + Typed(items[1..])
  }

  predicate IsItem(item: Item) {
    match item
    case Run(key, n, _) => IsLetterKey(key) && n >= 1
    case Numeral(word, _) => word != "" && word[0] == '1' && DigitWord(word)
    case Space => true
    case Shift => true
  }

  predicate Open(item: Item) { (item.Run? || item.Numeral?) && !item.ended }

  /**
   * What may follow a word that 0 does not end: the shift key, and behind a letter key also another letter key
   * or a word of digits.
   */
  predicate MayFollow(item: Item, next: Item) {
    match next
    case Shift => true
    case Space => !Open(item)
    case Run(key, _, _) => !Open(item) || (item.Run? && item.key != key)
    case Numeral(_, _) => !Open(item) || item.Run?
  }

  predicate WellTyped(items: seq<Item>) {
    && (forall i :: 0 <= i < |items| ==> IsItem(items[i]))
    && (forall i :: 0 < i < |items| ==> MayFollow(items[i - 1], items[i]))
  }

  function ItemWord(item: Item): string {
    match item
    case Run(key, n, _) => Repeat(key, n)
    case Numeral(word, _) => word
    case Space => " "
    case Shift => "*"
  }

  function ItemWords(items: seq<Item>): (r: seq<string>)
    ensures |r| == |items| && forall i :: 0 <= i < |items| ==> r[i] == ItemWord(items[i])
  {
    seq(|items|, i requires 0 <= i < |items| => ItemWord(items[i]))
  }

  // The words of what is typed

  lemma {:induction false} WordsCollect(word: string, more: string, rest: string)
    requires word != "" && DigitWord(word) && DigitWord(more)
    requires word[0] == '1' || forall i :: 0 <= i < |more| ==> more[i] == word[|word| - 1] != '1'
    ensures Words(word, more + rest) == Words(word + more, rest)
    decreases |more|
  {
    if more == "" {
      assert more + rest == rest && word + more == word;
    } else {
      assert (more + rest)[1..] == more[1..] + rest;
      assert word + more == word + [more[0]] + more[1..];
      WordsCollect(word + [more[0]], more[1..], rest);
    }
  }

  /** The word of an item, begun afresh. */
  lemma {:induction false} WordsBegin(word: string, rest: string)
    requires word != "" && DigitWord(word)
    requires word[0] == '1' || forall i :: 0 <= i < |word| ==> word[i] == word[0]
    ensures Words("", word + rest) == Words(word, rest)
  {
    var more := word[1..];
    assert "" + [word[0]] == [word[0]] && [word[0]] + more == word && (word + rest)[1..] == more + rest;
    WordsCollect([word[0]], more, rest);
  }

  /** The key ends a word that is under way, and begins the next one. */
  predicate EndsWord(word: string, key: char)
    requires word != ""
  {
    key == '*' || (word[0] != '1' && '1' <= key <= '9' && key != word[|word| - 1])
  }

  lemma {:induction false} WordEnds(word: string, tail: string)
    requires word != "" && tail != "" && EndsWord(word, tail[0])
    ensures Words(word, tail) == [word] + Words("", tail)
  {
    PressEnds(word, tail[0]);
    Assoc([word], Press("", tail[0]).0, Words(Press("", tail[0]).1, tail[1..]));
  }

  lemma {:induction false} PressEnds(word: string, key: char)
    requires word != "" && EndsWord(word, key)
    ensures Press(word, key).0 == [word] + Press("", key).0 && Press(word, key).1 == Press("", key).1
  {
    assert "" + [key] == [key];
  }

  function FirstKey(item: Item): char
    requires IsItem(item)
  {
    match item
    case Run(key, _, _) => key
    case Numeral(_, _) => '1'
    case Space => '0'
    case Shift => '*'
  }

  lemma {:induction false} TypedFirst(items: seq<Item>)
    requires items != [] && IsItem(items[0])
    ensures Typed(items) != "" && Typed(items)[0] == FirstKey(items[0])
  {
  }

  lemma {:induction false} WellTypedRest(items: seq<Item>)
    requires WellTyped(items) && items != []
    ensures IsItem(items[0]) && WellTyped(items[1..]) && (|items| > 1 ==> MayFollow(items[0], items[1]))
  {
    var rest := items[1..];
    assert forall i :: 0 <= i < |rest| ==> rest[i] == items[i + 1];
  }

  /** A word is cut off where its item ends. */
  lemma {:induction false} WordsOfItem(item: Item, rest: seq<Item>)
    requires IsItem(item) && (item.Run? || item.Numeral?)
    requires rest != [] ==> IsItem(rest[0]) && MayFollow(item, rest[0])
    ensures Words("", Keys(item) + Typed(rest)) == [ItemWord(item)] + Words("", Typed(rest))
  {
    var w, tail := ItemWord(item), Typed(rest);
    if item.ended {
      WordsBegin(w, "0" + tail);
      Assoc(w, "0", tail);
      assert ("0" + tail)[1..] == tail;
    } else {
      assert Keys(item) == w;
      WordsBegin(w, tail);
      if rest == [] {
      } else {
        TypedFirst(rest);
        WordEnds(w, tail);
      }
    }
  }

  lemma {:induction false} WordsOfSign(item: Item, tail: string)
    requires item.Space? || item.Shift?
    ensures Words("", Keys(item) + tail) == [ItemWord(item)] + Words("", tail)
  {
    assert (Keys(item) + tail)[0] == Keys(item)[0] && (Keys(item) + tail)[1..] == tail;
    assert Pending("") + ["*"] == ["*"];
  }

  /** The words that the decoder cuts are those of the items. */
  lemma {:induction false} WordsOfItems(items: seq<Item>)
    requires WellTyped(items)
    ensures Words("", Typed(items)) == ItemWords(items)
  {
    if items == [] {
    } else {
      var item, rest := items[0], items[1..];
      WellTypedRest(items);
      WordsOfItems(rest);
      assert ItemWords(items) == [ItemWord(item)] + ItemWords(rest);
      if item.Run? || item.Numeral? {
        WordsOfItem(item, rest);
      } else {
        WordsOfSign(item, Typed(rest));
      }
    }
  }

  // Every input is typed

  /** The digits from 1 to 9 at the beginning. */
  function DigitsOf(s: string): (w: string)
    ensures DigitWord(w) && w <= s && (|w| < |s| ==> !('1' <= s[|w|] <= '9'))
  {
    if s == "" || !('1' <= s[0] <= '9') then ""
    else
      var w := DigitsOf(s[1..]);
      assert w == s[1..][..|w|];
      [s[0]] + w
  }

  lemma {:induction false} WellTypedPrepend(item: Item, items: seq<Item>)
    requires IsItem(item) && WellTyped(items) && (items != [] ==> MayFollow(item, items[0]))
    ensures WellTyped([item] + items) && Typed([item] + items) == Keys(item) + Typed(items)
  {
    var all := [item] + items;
    assert all[1..] == items;
    assert forall i :: 0 < i < |all| ==> all[i] == items[i - 1];
    forall i | 0 < i < |all| ensures MayFollow(all[i - 1], all[i]) {
      if i > 1 {
        assert MayFollow(items[i - 2], items[i - 1]);
      }
    }
  }

  /** A letter key joins what is typed behind it. */
  lemma {:induction false} PrependLetterKey(key: char, items: seq<Item>) returns (all: seq<Item>)
    requires IsLetterKey(key) && WellTyped(items)
    ensures WellTyped(all) && Typed(all) == [key] + Typed(items)
  {
    if items != [] {
      WellTypedRest(items);
    }
    if items != [] && items[0].Run? && items[0].key == key {
      var rest, n := items[1..], items[0].presses;
      var first := Run(key, n + 1, items[0].ended);
      WellTypedPrepend(first, rest);
      all := [first] + rest;
      assert Repeat(key, n + 1) == [key] + Repeat(key, n);
      Assoc([key], Repeat(key, n), if first.ended then "0" else "");
      Assoc([key], Keys(items[0]), Typed(rest));
    } else if items != [] && items[0].Space? {
      WellTypedPrepend(Run(key, 1, true), items[1..]);
      all := [Run(key, 1, true)] + items[1..];
      assert Repeat(key, 1) == [key];
      Assoc([key], "0", Typed(items[1..]));
    } else {
      WellTypedPrepend(Run(key, 1, false), items);
      all := [Run(key, 1, false)] + items;
      assert Keys(Run(key, 1, false)) == [key];
    }
  }

  /** A word of digits joins what is typed behind it. */
  lemma {:induction false} PrependNumeral(word: string, items: seq<Item>) returns (all: seq<Item>)
    requires IsItem(Numeral(word, false)) && WellTyped(items)
    requires Typed(items) != "" ==> !('1' <= Typed(items)[0] <= '9')
    ensures WellTyped(all) && Typed(all) == word + Typed(items)
  {
    if items != [] {
      WellTypedRest(items);
      TypedFirst(items);
    }
    if items != [] && items[0].Space? {
      WellTypedPrepend(Numeral(word, true), items[1..]);
      all := [Numeral(word, true)] + items[1..];
      Assoc(word, "0", Typed(items[1..]));
    } else {
      WellTypedPrepend(Numeral(word, false), items);
      all := [Numeral(word, false)] + items;
      assert Keys(Numeral(word, false)) == word;
    }
  }

  /** Every sequence of keys is typed by some items. */
  lemma {:induction false} EveryInputTyped(s: string) returns (items: seq<Item>)
    requires forall i :: 0 <= i < |s| ==> IsKey(s[i])
    ensures WellTyped(items) && Typed(items) == s
    decreases |s|
  {
    if s == "" {
      items := [];
    } else if s[0] == '1' {
      var w := DigitsOf(s);
      assert w != "" && w[0] == '1';
      var rest := EveryInputTyped(s[|w|..]);
      items := PrependNumeral(w, rest);
      assert s == w + s[|w|..];
    } else {
      var rest := EveryInputTyped(s[1..]);
      items := PrependKey(s[0], rest);
      assert s == [s[0]] + s[1..];
    }
  }

  lemma {:induction false} PrependKey(key: char, items: seq<Item>) returns (all: seq<Item>)
    requires IsKey(key) && key != '1' && WellTyped(items)
    ensures WellTyped(all) && Typed(all) == [key] + Typed(items)
  {
    if IsLetterKey(key) {
      all := PrependLetterKey(key, items);
    } else {
      var item := if key == '0' then Space else Shift;
      WellTypedPrepend(item, items);
      all := [item] + items;
    }
  }

  // The meaning of what is typed

  lemma {:induction false} WordsOfKeys(word: string, input: string)
    ensures Words(word, input) == Words(word, Filter(IsKey, input))
    decreases |input|
  {
    if input == "" {
    } else {
      var rest := Filter(IsKey, input[1..]);
      WordsOfKeys(Press(word, input[0]).1, input[1..]);
      if IsKey(input[0]) {
        assert ([input[0]] + rest)[1..] == rest;
      } else {
        assert Filter(IsKey, input) == rest;
      }
    }
  }

  /** Shift is on behind an odd number of presses of the shift key. */
  predicate Shifted(words: seq<string>, k: nat, shift: bool)
    requires k < |words|
  {
    (multiset(words[..k])["*"] % 2 == 1) != shift
  }

  /** What the k-th word contributes: nothing if it is the shift key or not in the table. */
  function Said(table: DecodeTable, words: seq<string>, k: nat, shift: bool): string
    requires k < |words|
  {
    if words[k] == "*" || table(words[k]) == None then ""
    else if Shifted(words, k, shift) then [UpperChar(table(words[k]).value)]
    else [table(words[k]).value]
  }

  function AllSaid(table: DecodeTable, words: seq<string>, shift: bool): (r: seq<string>)
    ensures |r| == |words| && forall k :: 0 <= k < |words| ==> r[k] == Said(table, words, k, shift)
  {
    seq(|words|, k requires 0 <= k < |words| => Said(table, words, k, shift))
  }

  lemma {:induction false} ShiftedBehind(words: seq<string>, k: nat, shift: bool)
    requires 0 < k < |words|
    ensures Shifted(words, k, shift) == Shifted(words[1..], k - 1, if words[0] == "*" then !shift else shift)
  {
    var before := words[1..][..k - 1];
    assert words[..k] == [words[0]] + before;
    assert multiset(words[..k])["*"] == multiset(before)["*"] + if words[0] == "*" then 1 else 0;
  }

  lemma {:induction false} TranslateSays(table: DecodeTable, words: seq<string>, shift: bool)
    ensures Translate(table, words, shift) == Concat(AllSaid(table, words, shift))
  {
    if words == [] {
    } else {
      var rest, next := words[1..], if words[0] == "*" then !shift else shift;
      TranslateSays(table, rest, next);
      forall k | 0 < k < |words| ensures Said(table, words, k, shift) == Said(table, rest, k - 1, next) {
        ShiftedBehind(words, k, shift);
      }
      assert AllSaid(table, words, shift)[1..] == AllSaid(table, rest, next);
      assert words[..0] == [];
    }
  }

  /**
   * What DTMFDecode makes of any input: the keys in it are typed by items, and each item says the character of the
   * table, in upper case behind an odd number of shifts.
   */
  lemma {:induction false} MeaningOfInput(table: DecodeTable, input: string) returns (items: seq<Item>)
    ensures WellTyped(items) && Typed(items) == Filter(IsKey, input)
    ensures Translate(table, Words("", input), false) == Concat(AllSaid(table, ItemWords(items), false))
  {
    KeysOnly(input);
    items := EveryInputTyped(Filter(IsKey, input));
    WordsOfKeys("", input);
    WordsOfItems(items);
    TranslateSays(table, ItemWords(items), false);
  }

  lemma {:induction false} KeysOnly(input: string)
    ensures forall i :: 0 <= i < |Filter(IsKey, input)| ==> IsKey(Filter(IsKey, input)[i])
  {
    if input == "" {
    } else {
      KeysOnly(input[1..]);
    }
  }

  // Typing a text

  /** How a letter is typed. */
  function LetterKeys(c: char): string {
    match LowerChar(c)
    case 'a' => "2" case 'b' => "22" case 'c' => "222"
    case 'd' => "3" case 'e' => "33" case 'f' => "333"
    case 'g' => "4" case 'h' => "44" case 'i' => "444"
    case 'j' => "5" case 'k' => "55" case 'l' => "555"
    case 'm' => "6" case 'n' => "66" case 'o' => "666"
    case 'p' => "7" case 'q' => "77" case 'r' => "777" case 's' => "7777"
    case 't' => "8" case 'u' => "88" case 'v' => "888"
    case 'w' => "9" case 'x' => "99" case 'y' => "999" case 'z' => "9999"
    case _ => ""
  }

  predicate IsUpper(c: char) { 'A' <= c <= 'Z' }

  predicate Typeable(c: char) { IsLetter(c) || EncodeSymbol(c) != "" }

  /** A letter needs 0 behind it before a space, and before a letter of the same key in the same case. */
  predicate NeedsEnd(c: char, rest: string)
    requires IsLetter(c)
  {
    && rest != ""
    && (rest[0] == ' ' ||
        (IsLetter(rest[0]) && LetterKeys(rest[0])[..1] == LetterKeys(c)[..1] && IsUpper(rest[0]) == IsUpper(c)))
  }

  lemma {:induction false} LetterTyped(c: char)
    requires IsLetter(c)
    ensures var w := LetterKeys(c);
      && w != "" && IsLetterKey(w[0]) && w == Repeat(w[0], |w|) && DecodeWord(w) == Some(LowerChar(c))
  {
    KeysOfLetter(LowerChar(c));
  }

  lemma {:induction false} KeysOfLetter(c: char)
    requires 'a' <= c <= 'z'
    ensures var w := LetterKeys(c); w != "" && IsLetterKey(w[0]) && w == Repeat(w[0], |w|) && DecodeWord(w) == Some(c)
  {
  }

  /** How a text is typed, with the shift key around capitals and codes that begin with 1 for other characters. */
  function Items(text: string, shift: bool): seq<Item>
    requires forall i :: 0 <= i < |text| ==> Typeable(text[i])
  {
    if text == "" then []
    else
      var c, rest := text[0], text[1..];
      if IsLetter(c) then
        LetterTyped(c);
        var letter := Run(LetterKeys(c)[0], |LetterKeys(c)|, NeedsEnd(c, rest));
        (if IsUpper(c) != shift then [Shift, letter] else [letter]) + Items(rest, IsUpper(c))
      else
        assert Typeable(c);
        [if c == ' ' then Space else Numeral(EncodeSymbol(c)[..|EncodeSymbol(c)| - 1], true)] + Items(rest, shift)
  }

  lemma {:induction false} SymbolTyped(c: char)
    requires !IsLetter(c) && c != ' ' && EncodeSymbol(c) != ""
    ensures var k := EncodeSymbol(c);
      && IsItem(Numeral(k[..|k| - 1], true)) && DecodeWord(k[..|k| - 1]) == Some(c)
      && UpperChar(c) == c
  {
    TablesMatchAt(c);
  }

  ghost predicate AllTypeable(text: string) { forall i :: 0 <= i < |text| ==> Typeable(text[i]) }

  lemma {:induction false} LetterThen(c: char, rest: string)
    requires IsLetter(c) && AllTypeable(rest) && rest != ""
    ensures var items := Items(rest, IsUpper(c));
      items != [] && MayFollow(Run(LetterKeys(c)[0], |LetterKeys(c)|, NeedsEnd(c, rest)), items[0])
  {
    LetterTyped(c);
    if IsLetter(rest[0]) {
      LetterTyped(rest[0]);
    }
  }

  lemma {:induction false} ItemsWellTyped(text: string, shift: bool)
    requires AllTypeable(text)
    ensures WellTyped(Items(text, shift))
  {
    if text == "" {
    } else {
      var c, rest := text[0], text[1..];
      assert Typeable(c);
      if IsLetter(c) {
        var letter, items := Run(LetterKeys(c)[0], |LetterKeys(c)|, NeedsEnd(c, rest)), Items(rest, IsUpper(c));
        ItemsWellTyped(rest, IsUpper(c));
        LetterTyped(c);
        if rest != "" {
          LetterThen(c, rest);
        }
        WellTypedPrepend(letter, items);
        if IsUpper(c) != shift {
          WellTypedPrepend(Shift, [letter] + items);
          Assoc([Shift], [letter], items);
          assert [Shift] + [letter] == [Shift, letter];
        }
      } else {
        ItemsWellTyped(rest, shift);
        if c != ' ' {
          SymbolTyped(c);
        }
        WellTypedPrepend(Items(text, shift)[0], Items(rest, shift));
      }
    }
  }

  lemma {:induction false} WordsPrepend(item: Item, items: seq<Item>)
    ensures ItemWords([item] + items) == [ItemWord(item)] + ItemWords(items)
  {
  }

  lemma {:induction false} TranslatePrepend(item: Item, items: seq<Item>, shift: bool)
    ensures Translate(DecodeWord, ItemWords([item] + items), shift) ==
      if ItemWord(item) == "*" then Translate(DecodeWord, ItemWords(items), !shift)
      else Meaning(DecodeWord, ItemWord(item), shift) + Translate(DecodeWord, ItemWords(items), shift)
  {
    WordsPrepend(item, items);
    assert ([ItemWord(item)] + ItemWords(items))[1..] == ItemWords(items);
  }

  lemma {:induction false} LetterSaid(c: char)
    requires IsLetter(c)
    ensures Meaning(DecodeWord, LetterKeys(c), IsUpper(c)) == [c]
  {
    LetterTyped(c);
  }

  lemma {:induction false} LetterItemsSay(c: char, ended: bool, items: seq<Item>, shift: bool)
    requires IsLetter(c)
    ensures var letter := Run(LetterKeys(c)[0], |LetterKeys(c)|, ended);
      Translate(DecodeWord, ItemWords((if IsUpper(c) != shift then [Shift, letter] else [letter]) + items), shift)
      == [c] + Translate(DecodeWord, ItemWords(items), IsUpper(c))
  {
    var letter := Run(LetterKeys(c)[0], |LetterKeys(c)|, ended);
    LetterTyped(c);
    LetterSaid(c);
    TranslatePrepend(letter, items, IsUpper(c));
    if IsUpper(c) != shift {
      TranslatePrepend(Shift, [letter] + items, shift);
      assert [Shift] + ([letter] + items) == [Shift, letter] + items;
    }
  }

  lemma {:induction false} OtherItemSays(c: char, items: seq<Item>, shift: bool)
    requires !IsLetter(c) && EncodeSymbol(c) != ""
    ensures var item := if c == ' ' then Space else Numeral(EncodeSymbol(c)[..|EncodeSymbol(c)| - 1], true);
      Translate(DecodeWord, ItemWords([item] + items), shift) == [c] + Translate(DecodeWord, ItemWords(items), shift)
  {
    var item := if c == ' ' then Space else Numeral(EncodeSymbol(c)[..|EncodeSymbol(c)| - 1], true);
    if c != ' ' {
      SymbolTyped(c);
    }
    TranslatePrepend(item, items, shift);
  }

  lemma {:induction false} ItemsSay(text: string, shift: bool)
    requires AllTypeable(text)
    ensures Translate(DecodeWord, ItemWords(Items(text, shift)), shift) == text
  {
    if text == "" {
    } else {
      var c, rest := text[0], text[1..];
      assert Typeable(c) && text == [c] + rest;
      if IsLetter(c) {
        ItemsSay(rest, IsUpper(c));
        LetterItemsSay(c, NeedsEnd(c, rest), Items(rest, IsUpper(c)), shift);
      } else {
        ItemsSay(rest, shift);
        OtherItemSays(c, Items(rest, shift), shift);
      }
    }
  }

  /** Every text of letters, numerals, symbols and spaces is read back from the keys that type it. */
  lemma {:induction false} TypedTextDecodes(text: string)
    requires AllTypeable(text)
    ensures Translate(DecodeWord, Words("", Typed(Items(text, false))), false) == text
  {
    ItemsWellTyped(text, false);
    WordsOfItems(Items(text, false));
    ItemsSay(text, false);
  }
}
