/** Morse code (`MorseCode`): letters and digits become their dot-dash codes,
    separated by single spaces; everything else is dropped. Decryption reads
    the codes back, without separators. */
module Morse {
  import opened Wrappers
  import opened Text

  const InvalidCodeMessage: string := "The given value has invalid morse chars."

  /** The table of the library, in its order: 26 letters, then '1'..'9' and '0'. */
  const Table: seq<(char, string)> := [
    ('A', ".-"), ('B', "-..."), ('C', "-.-."), ('D', "-.."), ('E', "."),
    ('F', "..-."), ('G', "--."), ('H', "...."), ('I', ".."), ('J', ".---"),
    ('K', "-.-"), ('L', ".-.."), ('M', "--"), ('N', "-."), ('O', "---"),
    ('P', ".--."), ('Q', "--.-"), ('R', ".-."), ('S', "..."), ('T', "-"),
    ('U', "..-"), ('V', "...-"), ('W', ".--"), ('X', "-..-"), ('Y', "-.--"),
    ('Z', "--.."),
    ('1', ".----"), ('2', "..---"), ('3', "...--"), ('4', "....-"), ('5', "....."),
    ('6', "-...."), ('7', "--..."), ('8', "---.."), ('9', "----."), ('0', "-----")
  ]

  /** The keys of the table: capitals and digits. */
  predicate IsMorseChar(c: char) { IsAsciiUpper(c) || IsDigit(c) }

  /** The key the table holds at position `k`. */
  function KeyAt(k: nat): char
    requires k < 36
  {
    if k < 26 then ('A' as int + k) as char
    else if k < 35 then ('1' as int + k - 26) as char
    else '0'
  }

  /** The position of a key in the table. */
  function IndexOf(c: char): (k: nat)
    requires IsMorseChar(c)
    ensures k < 36 && KeyAt(k) == c
  {
    if IsAsciiUpper(c) then c as int - 'A' as int
    else if c == '0' then 35
    else c as int - '1' as int + 26
  }

  /** A code: a non-empty run of dots and dashes. */
  predicate IsCode(w: string) {
    w != [] && forall j :: 0 <= j < |w| ==> w[j] == '.' || w[j] == '-'
  }

  lemma TableShape()
    ensures |Table| == 36
    ensures forall k :: 0 <= k < 36 ==> Table[k].0 == KeyAt(k)
    ensures forall k :: 0 <= k < 36 ==> IsCode(Table[k].1) && |Table[k].1| <= 5
  {
  }

  /** The code of a key. */
  function Code(c: char): (w: string)
    requires IsMorseChar(c)
    ensures IsCode(w)
  {
    TableShape();
    Table[IndexOf(c)].1
  }

  // ---------------------------------------------------------------------
  // the codes are distinct

  function RankFrom(w: string, i: nat, acc: nat): nat
    requires i <= |w|
    decreases |w| - i
  {
    if i == |w| then acc else RankFrom(w, i + 1, 2 * acc + if w[i] == '-' then 1 else 0)
  }
  /** A code read as a binary number (a dash is one) behind a leading one. */
  function Rank(w: string): nat { RankFrom(w, 0, 1) }
  /** The table's keys listed by the rank of their codes. */
  function KeyOfRank(r: nat): char {
    match r
      case 2 => 'E'
      case 3 => 'T'
      case 4 => 'I'
      case 5 => 'A'
      case 6 => 'N'
      case 7 => 'M'
      case 8 => 'S'
      case 9 => 'U'
      case 10 => 'R'
      case 11 => 'W'
      case 12 => 'D'
      case 13 => 'K'
      case 14 => 'G'
      case 15 => 'O'
      case 16 => 'H'
      case 17 => 'V'
      case 18 => 'F'
      case 20 => 'L'
      case 22 => 'P'
      case 23 => 'J'
      case 24 => 'B'
      case 25 => 'X'
      case 26 => 'C'
      case 27 => 'Y'
      case 28 => 'Z'
      case 29 => 'Q'
      case 32 => '5'
      case 33 => '4'
      case 35 => '3'
      case 39 => '2'
      case 47 => '1'
      case 48 => '6'
      case 56 => '7'
      case 60 => '8'
      case 62 => '9'
      case 63 => '0'
      case _ => ' '
  }
  /** The key of a code can be read off its rank. */
  lemma ByRankAt(k: nat)
    requires k < 36
    ensures KeyOfRank(Rank(Table[k].1)) == Table[k].0
  {
    if k < 6 {
      ByRankFrom0(k);
    } else if k < 12 {
      ByRankFrom6(k);
    } else if k < 18 {
      ByRankFrom12(k);
    } else if k < 24 {
      ByRankFrom18(k);
    } else if k < 30 {
      ByRankFrom24(k);
    } else {
      ByRankFrom30(k);
    }
  }

  lemma ByRankFrom0(k: nat)
    requires 0 <= k < 6
    ensures KeyOfRank(Rank(Table[k].1)) == Table[k].0
  {
    if k == 0 {
      assert Table[k] == ('A', ".-") && Rank(".-") == 5;
    } else if k == 1 {
      assert Table[k] == ('B', "-...") && Rank("-...") == 24;
    } else if k == 2 {
      assert Table[k] == ('C', "-.-.") && Rank("-.-.") == 26;
    } else if k == 3 {
      assert Table[k] == ('D', "-..") && Rank("-..") == 12;
    } else if k == 4 {
      assert Table[k] == ('E', ".") && Rank(".") == 2;
    } else {
      assert Table[k] == ('F', "..-.") && Rank("..-.") == 18;
    }
  }

  lemma ByRankFrom6(k: nat)
    requires 6 <= k < 12
    ensures KeyOfRank(Rank(Table[k].1)) == Table[k].0
  {
    if k == 6 {
      assert Table[k] == ('G', "--.") && Rank("--.") == 14;
    } else if k == 7 {
      assert Table[k] == ('H', "....") && Rank("....") == 16;
    } else if k == 8 {
      assert Table[k] == ('I', "..") && Rank("..") == 4;
    } else if k == 9 {
      assert Table[k] == ('J', ".---") && Rank(".---") == 23;
    } else if k == 10 {
      assert Table[k] == ('K', "-.-") && Rank("-.-") == 13;
    } else {
      assert Table[k] == ('L', ".-..") && Rank(".-..") == 20;
    }
  }

  lemma ByRankFrom12(k: nat)
    requires 12 <= k < 18
    ensures KeyOfRank(Rank(Table[k].1)) == Table[k].0
  {
    if k == 12 {
      assert Table[k] == ('M', "--") && Rank("--") == 7;
    } else if k == 13 {
      assert Table[k] == ('N', "-.") && Rank("-.") == 6;
    } else if k == 14 {
      assert Table[k] == ('O', "---") && Rank("---") == 15;
    } else if k == 15 {
      assert Table[k] == ('P', ".--.") && Rank(".--.") == 22;
    } else if k == 16 {
      assert Table[k] == ('Q', "--.-") && Rank("--.-") == 29;
    } else {
      assert Table[k] == ('R', ".-.") && Rank(".-.") == 10;
    }
  }

  lemma ByRankFrom18(k: nat)
    requires 18 <= k < 24
    ensures KeyOfRank(Rank(Table[k].1)) == Table[k].0
  {
    if k == 18 {
      assert Table[k] == ('S', "...") && Rank("...") == 8;
    } else if k == 19 {
      assert Table[k] == ('T', "-") && Rank("-") == 3;
    } else if k == 20 {
      assert Table[k] == ('U', "..-") && Rank("..-") == 9;
    } else if k == 21 {
      assert Table[k] == ('V', "...-") && Rank("...-") == 17;
    } else if k == 22 {
      assert Table[k] == ('W', ".--") && Rank(".--") == 11;
    } else {
      assert Table[k] == ('X', "-..-") && Rank("-..-") == 25;
    }
  }

  lemma ByRankFrom24(k: nat)
    requires 24 <= k < 30
    ensures KeyOfRank(Rank(Table[k].1)) == Table[k].0
  {
    if k == 24 {
      assert Table[k] == ('Y', "-.--") && Rank("-.--") == 27;
    } else if k == 25 {
      assert Table[k] == ('Z', "--..") && Rank("--..") == 28;
    } else if k == 26 {
      assert Table[k] == ('1', ".----") && Rank(".----") == 47;
    } else if k == 27 {
      assert Table[k] == ('2', "..---") && Rank("..---") == 39;
    } else if k == 28 {
      assert Table[k] == ('3', "...--") && Rank("...--") == 35;
    } else {
      assert Table[k] == ('4', "....-") && Rank("....-") == 33;
    }
  }

  lemma ByRankFrom30(k: nat)
    requires 30 <= k < 36
    ensures KeyOfRank(Rank(Table[k].1)) == Table[k].0
  {
    if k == 30 {
      assert Table[k] == ('5', ".....") && Rank(".....") == 32;
    } else if k == 31 {
      assert Table[k] == ('6', "-....") && Rank("-....") == 48;
    } else if k == 32 {
      assert Table[k] == ('7', "--...") && Rank("--...") == 56;
    } else if k == 33 {
      assert Table[k] == ('8', "---..") && Rank("---..") == 60;
    } else if k == 34 {
      assert Table[k] == ('9', "----.") && Rank("----.") == 62;
    } else {
      assert Table[k] == ('0', "-----") && Rank("-----") == 63;
    }
  }

  /** Two keys with the same code are the same key. */
  lemma CodesDistinct(j: nat, k: nat)
    requires j < 36 && k < 36 && Table[j].1 == Table[k].1
    ensures j == k
  {
    ByRankAt(j);
    ByRankAt(k);
    TableShape();
    assert KeyAt(j) == KeyAt(k);
  }

  // ---------------------------------------------------------------------
  // `_handle_text`

  /** `s.replace(letter, key)` for each upper-case accented letter of the
      fold table, in its order. */
  function UpperRules(pairs: seq<(char, char)>): (rules: seq<(char, string)>)
    ensures |rules| == |pairs|
  {
    seq(|pairs|, k requires 0 <= k < |pairs| => (pairs[k].0, [pairs[k].1]))
  }

  lemma {:induction false} RewriteUpperRules(pairs: seq<(char, char)>, c: char)
    requires AgreesWithFoldUpper(pairs)
    ensures Rewrite(UpperRules(pairs), c) == [if c in Keys(pairs) then FoldUpper(c) else c]
  {
    if pairs != [] {
      assert UpperRules(pairs)[1..] == UpperRules(pairs[1..]);
      assert Keys(pairs) == [pairs[0].0] + Keys(pairs[1..]);
      RewriteUpperRules(pairs[1..], c);
    }
  }

  function FoldUpperText(s: string): (r: string)
    ensures |r| == |s|
  {
    seq(|s|, k requires 0 <= k < |s| => FoldUpper(s[k]))
  }

  lemma {:induction false} TranslateUpperRules(s: string)
    ensures Translate(UpperRules(FoldPairs), s) == FoldUpperText(s)
  {
    if s != [] {
      RewriteUpperFold(s[0]);
      TranslateUpperRules(s[1..]);
      assert FoldUpperText(s) == [FoldUpper(s[0])] + FoldUpperText(s[1..]);
    }
  }

  /** The rules for the accented capitals rewrite a character as `FoldUpper` does. */
  lemma RewriteUpperFold(c: char)
    ensures Rewrite(UpperRules(FoldPairs), c) == [FoldUpper(c)]
  {
    FoldPairsAgree();
    RewriteUpperRules(FoldPairs, c);
    KeysOfFoldPairs();
    FoldedLetters(c);
  }

  /** The characters of `s` that are keys of the table, in order. */
  function Kept(s: string): (r: string)
    ensures |r| <= |s|
    ensures forall k :: 0 <= k < |r| ==> IsMorseChar(r[k])
  {
    if s == [] then []
    else Kept(s[..|s| - 1]) + if IsMorseChar(s[|s| - 1]) then [s[|s| - 1]] else []
  }

  /** The characters `_handle_text` keeps: stripped, upper-cased, spaces
      removed, accented capitals folded, then only keys of the table. */
  function Letters(text: string): string {
    Kept(FoldUpperText(ReplaceChar(UpperText(Strip(text)), ' ', [])))
  }

  /** Each character as a string of its own (`list(s)`). */
  function Singles(s: string): (r: seq<string>)
    ensures |r| == |s|
  {
    seq(|s|, k requires 0 <= k < |s| => [s[k]])
  }

  /** `_handle_text`: the kept characters, joined by single spaces. */
  method HandleText(text: string) returns (r: string)
    ensures r == Join(Singles(Letters(text)), ' ')
  {
    var s := ReplaceChar(UpperText(Strip(text)), ' ', []);
    var handled := FoldAccents(s);
    var chars := Pop(handled);
    r := Join(Singles(chars), ' ');
  }

  /** The `replace` loop of `_handle_text` over the accented capitals,
      read as the Latin-1 capitals (Á, À, ...) the table stands for. */
  method FoldAccents(s: string) returns (handled: string)
    ensures handled == FoldUpperText(s)
  {
    handled := s;
    TranslateNoRules(s);
    FoldPairsOk();
    var i := 0;
    while i < |FoldPairs|
      invariant 0 <= i <= |FoldPairs|
      invariant handled == Translate(UpperRules(FoldPairs[..i]), s)
    {
      var (letter, key) := FoldPairs[i];
      assert UpperRules(FoldPairs[..i + 1]) == UpperRules(FoldPairs[..i]) + [(letter, [key])];
      assert NotProduced(UpperRules(FoldPairs[..i]), letter);
      ReplaceExtendsTranslate(UpperRules(FoldPairs[..i]), (letter, [key]), s);
      if letter in handled {
        handled := ReplaceChar(handled, letter, [key]);
      }
      i := i + 1;
    }
    assert FoldPairs[..i] == FoldPairs;
    TranslateUpperRules(s);
  }

  lemma KeptSnoc(s: string, j: nat)
    requires j < |s|
    ensures Kept(s[..j + 1]) == Kept(s[..j]) + if IsMorseChar(s[j]) then [s[j]] else []
  {
    assert s[..j + 1][..j] == s[..j];
  }

  /** The `pop` loop of `_handle_text`: drop, in place, every character that
      is not a key of the table. */
  method Pop(s: string) returns (chars: string)
    ensures chars == Kept(s)
  {
    chars := s;
    var i := 0;
    ghost var j := 0;
    while i != |chars|
      invariant 0 <= i <= |chars| && 0 <= j <= |s|
      invariant chars[..i] == Kept(s[..j]) && chars[i..] == s[j..]
      decreases |chars| - i
    {
      assert chars[i] == chars[i..][0] == s[j..][0] == s[j];
      assert s[j + 1..] == s[j..][1..];
      KeptSnoc(s, j);
      if !IsMorseChar(chars[i]) {
        ghost var before := chars;
        chars := chars[..i] + chars[i + 1..];
        assert chars[..i] == before[..i];
        assert chars[i..] == before[i + 1..] == before[i..][1..];
        j := j + 1;
        continue;
      }
      assert chars[..i + 1] == chars[..i] + [chars[i]];
      assert chars[i + 1..] == chars[i..][1..];
      i := i + 1;
      j := j + 1;
    }
    assert s[..j] == s;
  }

  // ---------------------------------------------------------------------
  // `encrypt`

  /** The codes of the kept characters, joined by single spaces. */
  function EncryptText(letters: string): string
    requires forall k :: 0 <= k < |letters| ==> IsMorseChar(letters[k])
  {
    Join(Codes(letters), ' ')
  }

  /** The code of each kept character. */
  function Codes(letters: string): (codes: seq<string>)
    requires forall k :: 0 <= k < |letters| ==> IsMorseChar(letters[k])
    ensures |codes| == |letters|
  {
    seq(|letters|, k requires 0 <= k < |letters| => Code(letters[k]))
  }

  /** `encrypt`: prepare the text, then replace every key present by its code,
      key after key in the table's order. */
  method Encrypt(text: string) returns (r: string)
    ensures r == EncryptText(Letters(text))
  {
    var handled := HandleText(text);
    r := ReplaceCodes(handled);
    TranslateJoin(Letters(text));
  }

  /** The `replace` loop of `encrypt` over the table's entries. */
  method ReplaceCodes(handled: string) returns (r: string)
    ensures r == Translate(Table, handled)
  {
    r := handled;
    TranslateNoRules(handled);
    TableShape();
    var i := 0;
    while i < |Table|
      invariant 0 <= i <= |Table|
      invariant r == Translate(Table[..i], handled)
    {
      var (c, code) := Table[i];
      assert Table[..i + 1] == Table[..i] + [(c, code)];
      assert NotProduced(Table[..i], c);
      ReplaceExtendsTranslate(Table[..i], (c, code), handled);
      if c in r {
        r := ReplaceChar(r, c, code);
      }
      i := i + 1;
    }
    assert Table[..i] == Table;
  }

  lemma {:induction false} TranslateAppend(rules: seq<(char, string)>, a: string, b: string)
    ensures Translate(rules, a + b) == Translate(rules, a) + Translate(rules, b)
  {
    if a == [] {
      assert a + b == b;
    } else {
      assert (a + b)[0] == a[0];
      assert (a + b)[1..] == a[1..] + b;
      TranslateAppend(rules, a[1..], b);
    }
  }

  /** The table rewrites a key to its code and leaves a space alone. */
  lemma RewriteTable(c: char)
    ensures IsMorseChar(c) ==> Rewrite(Table, c) == Code(c)
    ensures c == ' ' ==> Rewrite(Table, c) == [c]
  {
    TableShape();
    if IsMorseChar(c) {
      var k := IndexOf(c);
      forall j | 0 <= j < |Table| && Table[j].0 == c ensures j == k {
        KeyAtInjective(j, k);
      }
      RewriteOnly(Table, c, k);
    } else if c == ' ' {
      forall j | 0 <= j < |Table| ensures Table[j].0 != c {
        assert KeyAt(j) as int >= '0' as int;
      }
      RewriteNone(Table, c);
    }
  }

  /** Different positions of the table hold different keys. */
  lemma KeyAtInjective(j: nat, k: nat)
    requires j < 36 && k < 36 && KeyAt(j) == KeyAt(k)
    ensures j == k
  {
    assert KeyAt(j) as int == KeyAt(k) as int;
  }

  lemma {:induction false} TranslateJoin(letters: string)
    requires forall k :: 0 <= k < |letters| ==> IsMorseChar(letters[k])
    ensures Translate(Table, Join(Singles(letters), ' ')) == EncryptText(letters)
  {
    if |letters| == 1 {
      TranslateSingle(letters[0]);
    } else if |letters| > 1 {
      var rest := letters[1..];
      TranslateCons(letters);
      TranslateJoin(rest);
      EncryptCons(letters);
    }
  }

  /** The encryption of several characters: the first code, a space, then
      the encryption of the rest. */
  lemma EncryptCons(letters: string)
    requires |letters| > 1 && forall k :: 0 <= k < |letters| ==> IsMorseChar(letters[k])
    ensures EncryptText(letters) == Code(letters[0]) + [' '] + EncryptText(letters[1..])
  {
    assert Codes(letters)[1..] == Codes(letters[1..]);
  }

  /** A single kept character translates to its code. */
  lemma TranslateSingle(c: char)
    requires IsMorseChar(c)
    ensures Translate(Table, [c]) == Code(c)
  {
    RewriteTable(c);
    assert Translate(Table, [c]) == Rewrite(Table, c) + Translate(Table, []);
  }

  /** Translating the spaced characters: the first code, a space, then the
      translation of the rest. */
  lemma TranslateCons(letters: string)
    requires |letters| > 1 && forall k :: 0 <= k < |letters| ==> IsMorseChar(letters[k])
    ensures Translate(Table, Join(Singles(letters), ' '))
         == Code(letters[0]) + [' '] + Translate(Table, Join(Singles(letters[1..]), ' '))
  {
    var tail := Join(Singles(letters[1..]), ' ');
    JoinSinglesCons(letters);
    TranslateAppend(Table, [letters[0]], [' '] + tail);
    TranslateAppend(Table, [' '], tail);
    TranslateSingle(letters[0]);
    TranslateSpace();
  }

  lemma JoinSinglesCons(s: string)
    requires |s| > 1
    ensures Join(Singles(s), ' ') == [s[0]] + ([' '] + Join(Singles(s[1..]), ' '))
  {
    assert Singles(s)[1..] == Singles(s[1..]);
    assert Singles(s)[0] == [s[0]];
  }

  /** A space separating two codes is left alone. */
  lemma TranslateSpace()
    ensures Translate(Table, [' ']) == [' ']
  {
    RewriteTable(' ');
    assert Translate(Table, [' ']) == Rewrite(Table, ' ') + Translate(Table, []);
  }

  // ---------------------------------------------------------------------
  // `decrypt`

  /** What the inner loop of `decrypt` leaves in a slot holding `w`: the key of
      the last entry of `rules` whose code is `w`, or `w` itself. */
  function DecodeWith(rules: seq<(char, string)>, w: string): string {
    if rules == [] then w
    else if rules[|rules| - 1].1 == w then [rules[|rules| - 1].0]
    else DecodeWith(rules[..|rules| - 1], w)
  }

  lemma {:induction false} DecodeWithUnique(rules: seq<(char, string)>, w: string, k: nat)
    requires k < |rules| && rules[k].1 == w
    requires forall j :: 0 <= j < |rules| && rules[j].1 == w ==> j == k
    ensures DecodeWith(rules, w) == [rules[k].0]
  {
    if k != |rules| - 1 {
      DecodeWithUnique(rules[..|rules| - 1], w, k);
    }
  }

  /** A code decodes to its key. */
  lemma DecodeCode(c: char)
    requires IsMorseChar(c)
    ensures DecodeWith(Table, Code(c)) == [c]
  {
    TableShape();
    var k := IndexOf(c);
    forall j | 0 <= j < 36 && Table[j].1 == Code(c)
      ensures j == k
    {
      CodesDistinct(j, k);
    }
    DecodeWithUnique(Table, Code(c), k);
  }

  /** A word of the cipher text is valid when some entry has it as its code. */
  predicate IsTableCode(w: string) {
    exists k :: 0 <= k < |Table| && Table[k].1 == w
  }

  /** `''.join(parts)` */
  function Concat(parts: seq<string>): (r: string)
  {
    if parts == [] then [] else Concat(parts[..|parts| - 1]) + parts[|parts| - 1]
  }

  function DecryptText(words: seq<string>): string {
    Concat(seq(|words|, k requires 0 <= k < |words| => DecodeWith(Table, words[k])))
  }

  /** Every word is a code of the table. */
  predicate AllCodes(words: seq<string>) {
    forall k :: 0 <= k < |words| ==> IsTableCode(words[k])
  }

  /** The words `decrypt` works on: the stripped cipher text split on
      whitespace. */
  function CipherWords(cipherText: string): seq<string> {
    Words(Strip(cipherText))
  }

  /** `_validate_cipher_text`: every word of the stripped cipher text must
      be a code of the table. */
  method ValidateCipherText(cipherText: string) returns (r: Outcome<Error>)
    ensures r.Pass? <==> AllCodes(CipherWords(cipherText))
    ensures r.Fail? ==> r.error == ValueError(InvalidCodeMessage)
  {
    r := CheckWords(Words(Strip(cipherText)));
  }

  /** The loop of `_validate_cipher_text` over the words. */
  method CheckWords(words: seq<string>) returns (r: Outcome<Error>)
    ensures r.Pass? <==> AllCodes(words)
    ensures r.Fail? ==> r.error == ValueError(InvalidCodeMessage)
  {
    var i := 0;
    while i < |words|
      invariant 0 <= i <= |words|
      invariant forall k :: 0 <= k < i ==> IsTableCode(words[k])
    {
      var found := IsValue(words[i]);
      if !found {
        return Fail(ValueError(InvalidCodeMessage));
      }
      i := i + 1;
    }
    return Pass;
  }

  /** `w in self._chars_morse.values()` */
  method IsValue(w: string) returns (found: bool)
    ensures found <==> IsTableCode(w)
  {
    found := false;
    var k := 0;
    while k < |Table|
      invariant 0 <= k <= |Table|
      invariant found <==> exists j :: 0 <= j < k && Table[j].1 == w
    {
      if Table[k].1 == w {
        found := true;
      }
      k := k + 1;
    }
  }

  /** `decrypt`: validate, split the stripped cipher text on whitespace,
      overwrite each word with the key whose code it is, and concatenate. */
  method Decrypt(cipherText: string) returns (r: Result<string, Error>)
    ensures r.Success? <==> AllCodes(CipherWords(cipherText))
    ensures r.Failure? ==> r.error == ValueError(InvalidCodeMessage)
    ensures r.Success? ==> r.value == DecryptText(CipherWords(cipherText))
  {
    var check := ValidateCipherText(cipherText);
    if check.Fail? {
      return Failure(check.error);
    }
    var chars := Words(Strip(cipherText));
    chars := DecodeAll(chars);
    return Success(Concat(chars));
  }

  /** The loops of `decrypt`: each slot of the word list is overwritten by
      every table key whose code equals the word the slot held. */
  method DecodeAll(chars: seq<string>) returns (decoded: seq<string>)
    ensures decoded == seq(|chars|, k requires 0 <= k < |chars| => DecodeWith(Table, chars[k]))
  {
    decoded := chars;
    var i := 0;
    while i < |decoded|
      invariant 0 <= i <= |decoded| == |chars|
      invariant forall k :: 0 <= k < i ==> decoded[k] == DecodeWith(Table, chars[k])
      invariant forall k :: i <= k < |decoded| ==> decoded[k] == chars[k]
    {
      decoded := DecodeSlot(decoded, i);
      i := i + 1;
    }
  }

  /** The inner loop of `decrypt`: the slot `i` is overwritten by every
      table key whose code equals the word the slot held. */
  method DecodeSlot(words: seq<string>, i: nat) returns (decoded: seq<string>)
    requires i < |words|
    ensures decoded == words[i := DecodeWith(Table, words[i])]
  {
    decoded := words;
    var mChar := words[i];
    var j := 0;
    while j < |Table|
      invariant 0 <= j <= |Table|
      invariant decoded == words[i := DecodeWith(Table[..j], mChar)]
    {
      DecodeStep(j, mChar);
      if mChar == Table[j].1 {
        decoded := decoded[i := [Table[j].0]];
      }
      j := j + 1;
    }
    assert Table[..j] == Table;
  }

  /** One more entry of the table scanned. */
  lemma DecodeStep(j: nat, w: string)
    requires j < |Table|
    ensures DecodeWith(Table[..j + 1], w) == if Table[j].1 == w then [Table[j].0] else DecodeWith(Table[..j], w)
  {
    assert Table[..j + 1][..j] == Table[..j];
    assert Table[..j + 1][j] == Table[j];
  }

  // ---------------------------------------------------------------------
  // properties

  lemma {:induction false} ConcatSingles(s: string)
    ensures Concat(Singles(s)) == s
  {
    if s != [] {
      assert Singles(s)[..|s| - 1] == Singles(s[..|s| - 1]);
      ConcatSingles(s[..|s| - 1]);
    }
  }

  /** Decrypting what `encrypt` produced gives back the kept characters. */
  lemma RoundTrip(text: string)
    ensures AllCodes(CipherWords(EncryptText(Letters(text))))
    ensures DecryptText(CipherWords(EncryptText(Letters(text)))) == Letters(text)
  {
    var letters := Letters(text);
    EncryptedWords(letters);
    DecodeCodes(letters);
  }

  /** The words of an encryption are the codes of the kept characters. */
  lemma EncryptedWords(letters: string)
    requires forall k :: 0 <= k < |letters| ==> IsMorseChar(letters[k])
    ensures CipherWords(EncryptText(letters)) == Codes(letters)
  {
    var codes := Codes(letters);
    forall k | 0 <= k < |codes|
      ensures codes[k] != [] && forall j :: 0 <= j < |codes[k]| ==> !IsSpace(codes[k][j])
    {
      forall j | 0 <= j < |codes[k]| ensures !IsSpace(codes[k][j]) {
        CodeCharNotSpace(codes[k][j]);
      }
    }
    JoinStripped(codes);
    WordsJoin(codes);
  }

  /** Every code of a kept character is in the table and decodes to it. */
  lemma DecodeCodes(letters: string)
    requires forall k :: 0 <= k < |letters| ==> IsMorseChar(letters[k])
    ensures AllCodes(Codes(letters))
    ensures DecryptText(Codes(letters)) == letters
  {
    var codes := Codes(letters);
    forall k | 0 <= k < |codes|
      ensures IsTableCode(codes[k]) && DecodeWith(Table, codes[k]) == [letters[k]]
    {
      TableShape();
      assert Table[IndexOf(letters[k])].1 == codes[k];
      DecodeCode(letters[k]);
    }
    assert seq(|codes|, k requires 0 <= k < |codes| => DecodeWith(Table, codes[k])) == Singles(letters);
    ConcatSingles(letters);
  }

  /** Codes joined by spaces start and end with a code character, so stripping
      leaves them alone. */
  lemma JoinStripped(codes: seq<string>)
    requires forall k :: 0 <= k < |codes| ==> IsCode(codes[k])
    ensures Strip(Join(codes, ' ')) == Join(codes, ' ')
  {
    var s := Join(codes, ' ');
    if codes != [] {
      JoinEnds(codes);
      CodeCharNotSpace(s[0]);
      CodeCharNotSpace(s[|s| - 1]);
      assert IsStripped(s);
    }
  }

  lemma CodeCharNotSpace(c: char)
    requires c == '.' || c == '-'
    ensures !IsSpace(c)
  {
  }

  lemma {:induction false} JoinEnds(codes: seq<string>)
    requires codes != [] && forall k :: 0 <= k < |codes| ==> IsCode(codes[k])
    ensures var s := Join(codes, ' ');
      s != [] && (s[0] == '.' || s[0] == '-') && (s[|s| - 1] == '.' || s[|s| - 1] == '-')
  {
    if |codes| > 1 {
      JoinEnds(codes[1..]);
    }
  }

  /** The library's own example: "Hello World!" keeps the letters
      "HELLOWORLD", whose codes, joined by spaces, are the documented cipher
      text, and that cipher text decrypts back to "HELLOWORLD". */
  lemma Example(text: string)
    requires text == "Hello World!"
    ensures Letters(text) == "HELLOWORLD"
    ensures EncryptText(Letters(text)) == Join(["....", ".", ".-..", ".-..", "---", ".--", "---", ".-.", ".-..", "-.."], ' ')
    ensures AllCodes(CipherWords(EncryptText(Letters(text))))
    ensures DecryptText(CipherWords(EncryptText(Letters(text)))) == "HELLOWORLD"
  {
    ExampleLetters(text);
    ExampleCodes("HELLOWORLD");
    RoundTrip(text);
  }

  lemma ExampleCodes(letters: string)
    requires letters == "HELLOWORLD"
    ensures EncryptText(letters) == Join(["....", ".", ".-..", ".-..", "---", ".--", "---", ".-.", ".-..", "-.."], ' ')
  {
    assert Codes(letters) == ["....", ".", ".-..", ".-..", "---", ".--", "---", ".-.", ".-..", "-.."];
  }

  /** Preparing "Hello World!": strip and upper-case it, drop the space,
      fold (nothing to fold), keep the keys (the '!' goes). */
  lemma ExampleLetters(text: string)
    requires text == "Hello World!"
    ensures Letters(text) == "HELLOWORLD"
  {
    ExampleUpper(text);
    ExampleSpace("HELLO WORLD!");
    ExampleFold("HELLOWORLD!");
    ExampleKept("HELLOWORLD!");
  }

  lemma ExampleUpper(text: string)
    requires text == "Hello World!"
    ensures UpperText(Strip(text)) == "HELLO WORLD!"
  {
    assert Strip(text) == text;
    assert SharpS !in text;
    assert UpperStr(text) == "HELLO WORLD!";
    UpperTextNoSharpS(text);
  }

  lemma ExampleSpace(u: string)
    requires u == "HELLO WORLD!"
    ensures ReplaceChar(u, ' ', []) == "HELLOWORLD!"
  {
    var a, c := u[..5], u[6..];
    assert u == a + " " + c;
    assert ' ' !in a && ' ' !in c;
    DropSpace(a, c);
    ExampleJoined(u);
  }

  lemma ExampleJoined(u: string)
    requires u == "HELLO WORLD!"
    ensures u[..5] + u[6..] == "HELLOWORLD!"
  {
  }

  lemma ExampleFold(v: string)
    requires v == "HELLOWORLD!"
    ensures FoldUpperText(v) == v
  {
  }

  lemma ExampleKept(v: string)
    requires v == "HELLOWORLD!"
    ensures Kept(v) == "HELLOWORLD"
  {
    KeptAll(v[..10]);
    assert v[..10] == v[..|v| - 1];
  }

  /** Without 'ß', upper-casing a string is upper-casing each character. */
  lemma {:induction false} UpperTextNoSharpS(s: string)
    requires SharpS !in s
    ensures UpperText(s) == UpperStr(s)
  {
    if s != [] {
      UpperTextNoSharpS(s[1..]);
    }
  }

  lemma JoinCons(first: string, rest: seq<string>, sep: char)
    requires rest != []
    ensures Join([first] + rest, sep) == first + [sep] + Join(rest, sep)
  {
    assert ([first] + rest)[1..] == rest;
  }

  lemma {:induction false} KeptAll(s: string)
    requires forall k :: 0 <= k < |s| ==> IsMorseChar(s[k])
    ensures Kept(s) == s
  {
    if s != [] {
      KeptAll(s[..|s| - 1]);
    }
  }

  /** Text made only of keys is kept whole: preparing it again changes
      nothing. */
  lemma LettersIdempotent(letters: string)
    requires forall k :: 0 <= k < |letters| ==> IsMorseChar(letters[k])
    ensures Letters(letters) == letters
  {
    KeysHaveNoSpace(letters);
    UpperOfKeys(letters);
    forall k | 0 <= k < |letters| ensures FoldUpper(letters[k]) == letters[k] {
      FoldOfKey(letters[k]);
    }
    assert FoldUpperText(letters) == letters;
    KeptAll(letters);
  }

  lemma KeysHaveNoSpace(s: string)
    requires forall k :: 0 <= k < |s| ==> IsMorseChar(s[k])
    ensures Strip(s) == s
    ensures ReplaceChar(s, ' ', []) == s
  {
    assert IsStripped(s);
    assert ' ' !in s;
  }

  lemma UpperOfKeys(s: string)
    requires forall k :: 0 <= k < |s| ==> IsMorseChar(s[k])
    ensures UpperText(s) == s
  {
    forall k | 0 <= k < |s| ensures s[k] != SharpS && Upper(s[k]) == s[k] {
      UpperOfKey(s[k]);
    }
    UpperTextNoSharpS(s);
    assert UpperStr(s) == s;
  }

  lemma FoldOfKey(c: char)
    requires IsMorseChar(c)
    ensures FoldUpper(c) == c
  {
  }

  lemma UpperOfKey(c: char)
    requires IsMorseChar(c)
    ensures c != SharpS && Upper(c) == c
  {
  }
}
