/** Python string primitives the ciphers rely on, restricted to what the
    library uses: one-character case mapping and classification, `strip`,
    `replace` of a single character, and the accent folding that five of the
    ciphers run before encrypting.

    Case mapping and classification follow Python exactly for code points up
    to U+00FF, with one exception: 'ß', whose upper case is the two-character
    "SS", is kept as it is. Characters above U+00FF are treated as case-less
    non-letters; whitespace follows `str.isspace` in full. */
module Text {
  import opened Wrappers

  const Alphabet: string := "ABCDEFGHIJKLMNOPQRSTUVWXYZ"

  /** `Alphabet[i]` is the letter `i` places after 'A'. */
  lemma AlphabetAt(i: nat)
    requires i < 26
    ensures Alphabet[i] as int == 'A' as int + i
  {
  }

  /** A character's upper case is found in the alphabet exactly when it is an
      ASCII letter, at its distance from 'A'. */
  lemma AlphabetLookup(c: char)
    ensures FirstIndex(Alphabet, Upper(c)).Some? <==> IsAsciiLetter(c)
    ensures IsAsciiLetter(c) ==> FirstIndex(Alphabet, Upper(c)) == Some(Upper(c) as int - 'A' as int)
  {
    var u := Upper(c);
    if IsAsciiLetter(c) {
      var i := u as int - 'A' as int;
      AlphabetAt(i);
      forall k | 0 <= k < i ensures Alphabet[k] != u {
        AlphabetAt(k);
      }
      FirstIndexUnique(Alphabet, u, i);
    } else {
      forall k | 0 <= k < 26 ensures Alphabet[k] != u {
        AlphabetAt(k);
      }
    }
  }

  /** Python's `c.isalpha() and c.upper() in alphabet` holds of exactly the
      ASCII letters. */
  lemma AsciiUpperInAlphabet(c: char)
    ensures IsAlpha(c) && Upper(c) in Alphabet <==> IsAsciiLetter(c)
  {
    if IsAsciiLetter(c) {
      AlphabetAt(Upper(c) as int - 'A' as int);
    } else if Upper(c) in Alphabet {
      var k :| 0 <= k < 26 && Alphabet[k] == Upper(c);
      AlphabetAt(k);
    }
  }

  predicate IsAsciiUpper(c: char) { 'A' <= c <= 'Z' }
  predicate IsAsciiLower(c: char) { 'a' <= c <= 'z' }
  predicate IsAsciiLetter(c: char) { IsAsciiUpper(c) || IsAsciiLower(c) }
  predicate IsDigit(c: char) { '0' <= c <= '9' }

  /** Upper- and lower-case Latin-1 letters (À..Þ and à..þ without × and ÷). */
  predicate IsLatinUpper(c: char) { '\U{C0}' <= c <= '\U{DE}' && c != '\U{D7}' }
  predicate IsLatinLower(c: char) { '\U{E0}' <= c <= '\U{FE}' && c != '\U{F7}' }

  /** `str.isspace` of a one-character string. */
  predicate IsSpace(c: char) {
    || c == ' '
    || '\t' <= c <= '\r'
    || '\U{1C}' <= c <= '\U{1F}'
    || c == '\U{85}' || c == '\U{A0}' || c == '\U{1680}'
    || '\U{2000}' <= c <= '\U{200A}'
    || c == '\U{2028}' || c == '\U{2029}' || c == '\U{202F}' || c == '\U{205F}' || c == '\U{3000}'
  }

  /** `str.isupper` of a one-character string. */
  predicate IsUpper(c: char) { IsAsciiUpper(c) || IsLatinUpper(c) }

  /** `str.isalpha` of a one-character string. */
  predicate IsAlpha(c: char) {
    || IsAsciiLetter(c) || IsLatinUpper(c) || IsLatinLower(c)
    || c == '\U{AA}' || c == '\U{B5}' || c == '\U{BA}' || c == SharpS || c == '\U{FF}'
  }

  /** 'ß', the one character up to U+00FF whose `str.upper` is two
      characters long ("SS"). */
  const SharpS: char := '\U{DF}'

  /** The `TypeError` message of `ord` applied to that two-character upper
      case. */
  const OrdMessage: string := "ord() expected a character, but string of length 2 found"

  /** `str.upper` of a one-character string, except that `SharpS` is kept
      as it is: `UpperText` spells out its two-character upper case, and the
      ciphers that take `ord` of it fail with `OrdMessage`. */
  function Upper(c: char): (u: char)
    ensures IsAsciiUpper(u) <==> IsAsciiLetter(c)
    ensures !IsAlpha(c) ==> u == c
    ensures IsAlpha(c) ==> 'A' <= u <= '\U{39C}'
  {
    if IsAsciiLower(c) || IsLatinLower(c) then (c as int - 32) as char
    else if c == '\U{FF}' then '\U{178}'
    else if c == '\U{B5}' then '\U{39C}'
    else c
  }

  /** `str.lower` of a one-character string. */
  function Lower(c: char): (l: char)
    ensures IsAsciiLower(l) <==> IsAsciiLetter(c)
    ensures !IsUpper(c) ==> l == c
  {
    if IsUpper(c) then (c as int + 32) as char else c
  }

  function UpperStr(s: string): (r: string)
    ensures |r| == |s|
  {
    seq(|s|, i requires 0 <= i < |s| => Upper(s[i]))
  }

  /** `str.upper` of a whole string: as `Upper` character by character,
      except that 'ß' becomes "SS". */
  function UpperText(s: string): (r: string)
    ensures |r| >= |s|
  {
    if s == [] then []
    else (if s[0] == SharpS then "SS" else [Upper(s[0])]) + UpperText(s[1..])
  }

  lemma CaseRoundTrip(c: char)
    requires IsAsciiLetter(c)
    ensures IsUpper(c) ==> Upper(c) == c
    ensures !IsUpper(c) ==> Lower(Upper(c)) == c
    ensures Upper(Lower(c)) == Upper(c)
  {
  }
  /** Two ASCII letters of the same case with the same upper case are equal. */
  lemma SameLetter(a: char, b: char)
    requires IsAsciiLetter(a) && IsAsciiLetter(b)
    requires Upper(a) == Upper(b) && IsUpper(a) == IsUpper(b)
    ensures a == b
  {
    CaseRoundTrip(a);
    CaseRoundTrip(b);
  }


  // ---------------------------------------------------------------------
  // strip

  function TrimStart(s: string): (r: string)
    ensures |r| <= |s| && r == s[|s| - |r|..]
    ensures forall k :: 0 <= k < |s| - |r| ==> IsSpace(s[k])
    ensures r == [] || !IsSpace(r[0])
  {
    if |s| > 0 && IsSpace(s[0]) then
      var r := TrimStart(s[1..]);
      assert s[1..][|s| - 1 - |r|..] == s[|s| - |r|..];
      r
    else s
  }

  function TrimEnd(s: string): (r: string)
    ensures |r| <= |s| && r == s[..|r|]
    ensures forall k :: |r| <= k < |s| ==> IsSpace(s[k])
    ensures r == [] || !IsSpace(r[|r| - 1])
  {
    if |s| > 0 && IsSpace(s[|s| - 1]) then TrimEnd(s[..|s| - 1]) else s
  }

  predicate IsStripped(s: string) {
    s == [] || (!IsSpace(s[0]) && !IsSpace(s[|s| - 1]))
  }

  /** `str.strip()`: drops leading and trailing whitespace, nothing else. */
  function Strip(s: string): (r: string)
    ensures IsStripped(r)
    ensures IsStripped(s) ==> r == s
    ensures |r| <= |s|
  {
    TrimEnd(TrimStart(s))
  }

  lemma StripKeepsChars(s: string, c: char)
    requires c in Strip(s)
    ensures c in s
  {
    var t := TrimStart(s);
    var r := TrimEnd(t);
    var k :| 0 <= k < |r| && r[k] == c;
    assert t[k] == c;
    assert s[|s| - |t| + k] == c;
  }

  // ---------------------------------------------------------------------
  // single-character replace, applied rule after rule

  /** `s.replace(target, replacement)` for a one-character target. */
  function ReplaceChar(s: string, target: char, replacement: string): (r: string)
    ensures target !in s ==> r == s
  {
    if s == [] then []
    else (if s[0] == target then replacement else [s[0]]) + ReplaceChar(s[1..], target, replacement)
  }

  /** The replacement of the first rule whose target is `c`; `c` itself when none is. */
  function Rewrite(rules: seq<(char, string)>, c: char): string {
    if rules == [] then [c]
    else if c == rules[0].0 then rules[0].1
    else Rewrite(rules[1..], c)
  }

  /** Every character rewritten by the first rule that targets it. */
  function Translate(rules: seq<(char, string)>, s: string): string {
    if s == [] then [] else Rewrite(rules, s[0]) + Translate(rules, s[1..])
  }

  /** No rule of `rules` produces the character `c`. */
  predicate NotProduced(rules: seq<(char, string)>, c: char) {
    forall k :: 0 <= k < |rules| ==> c !in rules[k].1
  }

  lemma {:induction false} ReplaceCharAppend(a: string, b: string, target: char, replacement: string)
    ensures ReplaceChar(a + b, target, replacement)
         == ReplaceChar(a, target, replacement) + ReplaceChar(b, target, replacement)
  {
    if a == [] {
      assert a + b == b;
    } else {
      var head := if a[0] == target then replacement else [a[0]];
      assert (a + b)[0] == a[0];
      assert (a + b)[1..] == a[1..] + b;
      assert ReplaceChar(a + b, target, replacement) == head + ReplaceChar(a[1..] + b, target, replacement);
      assert ReplaceChar(a, target, replacement) == head + ReplaceChar(a[1..], target, replacement);
      ReplaceCharAppend(a[1..], b, target, replacement);
    }
  }

  /** Dropping the one space between two words without spaces. */
  lemma DropSpace(a: string, c: string)
    requires ' ' !in a && ' ' !in c
    ensures ReplaceChar(a + " " + c, ' ', []) == a + c
  {
    ReplaceCharAppend(a + " ", c, ' ', []);
    ReplaceCharAppend(a, " ", ' ', []);
  }

  lemma RewriteSnoc(rules: seq<(char, string)>, rule: (char, string), c: char)
    ensures Rewrite(rules + [rule], c)
         == if Rewrite(rules, c) != [c] || exists k :: 0 <= k < |rules| && rules[k].0 == c
            then Rewrite(rules, c)
            else if c == rule.0 then rule.1 else [c]
  {
    if rules != [] {
      assert (rules + [rule])[1..] == rules[1..] + [rule];
      RewriteSnoc(rules[1..], rule, c);
      if c != rules[0].0 {
        if exists k :: 0 <= k < |rules[1..]| && rules[1..][k].0 == c {
          var k :| 0 <= k < |rules[1..]| && rules[1..][k].0 == c;
          assert rules[k + 1].0 == c;
        }
        if exists k :: 0 <= k < |rules| && rules[k].0 == c {
          var k :| 0 <= k < |rules| && rules[k].0 == c;
          assert k != 0;
          assert rules[1..][k - 1].0 == c;
        }
      }
    }
  }

  lemma RewriteFrom(rules: seq<(char, string)>, c: char)
    ensures Rewrite(rules, c) == [c] || exists k :: 0 <= k < |rules| && rules[k].0 == c && Rewrite(rules, c) == rules[k].1
  {
    if rules != [] && c != rules[0].0 {
      RewriteFrom(rules[1..], c);
      if Rewrite(rules, c) != [c] {
        var k :| 0 <= k < |rules[1..]| && rules[1..][k].0 == c && Rewrite(rules[1..], c) == rules[1..][k].1;
        assert rules[k + 1].0 == c;
      }
    }
  }

  /** Running one more `replace` after a translation is the translation by
      one more rule, provided no earlier rule produces the new target. */
  lemma {:induction false} ReplaceExtendsTranslate(rules: seq<(char, string)>, rule: (char, string), s: string)
    requires NotProduced(rules, rule.0)
    ensures ReplaceChar(Translate(rules, s), rule.0, rule.1) == Translate(rules + [rule], s)
  {
    if s != [] {
      var c := s[0];
      ReplaceCharAppend(Rewrite(rules, c), Translate(rules, s[1..]), rule.0, rule.1);
      ReplaceExtendsTranslate(rules, rule, s[1..]);
      RewriteSnoc(rules, rule, c);
      RewriteFrom(rules, c);
      if exists k :: 0 <= k < |rules| && rules[k].0 == c && Rewrite(rules, c) == rules[k].1 {
        var k :| 0 <= k < |rules| && rules[k].0 == c && Rewrite(rules, c) == rules[k].1;
        assert rule.0 !in rules[k].1;
      } else {
        assert Rewrite(rules, c) == [c];
        if exists k :: 0 <= k < |rules| && rules[k].0 == c {
          var k :| 0 <= k < |rules| && rules[k].0 == c;
          RewriteFirst(rules, c, k);
        }
        assert ReplaceChar([c], rule.0, rule.1) == (if c == rule.0 then rule.1 else [c]) by {
          assert [c][1..] == [];
        }
      }
    }
  }

  /** When some rule targets `c`, the result is the replacement of such a rule. */
  lemma RewriteFirst(rules: seq<(char, string)>, c: char, k: nat)
    requires k < |rules| && rules[k].0 == c
    ensures exists j :: 0 <= j <= k && rules[j].0 == c && Rewrite(rules, c) == rules[j].1
  {
    if c != rules[0].0 {
      RewriteFirst(rules[1..], c, k - 1);
      var j :| 0 <= j <= k - 1 && rules[1..][j].0 == c && Rewrite(rules[1..], c) == rules[1..][j].1;
      assert rules[j + 1].0 == c;
    }
  }

  /** With exactly one rule for `c`, that rule decides its rewriting. */
  lemma {:induction false} RewriteOnly(rules: seq<(char, string)>, c: char, k: nat)
    requires k < |rules| && rules[k].0 == c
    requires forall j :: 0 <= j < |rules| && rules[j].0 == c ==> j == k
    ensures Rewrite(rules, c) == rules[k].1
  {
    if k > 0 {
      assert rules[0].0 != c;
      forall j | 0 <= j < |rules| - 1 && rules[1..][j].0 == c ensures j == k - 1 {
        assert rules[j + 1].0 == c;
      }
      RewriteOnly(rules[1..], c, k - 1);
    }
  }

  /** With no rule for `c`, it is left alone. */
  lemma {:induction false} RewriteNone(rules: seq<(char, string)>, c: char)
    requires forall j :: 0 <= j < |rules| ==> rules[j].0 != c
    ensures Rewrite(rules, c) == [c]
  {
    if rules != [] {
      assert rules[0].0 != c;
      RewriteNone(rules[1..], c);
    }
  }

  // ---------------------------------------------------------------------
  // accent folding

  /** The upper-case accented letters the library folds, each with its plain
      letter, in the order of the library's table. */
  const FoldPairs: seq<(char, char)> := [
    ('Á', 'A'), ('À', 'A'), ('Ã', 'A'), ('Â', 'A'), ('Ä', 'A'),
    ('É', 'E'), ('È', 'E'), ('Ê', 'E'), ('Ë', 'E'),
    ('Í', 'I'), ('Ì', 'I'), ('Î', 'I'), ('Ï', 'I'),
    ('Ò', 'O'), ('Ó', 'O'), ('Ô', 'O'), ('Õ', 'O'), ('Ö', 'O'),
    ('Ú', 'U'), ('Ù', 'U'), ('Û', 'U'), ('Ü', 'U'),
    ('Ç', 'C')
  ]

  predicate FoldPairsWellFormed(pairs: seq<(char, char)>) {
    forall k :: 0 <= k < |pairs| ==> IsLatinUpper(pairs[k].0) && IsAsciiUpper(pairs[k].1)
  }

  lemma FoldPairsOk()
    ensures FoldPairsWellFormed(FoldPairs)
  {
  }

  /** The fold of one character: an accented letter of either case becomes
      its plain letter in the same case. */
  function FoldWith(pairs: seq<(char, char)>, c: char): char {
    if pairs == [] then c
    else if c == pairs[0].0 then pairs[0].1
    else if c == Lower(pairs[0].0) then Lower(pairs[0].1)
    else FoldWith(pairs[1..], c)
  }

  /** The fold of one character, by code point: À..Ä to 'A', Ç to 'C',
      È..Ë to 'E', Ì..Ï to 'I', Ò..Ö to 'O', Ù..Ü to 'U', and the same
      32 code points higher for the lower-case letters. */
  function FoldChar(c: char): char {
    if IsLatinLower(c) then Lower(FoldUpper((c as int - 32) as char))
    else FoldUpper(c)
  }

  function FoldUpper(c: char): char {
    if '\U{C0}' <= c <= '\U{C4}' then 'A'
    else if c == '\U{C7}' then 'C'
    else if '\U{C8}' <= c <= '\U{CB}' then 'E'
    else if '\U{CC}' <= c <= '\U{CF}' then 'I'
    else if '\U{D2}' <= c <= '\U{D6}' then 'O'
    else if '\U{D9}' <= c <= '\U{DC}' then 'U'
    else c
  }

  /** The letters a fold table replaces. */
  function Keys(pairs: seq<(char, char)>): (r: string)
    ensures |r| == |pairs|
  {
    seq(|pairs|, k requires 0 <= k < |pairs| => pairs[k].0)
  }

  /** A table each of whose pairs folds as `FoldUpper` does. */
  predicate AgreesWithFoldUpper(pairs: seq<(char, char)>) {
    forall k :: 0 <= k < |pairs| ==> IsLatinUpper(pairs[k].0) && FoldUpper(pairs[k].0) == pairs[k].1
  }

  lemma {:induction false} FoldWithMatches(pairs: seq<(char, char)>, c: char)
    requires AgreesWithFoldUpper(pairs)
    ensures FoldWith(pairs, c)
         == if c in Keys(pairs) || (IsLatinLower(c) && (c as int - 32) as char in Keys(pairs)) then FoldChar(c) else c
  {
    if pairs != [] {
      assert Keys(pairs) == [pairs[0].0] + Keys(pairs[1..]);
      FoldWithMatches(pairs[1..], c);
    }
  }

  /** The table walked pair by pair folds exactly as `FoldChar` does. */
  lemma FoldTableAgrees(c: char)
    ensures FoldWith(FoldPairs, c) == FoldChar(c)
  {
    FoldPairsAgree();
    FoldWithMatches(FoldPairs, c);
    KeysOfFoldPairs();
    FoldedLetters(c);
    if IsLatinLower(c) {
      FoldedLetters((c as int - 32) as char);
    }
  }

  lemma FoldPairsAgree()
    ensures AgreesWithFoldUpper(FoldPairs)
  {
  }

  lemma KeysOfFoldPairs()
    ensures Keys(FoldPairs) == "ÁÀÃÂÄÉÈÊËÍÌÎÏÒÓÔÕÖÚÙÛÜÇ"
  {
  }

  /** `FoldUpper` changes exactly the letters of the library's table. */
  lemma FoldedLetters(u: char)
    ensures FoldUpper(u) != u <==> u in "ÁÀÃÂÄÉÈÊËÍÌÎÏÒÓÔÕÖÚÙÛÜÇ"
  {
  }

  function Fold(s: string): (r: string)
    ensures |r| == |s|
  {
    seq(|s|, i requires 0 <= i < |s| => FoldChar(s[i]))
  }

  /** What folding does to one character: it leaves it alone, or it turns a
      Latin-1 accented letter into an ASCII letter of the same case. */
  lemma FoldCharFacts(c: char)
    ensures var f := FoldChar(c);
      || f == c
      || (IsAsciiLetter(f) && IsAlpha(c) && !IsAsciiLetter(c) && (IsUpper(f) <==> IsUpper(c)))
    ensures IsSpace(FoldChar(c)) == IsSpace(c)
    ensures IsAsciiLetter(c) ==> FoldChar(c) == c
  {
  }

  lemma FoldCharIdempotent(c: char)
    ensures FoldChar(FoldChar(c)) == FoldChar(c)
  {
    FoldCharFacts(c);
    FoldCharFacts(FoldChar(c));
  }

  /** The fold rules as the library applies them: for each pair, the
      upper-case replacement and then the lower-case one. */
  function FoldRules(pairs: seq<(char, char)>): seq<(char, string)> {
    if pairs == [] then []
    else [(pairs[0].0, [pairs[0].1]), (Lower(pairs[0].0), [Lower(pairs[0].1)])] + FoldRules(pairs[1..])
  }

  lemma {:induction false} FoldRulesAppend(a: seq<(char, char)>, b: seq<(char, char)>)
    ensures FoldRules(a + b) == FoldRules(a) + FoldRules(b)
  {
    if a == [] {
      assert a + b == b;
    } else {
      assert (a + b)[0] == a[0];
      assert (a + b)[1..] == a[1..] + b;
      FoldRulesAppend(a[1..], b);
    }
  }

  lemma {:induction false} FoldRulesShape(pairs: seq<(char, char)>)
    requires FoldPairsWellFormed(pairs)
    ensures forall k :: 0 <= k < |FoldRules(pairs)| ==>
      |FoldRules(pairs)[k].1| == 1 && IsAsciiLetter(FoldRules(pairs)[k].1[0])
      && (IsLatinUpper(FoldRules(pairs)[k].0) || IsLatinLower(FoldRules(pairs)[k].0))
  {
    if pairs != [] {
      FoldRulesShape(pairs[1..]);
    }
  }

  lemma {:induction false} RewriteFoldRules(pairs: seq<(char, char)>, c: char)
    ensures Rewrite(FoldRules(pairs), c) == [FoldWith(pairs, c)]
  {
    if pairs != [] {
      var rules := FoldRules(pairs);
      assert rules[1..][1..] == FoldRules(pairs[1..]);
      RewriteFoldRules(pairs[1..], c);
    }
  }

  lemma {:induction false} TranslateFoldRules(pairs: seq<(char, char)>, s: string)
    ensures Translate(FoldRules(pairs), s) == seq(|s|, i requires 0 <= i < |s| => FoldWith(pairs, s[i]))
  {
    if s != [] {
      RewriteFoldRules(pairs, s[0]);
      TranslateFoldRules(pairs, s[1..]);
    }
  }

  /** The shared normalisation of the Caesar, Vigenère, Atbash, substitution
      and homophonic ciphers: strip, then fold accented letters. */
  function Normalise(text: string): string {
    Fold(Strip(text))
  }

  lemma TranslateNoRules(s: string)
    ensures Translate([], s) == s
  {
  }

  /** One pass of the fold loop is two more rules of the translation. */
  lemma FoldStep(pairs: seq<(char, char)>, i: nat, s: string)
    requires FoldPairsWellFormed(pairs) && i < |pairs|
    ensures Translate(FoldRules(pairs[..i + 1]), s)
         == ReplaceChar(ReplaceChar(Translate(FoldRules(pairs[..i]), s), pairs[i].0, [pairs[i].1]),
                        Lower(pairs[i].0), [Lower(pairs[i].1)])
  {
    var (letter, key) := pairs[i];
    var done := FoldRules(pairs[..i]);
    var r1 := (letter, [key]);
    var r2 := (Lower(letter), [Lower(key)]);
    assert FoldPairsWellFormed(pairs[..i]);
    FoldRulesShape(pairs[..i]);
    assert pairs[..i + 1] == pairs[..i] + [pairs[i]];
    FoldRulesAppend(pairs[..i], [pairs[i]]);
    assert FoldRules([pairs[i]]) == [r1, r2];
    assert done + [r1, r2] == (done + [r1]) + [r2];
    ReplaceExtendsTranslate(done, r1, s);
    assert NotProduced(done + [r1], r2.0) by {
      forall k | 0 <= k < |done + [r1]|
        ensures r2.0 !in (done + [r1])[k].1
      {
        if k < |done| {
          assert (done + [r1])[k] == done[k];
        }
      }
    }
    ReplaceExtendsTranslate(done + [r1], r2, s);
  }

  /** The loop's guard: when an upper-case letter is absent from the
      upper-cased text, both replaces for it change nothing. */
  lemma FoldSkip(r: string, letter: char, upper: string, lower: string)
    requires IsLatinUpper(letter) && letter !in UpperStr(r)
    ensures ReplaceChar(ReplaceChar(r, letter, upper), Lower(letter), lower) == r
  {
    LatinCases(letter);
    forall k | 0 <= k < |r|
      ensures r[k] != letter && r[k] != Lower(letter)
    {
      assert UpperStr(r)[k] == Upper(r[k]);
      assert UpperStr(r)[k] in UpperStr(r);
    }
    assert letter !in r;
    assert ReplaceChar(r, letter, upper) == r;
    assert Lower(letter) !in r;
  }

  /** A Latin-1 capital is its own upper case, and so is its lower case's. */
  lemma LatinCases(letter: char)
    requires IsLatinUpper(letter)
    ensures Upper(letter) == letter && Upper(Lower(letter)) == letter
  {
  }

  /** The normalisation loop of the library: one `replace` per accented letter
      and case, run only when the letter occurs in the upper-cased text. */
  method HandleText(text: string) returns (r: string)
    ensures r == Normalise(text)
  {
    var s := Strip(text);
    r := s;
    FoldPairsOk();
    TranslateNoRules(s);
    var i := 0;
    while i < |FoldPairs|
      invariant 0 <= i <= |FoldPairs|
      invariant r == Translate(FoldRules(FoldPairs[..i]), s)
    {
      var (letter, key) := FoldPairs[i];
      FoldStep(FoldPairs, i, s);
      if letter in UpperStr(r) {
        r := ReplaceChar(r, letter, [key]);
        r := ReplaceChar(r, Lower(letter), [Lower(key)]);
      } else {
        FoldSkip(r, letter, [key], [Lower(key)]);
      }
      i := i + 1;
    }
    assert FoldPairs[..i] == FoldPairs;
    TranslateFoldIsFold(s);
  }

  lemma TranslateFoldIsFold(s: string)
    ensures Translate(FoldRules(FoldPairs), s) == Fold(s)
  {
    TranslateFoldRules(FoldPairs, s);
    forall k | 0 <= k < |s| ensures FoldWith(FoldPairs, s[k]) == FoldChar(s[k]) {
      FoldTableAgrees(s[k]);
    }
  }

  // ---------------------------------------------------------------------
  // what normalised text looks like

  /** Normalised text: stripped, and nothing left to fold. */
  predicate IsNormal(s: string) {
    IsStripped(s) && forall k :: 0 <= k < |s| ==> FoldChar(s[k]) == s[k]
  }

  lemma NormaliseIsNormal(text: string)
    ensures IsNormal(Normalise(text))
  {
    FoldKeepsStripped(Strip(text));
    FoldIsFixed(Strip(text));
  }

  lemma FoldKeepsStripped(s: string)
    requires IsStripped(s)
    ensures IsStripped(Fold(s))
  {
    if s != [] {
      FoldCharFacts(s[0]);
      FoldCharFacts(s[|s| - 1]);
    }
  }

  lemma FoldIsFixed(s: string)
    ensures forall k :: 0 <= k < |s| ==> FoldChar(Fold(s)[k]) == Fold(s)[k]
  {
    forall k | 0 <= k < |s|
      ensures FoldChar(Fold(s)[k]) == Fold(s)[k]
    {
      FoldCharIdempotent(s[k]);
    }
  }

  lemma NormalIsFixed(s: string)
    requires IsNormal(s)
    ensures Normalise(s) == s
  {
  }

  lemma NormaliseIdempotent(text: string)
    ensures Normalise(Normalise(text)) == Normalise(text)
  {
    NormaliseIsNormal(text);
    NormalIsFixed(Normalise(text));
  }

  /** A character whose round trip through the ciphers is exact: it is not
      a letter, or it folds to an ASCII letter. */
  predicate Plain(c: char) {
    !IsAlpha(c) || IsAsciiLetter(FoldChar(c))
  }

  /** Plain text normalises to text whose letters are all ASCII. */
  lemma NormalisePlain(text: string)
    requires forall c :: c in text ==> Plain(c)
    ensures forall k :: 0 <= k < |Normalise(text)| ==>
      !IsAlpha(Normalise(text)[k]) || IsAsciiLetter(Normalise(text)[k])
  {
    var s := Strip(text);
    forall k | 0 <= k < |s|
      ensures !IsAlpha(FoldChar(s[k])) || IsAsciiLetter(FoldChar(s[k]))
    {
      assert s[k] in s;
      StripKeepsChars(text, s[k]);
      FoldCharFacts(s[k]);
    }
  }

  // ---------------------------------------------------------------------
  // linear search, the shape of the library's scans over its dictionaries

  /** Index of the first occurrence of `c` in `s`. */
  function FirstIndex(s: seq<char>, c: char): (r: Option<nat>)
    ensures r.Some? ==> r.value < |s| && s[r.value] == c && c !in s[..r.value]
    ensures r.None? ==> c !in s
  {
    if s == [] then None
    else if s[0] == c then Some(0)
    else match FirstIndex(s[1..], c)
      case None => None
      case Some(k) =>
        assert s[..k + 1] == [s[0]] + s[1..][..k];
        Some(k + 1)
  }

  /** The scan `for original, substitute in d.items(): if x == ...: break`. */
  method Search(s: seq<char>, c: char) returns (r: Option<nat>)
    ensures r == FirstIndex(s, c)
  {
    var i := 0;
    while i < |s|
      invariant 0 <= i <= |s|
      invariant c !in s[..i]
    {
      if s[i] == c {
        FirstIndexUnique(s, c, i);
        return Some(i);
      }
      assert s[..i + 1] == s[..i] + [s[i]];
      i := i + 1;
    }
    assert s[..i] == s;
    return None;
  }

  lemma FirstIndexUnique(s: seq<char>, c: char, i: nat)
    requires i < |s| && s[i] == c && c !in s[..i]
    ensures FirstIndex(s, c) == Some(i)
  {
    assert s[i] in s;
  }

  // ---------------------------------------------------------------------
  // join and split

  /** `sep.join(parts)` */
  function Join(parts: seq<string>, sep: char): (r: string)
    ensures parts == [] ==> r == []
    ensures |parts| == 1 ==> r == parts[0]
  {
    if |parts| == 0 then []
    else if |parts| == 1 then parts[0]
    else parts[0] + [sep] + Join(parts[1..], sep)
  }

  /** `s.split(sep)` for a one-character separator: the pieces between
      separators, empty pieces included. */
  function Split(s: string, sep: char): (r: seq<string>)
    ensures |r| >= 1
    ensures forall k :: 0 <= k < |r| ==> sep !in r[k]
  {
    if s == [] then [[]]
    else
      var rest := Split(s[1..], sep);
      if s[0] == sep then [[]] + rest
      else [[s[0]] + rest[0]] + rest[1..]
  }

  lemma {:induction false} SplitPiece(a: string, b: string, sep: char)
    requires sep !in a
    ensures Split(a + [sep] + b, sep) == [a] + Split(b, sep)
  {
    if a == [] {
      assert ([sep] + b)[1..] == b;
    } else {
      assert (a + [sep] + b)[1..] == a[1..] + [sep] + b;
      SplitPiece(a[1..], b, sep);
      assert [a[0]] + a[1..] == a;
    }
  }

  lemma {:induction false} SplitNoSep(a: string, sep: char)
    requires sep !in a
    ensures Split(a, sep) == [a]
  {
    if a != [] {
      SplitNoSep(a[1..], sep);
      assert [a[0]] + a[1..] == a;
    }
  }

  /** Splitting what was joined gives the parts back, when there is at least
      one part and no part holds the separator. */
  lemma {:induction false} SplitJoin(parts: seq<string>, sep: char)
    requires |parts| >= 1
    requires forall k :: 0 <= k < |parts| ==> sep !in parts[k]
    ensures Split(Join(parts, sep), sep) == parts
  {
    if |parts| == 1 {
      SplitNoSep(parts[0], sep);
    } else {
      SplitJoin(parts[1..], sep);
      SplitPiece(parts[0], Join(parts[1..], sep), sep);
    }
  }

  /** The leading run of non-whitespace characters. */
  function Word(s: string): (w: string)
    ensures |w| <= |s| && w == s[..|w|]
    ensures forall k :: 0 <= k < |w| ==> !IsSpace(w[k])
    ensures |w| < |s| ==> IsSpace(s[|w|])
  {
    if s == [] || IsSpace(s[0]) then [] else [s[0]] + Word(s[1..])
  }

  /** `s.split()`: the maximal runs of non-whitespace characters. */
  function Words(s: string): (r: seq<string>)
    ensures forall k :: 0 <= k < |r| ==> r[k] != [] && forall j :: 0 <= j < |r[k]| ==> !IsSpace(r[k][j])
    decreases |s|
  {
    if s == [] then []
    else if IsSpace(s[0]) then Words(s[1..])
    else
      var w := Word(s);
      [w] + Words(s[|w|..])
  }

  lemma {:induction false} WordOf(a: string, b: string)
    requires forall k :: 0 <= k < |a| ==> !IsSpace(a[k])
    requires b == [] || IsSpace(b[0])
    ensures Word(a + b) == a
  {
    if a != [] {
      assert (a + b)[1..] == a[1..] + b;
      WordOf(a[1..], b);
      assert [a[0]] + a[1..] == a;
    }
  }

  /** Splitting on whitespace undoes joining with spaces, when every part is
      non-empty and free of whitespace. */
  lemma {:induction false} WordsJoin(parts: seq<string>)
    requires forall k :: 0 <= k < |parts| ==> parts[k] != [] && forall j :: 0 <= j < |parts[k]| ==> !IsSpace(parts[k][j])
    ensures Words(Join(parts, ' ')) == parts
  {
    if |parts| == 1 {
      WordOf(parts[0], []);
      assert parts[0] + [] == parts[0];
      assert Join(parts, ' ')[|parts[0]|..] == [];
    } else if |parts| > 1 {
      var rest := Join(parts[1..], ' ');
      var s := Join(parts, ' ');
      assert s == parts[0] + ([' '] + rest);
      WordOf(parts[0], [' '] + rest);
      assert s[|parts[0]|..] == [' '] + rest;
      assert s[|parts[0]|..][1..] == rest;
      WordsJoin(parts[1..]);
    }
  }

  // ---------------------------------------------------------------------
  // list.reverse

  /** The list backwards: entry `k` of the result is entry `|s| - 1 - k`. */
  function Reverse<T>(s: seq<T>): (r: seq<T>)
    ensures |r| == |s|
    ensures forall k :: 0 <= k < |s| ==> r[k] == s[|s| - 1 - k]
  {
    if s == [] then [] else Reverse(s[1..]) + [s[0]]
  }

  /** `list.reverse()`. */
  method ReverseInPlace<T>(a: array<T>)
    modifies a
    ensures a[..] == Reverse(old(a[..]))
  {
    ghost var s := a[..];
    var lo, hi := 0, a.Length - 1;
    while lo < hi
      invariant 0 <= lo <= a.Length - lo && hi == a.Length - 1 - lo && |s| == a.Length
      invariant forall k :: 0 <= k < lo ==> a[k] == s[a.Length - 1 - k] && a[a.Length - 1 - k] == s[k]
      invariant forall k :: lo <= k <= hi ==> a[k] == s[k]
    {
      a[lo], a[hi] := a[hi], a[lo];
      lo, hi := lo + 1, hi - 1;
    }
  }

  lemma {:induction false} ReverseSnoc<T>(s: seq<T>)
    requires s != []
    ensures Reverse(s) == [s[|s| - 1]] + Reverse(s[..|s| - 1])
  {
    var r := [s[|s| - 1]] + Reverse(s[..|s| - 1]);
    forall k | 0 <= k < |s|
      ensures Reverse(s)[k] == r[k]
    {
      if k > 0 {
        assert r[k] == Reverse(s[..|s| - 1])[k - 1];
      }
    }
  }
}
