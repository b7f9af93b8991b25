/** The keyed monoalphabetic substitution cipher (`Substitution`): the key
    lists, for 'A' to 'Z' in order, the letter each one becomes. */
module Substitution {
  import opened Wrappers
  import opened Text

  const LengthMessage: string := "The key must contains 26 chars."
  const AlphaMessage: string := "The key must contains alphabetic chars."
  const RepeatMessage: string := "The key must not contains repeated chars."

  /** The substitution table: entry `i` is what `Alphabet[i]` becomes. */
  type Table = t: seq<char> | |t| == 26 witness Alphabet

  // ---------------------------------------------------------------------
  // key validation

  /** The character checks of the validation loop, from the front of the
      stripped key, with the upper-case letters already seen. */
  function CheckChars(s: string, seen: seq<char>): Outcome<Error> {
    if s == [] then Pass
    else if !IsAlpha(s[0]) || Upper(s[0]) !in Alphabet then Fail(ValueError(AlphaMessage))
    else if Upper(s[0]) in seen then Fail(ValueError(RepeatMessage))
    else CheckChars(s[1..], seen + [Upper(s[0])])
  }

  function CheckKey(key: string): Outcome<Error> {
    if |key| != 26 then Fail(ValueError(LengthMessage)) else CheckChars(Strip(key), [])
  }

  /** ASCII letters no two of which agree up to case. */
  predicate DistinctLetters(s: string) {
    && (forall k :: 0 <= k < |s| ==> IsAsciiLetter(s[k]))
    && (forall j, k :: 0 <= j < k < |s| ==> Upper(s[j]) != Upper(s[k]))
  }

  /** What a valid key is, stated outright: 26 characters, and the stripped
      key made of distinct letters. */
  predicate ValidKey(key: string) {
    |key| == 26 && DistinctLetters(Strip(key))
  }

  /** `_validate_key`: the length of the raw key, then each character of the
      stripped key in turn, collecting upper cases in a list. */
  method ValidateKey(key: string) returns (r: Outcome<Error>)
    ensures r == CheckKey(key)
  {
    if |key| != 26 {
      return Fail(ValueError(LengthMessage));
    }
    var s := Strip(key);
    var seen: seq<char> := [];
    var i := 0;
    while i < |s|
      invariant 0 <= i <= |s|
      invariant CheckChars(s, []) == CheckChars(s[i..], seen)
    {
      var c := s[i];
      assert s[i..][1..] == s[i + 1..];
      if !IsAlpha(c) || Upper(c) !in Alphabet {
        return Fail(ValueError(AlphaMessage));
      }
      if Upper(c) in seen {
        return Fail(ValueError(RepeatMessage));
      }
      seen := seen + [Upper(c)];
      i := i + 1;
    }
    return Pass;
  }

  /** Every character an ASCII letter whose upper case is neither among
      `seen` nor shared with another character. */
  ghost predicate Fresh(s: string, seen: seq<char>) {
    && (forall k :: 0 <= k < |s| ==> IsAsciiLetter(s[k]) && Upper(s[k]) !in seen)
    && (forall j, k :: 0 <= j < k < |s| ==> Upper(s[j]) != Upper(s[k]))
  }

  /** The loop passes exactly when every character is an ASCII letter whose
      upper case occurs neither earlier nor among those seen before. */
  lemma {:induction false} CheckCharsMeaning(s: string, seen: seq<char>)
    ensures CheckChars(s, seen).Pass? <==>
      && (forall k :: 0 <= k < |s| ==> IsAsciiLetter(s[k]) && Upper(s[k]) !in seen)
      && (forall j, k :: 0 <= j < k < |s| ==> Upper(s[j]) != Upper(s[k]))
  {
    if s != [] {
      AsciiUpperInAlphabet(s[0]);
      CheckCharsMeaning(s[1..], seen + [Upper(s[0])]);
      FreshCons(s, seen);
    }
  }

  /** `Fresh` of a non-empty string: its head is fresh, and its tail is
      fresh once the head's upper case has been seen. */
  lemma FreshCons(s: string, seen: seq<char>)
    requires s != []
    ensures Fresh(s, seen) <==>
      IsAsciiLetter(s[0]) && Upper(s[0]) !in seen && Fresh(s[1..], seen + [Upper(s[0])])
  {
    var t := s[1..];
    assert forall k :: 0 <= k < |t| ==> t[k] == s[k + 1];
    if IsAsciiLetter(s[0]) && Upper(s[0]) !in seen && Fresh(t, seen + [Upper(s[0])]) {
      forall j, k | 0 <= j < k < |s| ensures Upper(s[j]) != Upper(s[k]) {
        assert s[k] == t[k - 1];
        if j > 0 {
          assert s[j] == t[j - 1];
        }
      }
    }
  }

  lemma CheckKeyMeaning(key: string)
    ensures CheckKey(key).Pass? <==> ValidKey(key)
  {
    if |key| == 26 {
      CheckCharsFromStart(Strip(key));
    }
  }

  /** The loop started with no letters seen. */
  lemma CheckCharsFromStart(s: string)
    ensures CheckChars(s, []).Pass? <==> DistinctLetters(s)
  {
    CheckCharsMeaning(s, []);
    assert forall k :: 0 <= k < |s| ==> Upper(s[k]) !in [];
  }

  // ---------------------------------------------------------------------
  // the table

  /** `_create_substitution_dict`: the upper case of each character of the
      key as given, not stripped. */
  method CreateSubstitutionTable(key: string) returns (table: Table)
    requires |key| == 26
    ensures forall i :: 0 <= i < 26 ==> table[i] == Upper(key[i])
  {
    var entries: seq<char> := [];
    var i := 0;
    while i < 26
      invariant 0 <= i <= 26 && |entries| == i
      invariant forall k :: 0 <= k < i ==> entries[k] == Upper(key[k])
    {
      entries := entries + [Upper(key[i])];
      i := i + 1;
    }
    table := entries;
  }

  /** A table that is a permutation of the alphabet. */
  predicate IsPermutation(table: Table) {
    && (forall i :: 0 <= i < 26 ==> IsAsciiUpper(table[i]))
    && (forall i, j :: 0 <= i < j < 26 ==> table[i] != table[j])
  }

  /** The constructor: validate the key, then build the table. */
  method New(key: string) returns (r: Result<Table, Error>)
    ensures r.Success? <==> ValidKey(key)
    ensures r.Failure? ==> Fail(r.error) == CheckKey(key)
    ensures r.Success? ==> forall i :: 0 <= i < 26 ==> r.value[i] == Upper(key[i])
  {
    var check := ValidateKey(key);
    CheckKeyMeaning(key);
    if check.Fail? {
      return Failure(check.error);
    }
    var table := CreateSubstitutionTable(key);
    return Success(table);
  }

  /** A valid key with no whitespace around it gives a permutation of the
      alphabet. */
  lemma ValidKeyPermutation(key: string, table: Table)
    requires ValidKey(key) && IsStripped(key)
    requires forall i :: 0 <= i < 26 ==> table[i] == Upper(key[i])
    ensures IsPermutation(table)
  {
    assert Strip(key) == key;
    forall i | 0 <= i < 26 ensures IsAsciiUpper(table[i]) {
      assert IsAsciiLetter(key[i]);
    }
  }

  /** A key with a space in front of 25 distinct letters passes validation,
      yet its table sends 'A' to a space and so is no permutation: the
      round trip of "A" loses the letter. */
  lemma UnstrippedKeyBreaksTable(key: string)
    requires key == " BCDEFGHIJKLMNOPQRSTUVWXYZ"
    ensures CheckKey(key) == Pass
    ensures var table: Table := UpperStr(key);
      && !IsPermutation(table)
      && DecryptText(table, Strip(EncryptText(table, "A"))) == ""
  {
    UnstrippedKeyIsValid();
    CheckKeyMeaning(key);
    UnstrippedKeyLosesA(key, UpperStr(key));
  }

  lemma UnstrippedKeyLosesA(key: string, table: Table)
    requires key == " BCDEFGHIJKLMNOPQRSTUVWXYZ" && table == UpperStr(key)
    ensures !IsPermutation(table)
    ensures DecryptText(table, Strip(EncryptText(table, "A"))) == ""
  {
    assert table[0] == ' ' by {
      assert key[0] == ' ';
    }
    assert !IsAsciiUpper(table[0]);
    var e := EncryptText(table, "A");
    assert e == " " by {
      assert e[0] == EncryptChar(table, 'A') == table[0];
    }
    assert Strip(e) == "" by {
      assert TrimStart(" "[1..]) == "";
    }
  }

  lemma StripUnstrippedKey()
    ensures Strip(" BCDEFGHIJKLMNOPQRSTUVWXYZ") == "BCDEFGHIJKLMNOPQRSTUVWXYZ"
  {
    var key := " BCDEFGHIJKLMNOPQRSTUVWXYZ";
    assert key[1..] == "BCDEFGHIJKLMNOPQRSTUVWXYZ";
    StripOneLeadingSpace(key);
  }

  lemma StripOneLeadingSpace(s: string)
    requires |s| >= 2 && IsSpace(s[0]) && IsStripped(s[1..])
    ensures Strip(s) == s[1..]
  {
    assert TrimStart(s[1..]) == s[1..];
  }

  lemma UnstrippedKeyIsValid()
    ensures ValidKey(" BCDEFGHIJKLMNOPQRSTUVWXYZ")
  {
    var key := " BCDEFGHIJKLMNOPQRSTUVWXYZ";
    var s := "BCDEFGHIJKLMNOPQRSTUVWXYZ";
    StripUnstrippedKey();
    assert |key| == 26;
    LettersFromB(s);
  }

  lemma LettersFromB(s: string)
    requires s == "BCDEFGHIJKLMNOPQRSTUVWXYZ"
    ensures (forall k :: 0 <= k < |s| ==> IsAsciiLetter(s[k]))
    ensures (forall j, k :: 0 <= j < k < |s| ==> Upper(s[j]) != Upper(s[k]))
  {
    assert s == Alphabet[1..];
    LettersAfterA(s);
  }

  /** The alphabet without 'A' holds the capitals from 'B' on, in order. */
  lemma LettersAfterA(s: string)
    requires s == Alphabet[1..]
    ensures forall k :: 0 <= k < |s| ==> IsAsciiLetter(s[k]) && Upper(s[k]) as int == 'B' as int + k
  {
    forall k | 0 <= k < |s| ensures IsAsciiUpper(s[k]) && Upper(s[k]) as int == 'B' as int + k {
      AlphabetAt(k + 1);
    }
  }

  // ---------------------------------------------------------------------
  // encrypting and decrypting

  /** What `encrypt` emits for one character: an ASCII letter through the
      table, in its case; anything else as it is. */
  function EncryptChar(table: Table, c: char): char {
    if IsAsciiLetter(c) then
      var s := table[Upper(c) as int - 'A' as int];
      if IsUpper(c) then s else Lower(s)
    else c
  }

  /** What `decrypt` emits for one character: the letter of the first table
      entry equal to its upper case, in its case; otherwise itself. */
  function DecryptChar(table: Table, c: char): char {
    match FirstIndex(table, Upper(c))
    case Some(i) => if IsUpper(c) then Alphabet[i] else Lower(Alphabet[i])
    case None => c
  }

  function EncryptText(table: Table, s: string): (r: string)
    ensures |r| == |s|
  {
    seq(|s|, k requires 0 <= k < |s| => EncryptChar(table, s[k]))
  }

  function DecryptText(table: Table, s: string): (r: string)
    ensures |r| == |s|
  {
    seq(|s|, k requires 0 <= k < |s| => DecryptChar(table, s[k]))
  }

  lemma EncryptTextSnoc(table: Table, s: string, i: nat)
    requires i < |s|
    ensures EncryptText(table, s[..i + 1]) == EncryptText(table, s[..i]) + [EncryptChar(table, s[i])]
  {
    var a, b := EncryptText(table, s[..i + 1]), EncryptText(table, s[..i]) + [EncryptChar(table, s[i])];
    forall k | 0 <= k < |a| ensures a[k] == b[k] {
      assert s[..i + 1][k] == s[k];
      if k < i {
        assert s[..i][k] == s[k];
      }
    }
  }

  lemma DecryptTextSnoc(table: Table, s: string, i: nat)
    requires i < |s|
    ensures DecryptText(table, s[..i + 1]) == DecryptText(table, s[..i]) + [DecryptChar(table, s[i])]
  {
    var a, b := DecryptText(table, s[..i + 1]), DecryptText(table, s[..i]) + [DecryptChar(table, s[i])];
    forall k | 0 <= k < |a| ensures a[k] == b[k] {
      assert s[..i + 1][k] == s[k];
      if k < i {
        assert s[..i][k] == s[k];
      }
    }
  }

  /** One pass of `encrypt`'s outer loop: the scan of the table's letters. */
  method EncryptOne(table: Table, c: char) returns (e: char)
    ensures e == EncryptChar(table, c)
  {
    var found := Search(Alphabet, Upper(c));
    AlphabetLookup(c);
    if found.Some? {
      var substitute := table[found.value];
      e := if IsUpper(c) then substitute else Lower(substitute);
    } else {
      e := c;
    }
  }

  /** One pass of `decrypt`'s outer loop: the scan of the table's entries. */
  method DecryptOne(table: Table, c: char) returns (d: char)
    ensures d == DecryptChar(table, c)
  {
    var found := Search(table, Upper(c));
    if found.Some? {
      var original := Alphabet[found.value];
      d := if IsUpper(c) then original else Lower(original);
    } else {
      d := c;
    }
  }

  /** `encrypt`: normalise, then substitute character by character. */
  method Encrypt(table: Table, text: string) returns (r: string)
    ensures r == EncryptText(table, Normalise(text))
  {
    var handled := HandleText(text);
    r := "";
    var i := 0;
    while i < |handled|
      invariant 0 <= i <= |handled| && r == EncryptText(table, handled[..i])
    {
      var e := EncryptOne(table, handled[i]);
      EncryptTextSnoc(table, handled, i);
      r := r + [e];
      i := i + 1;
    }
    assert handled[..i] == handled;
  }

  /** `decrypt`: strip, then substitute back character by character. */
  method Decrypt(table: Table, cipherText: string) returns (r: string)
    ensures r == DecryptText(table, Strip(cipherText))
  {
    var handled := Strip(cipherText);
    r := "";
    var i := 0;
    while i < |handled|
      invariant 0 <= i <= |handled| && r == DecryptText(table, handled[..i])
    {
      var d := DecryptOne(table, handled[i]);
      DecryptTextSnoc(table, handled, i);
      r := r + [d];
      i := i + 1;
    }
    assert handled[..i] == handled;
  }

  // ---------------------------------------------------------------------
  // properties

  function Elements(s: seq<char>): set<char> {
    set k | 0 <= k < |s| :: s[k]
  }

  lemma {:induction false} DistinctElements(s: seq<char>)
    requires forall i, j :: 0 <= i < j < |s| ==> s[i] != s[j]
    ensures |Elements(s)| == |s|
  {
    if s != [] {
      assert Elements(s) == {s[0]} + Elements(s[1..]) by {
        forall c | c in Elements(s) ensures c in {s[0]} + Elements(s[1..]) {
          var k :| 0 <= k < |s| && s[k] == c;
          if k > 0 {
            assert s[1..][k - 1] == c;
          }
        }
      }
      assert s[0] !in Elements(s[1..]);
      DistinctElements(s[1..]);
    }
  }

  lemma {:induction false} SubsetCard(a: set<char>, b: set<char>)
    requires a <= b
    ensures |a| <= |b|
    decreases a
  {
    if a != {} {
      var x :| x in a;
      SubsetCard(a - {x}, b - {x});
    }
  }

  /** A permutation table hits every letter: 26 distinct capitals are all of
      them. */
  lemma PermutationOnto(table: Table, c: char)
    requires IsPermutation(table) && IsAsciiUpper(c)
    ensures c in table
  {
    var all := Elements(Alphabet);
    forall i, j | 0 <= i < j < 26 ensures Alphabet[i] != Alphabet[j] {
      AlphabetAt(i);
      AlphabetAt(j);
    }
    DistinctElements(Alphabet);
    DistinctElements(table);
    assert Elements(table) <= all by {
      forall x | x in Elements(table) ensures x in all {
        var k :| 0 <= k < 26 && table[k] == x;
        var p := x as int - 'A' as int;
        AlphabetAt(p);
        assert Alphabet[p] == x;
      }
    }
    if c !in table {
      var p := c as int - 'A' as int;
      AlphabetAt(p);
      assert Alphabet[p] == c;
      assert c !in Elements(table);
      SubsetCard(Elements(table), all - {c});
      assert false;
    }
  }

  /** Decryption inverts encryption on every character, and encryption
      inverts decryption on ASCII letters and non-letters, when the table is
      a permutation. */
  lemma CharRoundTrip(table: Table, c: char)
    requires IsPermutation(table)
    ensures DecryptChar(table, EncryptChar(table, c)) == c
    ensures !IsAlpha(c) || IsAsciiLetter(c) ==> EncryptChar(table, DecryptChar(table, c)) == c
  {
    if IsAsciiLetter(c) {
      DecryptEncryptLetter(table, c);
      EncryptDecryptLetter(table, c);
    } else {
      assert Upper(c) !in table;
    }
  }

  lemma DecryptEncryptLetter(table: Table, c: char)
    requires IsPermutation(table) && IsAsciiLetter(c)
    ensures DecryptChar(table, EncryptChar(table, c)) == c
  {
    var p := Upper(c) as int - 'A' as int;
    var e := EncryptChar(table, c);
    assert Upper(e) == table[p];
    assert table[p] !in table[..p];
    FirstIndexUnique(table, table[p], p);
    AlphabetAt(p);
  }

  lemma EncryptDecryptLetter(table: Table, c: char)
    requires IsPermutation(table) && IsAsciiLetter(c)
    ensures EncryptChar(table, DecryptChar(table, c)) == c
  {
    var u := Upper(c);
    PermutationOnto(table, u);
    var i := FirstIndex(table, u).value;
    AlphabetAt(i);
  }

  lemma EncryptKeepsStripped(table: Table, s: string)
    requires IsPermutation(table) && IsStripped(s)
    ensures IsStripped(EncryptText(table, s))
  {
  }

  /** Decrypting what `encrypt` produced gives back the normalised text, for
      every text, when the table is a permutation. */
  lemma RoundTrip(table: Table, text: string)
    requires IsPermutation(table)
    ensures DecryptText(table, Strip(EncryptText(table, Normalise(text)))) == Normalise(text)
  {
    var n := Normalise(text);
    NormaliseIsNormal(text);
    EncryptKeepsStripped(table, n);
    var e := EncryptText(table, n);
    forall k | 0 <= k < |n| ensures DecryptChar(table, e[k]) == n[k] {
      CharRoundTrip(table, n[k]);
    }
  }

  /** The other direction: encrypting what `decrypt` produced gives back the
      stripped cipher text when its letters are all ASCII. */
  lemma RoundTripReverse(table: Table, cipherText: string)
    requires IsPermutation(table)
    requires forall c :: c in cipherText ==> !IsAlpha(c) || IsAsciiLetter(c)
    ensures EncryptText(table, Normalise(DecryptText(table, Strip(cipherText)))) == Strip(cipherText)
  {
    var s := Strip(cipherText);
    var d := DecryptText(table, s);
    forall k | 0 <= k < |s|
      ensures (!IsAlpha(s[k]) || IsAsciiLetter(s[k])) && EncryptChar(table, d[k]) == s[k]
      ensures FoldChar(d[k]) == d[k]
    {
      assert s[k] in s;
      StripKeepsChars(cipherText, s[k]);
      CharRoundTrip(table, s[k]);
      FoldCharFacts(d[k]);
    }
    DecryptKeepsStripped(table, s);
    NormalIsFixed(d);
  }

  lemma DecryptKeepsStripped(table: Table, s: string)
    requires IsPermutation(table) && IsStripped(s)
    ensures IsStripped(DecryptText(table, s))
  {
    var d := DecryptText(table, s);
    if s != [] {
      DecryptNotSpace(table, s[0]);
      DecryptNotSpace(table, s[|s| - 1]);
      assert d[0] == DecryptChar(table, s[0]);
      assert d[|d| - 1] == DecryptChar(table, s[|s| - 1]);
    }
  }

  /** A character that is not a space decrypts to one that is not a space. */
  lemma DecryptNotSpace(table: Table, c: char)
    requires !IsSpace(c)
    ensures !IsSpace(DecryptChar(table, c))
  {
    match FirstIndex(table, Upper(c))
    case Some(i) => AlphabetAt(i);
    case None =>
  }

  /** The documented example: the key "POIUYTREWQLKJHGFDSAMNBVCXZ" is
      accepted, and the table `New` builds from it encrypts "Hello World!"
      to "Eykkg Vgsku!" and decrypts that back to "Hello World!". */
  lemma Example(key: string, table: Table)
    requires key == "POIUYTREWQLKJHGFDSAMNBVCXZ"
    requires forall i :: 0 <= i < 26 ==> table[i] == Upper(key[i])
    ensures ValidKey(key)
    ensures EncryptText(table, Normalise("Hello World!")) == "Eykkg Vgsku!"
    ensures DecryptText(table, Strip("Eykkg Vgsku!")) == "Hello World!"
  {
    ExampleKey(key);
    assert table == key;
    ValidKeyPermutation(key, table);
    var text := "Hello World!";
    assert Normalise(text) == text by {
      assert IsNormal(text);
      NormalIsFixed(text);
    }
    ExampleEncrypt(table, text);
    RoundTrip(table, text);
  }

  /** The example key is made of distinct upper-case letters. */
  lemma ExampleKey(key: string)
    requires key == "POIUYTREWQLKJHGFDSAMNBVCXZ"
    ensures IsStripped(key) && ValidKey(key)
    ensures forall i :: 0 <= i < 26 ==> Upper(key[i]) == key[i]
  {
    var place := ExamplePlaces(key);
    assert DistinctLetters(key) by {
      forall j, k | 0 <= j < k < 26
        ensures Upper(key[j]) != Upper(key[k])
      {
        assert place[key[j] as int - 'A' as int] == j;
        assert place[key[k] as int - 'A' as int] == k;
      }
    }
  }

  /** For each letter, where it stands in the example key. */
  lemma ExamplePlaces(key: string) returns (place: seq<int>)
    requires key == "POIUYTREWQLKJHGFDSAMNBVCXZ"
    ensures |key| == 26 && |place| == 26
    ensures forall i :: 0 <= i < 26 ==> IsAsciiUpper(key[i]) && Upper(key[i]) == key[i]
    ensures forall i :: 0 <= i < 26 ==> place[key[i] as int - 'A' as int] == i
  {
    ExampleUpper(key);
    place := [18, 21, 23, 16, 7, 15, 14, 13, 2, 12, 11, 10, 19, 20, 1, 0, 9, 6, 17, 5, 3, 22, 8, 24, 4, 25];
    var low, high := key[..13], key[13..];
    PlacesLow(place, low);
    PlacesHigh(place, high);
    forall i | 0 <= i < 26
      ensures place[key[i] as int - 'A' as int] == i
    {
      if i < 13 {
        assert key[i] == low[i];
      } else {
        assert key[i] == high[i - 13];
      }
    }
  }

  lemma PlacesLow(place: seq<int>, low: string)
    requires place == [18, 21, 23, 16, 7, 15, 14, 13, 2, 12, 11, 10, 19, 20, 1, 0, 9, 6, 17, 5, 3, 22, 8, 24, 4, 25]
    requires low == "POIUYTREWQLKJ"
    ensures forall i :: 0 <= i < 13 ==> place[low[i] as int - 'A' as int] == i
  {
  }

  lemma PlacesHigh(place: seq<int>, high: string)
    requires place == [18, 21, 23, 16, 7, 15, 14, 13, 2, 12, 11, 10, 19, 20, 1, 0, 9, 6, 17, 5, 3, 22, 8, 24, 4, 25]
    requires high == "HGFDSAMNBVCXZ"
    ensures forall i :: 0 <= i < 13 ==> place[high[i] as int - 'A' as int] == i + 13
  {
  }

  lemma ExampleUpper(key: string)
    requires key == "POIUYTREWQLKJHGFDSAMNBVCXZ"
    ensures forall i :: 0 <= i < 26 ==> IsAsciiUpper(key[i]) && Upper(key[i]) == key[i]
  {
  }

  lemma ExampleEncrypt(table: Table, text: string)
    requires table == "POIUYTREWQLKJHGFDSAMNBVCXZ" && text == "Hello World!"
    ensures EncryptText(table, text) == "Eykkg Vgsku!"
  {
  }
}
