/** The Atbash cipher: the alphabet read backwards ('A' <-> 'Z', 'B' <-> 'Y',
    ...), case kept, everything else copied. Decryption is encryption. */
module Atbash {
  import opened Wrappers
  import opened Text

  predicate IsReversedAlphabet(table: seq<char>) {
    |table| == 26 && forall i :: 0 <= i < 26 ==> table[i] == Alphabet[25 - i]
  }

  /** The substitution table: entry `i` is what `Alphabet[i]` becomes. It is
      built as the library builds it, by reversing a copy of the alphabet in
      place. */
  method CreateSubstitutionTable() returns (table: seq<char>)
    ensures IsReversedAlphabet(table)
  {
    var chars := new char[26](i requires 0 <= i < 26 => Alphabet[i]);
    ghost var letters := chars[..];
    assert forall k :: 0 <= k < 26 ==> letters[k] == Alphabet[k];
    ReverseInPlace(chars);
    table := chars[..];
    assert forall i :: 0 <= i < 26 ==> table[i] == letters[25 - i];
  }

  /** The Atbash image of one character, stated without the table: an ASCII
      letter goes to the letter as far from 'Z' as it is from 'A', in the
      same case. */
  function SubstituteChar(c: char): char {
    if IsAsciiLetter(c) then
      var s := ('Z' as int - (Upper(c) as int - 'A' as int)) as char;
      if IsUpper(c) then s else Lower(s)
    else c
  }

  function EncryptText(s: string): (r: string)
    ensures |r| == |s|
  {
    seq(|s|, k requires 0 <= k < |s| => SubstituteChar(s[k]))
  }

  /** `encrypt`: normalise, then look every character up in the table by its
      upper case; characters that match no entry are copied. */
  method Encrypt(text: string) returns (r: string)
    ensures r == EncryptText(Normalise(text))
  {
    var handled := HandleText(text);
    var table := CreateSubstitutionTable();
    r := "";
    var i := 0;
    while i < |handled|
      invariant 0 <= i <= |handled| && |r| == i
      invariant forall k :: 0 <= k < i ==> r[k] == SubstituteChar(handled[k])
    {
      var e := EncryptChar(table, handled[i]);
      r := r + [e];
      i := i + 1;
    }
  }

  /** One pass of the outer loop of `encrypt`: the scan of the table for the
      entry whose letter is the character's upper case. */
  method EncryptChar(table: seq<char>, c: char) returns (e: char)
    requires IsReversedAlphabet(table)
    ensures e == SubstituteChar(c)
  {
    var found := Search(Alphabet, Upper(c));
    TableLookup(table, c);
    if found.Some? {
      var substitute := table[found.value];
      e := if IsUpper(c) then substitute else Lower(substitute);
    } else {
      e := c;
    }
  }

  /** Looking a character up in the table agrees with `SubstituteChar`. */
  lemma TableLookup(table: seq<char>, c: char)
    requires IsReversedAlphabet(table)
    ensures var found := FirstIndex(Alphabet, Upper(c));
      && (found.Some? <==> IsAsciiLetter(c))
      && (found.Some? ==> found.value < 26)
      && (found.Some? ==> (if IsUpper(c) then table[found.value] else Lower(table[found.value])) == SubstituteChar(c))
  {
    AlphabetLookup(c);
    if IsAsciiLetter(c) {
      var i := Upper(c) as int - 'A' as int;
      AlphabetAt(25 - i);
    }
  }

  /** `decrypt` is `encrypt`. */
  method Decrypt(cipherText: string) returns (r: string)
    ensures r == EncryptText(Normalise(cipherText))
  {
    r := Encrypt(cipherText);
  }

  /** The substitution undoes itself on every character and keeps ASCII
      letters ASCII letters of the same case. */
  lemma SubstituteInvolution(c: char)
    ensures SubstituteChar(SubstituteChar(c)) == c
    ensures IsAsciiLetter(c) ==> IsAsciiLetter(SubstituteChar(c)) && IsUpper(SubstituteChar(c)) == IsUpper(c)
    ensures !IsAsciiLetter(c) ==> SubstituteChar(c) == c
  {
  }

  lemma SubstituteKeepsFolded(c: char)
    requires FoldChar(c) == c
    ensures FoldChar(SubstituteChar(c)) == SubstituteChar(c)
  {
    if IsAsciiLetter(c) {
      SubstituteInvolution(c);
      FoldCharFacts(SubstituteChar(c));
    }
  }

  /** Encrypted normalised text is itself normalised. */
  lemma EncryptKeepsNormal(s: string)
    requires IsNormal(s)
    ensures IsNormal(EncryptText(s))
  {
    var e := EncryptText(s);
    forall k | 0 <= k < |s|
      ensures FoldChar(e[k]) == e[k]
    {
      SubstituteKeepsFolded(s[k]);
    }
    if s != [] {
      SubstituteInvolution(s[0]);
      SubstituteInvolution(s[|s| - 1]);
    }
  }

  /** Encrypting twice gives back the normalised text, for every input. */
  lemma EncryptTwice(text: string)
    ensures EncryptText(Normalise(EncryptText(Normalise(text)))) == Normalise(text)
  {
    var n := Normalise(text);
    NormaliseIsNormal(text);
    EncryptKeepsNormal(n);
    NormalIsFixed(EncryptText(n));
    forall k | 0 <= k < |n|
      ensures SubstituteChar(SubstituteChar(n[k])) == n[k]
    {
      SubstituteInvolution(n[k]);
    }
  }

  /** The library's own example: both texts normalise to themselves, and
      each encrypts (and so decrypts) to the other. */
  lemma Example(text: string, cipher: string)
    requires text == "Hello World!" && cipher == "Svool Dliow!"
    ensures Normalise(text) == text && Normalise(cipher) == cipher
    ensures EncryptText(Normalise(text)) == cipher
    ensures EncryptText(Normalise(cipher)) == text
  {
    ExamplePrepared(text, cipher);
    ExampleMirror(text, cipher);
  }

  /** `encrypt` sees both example texts unchanged. */
  lemma ExamplePrepared(text: string, cipher: string)
    requires text == "Hello World!" && cipher == "Svool Dliow!"
    ensures Normalise(text) == text && Normalise(cipher) == cipher
  {
    assert IsNormal(text);
    NormalIsFixed(text);
    assert IsNormal(cipher);
    NormalIsFixed(cipher);
  }

  lemma ExampleMirror(text: string, cipher: string)
    requires text == "Hello World!" && cipher == "Svool Dliow!"
    ensures EncryptText(text) == cipher && EncryptText(cipher) == text
  {
  }
}
