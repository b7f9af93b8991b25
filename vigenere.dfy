/** The Vigenère cipher: the k-th letter of the text moves along the alphabet
    by the k-th letter of the key (cycling through the key), and keeps its
    case; characters that are not letters are copied and do not use up a key
    letter. */
module Vigenere {
  import opened Wrappers
  import opened Text

  const EmptyMessage: string := "The key must not be an empty str."
  const AlphaMessage: string := "The key must contains alphabetic chars."

  /** The key as stored: stripped and upper-cased, hence capitals only. */
  type Key = k: string | forall i :: 0 <= i < |k| ==> IsAsciiUpper(k[i])

  /** What `_validate_key` accepts: a non-empty key whose stripped form is
      made of ASCII letters. Note that a key of whitespace alone qualifies. */
  predicate ValidKey(key: string) {
    key != [] && AllAsciiLetters(Strip(key))
  }

  predicate AllAsciiLetters(s: string) {
    forall k :: 0 <= k < |s| ==> IsAsciiLetter(s[k])
  }

  /** `_validate_key`: emptiness of the raw key, then each character of the
      stripped key. */
  method ValidateKey(key: string) returns (r: Outcome<Error>)
    ensures r.Pass? <==> ValidKey(key)
    ensures r.Fail? ==> r.error == ValueError(if key == [] then EmptyMessage else AlphaMessage)
  {
    if key == [] {
      return Fail(ValueError(EmptyMessage));
    }
    r := CheckLetters(Strip(key));
  }

  /** The loop of `_validate_key` over the stripped key. */
  method CheckLetters(s: string) returns (r: Outcome<Error>)
    ensures r.Pass? <==> AllAsciiLetters(s)
    ensures r.Fail? ==> r.error == ValueError(AlphaMessage)
  {
    var i := 0;
    while i < |s|
      invariant 0 <= i <= |s|
      invariant forall k :: 0 <= k < i ==> IsAsciiLetter(s[k])
    {
      AsciiUpperInAlphabet(s[i]);
      if !IsAlpha(s[i]) || Upper(s[i]) !in Alphabet {
        return Fail(ValueError(AlphaMessage));
      }
      i := i + 1;
    }
    return Pass;
  }

  /** The constructor: validate, then keep the stripped key in upper case. */
  method New(key: string) returns (r: Result<Key, Error>)
    ensures r.Success? <==> ValidKey(key)
    ensures r.Success? ==> r.value == UpperStr(Strip(key))
    ensures r.Failure? ==> r.error == ValueError(if key == [] then EmptyMessage else AlphaMessage)
  {
    var check := ValidateKey(key);
    if check.Fail? {
      return Failure(check.error);
    }
    var s := Strip(key);
    var stored := UpperStr(s);
    assert forall i :: 0 <= i < |stored| ==> IsAsciiUpper(stored[i]) by {
      forall i | 0 <= i < |stored| ensures IsAsciiUpper(stored[i]) {
        assert IsAsciiLetter(s[i]);
      }
    }
    return Success(stored);
  }

  // ---------------------------------------------------------------------
  // the specification

  /** The number of letters in `s`: the key index after reading `s`. */
  function CountAlpha(s: string): (n: nat)
    ensures n <= |s|
  {
    if s == [] then 0
    else CountAlpha(s[..|s| - 1]) + (if IsAlpha(s[|s| - 1]) then 1 else 0)
  }

  predicate HasLetter(s: string) {
    exists k :: 0 <= k < |s| && IsAlpha(s[k])
  }

  /** The distance a key letter moves a text letter. */
  function ShiftOf(key: Key, index: nat): (d: nat)
    requires |key| > 0
    ensures d < 26
  {
    key[index % |key|] as int - 'A' as int
  }

  /** A letter moved `d` places forward; the result is an ASCII letter in
      the letter's case. */
  function ShiftChar(c: char, d: nat): char
    requires IsAlpha(c)
  {
    var e := ((Upper(c) as int - 'A' as int + d) % 26 + 'A' as int) as char;
    if IsUpper(c) then e else Lower(e)
  }

  /** A letter moved `d` places back. */
  function UnshiftChar(c: char, d: nat): char
    requires IsAlpha(c) && d < 26
  {
    var e := ((Upper(c) as int - 'A' as int - d + 26) % 26 + 'A' as int) as char;
    if IsUpper(c) then e else Lower(e)
  }

  /** The encryption, position by position: the letter at position k moves
      by the key letter numbered by the count of letters before it. */
  function EncryptText(key: Key, s: string): (r: string)
    ensures |r| == |s|
  {
    seq(|s|, k requires 0 <= k < |s| =>
      if IsAlpha(s[k]) && |key| > 0 then ShiftChar(s[k], ShiftOf(key, CountAlpha(s[..k]))) else s[k])
  }

  function DecryptText(key: Key, s: string): (r: string)
    ensures |r| == |s|
  {
    seq(|s|, k requires 0 <= k < |s| =>
      if IsAlpha(s[k]) && |key| > 0 then UnshiftChar(s[k], ShiftOf(key, CountAlpha(s[..k]))) else s[k])
  }

  // ---------------------------------------------------------------------
  // the library's loops

  lemma CountAlphaStep(s: string, i: nat)
    requires i < |s|
    ensures CountAlpha(s[..i + 1]) == CountAlpha(s[..i]) + if IsAlpha(s[i]) then 1 else 0
  {
    assert s[..i + 1][..i] == s[..i];
  }

  lemma EncryptAt(key: Key, s: string, i: nat)
    requires i < |s|
    ensures EncryptText(key, s)[i]
         == if IsAlpha(s[i]) && |key| > 0 then ShiftChar(s[i], ShiftOf(key, CountAlpha(s[..i]))) else s[i]
  {
  }

  lemma DecryptAt(key: Key, s: string, i: nat)
    requires i < |s|
    ensures DecryptText(key, s)[i]
         == if IsAlpha(s[i]) && |key| > 0 then UnshiftChar(s[i], ShiftOf(key, CountAlpha(s[..i]))) else s[i]
  {
  }

  /** `encrypt`: normalise, then walk the text with a key index that moves
      only on letters. With an empty stored key, the first letter hits a
      modulo by zero; otherwise the first 'ß' fails in `ord`, its upper case
      being two characters long. */
  method Encrypt(key: Key, text: string) returns (r: Result<string, Error>)
    ensures r.Failure? <==> (|key| == 0 && HasLetter(Normalise(text))) || SharpS in Normalise(text)
    ensures r.Failure? ==> r.error == if |key| == 0 && HasLetter(Normalise(text)) then ModuloByZero else TypeError(OrdMessage)
    ensures r.Success? ==> r.value == EncryptText(key, Normalise(text))
  {
    var handled := HandleText(text);
    r := EncryptHandled(key, handled);
  }

  /** The loop of `encrypt`, over the normalised text. */
  method EncryptHandled(key: Key, handled: string) returns (r: Result<string, Error>)
    ensures r.Failure? <==> (|key| == 0 && HasLetter(handled)) || SharpS in handled
    ensures r.Failure? ==> r.error == if |key| == 0 && HasLetter(handled) then ModuloByZero else TypeError(OrdMessage)
    ensures r.Success? ==> r.value == EncryptText(key, handled)
  {
    var encrypted := "";
    var keyIndex := 0;
    var i := 0;
    while i < |handled|
      invariant 0 <= i <= |handled| && |encrypted| == i
      invariant keyIndex == CountAlpha(handled[..i])
      invariant |key| == 0 ==> forall k :: 0 <= k < i ==> !IsAlpha(handled[k])
      invariant forall k :: 0 <= k < i ==> handled[k] != SharpS
      invariant forall k :: 0 <= k < i ==> encrypted[k] == EncryptText(key, handled)[k]
    {
      var c := handled[i];
      CountAlphaStep(handled, i);
      EncryptAt(key, handled, i);
      if IsAlpha(c) {
        if |key| == 0 {
          return Failure(ModuloByZero);
        }
        if c == SharpS {
          return Failure(TypeError(OrdMessage));
        }
        var e := EncryptLetter(key, keyIndex, c);
        encrypted := encrypted + [e];
        keyIndex := keyIndex + 1;
      } else {
        encrypted := encrypted + [c];
      }
      i := i + 1;
    }
    return Success(encrypted);
  }

  /** One letter in the loop of `encrypt`. */
  method EncryptLetter(key: Key, keyIndex: nat, c: char) returns (e: char)
    requires |key| > 0 && IsAlpha(c)
    ensures e == ShiftChar(c, ShiftOf(key, keyIndex))
  {
    var shift := key[keyIndex % |key|] as int - 'A' as int;
    var encryptedChar := ((Upper(c) as int - 'A' as int + shift) % 26 + 'A' as int) as char;
    e := if IsUpper(c) then encryptedChar else Lower(encryptedChar);
  }

  /** `decrypt`: strip, then walk the cipher text the same way, moving each
      letter back; the same two errors can occur. */
  method Decrypt(key: Key, cipherText: string) returns (r: Result<string, Error>)
    ensures r.Failure? <==> (|key| == 0 && HasLetter(Strip(cipherText))) || SharpS in Strip(cipherText)
    ensures r.Failure? ==> r.error == if |key| == 0 && HasLetter(Strip(cipherText)) then ModuloByZero else TypeError(OrdMessage)
    ensures r.Success? ==> r.value == DecryptText(key, Strip(cipherText))
  {
    r := DecryptHandled(key, Strip(cipherText));
  }

  /** The loop of `decrypt`, over the stripped cipher text. */
  method DecryptHandled(key: Key, handled: string) returns (r: Result<string, Error>)
    ensures r.Failure? <==> (|key| == 0 && HasLetter(handled)) || SharpS in handled
    ensures r.Failure? ==> r.error == if |key| == 0 && HasLetter(handled) then ModuloByZero else TypeError(OrdMessage)
    ensures r.Success? ==> r.value == DecryptText(key, handled)
  {
    var decrypted := "";
    var keyIndex := 0;
    var i := 0;
    while i < |handled|
      invariant 0 <= i <= |handled| && |decrypted| == i
      invariant keyIndex == CountAlpha(handled[..i])
      invariant |key| == 0 ==> forall k :: 0 <= k < i ==> !IsAlpha(handled[k])
      invariant forall k :: 0 <= k < i ==> handled[k] != SharpS
      invariant forall k :: 0 <= k < i ==> decrypted[k] == DecryptText(key, handled)[k]
    {
      var c := handled[i];
      CountAlphaStep(handled, i);
      DecryptAt(key, handled, i);
      if IsAlpha(c) {
        if |key| == 0 {
          return Failure(ModuloByZero);
        }
        if c == SharpS {
          return Failure(TypeError(OrdMessage));
        }
        var d := DecryptLetter(key, keyIndex, c);
        decrypted := decrypted + [d];
        keyIndex := keyIndex + 1;
      } else {
        decrypted := decrypted + [c];
      }
      i := i + 1;
    }
    return Success(decrypted);
  }

  /** One letter in the loop of `decrypt`. */
  method DecryptLetter(key: Key, keyIndex: nat, c: char) returns (d: char)
    requires |key| > 0 && IsAlpha(c)
    ensures d == UnshiftChar(c, ShiftOf(key, keyIndex))
  {
    var shift := key[keyIndex % |key|] as int - 'A' as int;
    var decryptedChar := ((Upper(c) as int - 'A' as int - shift + 26) % 26 + 'A' as int) as char;
    d := if IsUpper(c) then decryptedChar else Lower(decryptedChar);
  }

  // ---------------------------------------------------------------------
  // properties

  /** Shifting back undoes shifting forward on ASCII letters; both keep the
      case and give ASCII letters. */
  lemma ShiftRoundTrip(c: char, d: nat)
    requires IsAlpha(c) && d < 26
    ensures IsAsciiLetter(ShiftChar(c, d)) && IsUpper(ShiftChar(c, d)) == IsUpper(c)
    ensures IsAsciiLetter(UnshiftChar(c, d)) && IsUpper(UnshiftChar(c, d)) == IsUpper(c)
    ensures IsAsciiLetter(c) ==> UnshiftChar(ShiftChar(c, d), d) == c && ShiftChar(UnshiftChar(c, d), d) == c
  {
    ShiftCase(c, d);
    UnshiftCase(c, d);
    if IsAsciiLetter(c) {
      UnshiftShift(c, d);
      ShiftUnshift(c, d);
    }
  }

  /** The capital numbered `x % 26`, in the case of `c`. */
  lemma InCase(c: char, x: int)
    requires IsAlpha(c)
    ensures var e := (x % 26 + 'A' as int) as char;
      var r := if IsUpper(c) then e else Lower(e);
      IsAsciiLetter(r) && IsUpper(r) == IsUpper(c) && Upper(r) == e
  {
  }

  lemma ShiftCase(c: char, d: nat)
    requires IsAlpha(c)
    ensures IsAsciiLetter(ShiftChar(c, d)) && IsUpper(ShiftChar(c, d)) == IsUpper(c)
    ensures Upper(ShiftChar(c, d)) as int - 'A' as int == (Upper(c) as int - 'A' as int + d) % 26
  {
    InCase(c, Upper(c) as int - 'A' as int + d);
  }

  lemma UnshiftCase(c: char, d: nat)
    requires IsAlpha(c) && d < 26
    ensures IsAsciiLetter(UnshiftChar(c, d)) && IsUpper(UnshiftChar(c, d)) == IsUpper(c)
    ensures Upper(UnshiftChar(c, d)) as int - 'A' as int == (Upper(c) as int - 'A' as int - d + 26) % 26
  {
    InCase(c, Upper(c) as int - 'A' as int - d + 26);
  }

  /** Two ASCII letters with the same capital and the same case are equal. */
  lemma UnshiftShift(c: char, d: nat)
    requires IsAsciiLetter(c) && d < 26
    ensures UnshiftChar(ShiftChar(c, d), d) == c
  {
    var x := Upper(c) as int - 'A' as int;
    var s := ShiftChar(c, d);
    ShiftCase(c, d);
    UnshiftCase(s, d);
    ModShiftInverse(x, d);
    SameLetter(UnshiftChar(s, d), c);
  }

  lemma ShiftUnshift(c: char, d: nat)
    requires IsAsciiLetter(c) && d < 26
    ensures ShiftChar(UnshiftChar(c, d), d) == c
  {
    var x := Upper(c) as int - 'A' as int;
    var u := UnshiftChar(c, d);
    UnshiftCase(c, d);
    ShiftCase(u, d);
    ModShiftInverse(x, d);
    SameLetter(ShiftChar(u, d), c);
  }

  lemma ModShiftInverse(x: int, d: int)
    requires 0 <= x < 26 && 0 <= d < 26
    ensures ((x + d) % 26 - d + 26) % 26 == x
    ensures ((x - d + 26) % 26 + d) % 26 == x
  {
    if x + d < 26 {
      assert (x + d) % 26 == x + d;
    } else {
      assert (x + d) % 26 == x + d - 26;
    }
    if x - d >= 0 {
      assert (x - d + 26) % 26 == x - d;
    } else {
      assert (x - d + 26) % 26 == x - d + 26;
    }
  }

  /** Two texts with letters at the same places have the same letter counts
      on every prefix. */
  lemma {:induction false} CountAlphaSamePattern(a: string, b: string, i: nat)
    requires |a| == |b| && i <= |a|
    requires forall k :: 0 <= k < |a| ==> IsAlpha(a[k]) == IsAlpha(b[k])
    ensures CountAlpha(a[..i]) == CountAlpha(b[..i])
  {
    if i > 0 {
      CountAlphaSamePattern(a, b, i - 1);
      CountAlphaStep(a, i - 1);
      CountAlphaStep(b, i - 1);
    }
  }

  /** Encryption and decryption leave non-letters where they are and keep
      letters letters. */
  lemma KeepsPattern(key: Key, s: string)
    requires |key| > 0
    ensures forall k :: 0 <= k < |s| ==> IsAlpha(EncryptText(key, s)[k]) == IsAlpha(s[k])
    ensures forall k :: 0 <= k < |s| ==> IsAlpha(DecryptText(key, s)[k]) == IsAlpha(s[k])
    ensures forall k :: 0 <= k < |s| && !IsAlpha(s[k]) ==> EncryptText(key, s)[k] == s[k] && DecryptText(key, s)[k] == s[k]
  {
    forall k | 0 <= k < |s| && IsAlpha(s[k])
      ensures IsAlpha(EncryptText(key, s)[k]) && IsAlpha(DecryptText(key, s)[k])
    {
      ShiftRoundTrip(s[k], ShiftOf(key, CountAlpha(s[..k])));
    }
  }

  /** Decrypting what `encrypt` produced gives back the normalised text, for
      a non-empty key and text whose letters all fold to ASCII. */
  lemma RoundTrip(key: Key, text: string)
    requires |key| > 0
    requires forall c :: c in text ==> Plain(c)
    ensures DecryptText(key, Strip(EncryptText(key, Normalise(text)))) == Normalise(text)
  {
    var n := Normalise(text);
    NormalisePlain(text);
    NormaliseIsNormal(text);
    EncryptedStripped(key, n);
    DecryptEncrypted(key, n);
  }

  /** Encryption of stripped text is stripped. */
  lemma EncryptedStripped(key: Key, n: string)
    requires |key| > 0 && IsStripped(n)
    ensures Strip(EncryptText(key, n)) == EncryptText(key, n)
  {
    var e := EncryptText(key, n);
    if n != [] {
      EncryptedEnd(key, n, 0);
      EncryptedEnd(key, n, |n| - 1);
    }
  }

  /** A character that is not a space encrypts to one that is not a space. */
  lemma EncryptedEnd(key: Key, n: string, k: nat)
    requires |key| > 0 && k < |n| && !IsSpace(n[k])
    ensures !IsSpace(EncryptText(key, n)[k])
  {
    EncryptAt(key, n, k);
    if IsAlpha(n[k]) {
      ShiftCase(n[k], ShiftOf(key, CountAlpha(n[..k])));
    }
  }

  /** Decryption undoes encryption on text whose letters are ASCII. */
  lemma DecryptEncrypted(key: Key, n: string)
    requires |key| > 0
    requires forall k :: 0 <= k < |n| ==> !IsAlpha(n[k]) || IsAsciiLetter(n[k])
    ensures DecryptText(key, EncryptText(key, n)) == n
  {
    var e := EncryptText(key, n);
    KeepsPattern(key, n);
    forall k | 0 <= k < |n| ensures DecryptText(key, e)[k] == n[k] {
      DecryptAt(key, e, k);
      EncryptAt(key, n, k);
      if IsAlpha(n[k]) {
        CountAlphaSamePattern(e, n, k);
        ShiftRoundTrip(n[k], ShiftOf(key, CountAlpha(n[..k])));
      }
    }
  }

  /** A key of whitespace alone passes validation but is stored empty, so
      encrypting any text with a letter in it fails. */
  lemma BlankKeyAccepted(key: string, text: string)
    requires key == "   " && text == "a"
    ensures ValidKey(key) && UpperStr(Strip(key)) == []
    ensures HasLetter(Normalise(text))
  {
    assert TrimStart(key[2..]) == [];
    assert TrimStart(key[1..]) == [];
    assert Strip(key) == [];
    assert IsStripped(text);
    var n := Normalise(text);
    assert n[0] == FoldChar('a');
  }

  /** The library's own example with the key "KEY": `encrypt` normalises
      "Hello World!" to itself, finds no 'ß' and shifts it to "Rijvs Uyvjn!";
      `decrypt` strips that to itself and shifts it back. */
  lemma Example(key: Key, text: string, cipher: string)
    requires key == "KEY" && text == "Hello World!" && cipher == "Rijvs Uyvjn!"
    ensures Normalise(text) == text && SharpS !in Normalise(text)
    ensures Strip(cipher) == cipher && SharpS !in Strip(cipher)
    ensures EncryptText(key, Normalise(text)) == cipher
    ensures DecryptText(key, Strip(cipher)) == text
  {
    ExamplePrepared(text, cipher);
    ExampleEncrypt(key, text, cipher);
    ExampleDecrypt(key, text, cipher);
  }

  /** `encrypt` and `decrypt` see the example texts unchanged. */
  lemma ExamplePrepared(text: string, cipher: string)
    requires text == "Hello World!" && cipher == "Rijvs Uyvjn!"
    ensures Normalise(text) == text && SharpS !in text
    ensures Strip(cipher) == cipher && SharpS !in cipher
  {
    assert IsNormal(text);
    NormalIsFixed(text);
    assert IsStripped(cipher);
  }

  lemma ExampleEncrypt(key: Key, text: string, cipher: string)
    requires key == "KEY" && text == "Hello World!" && cipher == "Rijvs Uyvjn!"
    ensures EncryptText(key, text) == cipher
  {
    EncryptPart0(key, text, cipher);
    EncryptPart3(key, text, cipher);
    EncryptPart6(key, text, cipher);
    EncryptPart9(key, text, cipher);
  }

  lemma ExampleDecrypt(key: Key, text: string, cipher: string)
    requires key == "KEY" && text == "Hello World!" && cipher == "Rijvs Uyvjn!"
    ensures DecryptText(key, cipher) == text
  {
    DecryptPart0(key, text, cipher);
    DecryptPart3(key, text, cipher);
    DecryptPart6(key, text, cipher);
    DecryptPart9(key, text, cipher);
  }

  lemma ShiftFacts0()
    ensures ShiftChar('H', 10) == 'R' && ShiftChar('e', 4) == 'i' && ShiftChar('l', 24) == 'j'
  {
  }

  lemma UnshiftFacts0()
    ensures UnshiftChar('R', 10) == 'H' && UnshiftChar('i', 4) == 'e' && UnshiftChar('j', 24) == 'l'
  {
  }

  /** Positions 0 to 2 of the example's encryption. */
  lemma EncryptPart0(key: Key, text: string, cipher: string)
    requires key == "KEY" && text == "Hello World!" && cipher == "Rijvs Uyvjn!"
    ensures forall k :: 0 <= k < 3 ==> EncryptText(key, text)[k] == cipher[k]
  {
    ExampleCounts(text);
    ShiftFacts0();
    EncryptAt(key, text, 0); EncryptAt(key, text, 1); EncryptAt(key, text, 2);
  }

  /** Positions 0 to 2 of the example's decryption. */
  lemma DecryptPart0(key: Key, text: string, cipher: string)
    requires key == "KEY" && text == "Hello World!" && cipher == "Rijvs Uyvjn!"
    ensures forall k :: 0 <= k < 3 ==> DecryptText(key, cipher)[k] == text[k]
  {
    ExampleCounts(cipher);
    UnshiftFacts0();
    DecryptAt(key, cipher, 0); DecryptAt(key, cipher, 1); DecryptAt(key, cipher, 2);
  }

  lemma ShiftFacts3()
    ensures ShiftChar('l', 10) == 'v' && ShiftChar('o', 4) == 's'
  {
  }

  lemma UnshiftFacts3()
    ensures UnshiftChar('v', 10) == 'l' && UnshiftChar('s', 4) == 'o'
  {
  }

  /** Positions 3 to 5 of the example's encryption. */
  lemma EncryptPart3(key: Key, text: string, cipher: string)
    requires key == "KEY" && text == "Hello World!" && cipher == "Rijvs Uyvjn!"
    ensures forall k :: 3 <= k < 6 ==> EncryptText(key, text)[k] == cipher[k]
  {
    ExampleCounts(text);
    ShiftFacts3();
    EncryptAt(key, text, 3); EncryptAt(key, text, 4); EncryptAt(key, text, 5);
  }

  /** Positions 3 to 5 of the example's decryption. */
  lemma DecryptPart3(key: Key, text: string, cipher: string)
    requires key == "KEY" && text == "Hello World!" && cipher == "Rijvs Uyvjn!"
    ensures forall k :: 3 <= k < 6 ==> DecryptText(key, cipher)[k] == text[k]
  {
    ExampleCounts(cipher);
    UnshiftFacts3();
    DecryptAt(key, cipher, 3); DecryptAt(key, cipher, 4); DecryptAt(key, cipher, 5);
  }

  lemma ShiftFacts6()
    ensures ShiftChar('W', 24) == 'U' && ShiftChar('o', 10) == 'y' && ShiftChar('r', 4) == 'v'
  {
  }

  lemma UnshiftFacts6()
    ensures UnshiftChar('U', 24) == 'W' && UnshiftChar('y', 10) == 'o' && UnshiftChar('v', 4) == 'r'
  {
  }

  /** Positions 6 to 8 of the example's encryption. */
  lemma EncryptPart6(key: Key, text: string, cipher: string)
    requires key == "KEY" && text == "Hello World!" && cipher == "Rijvs Uyvjn!"
    ensures forall k :: 6 <= k < 9 ==> EncryptText(key, text)[k] == cipher[k]
  {
    ExampleCounts(text);
    ShiftFacts6();
    EncryptAt(key, text, 6); EncryptAt(key, text, 7); EncryptAt(key, text, 8);
  }

  /** Positions 6 to 8 of the example's decryption. */
  lemma DecryptPart6(key: Key, text: string, cipher: string)
    requires key == "KEY" && text == "Hello World!" && cipher == "Rijvs Uyvjn!"
    ensures forall k :: 6 <= k < 9 ==> DecryptText(key, cipher)[k] == text[k]
  {
    ExampleCounts(cipher);
    UnshiftFacts6();
    DecryptAt(key, cipher, 6); DecryptAt(key, cipher, 7); DecryptAt(key, cipher, 8);
  }

  lemma ShiftFacts9()
    ensures ShiftChar('l', 24) == 'j' && ShiftChar('d', 10) == 'n'
  {
  }

  lemma UnshiftFacts9()
    ensures UnshiftChar('j', 24) == 'l' && UnshiftChar('n', 10) == 'd'
  {
  }

  /** Positions 9 to 11 of the example's encryption. */
  lemma EncryptPart9(key: Key, text: string, cipher: string)
    requires key == "KEY" && text == "Hello World!" && cipher == "Rijvs Uyvjn!"
    ensures forall k :: 9 <= k < 12 ==> EncryptText(key, text)[k] == cipher[k]
  {
    ExampleCounts(text);
    ShiftFacts9();
    EncryptAt(key, text, 9); EncryptAt(key, text, 10); EncryptAt(key, text, 11);
  }

  /** Positions 9 to 11 of the example's decryption. */
  lemma DecryptPart9(key: Key, text: string, cipher: string)
    requires key == "KEY" && text == "Hello World!" && cipher == "Rijvs Uyvjn!"
    ensures forall k :: 9 <= k < 12 ==> DecryptText(key, cipher)[k] == text[k]
  {
    ExampleCounts(cipher);
    UnshiftFacts9();
    DecryptAt(key, cipher, 9); DecryptAt(key, cipher, 10); DecryptAt(key, cipher, 11);
  }

  /** The letter counts before each position, the same for the example's
      text and its encryption. */
  lemma ExampleCounts(text: string)
    requires |text| == 12 && !IsAlpha(text[5]) && !IsAlpha(text[11])
    requires forall k :: 0 <= k < 12 && k != 5 && k != 11 ==> IsAlpha(text[k])
    ensures CountAlpha(text[..0]) == 0 && CountAlpha(text[..1]) == 1 && CountAlpha(text[..2]) == 2
    ensures CountAlpha(text[..3]) == 3 && CountAlpha(text[..4]) == 4 && CountAlpha(text[..5]) == 5
    ensures CountAlpha(text[..6]) == 5 && CountAlpha(text[..7]) == 6 && CountAlpha(text[..8]) == 7
    ensures CountAlpha(text[..9]) == 8 && CountAlpha(text[..10]) == 9 && CountAlpha(text[..11]) == 10
  {
    CountAlphaStep(text, 0); CountAlphaStep(text, 1); CountAlphaStep(text, 2);
    CountAlphaStep(text, 3); CountAlphaStep(text, 4); CountAlphaStep(text, 5);
    CountAlphaStep(text, 6); CountAlphaStep(text, 7); CountAlphaStep(text, 8);
    CountAlphaStep(text, 9); CountAlphaStep(text, 10);
  }
}
