/** Caesar's cipher (`CaesarsCipher`): every letter moves a fixed number of
    places along the alphabet, wrapping once past 'Z', and keeps its case. */
module Caesar {
  import opened Wrappers
  import opened Text

  /** The shifts the constructor accepts. */
  type Shift = s: int | 1 <= s <= 25 witness 1

  const ShiftRangeMessage: string := "The given value must be >= 1 and < 26."

  /** The constructor's check of the shift. */
  function New(shift: int): (r: Result<Shift, Error>)
    ensures r.Success? <==> 1 <= shift <= 25
    ensures r.Success? ==> r.value == shift
    ensures r.Failure? ==> r.error == ValueError(ShiftRangeMessage)
  {
    if shift < 1 || shift > 25 then Failure(ValueError(ShiftRangeMessage)) else Success(shift)
  }

  /** Place of an ASCII letter in the alphabet, whatever its case. */
  function Pos(c: char): int {
    Upper(c) as int - 'A' as int
  }

  /** What `encrypt` emits for one character of the normalised text. */
  function EncryptChar(shift: Shift, c: char): char {
    if IsAlpha(c) then
      var i := Upper(c) as int + shift;
      var j := if i > 'Z' as int then i - 26 else i;
      if IsUpper(c) then j as char else Lower(j as char)
    else c
  }

  /** What `decrypt` emits for one character of the stripped cipher text. */
  function DecryptChar(shift: Shift, c: char): char {
    if IsAlpha(c) then
      var i := Upper(c) as int - shift;
      var j := if i < 'A' as int then i + 26 else i;
      if IsUpper(c) then j as char else Lower(j as char)
    else c
  }

  function EncryptText(shift: Shift, s: string): (r: string)
    ensures |r| == |s|
  {
    seq(|s|, k requires 0 <= k < |s| => EncryptChar(shift, s[k]))
  }

  function DecryptText(shift: Shift, s: string): (r: string)
    ensures |r| == |s|
  {
    seq(|s|, k requires 0 <= k < |s| => DecryptChar(shift, s[k]))
  }

  /** `encrypt`: normalise, then shift every letter forward. The upper
      case of 'ß' is two characters long, so `ord` of it fails. */
  method Encrypt(shift: Shift, text: string) returns (r: Result<string, Error>)
    ensures r.Failure? <==> SharpS in Normalise(text)
    ensures r.Failure? ==> r.error == TypeError(OrdMessage)
    ensures r.Success? ==> r.value == EncryptText(shift, Normalise(text))
  {
    var handled := HandleText(text);
    r := EncryptHandled(shift, handled);
  }

  /** The loop of `encrypt`, over the normalised text. */
  method EncryptHandled(shift: Shift, handled: string) returns (r: Result<string, Error>)
    ensures r.Failure? <==> SharpS in handled
    ensures r.Failure? ==> r.error == TypeError(OrdMessage)
    ensures r.Success? ==> r.value == EncryptText(shift, handled)
  {
    var encrypted := "";
    var i := 0;
    while i < |handled|
      invariant 0 <= i <= |handled| && |encrypted| == i
      invariant forall k :: 0 <= k < i ==> handled[k] != SharpS
      invariant forall k :: 0 <= k < i ==> encrypted[k] == EncryptChar(shift, handled[k])
    {
      var c := handled[i];
      if IsAlpha(c) {
        if c == SharpS {
          return Failure(TypeError(OrdMessage));
        }
        var e := ShiftForward(shift, c);
        encrypted := encrypted + [e];
      } else {
        encrypted := encrypted + [c];
      }
      i := i + 1;
    }
    assert encrypted == EncryptText(shift, handled);
    return Success(encrypted);
  }

  /** One letter in the loop of `encrypt`: its upper case moved forward,
      wrapping past 'Z', in the letter's case. */
  method ShiftForward(shift: Shift, c: char) returns (e: char)
    requires IsAlpha(c)
    ensures e == EncryptChar(shift, c)
  {
    var index := Upper(c) as int + shift;
    if index > 'Z' as int {
      index := index - 26;
    }
    e := if IsUpper(c) then index as char else Lower(index as char);
  }

  /** `decrypt`: strip, then shift every letter back; 'ß' fails as in
      `encrypt`. */
  method Decrypt(shift: Shift, cipherText: string) returns (r: Result<string, Error>)
    ensures r.Failure? <==> SharpS in Strip(cipherText)
    ensures r.Failure? ==> r.error == TypeError(OrdMessage)
    ensures r.Success? ==> r.value == DecryptText(shift, Strip(cipherText))
  {
    r := DecryptHandled(shift, Strip(cipherText));
  }

  /** The loop of `decrypt`, over the stripped cipher text. */
  method DecryptHandled(shift: Shift, handled: string) returns (r: Result<string, Error>)
    ensures r.Failure? <==> SharpS in handled
    ensures r.Failure? ==> r.error == TypeError(OrdMessage)
    ensures r.Success? ==> r.value == DecryptText(shift, handled)
  {
    var decrypted := "";
    var i := 0;
    while i < |handled|
      invariant 0 <= i <= |handled| && |decrypted| == i
      invariant forall k :: 0 <= k < i ==> handled[k] != SharpS
      invariant forall k :: 0 <= k < i ==> decrypted[k] == DecryptChar(shift, handled[k])
    {
      var c := handled[i];
      if IsAlpha(c) {
        if c == SharpS {
          return Failure(TypeError(OrdMessage));
        }
        var d := ShiftBack(shift, c);
        decrypted := decrypted + [d];
      } else {
        decrypted := decrypted + [c];
      }
      i := i + 1;
    }
    assert decrypted == DecryptText(shift, handled);
    return Success(decrypted);
  }

  /** One letter in the loop of `decrypt`: its upper case moved back,
      wrapping before 'A', in the letter's case. */
  method ShiftBack(shift: Shift, c: char) returns (d: char)
    requires IsAlpha(c)
    ensures d == DecryptChar(shift, c)
  {
    var index := Upper(c) as int - shift;
    if index < 'A' as int {
      index := index + 26;
    }
    d := if IsUpper(c) then index as char else Lower(index as char);
  }

  /** An ASCII letter moves `shift` places forward modulo 26, stays an ASCII
      letter and keeps its case; a non-letter is left alone. */
  lemma EncryptCharFacts(shift: Shift, c: char)
    ensures !IsAlpha(c) ==> EncryptChar(shift, c) == c
    ensures IsAsciiLetter(c) ==>
      && IsAsciiLetter(EncryptChar(shift, c))
      && IsUpper(EncryptChar(shift, c)) == IsUpper(c)
      && Pos(EncryptChar(shift, c)) == (Pos(c) + shift) % 26
  {
  }

  /** An ASCII letter moves `shift` places back modulo 26, stays an ASCII
      letter and keeps its case; a non-letter is left alone. */
  lemma DecryptCharFacts(shift: Shift, c: char)
    ensures !IsAlpha(c) ==> DecryptChar(shift, c) == c
    ensures IsAsciiLetter(c) ==>
      && IsAsciiLetter(DecryptChar(shift, c))
      && IsUpper(DecryptChar(shift, c)) == IsUpper(c)
      && Pos(DecryptChar(shift, c)) == (Pos(c) - shift) % 26
  {
  }

  /** On ASCII letters and non-letters the two directions undo each other. */
  lemma CharRoundTrip(shift: Shift, c: char)
    requires !IsAlpha(c) || IsAsciiLetter(c)
    ensures DecryptChar(shift, EncryptChar(shift, c)) == c
    ensures EncryptChar(shift, DecryptChar(shift, c)) == c
  {
    if IsAlpha(c) {
      EncryptBack(shift, c);
      DecryptBack(shift, c);
    }
  }

  lemma EncryptBack(shift: Shift, c: char)
    requires IsAsciiLetter(c)
    ensures DecryptChar(shift, EncryptChar(shift, c)) == c
  {
    var e := EncryptChar(shift, c);
    EncryptCharFacts(shift, c);
    DecryptCharFacts(shift, e);
    ModBack(Pos(c), shift);
    SameLetter(DecryptChar(shift, e), c);
  }

  lemma DecryptBack(shift: Shift, c: char)
    requires IsAsciiLetter(c)
    ensures EncryptChar(shift, DecryptChar(shift, c)) == c
  {
    var d := DecryptChar(shift, c);
    DecryptCharFacts(shift, c);
    EncryptCharFacts(shift, d);
    ModBack(Pos(c), shift);
    SameLetter(EncryptChar(shift, d), c);
  }

  /** Moving forward and back by the same shift, modulo 26, in either order. */
  lemma ModBack(x: int, shift: Shift)
    requires 0 <= x < 26
    ensures ((x + shift) % 26 - shift) % 26 == x
    ensures ((x - shift) % 26 + shift) % 26 == x
  {
    if x + shift < 26 {
      assert (x + shift) % 26 == x + shift;
    } else {
      assert (x + shift) % 26 == x + shift - 26;
    }
    if x - shift >= 0 {
      assert (x - shift) % 26 == x - shift;
    } else {
      assert (x - shift) % 26 == x - shift + 26;
    }
  }

  /** Text whose letters are all ASCII. */
  predicate AsciiLettered(s: string) {
    forall k :: 0 <= k < |s| ==> !IsAlpha(s[k]) || IsAsciiLetter(s[k])
  }

  /** Such text has no 'ß', so `encrypt` and `decrypt` do not fail on it. */
  lemma AsciiLetteredNoSharpS(s: string)
    requires AsciiLettered(s)
    ensures SharpS !in s
  {
  }

  lemma EncryptKeepsShape(shift: Shift, s: string)
    requires AsciiLettered(s) && IsStripped(s)
    ensures AsciiLettered(EncryptText(shift, s)) && IsStripped(EncryptText(shift, s))
  {
    forall k | 0 <= k < |s|
      ensures !IsAlpha(EncryptText(shift, s)[k]) || IsAsciiLetter(EncryptText(shift, s)[k])
    {
      EncryptCharFacts(shift, s[k]);
    }
    if s != [] {
      EncryptCharFacts(shift, s[0]);
      EncryptCharFacts(shift, s[|s| - 1]);
    }
  }

  lemma DecryptKeepsShape(shift: Shift, s: string)
    requires AsciiLettered(s) && IsStripped(s)
    ensures AsciiLettered(DecryptText(shift, s)) && IsStripped(DecryptText(shift, s))
  {
    forall k | 0 <= k < |s|
      ensures !IsAlpha(DecryptText(shift, s)[k]) || IsAsciiLetter(DecryptText(shift, s)[k])
    {
      DecryptCharFacts(shift, s[k]);
    }
    if s != [] {
      DecryptCharFacts(shift, s[0]);
      DecryptCharFacts(shift, s[|s| - 1]);
    }
  }

  /** Decrypting what `encrypt` produced gives back the normalised text, for
      text whose letters all fold to ASCII. */
  lemma RoundTrip(shift: Shift, text: string)
    requires forall c :: c in text ==> Plain(c)
    ensures DecryptText(shift, Strip(EncryptText(shift, Normalise(text)))) == Normalise(text)
  {
    var n := Normalise(text);
    NormalisePlain(text);
    NormaliseIsNormal(text);
    EncryptKeepsShape(shift, n);
    forall k | 0 <= k < |n|
      ensures DecryptChar(shift, EncryptText(shift, n)[k]) == n[k]
    {
      CharRoundTrip(shift, n[k]);
    }
  }

  /** The other direction: encrypting what `decrypt` produced gives back the
      stripped cipher text, for cipher text whose letters are all ASCII. */
  lemma RoundTripReverse(shift: Shift, cipherText: string)
    requires AsciiLettered(cipherText)
    ensures EncryptText(shift, Normalise(DecryptText(shift, Strip(cipherText)))) == Strip(cipherText)
  {
    var s := Strip(cipherText);
    assert AsciiLettered(s) by {
      forall k | 0 <= k < |s|
        ensures !IsAlpha(s[k]) || IsAsciiLetter(s[k])
      {
        assert s[k] in s;
        StripKeepsChars(cipherText, s[k]);
      }
    }
    var d := DecryptText(shift, s);
    DecryptKeepsShape(shift, s);
    forall k | 0 <= k < |d|
      ensures FoldChar(d[k]) == d[k]
    {
      FoldCharFacts(d[k]);
    }
    NormalIsFixed(d);
    forall k | 0 <= k < |s|
      ensures EncryptChar(shift, d[k]) == s[k]
    {
      CharRoundTrip(shift, s[k]);
    }
  }

  /** The library's own example with shift 3: `encrypt` normalises
      "Hello World!" to itself, finds no 'ß' and shifts it to "Khoor Zruog!";
      `decrypt` strips that to itself and shifts it back. */
  lemma Example(text: string, cipher: string)
    requires text == "Hello World!" && cipher == "Khoor Zruog!"
    ensures Normalise(text) == text && SharpS !in Normalise(text)
    ensures Strip(cipher) == cipher && SharpS !in Strip(cipher)
    ensures EncryptText(3, Normalise(text)) == cipher
    ensures DecryptText(3, Strip(cipher)) == text
  {
    ExamplePrepared(text, cipher);
    ExampleEncrypt(text);
    ExampleDecrypt(cipher);
  }

  /** `encrypt` and `decrypt` see the example texts unchanged. */
  lemma ExamplePrepared(text: string, cipher: string)
    requires text == "Hello World!" && cipher == "Khoor Zruog!"
    ensures Normalise(text) == text && SharpS !in text
    ensures Strip(cipher) == cipher && SharpS !in cipher
  {
    assert IsNormal(text);
    NormalIsFixed(text);
    assert IsStripped(cipher);
  }

  lemma ExampleEncrypt(s: string)
    requires s == "Hello World!"
    ensures EncryptText(3, s) == "Khoor Zruog!"
  {
    EncryptFactsA();
    EncryptFactsB();
    var e := EncryptText(3, s);
    assert e[0] == EncryptChar(3, 'H') && e[1] == EncryptChar(3, 'e') && e[2] == EncryptChar(3, 'l');
    assert e[3] == EncryptChar(3, 'l') && e[4] == EncryptChar(3, 'o') && e[5] == EncryptChar(3, ' ');
    assert e[6] == EncryptChar(3, 'W') && e[7] == EncryptChar(3, 'o') && e[8] == EncryptChar(3, 'r');
    assert e[9] == EncryptChar(3, 'l') && e[10] == EncryptChar(3, 'd') && e[11] == EncryptChar(3, '!');
  }

  lemma EncryptFactsA()
    ensures EncryptChar(3, 'H') == 'K' && EncryptChar(3, 'e') == 'h' && EncryptChar(3, 'l') == 'o'
    ensures EncryptChar(3, 'o') == 'r' && EncryptChar(3, ' ') == ' '
  {
  }

  lemma EncryptFactsB()
    ensures EncryptChar(3, 'W') == 'Z' && EncryptChar(3, 'r') == 'u' && EncryptChar(3, 'd') == 'g'
    ensures EncryptChar(3, '!') == '!'
  {
  }

  lemma ExampleDecrypt(s: string)
    requires s == "Khoor Zruog!"
    ensures DecryptText(3, s) == "Hello World!"
  {
    DecryptFactsA();
    DecryptFactsB();
    var d := DecryptText(3, s);
    assert d[0] == DecryptChar(3, 'K') && d[1] == DecryptChar(3, 'h') && d[2] == DecryptChar(3, 'o');
    assert d[3] == DecryptChar(3, 'o') && d[4] == DecryptChar(3, 'r') && d[5] == DecryptChar(3, ' ');
    assert d[6] == DecryptChar(3, 'Z') && d[7] == DecryptChar(3, 'r') && d[8] == DecryptChar(3, 'u');
    assert d[9] == DecryptChar(3, 'o') && d[10] == DecryptChar(3, 'g') && d[11] == DecryptChar(3, '!');
  }

  lemma DecryptFactsA()
    ensures DecryptChar(3, 'K') == 'H' && DecryptChar(3, 'h') == 'e' && DecryptChar(3, 'o') == 'l'
    ensures DecryptChar(3, 'r') == 'o' && DecryptChar(3, ' ') == ' '
  {
  }

  lemma DecryptFactsB()
    ensures DecryptChar(3, 'Z') == 'W' && DecryptChar(3, 'u') == 'r' && DecryptChar(3, 'g') == 'd'
    ensures DecryptChar(3, '!') == '!'
  {
  }
}
