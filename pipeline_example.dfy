/** The library's documented pipeline, Atbash then Caesar with shift 3 then
    Morse, worked through on "Hello World!" step by step. */
module PipelineExample {
  import opened Wrappers
  import opened Text
  import Caesar
  import Atbash
  import Morse
  import opened Pipeline

  const ExampleText: string := "Hello World!"
  const AfterAtbash: string := "Svool Dliow!"
  const AfterCaesar: string := "Vyrro Golrz!"
  const ExampleLetters: string := "VYRROGOLRZ"
  const ExampleCodes: seq<string> := ["...-", "-.--", ".-.", ".-.", "---", "--.", "---", ".-..", ".-.", "--.."]
  const BackFromCaesar: string := "SVOOLDLIOW"
  const ExampleResult: string := "HELLOWORLD"

  /** A chain of two steps. */
  lemma ChainOfTwo(dir: Direction, steps: seq<Step>, text: string, t1: string, r: Result<string, Error>)
    requires |steps| == 2 && AllWellFormed(steps)
    requires Apply(dir, steps[0], text) == Success(t1)
    requires Apply(dir, steps[1], t1) == r
    ensures Chain(dir, steps, text) == r
  {
    ChainSingle(dir, steps[0], text);
    assert steps[..1] == [steps[0]];
    ChainLast(dir, steps, text, t1);
  }

  /** A chain of three steps: two, then the third. */
  lemma ChainOfThree(dir: Direction, steps: seq<Step>, text: string, t1: string, t2: string, r: Result<string, Error>)
    requires |steps| == 3 && AllWellFormed(steps)
    requires Apply(dir, steps[0], text) == Success(t1)
    requires Apply(dir, steps[1], t1) == Success(t2)
    requires Apply(dir, steps[2], t2) == r
    ensures Chain(dir, steps, text) == r
  {
    var init := steps[..2];
    assert init[0] == steps[0] && init[1] == steps[1];
    ChainOfTwo(dir, init, text, t1, Success(t2));
    ChainLast(dir, steps, text, t2);
  }

  /** The documented pipeline's steps are well formed, and reversed they
      run Morse, Caesar, Atbash. */
  lemma ExampleSteps(steps: seq<Step>)
    requires steps == [AtbashStep, CaesarStep(3), MorseStep]
    ensures AllWellFormed(steps)
    ensures Reverse(steps) == [MorseStep, CaesarStep(3), AtbashStep]
    ensures AllWellFormed(Reverse(steps))
  {
  }

  /** What one step returns, from what its cipher computes. */
  lemma AtbashBridge(dir: Direction, t: string, u: string)
    requires Atbash.EncryptText(Normalise(t)) == u
    ensures Apply(dir, AtbashStep, t) == Success(u)
  {
  }

  lemma CaesarBackBridge(shift: Caesar.Shift, t: string, u: string)
    requires forall k :: 0 <= k < |t| ==> t[k] != SharpS
    requires Caesar.DecryptText(shift, Strip(t)) == u
    ensures Apply(Decrypting, CaesarStep(shift), t) == Success(u)
  {
    assert SharpS !in t;
    if SharpS in Strip(t) {
      StripKeepsChars(t, SharpS);
    }
  }

  lemma MorseForwardBridge(t: string, u: string)
    requires forall k :: 0 <= k < |Morse.Letters(t)| ==> Morse.IsMorseChar(Morse.Letters(t)[k])
    requires Morse.EncryptText(Morse.Letters(t)) == u
    ensures Apply(Encrypting, MorseStep, t) == Success(u)
  {
  }

  lemma MorseBackBridge(t: string, u: string)
    requires Morse.AllCodes(Morse.CipherWords(t))
    requires Morse.DecryptText(Morse.CipherWords(t)) == u
    ensures Apply(Decrypting, MorseStep, t) == Success(u)
  {
  }

  lemma PlainNormal(s: string)
    requires s == "Hello World!" || s == "Svool Dliow!" || s == "SVOOLDLIOW"
    ensures Normalise(s) == s
  {
    assert IsNormal(s);
    NormalIsFixed(s);
  }

  lemma UpperExample(t: string)
    requires t == "Vyrro Golrz!"
    ensures UpperText(Strip(t)) == "VYRRO GOLRZ!"
  {
    assert Strip(t) == t;
    NoSharpS(t);
    assert SharpS !in t;
    UpperStrExample(t);
    Morse.UpperTextNoSharpS(t);
  }

  lemma NoSharpS(t: string)
    requires t == "Vyrro Golrz!" || t == "Svool Dliow!" || t == "VYRROGOLRZ"
    ensures forall k :: 0 <= k < |t| ==> t[k] != SharpS
  {
  }

  lemma UpperStrExample(t: string)
    requires t == "Vyrro Golrz!"
    ensures UpperStr(t) == "VYRRO GOLRZ!"
  {
  }

  lemma SpaceExample(u: string)
    requires u == "VYRRO GOLRZ!"
    ensures ReplaceChar(u, ' ', []) == "VYRROGOLRZ!"
  {
    SpaceDropped(u);
    WordsJoined(u);
  }

  lemma SpaceDropped(u: string)
    requires u == "VYRRO GOLRZ!"
    ensures ReplaceChar(u, ' ', []) == u[..5] + u[6..]
  {
    var a, c := u[..5], u[6..];
    assert u == a + " " + c;
    assert ' ' !in a && ' ' !in c;
    DropSpace(a, c);
  }

  lemma WordsJoined(u: string)
    requires u == "VYRRO GOLRZ!"
    ensures u[..5] + u[6..] == "VYRROGOLRZ!"
  {
  }

  lemma FoldExample(v: string)
    requires v == "VYRROGOLRZ!"
    ensures Morse.FoldUpperText(v) == v
  {
  }

  lemma KeptExample(v: string)
    requires v == "VYRROGOLRZ!"
    ensures Morse.Kept(v) == "VYRROGOLRZ"
  {
    Morse.KeptAll(v[..10]);
    assert v[..10] == v[..|v| - 1];
  }

  lemma LettersExample(t: string)
    requires t == "Vyrro Golrz!"
    ensures Morse.Letters(t) == "VYRROGOLRZ"
  {
    UpperExample(t);
    SpaceExample("VYRRO GOLRZ!");
    FoldExample("VYRROGOLRZ!");
    KeptExample("VYRROGOLRZ!");
  }

  lemma CodesExample(letters: string)
    requires letters == "VYRROGOLRZ"
    ensures forall k :: 0 <= k < |letters| ==> Morse.IsMorseChar(letters[k])
    ensures Morse.EncryptText(letters) == Join(ExampleCodes, ' ')
  {
    assert Morse.Codes(letters) == ExampleCodes;
  }

  lemma CaesarForward(s: string)
    requires s == "Svool Dliow!"
    ensures Caesar.EncryptText(3, s) == "Vyrro Golrz!"
  {
  }

  lemma CaesarBack(s: string)
    requires s == "VYRROGOLRZ"
    ensures Caesar.DecryptText(3, Strip(s)) == "SVOOLDLIOW"
  {
    assert IsStripped(s);
  }

  lemma AtbashBack(s: string)
    requires s == "SVOOLDLIOW"
    ensures Atbash.EncryptText(s) == "HELLOWORLD"
  {
  }

  /** Morse decryption of the codes of keys gives the keys back. */
  lemma MorseBack(letters: string)
    requires forall k :: 0 <= k < |letters| ==> Morse.IsMorseChar(letters[k])
    ensures Apply(Decrypting, MorseStep, Morse.EncryptText(letters)) == Success(letters)
  {
    Morse.LettersIdempotent(letters);
    Morse.RoundTrip(letters);
    MorseBackBridge(Morse.EncryptText(letters), letters);
  }

  lemma Forward1(t: string, u: string)
    requires t == ExampleText && u == AfterAtbash
    ensures Apply(Encrypting, AtbashStep, t) == Success(u)
  {
    Atbash.Example(t, u);
    AtbashBridge(Encrypting, t, u);
  }

  lemma Forward2(t: string, u: string)
    requires t == AfterAtbash && u == AfterCaesar
    ensures Apply(Encrypting, CaesarStep(3), t) == Success(u)
  {
    PlainNormal(t);
    NoSharpS(t);
    CaesarForward(t);
  }

  lemma Forward3()
    ensures Apply(Encrypting, MorseStep, AfterCaesar) == Success(Join(ExampleCodes, ' '))
  {
    LettersExample(AfterCaesar);
    CodesExample(ExampleLetters);
    MorseForwardBridge(AfterCaesar, Join(ExampleCodes, ' '));
  }

  lemma Backward1()
    ensures Apply(Decrypting, MorseStep, Join(ExampleCodes, ' ')) == Success(ExampleLetters)
  {
    CodesExample(ExampleLetters);
    MorseBack(ExampleLetters);
  }

  lemma Backward2(t: string)
    requires t == ExampleLetters
    ensures Apply(Decrypting, CaesarStep(3), t) == Success(BackFromCaesar)
  {
    CaesarBack(t);
    NoSharpS(t);
    CaesarBackBridge(3, t, BackFromCaesar);
  }

  lemma Backward3()
    ensures Apply(Decrypting, AtbashStep, BackFromCaesar) == Success(ExampleResult)
  {
    PlainNormal(BackFromCaesar);
    AtbashBack(BackFromCaesar);
    AtbashBridge(Decrypting, BackFromCaesar, ExampleResult);
  }

  /** Encryption gives the documented Morse codes. */
  lemma ExampleEncrypt(p: Pipeline)
    requires p.steps == [AtbashStep, CaesarStep(3), MorseStep]
    ensures AllWellFormed(p.steps)
    ensures EncryptAll(p, ExampleText) == Success(Join(ExampleCodes, ' '))
  {
    ExampleSteps(p.steps);
    Forward1(ExampleText, AfterAtbash);
    Forward2(AfterAtbash, AfterCaesar);
    Forward3();
    ChainOfThree(Encrypting, p.steps, ExampleText, AfterAtbash, AfterCaesar, Success(Join(ExampleCodes, ' ')));
  }

  /** Decrypting those codes gives "HELLOWORLD". */
  lemma ExampleDecrypt(p: Pipeline)
    requires p.steps == [AtbashStep, CaesarStep(3), MorseStep]
    ensures AllWellFormed(p.steps)
    ensures DecryptAll(p, Join(ExampleCodes, ' ')) == Success(ExampleResult)
  {
    ExampleSteps(p.steps);
    Backward1();
    Backward2(ExampleLetters);
    Backward3();
    ChainOfThree(Decrypting, Reverse(p.steps), Join(ExampleCodes, ' '), ExampleLetters, BackFromCaesar, Success(ExampleResult));
  }
}
