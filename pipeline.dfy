/** The `Pipeline`: a list of cipher steps applied one after the other.
    Encryption runs the steps' `encrypt` from first to last, decryption runs
    their `decrypt` from last to first. */
module Pipeline {
  import opened Wrappers
  import opened Text
  import Caesar
  import Atbash
  import Substitution
  import Vigenere
  import Homophonic
  import Morse

  const OneMorseMessage: string := "The given list can only have one MorseCode."
  const OneHomophonicMessage: string := "The given list can only have one HomophonicSubstitution."
  const MorseLastMessage: string := "The MorseCode must be in list last position."
  const BothMessage: string := "The list cannot contain a HomophonicSubstitution and a MorseCode at the same time."

  /** One step of a pipeline: a configured cipher. A homophonic step carries
      its table and the choices its generator makes (`picks(k)` for the
      character at position `k`). */
  datatype Step =
    | AtbashStep
    | CaesarStep(shift: Caesar.Shift)
    | VigenereStep(key: Vigenere.Key)
    | SubstitutionStep(table: Substitution.Table)
    | HomophonicStep(homophones: seq<seq<char>>, picks: nat -> nat)
    | MorseStep

  /** What the ciphers' constructors guarantee about their state. A
      substitution table need not be a permutation: the constructor accepts
      a key whose stripped form is valid but builds the table from the raw
      key. */
  predicate WellFormed(step: Step) {
    match step
    case HomophonicStep(homophones, _) => Homophonic.ValidTable(homophones)
    case _ => true
  }

  predicate AllWellFormed(steps: seq<Step>) {
    forall k :: 0 <= k < |steps| ==> WellFormed(steps[k])
  }

  // ---------------------------------------------------------------------
  // `_validate_steps`

  function CountMorse(steps: seq<Step>): nat {
    if steps == [] then 0
    else CountMorse(steps[..|steps| - 1]) + (if steps[|steps| - 1].MorseStep? then 1 else 0)
  }

  function CountHomophonic(steps: seq<Step>): nat {
    if steps == [] then 0
    else CountHomophonic(steps[..|steps| - 1]) + (if steps[|steps| - 1].HomophonicStep? then 1 else 0)
  }

  /** The rules a pipeline obeys: at most one Morse step and at most one
      homophonic step, a Morse step only in last position, and never both. */
  predicate ValidSteps(steps: seq<Step>) {
    && CountMorse(steps) <= 1
    && CountHomophonic(steps) <= 1
    && (CountMorse(steps) == 1 ==> steps[|steps| - 1].MorseStep?)
    && !(CountMorse(steps) == 1 && CountHomophonic(steps) == 1)
  }

  /** Counting over a longer list gives at least as much. */
  lemma {:induction false} CountsGrow(steps: seq<Step>, i: nat)
    requires i <= |steps|
    ensures CountMorse(steps[..i]) <= CountMorse(steps)
    ensures CountHomophonic(steps[..i]) <= CountHomophonic(steps)
    decreases |steps| - i
  {
    if i < |steps| {
      CountsGrow(steps, i + 1);
      assert steps[..i + 1][..i] == steps[..i];
    } else {
      assert steps[..i] == steps;
    }
  }

  /** Counts over prefixes grow with the prefix. */
  lemma PrefixCountsGrow(steps: seq<Step>, i: nat, j: nat)
    requires i <= j <= |steps|
    ensures CountMorse(steps[..i]) <= CountMorse(steps[..j])
    ensures CountHomophonic(steps[..i]) <= CountHomophonic(steps[..j])
  {
    CountsGrow(steps[..j], i);
    assert steps[..j][..i] == steps[..i];
  }

  /** Scanning left to right, the Morse count reaches two while the
      homophonic count is still at most one. */
  predicate MorseExceedsFirst(steps: seq<Step>) {
    exists i :: 0 < i <= |steps| && CountMorse(steps[..i]) == 2 && CountHomophonic(steps[..i]) <= 1
  }

  /** Scanning left to right, the homophonic count reaches two while the
      Morse count is still at most one. */
  predicate HomophonicExceedsFirst(steps: seq<Step>) {
    exists i :: 0 < i <= |steps| && CountHomophonic(steps[..i]) == 2 && CountMorse(steps[..i]) <= 1
  }

  /** A prefix where the Morse count reaches two first rules out the
      homophonic count getting there first. */
  lemma MorseFirst(steps: seq<Step>, i: nat)
    requires 0 < i <= |steps| && CountMorse(steps[..i]) == 2 && CountHomophonic(steps[..i]) <= 1
    ensures MorseExceedsFirst(steps) && !HomophonicExceedsFirst(steps)
  {
    forall j | 0 < j <= |steps| && CountHomophonic(steps[..j]) == 2
      ensures CountMorse(steps[..j]) > 1
    {
      if j <= i { PrefixCountsGrow(steps, j, i); } else { PrefixCountsGrow(steps, i, j); }
    }
  }

  /** The mirror of `MorseFirst`. */
  lemma HomophonicFirst(steps: seq<Step>, i: nat)
    requires 0 < i <= |steps| && CountHomophonic(steps[..i]) == 2 && CountMorse(steps[..i]) <= 1
    ensures HomophonicExceedsFirst(steps) && !MorseExceedsFirst(steps)
  {
    forall j | 0 < j <= |steps| && CountMorse(steps[..j]) == 2
      ensures CountHomophonic(steps[..j]) > 1
    {
      if j <= i { PrefixCountsGrow(steps, j, i); } else { PrefixCountsGrow(steps, i, j); }
    }
  }

  /** With both counts at most one, no prefix exceeds either. */
  lemma NeitherExceeds(steps: seq<Step>)
    requires CountMorse(steps) <= 1 && CountHomophonic(steps) <= 1
    ensures !MorseExceedsFirst(steps) && !HomophonicExceedsFirst(steps)
  {
    forall j | 0 < j <= |steps|
      ensures CountMorse(steps[..j]) <= 1 && CountHomophonic(steps[..j]) <= 1
    {
      PrefixCountsGrow(steps, j, |steps|);
      assert steps[..|steps|] == steps;
    }
  }

  /** A Morse step occurs somewhere exactly when the count is positive. */
  lemma {:induction false} CountMorsePositive(steps: seq<Step>)
    ensures CountMorse(steps) > 0 <==> exists k :: 0 <= k < |steps| && steps[k].MorseStep?
  {
    if steps != [] {
      var init := steps[..|steps| - 1];
      CountMorsePositive(init);
      if exists k :: 0 <= k < |init| && init[k].MorseStep? {
        var k :| 0 <= k < |init| && init[k].MorseStep?;
        assert steps[k].MorseStep?;
      }
      if exists k :: 0 <= k < |steps| && steps[k].MorseStep? {
        var k :| 0 <= k < |steps| && steps[k].MorseStep?;
        if k < |init| {
          assert init[k].MorseStep?;
        }
      }
    }
  }

  /** `_validate_steps`: count the Morse and homophonic steps, failing on the
      step that makes either count two, then check the position of the Morse
      step and that the two kinds are not mixed. */
  method ValidateSteps(steps: seq<Step>) returns (r: Outcome<Error>)
    ensures r.Pass? <==> ValidSteps(steps)
    ensures CountMorse(steps) > 1 && CountHomophonic(steps) <= 1 ==> r == Fail(ValueError(OneMorseMessage))
    ensures CountHomophonic(steps) > 1 && CountMorse(steps) <= 1 ==> r == Fail(ValueError(OneHomophonicMessage))
    ensures CountMorse(steps) > 1 && CountHomophonic(steps) > 1 ==>
      r == Fail(ValueError(OneMorseMessage)) || r == Fail(ValueError(OneHomophonicMessage))
    ensures r == Fail(ValueError(OneMorseMessage)) <==> MorseExceedsFirst(steps)
    ensures r == Fail(ValueError(OneHomophonicMessage)) <==> HomophonicExceedsFirst(steps)
    ensures CountMorse(steps) == 1 && CountHomophonic(steps) <= 1 && !steps[|steps| - 1].MorseStep? ==>
      r == Fail(ValueError(MorseLastMessage))
    ensures CountMorse(steps) == 1 && CountHomophonic(steps) == 1 && steps[|steps| - 1].MorseStep? ==>
      r == Fail(ValueError(BothMessage))
  {
    var morseEncryptors := 0;
    var homophonicEncryptors := 0;
    var i := 0;
    while i < |steps|
      invariant 0 <= i <= |steps|
      invariant morseEncryptors == CountMorse(steps[..i]) <= 1
      invariant homophonicEncryptors == CountHomophonic(steps[..i]) <= 1
    {
      assert steps[..i + 1][..i] == steps[..i];
      if steps[i].MorseStep? {
        morseEncryptors := morseEncryptors + 1;
      }
      if steps[i].HomophonicStep? {
        homophonicEncryptors := homophonicEncryptors + 1;
      }
      i := i + 1;
      CountsGrow(steps, i);
      if morseEncryptors > 1 {
        MorseFirst(steps, i);
        return Fail(ValueError(OneMorseMessage));
      }
      if homophonicEncryptors > 1 {
        HomophonicFirst(steps, i);
        return Fail(ValueError(OneHomophonicMessage));
      }
    }
    assert steps[..i] == steps;
    NeitherExceeds(steps);
    if morseEncryptors > 0 && !steps[|steps| - 1].MorseStep? {
      return Fail(ValueError(MorseLastMessage));
    }
    if morseEncryptors > 0 && homophonicEncryptors > 0 {
      return Fail(ValueError(BothMessage));
    }
    r := Pass;
  }

  /** A pipeline as its constructor leaves it: validated steps. */
  datatype Pipeline = Pipeline(steps: seq<Step>)

  /** The constructor: validate, then keep the steps as given. */
  method New(steps: seq<Step>) returns (r: Result<Pipeline, Error>)
    ensures r.Success? <==> ValidSteps(steps)
    ensures r.Success? ==> r.value.steps == steps
    ensures r == Failure(ValueError(OneMorseMessage)) <==> MorseExceedsFirst(steps)
    ensures r == Failure(ValueError(OneHomophonicMessage)) <==> HomophonicExceedsFirst(steps)
    ensures CountMorse(steps) == 1 && CountHomophonic(steps) <= 1 && !steps[|steps| - 1].MorseStep? ==>
      r == Failure(ValueError(MorseLastMessage))
    ensures CountMorse(steps) == 1 && CountHomophonic(steps) == 1 && steps[|steps| - 1].MorseStep? ==>
      r == Failure(ValueError(BothMessage))
  {
    var check := ValidateSteps(steps);
    if check.Fail? {
      return Failure(check.error);
    }
    r := Success(Pipeline(steps));
  }

  // ---------------------------------------------------------------------
  // one step

  datatype Direction = Encrypting | Decrypting

  /** What one step's `encrypt` or `decrypt` returns, or the error it raises. */
  function Apply(dir: Direction, step: Step, text: string): Result<string, Error>
    requires WellFormed(step)
  {
    match step
    case AtbashStep => Success(Atbash.EncryptText(Normalise(text)))
    case CaesarStep(shift) =>
      if dir == Encrypting then
        if SharpS in Normalise(text) then Failure(TypeError(OrdMessage))
        else Success(Caesar.EncryptText(shift, Normalise(text)))
      else
        if SharpS in Strip(text) then Failure(TypeError(OrdMessage))
        else Success(Caesar.DecryptText(shift, Strip(text)))
    case VigenereStep(key) =>
      if dir == Encrypting then
        if |key| == 0 && Vigenere.HasLetter(Normalise(text)) then Failure(ModuloByZero)
        else if SharpS in Normalise(text) then Failure(TypeError(OrdMessage))
        else Success(Vigenere.EncryptText(key, Normalise(text)))
      else
        if |key| == 0 && Vigenere.HasLetter(Strip(text)) then Failure(ModuloByZero)
        else if SharpS in Strip(text) then Failure(TypeError(OrdMessage))
        else Success(Vigenere.DecryptText(key, Strip(text)))
    case SubstitutionStep(table) =>
      if dir == Encrypting then Success(Substitution.EncryptText(table, Normalise(text)))
      else Success(Substitution.DecryptText(table, Strip(text)))
    case HomophonicStep(homophones, picks) =>
      if dir == Encrypting then
        Success(Homophonic.EncryptText(homophones, picks, Homophonic.Escape(Normalise(text))))
      else Success(Homophonic.Run(homophones, Strip(text)).text)
    case MorseStep =>
      if dir == Encrypting then Success(Morse.EncryptText(Morse.Letters(text)))
      else
        var words := Morse.CipherWords(text);
        if Morse.AllCodes(words) then Success(Morse.DecryptText(words))
        else Failure(ValueError(Morse.InvalidCodeMessage))
  }

  /** `step.encrypt(text)` or `step.decrypt(text)`. */
  method ApplyStep(dir: Direction, step: Step, text: string) returns (r: Result<string, Error>)
    requires WellFormed(step)
    ensures r == Apply(dir, step, text)
  {
    var s: string;
    match step
    case AtbashStep =>
      if dir == Encrypting {
        s := Atbash.Encrypt(text);
      } else {
        s := Atbash.Decrypt(text);
      }
      r := Success(s);
    case CaesarStep(shift) =>
      if dir == Encrypting {
        r := Caesar.Encrypt(shift, text);
      } else {
        r := Caesar.Decrypt(shift, text);
      }
    case VigenereStep(key) =>
      if dir == Encrypting {
        r := Vigenere.Encrypt(key, text);
      } else {
        r := Vigenere.Decrypt(key, text);
      }
    case SubstitutionStep(table) =>
      if dir == Encrypting {
        s := Substitution.Encrypt(table, text);
      } else {
        s := Substitution.Decrypt(table, text);
      }
      r := Success(s);
    case HomophonicStep(homophones, picks) =>
      if dir == Encrypting {
        s := Homophonic.Encrypt(homophones, picks, text);
      } else {
        s := Homophonic.Decrypt(homophones, text);
      }
      r := Success(s);
    case MorseStep =>
      if dir == Encrypting {
        s := Morse.Encrypt(text);
        r := Success(s);
      } else {
        r := Morse.Decrypt(text);
      }
  }

  // ---------------------------------------------------------------------
  // composition

  /** The steps applied from first to last, each to the previous one's
      output; the first error stops the chain. */
  function Chain(dir: Direction, steps: seq<Step>, text: string): Result<string, Error>
    requires AllWellFormed(steps)
  {
    if steps == [] then Success(text)
    else
      match Chain(dir, steps[..|steps| - 1], text)
      case Failure(e) => Failure(e)
      case Success(t) => Apply(dir, steps[|steps| - 1], t)
  }

  /** What `encrypt` returns: the empty string for a pipeline without steps,
      otherwise the steps' `encrypt` chained in order. */
  function EncryptAll(p: Pipeline, text: string): Result<string, Error>
    requires AllWellFormed(p.steps)
  {
    if p.steps == [] then Success("") else Chain(Encrypting, p.steps, text)
  }

  /** What `decrypt` returns: the empty string for a pipeline without steps,
      otherwise the steps' `decrypt` chained from the last step to the first. */
  function DecryptAll(p: Pipeline, text: string): Result<string, Error>
    requires AllWellFormed(p.steps)
  {
    if p.steps == [] then Success("") else Chain(Decrypting, Reverse(p.steps), text)
  }

  /** `encrypt`: thread the text through the steps in order. */
  method Encrypt(p: Pipeline, text: string) returns (r: Result<string, Error>)
    requires AllWellFormed(p.steps)
    ensures r == EncryptAll(p, text)
  {
    r := RunSteps(Encrypting, p.steps, text);
  }

  /** `decrypt`: copy the steps, reverse the copy in place, and thread the
      cipher text through it. */
  method Decrypt(p: Pipeline, cipherText: string) returns (r: Result<string, Error>)
    requires AllWellFormed(p.steps)
    ensures r == DecryptAll(p, cipherText)
  {
    var reverseSteps := new Step[|p.steps|](k requires 0 <= k < |p.steps| => p.steps[k]);
    assert reverseSteps[..] == p.steps;
    ReverseInPlace(reverseSteps);
    r := RunSteps(Decrypting, reverseSteps[..], cipherText);
  }

  /** The loop shared by `encrypt` and `decrypt`: the first step takes the
      given text, each later step the previous step's output; with no steps
      the result is the initial empty string. */
  method RunSteps(dir: Direction, steps: seq<Step>, text: string) returns (r: Result<string, Error>)
    requires AllWellFormed(steps)
    ensures r == if steps == [] then Success("") else Chain(dir, steps, text)
  {
    var current := "";
    var i := 0;
    while i < |steps|
      invariant 0 <= i <= |steps|
      invariant i == 0 ==> current == ""
      invariant i > 0 ==> Chain(dir, steps[..i], text) == Success(current)
    {
      var res := RunStep(dir, steps, text, i, current);
      if res.Failure? {
        return Failure(res.error);
      }
      current := res.value;
      i := i + 1;
    }
    assert steps[..i] == steps;
    r := Success(current);
  }

  /** One turn of that loop: the step takes the given text on the first
      turn and the previous output afterwards; its result extends the chain,
      and a failing step is where the whole chain fails. */
  method RunStep(dir: Direction, steps: seq<Step>, text: string, i: nat, current: string)
    returns (res: Result<string, Error>)
    requires AllWellFormed(steps) && i < |steps|
    requires i == 0 ==> current == ""
    requires i > 0 ==> Chain(dir, steps[..i], text) == Success(current)
    ensures res.Success? ==> Chain(dir, steps[..i + 1], text) == res
    ensures res.Failure? ==> Chain(dir, steps, text) == res
  {
    var input := if i == 0 then text else current;
    res := ApplyStep(dir, steps[i], input);
    ChainNext(dir, steps, text, i, input, res);
  }

  lemma ChainNext(dir: Direction, steps: seq<Step>, text: string, i: nat, input: string, res: Result<string, Error>)
    requires AllWellFormed(steps) && i < |steps|
    requires i == 0 ==> input == text
    requires i > 0 ==> Chain(dir, steps[..i], text) == Success(input)
    requires res == Apply(dir, steps[i], input)
    ensures res.Success? ==> Chain(dir, steps[..i + 1], text) == res
    ensures res.Failure? ==> Chain(dir, steps, text) == res
  {
    ChainStep(dir, steps, text, i);
    if i == 0 {
      assert steps[..0] == [];
    }
    if res.Failure? {
      ChainStops(dir, steps, text, i + 1);
    }
  }

  /** The chain over one more step. */
  lemma ChainStep(dir: Direction, steps: seq<Step>, text: string, i: nat)
    requires AllWellFormed(steps) && i < |steps|
    ensures Chain(dir, steps[..i + 1], text) ==
      match Chain(dir, steps[..i], text)
      case Failure(e) => Failure(e)
      case Success(t) => Apply(dir, steps[i], t)
  {
    assert steps[..i + 1][..i] == steps[..i];
  }

  /** Once a step fails, so does the whole chain, with the same error. */
  lemma {:induction false} ChainStops(dir: Direction, steps: seq<Step>, text: string, i: nat)
    requires AllWellFormed(steps) && 0 < i <= |steps|
    requires Chain(dir, steps[..i], text).Failure?
    ensures Chain(dir, steps, text) == Chain(dir, steps[..i], text)
    decreases |steps| - i
  {
    if i < |steps| {
      assert steps[..i + 1][..i] == steps[..i];
      ChainStops(dir, steps, text, i + 1);
    } else {
      assert steps[..i] == steps;
    }
  }

  // ---------------------------------------------------------------------
  // properties

  /** Chaining over two lists one after the other is chaining over the
      first, then over the second from its output. */
  lemma {:induction false} ChainAppend(dir: Direction, a: seq<Step>, b: seq<Step>, text: string)
    requires AllWellFormed(a) && AllWellFormed(b)
    ensures AllWellFormed(a + b)
    ensures Chain(dir, a + b, text) ==
      match Chain(dir, a, text)
      case Failure(e) => Failure(e)
      case Success(t) => Chain(dir, b, t)
  {
    if b == [] {
      assert a + b == a;
    } else {
      var b' := b[..|b| - 1];
      ChainAppend(dir, a, b', text);
      assert (a + b)[..|a + b| - 1] == a + b';
    }
  }

  /** The steps whose decryption undoes their encryption on normalised
      text: Atbash, Caesar, keyed substitution with a permutation and
      Vigenere with a non-empty key. Homophonic substitution upper-cases the
      letters and Morse drops characters, so neither gives back its input. */
  predicate Reversible(step: Step) {
    match step
    case AtbashStep => true
    case CaesarStep(_) => true
    case VigenereStep(key) => |key| > 0
    case SubstitutionStep(table) => Substitution.IsPermutation(table)
    case _ => false
  }

  predicate AllReversible(steps: seq<Step>) {
    forall k :: 0 <= k < |steps| ==> Reversible(steps[k])
  }

  /** Normalised text whose letters are all ASCII. */
  predicate Clean(y: string) {
    IsNormal(y) && Caesar.AsciiLettered(y)
  }

  /** `e` has an ASCII letter wherever `y` has one and agrees with `y`
      everywhere else. */
  predicate Letterwise(y: string, e: string) {
    && |e| == |y|
    && forall k :: 0 <= k < |y| ==> if IsAsciiLetter(y[k]) then IsAsciiLetter(e[k]) else e[k] == y[k]
  }

  lemma LetterwiseClean(y: string, e: string)
    requires Clean(y) && Letterwise(y, e)
    ensures Clean(e)
  {
    forall k | 0 <= k < |e|
      ensures FoldChar(e[k]) == e[k]
    {
      FoldCharFacts(e[k]);
    }
  }

  /** Clean text has no 'ß', and neither has its stripped form, so the
      Caesar and Vigenere steps do not fail on it. */
  lemma CleanNoSharpS(y: string)
    requires Clean(y)
    ensures SharpS !in y && SharpS !in Strip(y)
  {
    Caesar.AsciiLetteredNoSharpS(y);
    if SharpS in Strip(y) {
      StripKeepsChars(y, SharpS);
    }
  }

  /** Clean text is made of characters that fold to themselves. */
  lemma CleanIsPlain(y: string)
    requires Clean(y)
    ensures forall c :: c in y ==> Plain(c)
    ensures Normalise(y) == y
  {
    NormalIsFixed(y);
  }

  /** Atbash keeps clean text clean. */
  lemma AtbashClean(y: string)
    requires Clean(y)
    ensures Clean(Atbash.EncryptText(y))
  {
    var e := Atbash.EncryptText(y);
    forall k | 0 <= k < |y| ensures if IsAsciiLetter(y[k]) then IsAsciiLetter(e[k]) else e[k] == y[k] {
      Atbash.SubstituteInvolution(y[k]);
    }
    LetterwiseClean(y, e);
  }

  /** Caesar encryption keeps clean text clean. */
  lemma CaesarClean(shift: Caesar.Shift, y: string)
    requires Clean(y)
    ensures Clean(Caesar.EncryptText(shift, y))
  {
    var e := Caesar.EncryptText(shift, y);
    forall k | 0 <= k < |y| ensures if IsAsciiLetter(y[k]) then IsAsciiLetter(e[k]) else e[k] == y[k] {
      Caesar.EncryptCharFacts(shift, y[k]);
    }
    LetterwiseClean(y, e);
  }

  /** Vigenere encryption with a non-empty key keeps clean text clean. */
  lemma VigenereClean(key: Vigenere.Key, y: string)
    requires |key| > 0 && Clean(y)
    ensures Clean(Vigenere.EncryptText(key, y))
  {
    var e := Vigenere.EncryptText(key, y);
    Vigenere.KeepsPattern(key, y);
    forall k | 0 <= k < |y| ensures if IsAsciiLetter(y[k]) then IsAsciiLetter(e[k]) else e[k] == y[k] {
      if IsAlpha(y[k]) {
        Vigenere.ShiftRoundTrip(y[k], Vigenere.ShiftOf(key, Vigenere.CountAlpha(y[..k])));
      }
    }
    LetterwiseClean(y, e);
  }

  /** Substitution with a permutation keeps clean text clean. */
  lemma SubstitutionClean(table: Substitution.Table, y: string)
    requires Substitution.IsPermutation(table) && Clean(y)
    ensures Clean(Substitution.EncryptText(table, y))
  {
    LetterwiseClean(y, Substitution.EncryptText(table, y));
  }

  /** One reversible step: encryption of clean text succeeds and gives clean
      text, and decrypting that gives the text back. */
  lemma {:induction false} StepRoundTrip(step: Step, y: string)
    requires Reversible(step) && Clean(y)
    ensures Apply(Encrypting, step, y).Success?
    ensures Clean(Apply(Encrypting, step, y).value)
    ensures Apply(Decrypting, step, Apply(Encrypting, step, y).value) == Success(y)
  {
    match step
    case AtbashStep => AtbashRoundTrip(y);
    case CaesarStep(shift) => CaesarRoundTrip(shift, y);
    case VigenereStep(key) => VigenereRoundTrip(key, y);
    case SubstitutionStep(table) => SubstitutionRoundTrip(table, y);
  }

  lemma AtbashRoundTrip(y: string)
    requires Clean(y)
    ensures Apply(Encrypting, AtbashStep, y) == Success(Atbash.EncryptText(y))
    ensures Clean(Atbash.EncryptText(y))
    ensures Apply(Decrypting, AtbashStep, Atbash.EncryptText(y)) == Success(y)
  {
    CleanIsPlain(y);
    AtbashClean(y);
    Atbash.EncryptTwice(y);
    CleanIsPlain(Atbash.EncryptText(y));
  }

  lemma CaesarRoundTrip(shift: Caesar.Shift, y: string)
    requires Clean(y)
    ensures Apply(Encrypting, CaesarStep(shift), y) == Success(Caesar.EncryptText(shift, y))
    ensures Clean(Caesar.EncryptText(shift, y))
    ensures Apply(Decrypting, CaesarStep(shift), Caesar.EncryptText(shift, y)) == Success(y)
  {
    CleanIsPlain(y);
    CaesarClean(shift, y);
    Caesar.RoundTrip(shift, y);
    CleanNoSharpS(y);
    CleanNoSharpS(Caesar.EncryptText(shift, y));
  }

  lemma VigenereRoundTrip(key: Vigenere.Key, y: string)
    requires |key| > 0 && Clean(y)
    ensures Apply(Encrypting, VigenereStep(key), y) == Success(Vigenere.EncryptText(key, y))
    ensures Clean(Vigenere.EncryptText(key, y))
    ensures Apply(Decrypting, VigenereStep(key), Vigenere.EncryptText(key, y)) == Success(y)
  {
    CleanIsPlain(y);
    VigenereClean(key, y);
    Vigenere.RoundTrip(key, y);
    CleanNoSharpS(y);
    CleanNoSharpS(Vigenere.EncryptText(key, y));
  }

  lemma SubstitutionRoundTrip(table: Substitution.Table, y: string)
    requires Substitution.IsPermutation(table) && Clean(y)
    ensures Apply(Encrypting, SubstitutionStep(table), y) == Success(Substitution.EncryptText(table, y))
    ensures Clean(Substitution.EncryptText(table, y))
    ensures Apply(Decrypting, SubstitutionStep(table), Substitution.EncryptText(table, y)) == Success(y)
  {
    CleanIsPlain(y);
    SubstitutionClean(table, y);
    Substitution.RoundTrip(table, y);
  }

  /** The constructor accepts the key " BCDEFGHIJKLMNOPQRSTUVWXYZ"; its step
      runs in a pipeline like any other, but it is not reversible: "A" is
      encrypted to a space, which decryption strips away. */
  lemma UnstrippedSubstitutionStep(key: string, a: string)
    requires key == " BCDEFGHIJKLMNOPQRSTUVWXYZ" && a == "A"
    ensures Substitution.CheckKey(key) == Pass
    ensures var step := SubstitutionStep(UpperStr(key));
      && WellFormed(step) && !Reversible(step)
      && Apply(Encrypting, step, a) == Success(Substitution.EncryptText(UpperStr(key), a))
      && Apply(Decrypting, step, Substitution.EncryptText(UpperStr(key), a)) == Success("")
  {
    Substitution.UnstrippedKeyBreaksTable(key);
    NormalA(a);
    var table: Substitution.Table := UpperStr(key);
    SubstitutionApply(table, a, Substitution.EncryptText(table, a));
  }

  lemma NormalA(a: string)
    requires a == "A"
    ensures Normalise(a) == a
  {
    assert IsNormal(a);
    NormalIsFixed(a);
  }

  /** A substitution step runs the cipher on the normalised or stripped text. */
  lemma SubstitutionApply(table: Substitution.Table, t: string, u: string)
    ensures Apply(Encrypting, SubstitutionStep(table), t) == Success(Substitution.EncryptText(table, Normalise(t)))
    ensures Apply(Decrypting, SubstitutionStep(table), u) == Success(Substitution.DecryptText(table, Strip(u)))
  {
  }

  /** A chain over a single step is that step. */
  lemma ChainSingle(dir: Direction, step: Step, text: string)
    requires WellFormed(step)
    ensures Chain(dir, [step], text) == Apply(dir, step, text)
  {
    assert [step][..0] == [];
  }

  /** When the chain over all steps but the last succeeds, the chain over all
      of them is the last step applied to its output. */
  lemma ChainLast(dir: Direction, steps: seq<Step>, text: string, t: string)
    requires steps != [] && AllWellFormed(steps)
    requires Chain(dir, steps[..|steps| - 1], text) == Success(t)
    ensures Chain(dir, steps, text) == Apply(dir, steps[|steps| - 1], t)
  {
  }

  /** Decrypting in reverse order starts with the last step. */
  lemma ReverseChainFirst(steps: seq<Step>, e: string, e0: string)
    requires steps != [] && AllWellFormed(steps)
    requires Apply(Decrypting, steps[|steps| - 1], e) == Success(e0)
    ensures AllWellFormed(Reverse(steps[..|steps| - 1]))
    ensures Chain(Decrypting, Reverse(steps), e) == Chain(Decrypting, Reverse(steps[..|steps| - 1]), e0)
  {
    var last := steps[|steps| - 1];
    ReverseSnoc(steps);
    ChainSingle(Decrypting, last, e);
    ChainAppend(Decrypting, [last], Reverse(steps[..|steps| - 1]), e);
  }

  /** A chain of reversible steps: encryption of clean text succeeds and
      gives clean text, and the chain of decryptions in reverse order gives
      the text back. */
  lemma {:induction false} ChainRoundTrip(steps: seq<Step>, y: string)
    requires AllReversible(steps) && Clean(y)
    ensures AllWellFormed(steps) && AllWellFormed(Reverse(steps))
    ensures Chain(Encrypting, steps, y).Success?
    ensures Clean(Chain(Encrypting, steps, y).value)
    ensures Chain(Decrypting, Reverse(steps), Chain(Encrypting, steps, y).value) == Success(y)
  {
    if steps != [] {
      var init := steps[..|steps| - 1];
      var last := steps[|steps| - 1];
      ChainRoundTrip(init, y);
      var e0 := Chain(Encrypting, init, y).value;
      StepRoundTrip(last, e0);
      ChainLast(Encrypting, steps, y, e0);
      ReverseChainFirst(steps, Apply(Encrypting, last, e0).value, e0);
    }
  }

  /** A reversible step normalises its input first. */
  lemma ApplyNormalises(step: Step, text: string)
    requires Reversible(step)
    ensures WellFormed(step)
    ensures Apply(Encrypting, step, text) == Apply(Encrypting, step, Normalise(text))
  {
    NormaliseIdempotent(text);
    NormalisesFirst(step, text, Normalise(text));
  }

  /** A reversible step sees its input only through `Normalise`. */
  lemma NormalisesFirst(step: Step, text: string, text': string)
    requires Reversible(step) && Normalise(text) == Normalise(text')
    ensures WellFormed(step)
    ensures Apply(Encrypting, step, text) == Apply(Encrypting, step, text')
  {
  }

  /** So a chain of reversible steps does not change when the text is
      normalised beforehand. */
  lemma ChainNormalises(steps: seq<Step>, text: string)
    requires steps != [] && AllReversible(steps)
    ensures AllWellFormed(steps)
    ensures Chain(Encrypting, steps, text) == Chain(Encrypting, steps, Normalise(text))
  {
    ApplyNormalises(steps[0], text);
    ChainFirst(Encrypting, steps, text);
    ChainFirst(Encrypting, steps, Normalise(text));
  }

  /** A chain is its first step, then the chain of the rest on its output. */
  lemma ChainFirst(dir: Direction, steps: seq<Step>, text: string)
    requires steps != [] && AllWellFormed(steps)
    ensures Chain(dir, steps, text) ==
      match Apply(dir, steps[0], text)
      case Failure(e) => Failure(e)
      case Success(t) => Chain(dir, steps[1..], t)
  {
    var first, rest := steps[0], steps[1..];
    assert Chain(dir, steps, text) ==
      match Chain(dir, [first], text)
      case Failure(e) => Failure(e)
      case Success(t) => Chain(dir, rest, t)
    by {
      assert steps == [first] + rest;
      ChainAppend(dir, [first], rest, text);
    }
    assert Chain(dir, [first], text) == Apply(dir, first, text) by {
      ChainSingle(dir, first, text);
    }
  }

  /** The round trip: for a non-empty pipeline of reversible steps and text
      whose letters all fold to ASCII, `decrypt` gives back the normalised
      text `encrypt` was given. */
  lemma RoundTrip(p: Pipeline, text: string)
    requires p.steps != [] && AllReversible(p.steps)
    requires forall c :: c in text ==> Plain(c)
    ensures AllWellFormed(p.steps)
    ensures EncryptAll(p, text).Success?
    ensures DecryptAll(p, EncryptAll(p, text).value) == Success(Normalise(text))
  {
    var n := Normalise(text);
    NormaliseIsNormal(text);
    NormalisePlain(text);
    ChainNormalises(p.steps, text);
    ChainRoundTrip(p.steps, n);
  }
}
