/** The textbook RSA engine: key-length validation, prime generation by a
    Fermat test over random bases, keypair derivation, and per-character
    encryption to space-separated decimal integers. The `secrets` module is
    a `Random` object whose draws come from a stream given up front. */
module Rsa {

  import opened Wrappers
  import opened Text
  import opened NumberTheory
  import opened Decimal

  const MinKeyLength := 1024
  const KeyLengthMessage := "The key_length must be bigger than 2048."
  const ZeroModulusMessage := "pow() 3rd argument cannot be 0"
  const NotInvertibleMessage := "base is not invertible for the given modulus"
  const ChrRangeMessage := "chr() arg not in range(0x110000)"
  const KeyTypeMessage := "The given value must be tuple[int, int]."

  /** Number of Fermat rounds `_is_prime` runs. */
  const Rounds := 128

  /** 2^k, the value of `1 << k`. */
  function Pow2(k: nat): (r: nat)
    ensures r >= 1
  {
    if k == 0 then 1 else 2 * Pow2(k - 1)
  }

  // ---------------------------------------------------------------------
  // randomness

  /** The `secrets` generator: `stream(i)` is the i-th raw draw and
      `cursor` the number of draws made so far. */
  class Random {
    const stream: nat -> nat
    var cursor: nat

    constructor (stream: nat -> nat)
      ensures this.stream == stream && cursor == 0
    {
      this.stream := stream;
      cursor := 0;
    }

    /** `secrets.randbelow(bound)`: a number in [0, bound). */
    method RandBelow(bound: int) returns (r: int)
      requires bound > 0
      modifies this
      ensures r == stream(old(cursor)) % bound && 0 <= r < bound
      ensures cursor == old(cursor) + 1
    {
      r := stream(cursor) % bound;
      cursor := cursor + 1;
    }

    /** `secrets.randbits(k)`: a number in [0, 2^k). */
    method RandBits(k: nat) returns (r: nat)
      modifies this
      ensures r == stream(old(cursor)) % Pow2(k) && r < Pow2(k)
      ensures cursor == old(cursor) + 1
    {
      r := stream(cursor) % Pow2(k);
      cursor := cursor + 1;
    }
  }

  // ---------------------------------------------------------------------
  // construction

  datatype RSA = RSA(keyLength: int)

  /** `RSA(key_length)`: rejects lengths below 1024, with a message that
      names 2048. */
  function New(keyLength: int): (r: Result<RSA, Error>)
    ensures r.Success? <==> keyLength >= MinKeyLength
    ensures r.Success? ==> r.value.keyLength == keyLength
    ensures r.Failure? ==> r.error == ValueError(KeyLengthMessage)
  {
    if keyLength < MinKeyLength then Failure(ValueError(KeyLengthMessage))
    else Success(RSA(keyLength))
  }

  // ---------------------------------------------------------------------
  // prime candidates

  /** Bitwise `a | b` on non-negative integers. */
  function Or(a: nat, b: nat): nat
    decreases a + b
  {
    if a == 0 then b
    else if b == 0 then a
    else 2 * Or(a / 2, b / 2) + (if a % 2 == 1 || b % 2 == 1 then 1 else 0)
  }

  lemma OrSplit(a: nat, b: nat)
    ensures Or(a, b) == 2 * Or(a / 2, b / 2) + (if a % 2 == 1 || b % 2 == 1 then 1 else 0)
  {
  }

  /** `a | b` has every bit of a and of b, so it is at least each. */
  lemma {:induction false} OrAtLeast(a: nat, b: nat)
    ensures Or(a, b) >= a && Or(a, b) >= b
    decreases a + b
  {
    if a > 0 && b > 0 {
      OrAtLeast(a / 2, b / 2);
    }
  }

  /** `a | b` has no bit above those of a and b. */
  lemma {:induction false} OrBelow(a: nat, b: nat, k: nat)
    requires a < Pow2(k) && b < Pow2(k)
    ensures Or(a, b) < Pow2(k)
  {
    if k > 0 && a > 0 && b > 0 {
      OrBelow(a / 2, b / 2, k - 1);
    }
  }

  lemma OrOdd(a: nat, b: nat)
    requires b % 2 == 1
    ensures Or(a, b) % 2 == 1
  {
    OrSplit(a, b);
  }

  /** `randbits(L) | (1 << L - 1) | 1` for the draw `bits`. */
  function Candidate(bits: nat, length: nat): nat
    requires length >= 1
  {
    Or(bits, Or(Pow2(length - 1), 1))
  }

  /** A candidate has exactly `length` bits and is odd. */
  lemma CandidateRange(bits: nat, length: nat)
    requires length >= 1 && bits < Pow2(length)
    ensures Pow2(length - 1) <= Candidate(bits, length) < Pow2(length)
    ensures Candidate(bits, length) % 2 == 1
  {
    var top := Pow2(length - 1);
    OrAtLeast(top, 1);
    OrAtLeast(bits, Or(top, 1));
    OrBelow(top, 1, length);
    OrBelow(bits, Or(top, 1), length);
    OrOdd(top, 1);
    OrOdd(bits, Or(top, 1));
  }

  method GeneratePrimeCandidate(rsa: RSA, rng: Random) returns (c: nat)
    requires rsa.keyLength >= MinKeyLength
    modifies rng
    ensures c == Candidate(rng.stream(old(rng.cursor)) % Pow2(rsa.keyLength), rsa.keyLength)
    ensures Pow2(rsa.keyLength - 1) <= c < Pow2(rsa.keyLength) && c % 2 == 1
    ensures rng.cursor == old(rng.cursor) + 1
  {
    var bits := rng.RandBits(rsa.keyLength);
    c := Candidate(bits, rsa.keyLength);
    CandidateRange(bits, rsa.keyLength);
  }

  // ---------------------------------------------------------------------
  // the Fermat test

  /** The base drawn at position i for testing `number`: in [1, number-1]. */
  function Base(number: int, stream: nat -> nat, i: nat): (x: int)
    requires number > 1
    ensures 1 <= x <= number - 1
  {
    stream(i) % (number - 1) + 1
  }

  /** x shows that `number` is composite. */
  predicate Witness(number: int, x: int)
    requires number > 1
  {
    Pow(x, number - 1) % number != 1
  }

  /** No base drawn at positions [start, start + count) is a witness. */
  predicate PassesFrom(number: int, stream: nat -> nat, start: nat, count: nat)
    requires number > 1
  {
    forall i :: start <= i < start + count ==> !Witness(number, Base(number, stream, i))
  }

  /** `_is_prime(number)` answers true when its draws start at `start`. */
  predicate Accepts(number: int, stream: nat -> nat, start: nat)
  {
    number >= 2 && (number <= 3 || PassesFrom(number, stream, start, Rounds))
  }

  method IsPrime(rng: Random, number: int) returns (r: bool)
    modifies rng
    ensures r == Accepts(number, rng.stream, old(rng.cursor))
    ensures number <= 3 ==> rng.cursor == old(rng.cursor)
    ensures number > 3 && r ==> rng.cursor == old(rng.cursor) + Rounds
    ensures number > 3 && !r ==>
      && old(rng.cursor) < rng.cursor <= old(rng.cursor) + Rounds
      && PassesFrom(number, rng.stream, old(rng.cursor), rng.cursor - 1 - old(rng.cursor))
      && Witness(number, Base(number, rng.stream, rng.cursor - 1))
  {
    if number <= 1 {
      return false;
    }
    if number <= 3 {
      return true;
    }
    r := FermatRounds(rng, number);
  }

  /** The 128 rounds of `_is_prime`, stopping at the first witness. */
  method FermatRounds(rng: Random, number: int) returns (r: bool)
    requires number > 3
    modifies rng
    ensures r == PassesFrom(number, rng.stream, old(rng.cursor), Rounds)
    ensures r ==> rng.cursor == old(rng.cursor) + Rounds
    ensures !r ==>
      && old(rng.cursor) < rng.cursor <= old(rng.cursor) + Rounds
      && PassesFrom(number, rng.stream, old(rng.cursor), rng.cursor - 1 - old(rng.cursor))
      && Witness(number, Base(number, rng.stream, rng.cursor - 1))
  {
    ghost var start := rng.cursor;
    var k := 0;
    while k < Rounds
      invariant 0 <= k <= Rounds && rng.cursor == start + k
      invariant PassesFrom(number, rng.stream, start, k)
    {
      var x := rng.RandBelow(number - 1);
      x := x + 1;
      assert x == Base(number, rng.stream, start + k);
      if Pow(x, number - 1) % number != 1 {
        WitnessStops(number, rng.stream, start, k);
        return false;
      }
      PassesStep(number, rng.stream, start, k);
      k := k + 1;
    }
    return true;
  }

  lemma PassesStep(number: int, stream: nat -> nat, start: nat, k: nat)
    requires number > 1 && PassesFrom(number, stream, start, k)
    requires !Witness(number, Base(number, stream, start + k))
    ensures PassesFrom(number, stream, start, k + 1)
  {
  }

  lemma WitnessStops(number: int, stream: nat -> nat, start: nat, k: nat)
    requires number > 1 && k < Rounds && Witness(number, Base(number, stream, start + k))
    ensures !PassesFrom(number, stream, start, Rounds)
  {
  }

  /** Fermat's little theorem: a prime is accepted whatever bases are drawn. */
  lemma PrimeAccepted(number: int, stream: nat -> nat, start: nat)
    requires Prime(number)
    ensures Accepts(number, stream, start)
  {
    if number > 3 {
      forall i | start <= i < start + Rounds
        ensures !Witness(number, Base(number, stream, i))
      {
        var x := Base(number, stream, i);
        DivModUnique(x, number, 0, x);
        FermatLittle(number, x);
      }
    }
  }

  /** The composite 4, where the prime search starts, passes when every
      drawn base is 1: the search can return 4. */
  lemma FourCanBeAccepted()
    ensures Accepts(4, ZeroStream, 0)
  {
    forall i | 0 <= i < Rounds
      ensures !Witness(4, Base(4, ZeroStream, i))
    {
      PowOne(3);
    }
  }

  /** A stream whose every draw is 0. */
  function ZeroStream(i: nat): nat { 0 }

  // ---------------------------------------------------------------------
  // prime generation

  /** What the prime search can return: the start value 4, or an odd
      number of exactly `length` bits. */
  predicate PrimeShape(p: int, length: nat)
    requires length >= 1
  {
    p == 4 || (Pow2(length - 1) <= p < Pow2(length) && p % 2 == 1)
  }

  /** `_generate_prime_number`: starting from 4, draw candidates until the
      Fermat test accepts one. The source loops without bound; here at most
      `fuel` candidates are drawn and None means the fuel ran out. `at` is
      where the draws of the accepting test start: they are the last
      `Rounds` draws of this call. */
  method GeneratePrimeNumber(rsa: RSA, rng: Random, fuel: nat) returns (r: Option<int>, ghost at: nat)
    requires rsa.keyLength >= MinKeyLength
    modifies rng
    ensures old(rng.cursor) <= rng.cursor
    ensures r.Some? ==> Accepts(r.value, rng.stream, at) && PrimeShape(r.value, rsa.keyLength)
    ensures r.Some? ==> old(rng.cursor) <= at && at + Rounds == rng.cursor
  {
    Pow2AtLeast(rsa.keyLength - 1);
    var p := 4;
    at := rng.cursor;
    var accepted := IsPrime(rng, p);
    var tries := 0;
    while !accepted && tries < fuel
      invariant accepted ==> Accepts(p, rng.stream, at)
      invariant PrimeShape(p, rsa.keyLength)
      invariant old(rng.cursor) <= at <= rng.cursor
      invariant accepted ==> at + Rounds == rng.cursor
      decreases fuel - tries
    {
      p := GeneratePrimeCandidate(rsa, rng);
      at := rng.cursor;
      accepted := IsPrime(rng, p);
      tries := tries + 1;
    }
    r := if accepted then Some(p) else None;
  }

  // ---------------------------------------------------------------------
  // Python builtins the engine relies on

  /** `pow(b, e, m)` on ints: a zero modulus is an error; a negative
      exponent inverts the base first, which fails when b and m share a
      factor; a negative modulus gives a result in (m, 0]. */
  function PyPow(b: int, e: int, m: int): (r: Result<int, Error>)
    ensures r.Failure? <==> m == 0 || (e < 0 && Abs(m) > 1 && Gcd(b % Abs(m), Abs(m)) != 1)
    ensures r.Success? && m > 0 ==> 0 <= r.value < m
    ensures r.Success? && m < 0 ==> m < r.value <= 0
  {
    if m == 0 then Failure(ValueError(ZeroModulusMessage))
    else
      var c := Abs(m);
      if c == 1 then Success(0)
      else if e < 0 && Inverse(b, c).None? then Failure(ValueError(NotInvertibleMessage))
      else
        var base := if e < 0 then Inverse(b, c).value else b;
        var z := Pow(base, Abs(e)) % c;
        Success(if m < 0 && z != 0 then z - c else z)
  }

  function Abs(x: int): nat { if x < 0 then -x else x }

  /** With a non-negative exponent and a modulus above 1, `pow` is the
      remainder of the power. */
  lemma PyPowNatural(b: int, e: nat, m: int)
    requires m > 1
    ensures PyPow(b, e, m) == Success(Pow(b, e) % m)
  {
  }

  /** `pow(b, -1, m)` is the inverse of b modulo m when they are coprime. */
  lemma PyPowInverse(b: int, m: int)
    requires m > 1 && Gcd(b % m, m) == 1
    ensures PyPow(b, -1, m).Success?
    ensures 0 <= PyPow(b, -1, m).value < m && (b * PyPow(b, -1, m).value) % m == 1
  {
    var x := Inverse(b, m).value;
    assert Pow(x, 1) == x;
    DivModUnique(x, m, 0, x);
    DivModUnique(1, m, 0, 1);
  }

  /** `chr(v)`: code points outside [0, 0x10FFFF] are an error; a lone
      surrogate is one a `char` cannot hold. */
  function Chr(v: int): (r: Result<char, Error>)
    ensures r.Success? ==> r.value as int == v
  {
    if v < 0 || v > 0x10FFFF then Failure(ValueError(ChrRangeMessage))
    else if 0xD800 <= v < 0xE000 then Failure(Unrepresentable(v))
    else Success(v as char)
  }

  /** `chr(ord(c)) == c`. */
  lemma ChrOrd(c: char)
    ensures Chr(c as int) == Success(c)
  {
  }

  // ---------------------------------------------------------------------
  // keypair

  /** A key once unpacked: `e, n = public_key` or `d, n = private_key`. */
  datatype Key = Key(exponent: int, modulus: int)
  datatype KeyPair = KeyPair(public: Key, private: Key)

  /** The tuple `(exponent, modulus)` that `generate_keypair` hands out. */
  function Items(key: Key): (r: seq<int>)
    ensures |r| == 2
  {
    [key.exponent, key.modulus]
  }

  /** `_validate_key` followed by the unpacking: a tuple of any other length
      than two is refused. */
  function ValidateKey(key: seq<int>): (r: Result<Key, Error>)
    ensures r.Success? <==> |key| == 2
    ensures r.Failure? ==> r.error == ValueError(KeyTypeMessage)
    ensures r.Success? ==> Items(r.value) == key
  {
    if |key| != 2 then Failure(ValueError(KeyTypeMessage)) else Success(Key(key[0], key[1]))
  }

  /** The tuples handed out are accepted, and unpack to the key they came
      from. */
  lemma ValidateItems(key: Key)
    ensures ValidateKey(Items(key)) == Success(key)
  {
  }

  /** What `generate_keypair` promises of a keypair built from p and q:
      both keys share n = p*q, e is in [1, phi-1] and coprime to
      phi = (p-1)*(q-1), and d in [0, phi) inverts e modulo phi. */
  predicate DerivedFrom(kp: KeyPair, p: int, q: int)
  {
    var phi := (p - 1) * (q - 1);
    && p >= 2 && q >= 2
    && kp.public.modulus == p * q && kp.private.modulus == p * q
    && 1 <= kp.public.exponent < phi && Gcd(kp.public.exponent, phi) == 1
    && 0 <= kp.private.exponent < phi
    && (kp.public.exponent * kp.private.exponent) % phi == 1
  }

  /** p came out of the prime search: a Fermat test whose draws lie
      between `from` and `to` accepted it. */
  ghost predicate Generated(p: int, length: nat, stream: nat -> nat, from: nat, to: nat)
    requires length >= 1
  {
    (exists i :: from <= i && i + Rounds <= to && Accepts(p, stream, i)) && PrimeShape(p, length)
  }

  lemma PhiAtLeast(p: int, q: int)
    requires p >= 4 && q >= 4
    ensures (p - 1) * (q - 1) >= 9
  {
    MulAtLeast(p - 1, q - 1);
  }

  lemma {:induction false} Pow2AtLeast(k: nat)
    requires k >= 2
    ensures Pow2(k) >= 4
  {
    if k > 2 { Pow2AtLeast(k - 1); }
  }

  /** `generate_keypair`: two primes from the search, e drawn until it is
      coprime to phi, d its inverse. None when a resampling loop runs out of
      fuel. */
  method GenerateKeypair(rsa: RSA, rng: Random, fuel: nat) returns (r: Option<KeyPair>, ghost p: int, ghost q: int)
    requires rsa.keyLength >= MinKeyLength
    modifies rng
    ensures r.Some? ==> Generated(p, rsa.keyLength, rng.stream, old(rng.cursor), rng.cursor)
    ensures r.Some? ==> Generated(q, rsa.keyLength, rng.stream, old(rng.cursor), rng.cursor)
    ensures r.Some? ==> DerivedFrom(r.value, p, q)
  {
    p, q := 0, 0;
    ghost var start := rng.cursor;
    var first, atP := GeneratePrimeNumber(rsa, rng, fuel);
    if first.None? {
      return None, p, q;
    }
    var second, atQ := GeneratePrimeNumber(rsa, rng, fuel);
    if second.None? {
      return None, p, q;
    }
    ghost var primesDrawn := rng.cursor;
    var pv, qv := first.value, second.value;
    Pow2AtLeast(rsa.keyLength - 1);
    PhiAtLeast(pv, qv);
    var n := pv * qv;
    var phi := (pv - 1) * (qv - 1);
    var e := rng.RandBelow(phi - 1);
    e := e + 1;
    var tries := 0;
    while Gcd(e, phi) != 1 && tries < fuel
      invariant 1 <= e < phi
      invariant primesDrawn <= rng.cursor
      decreases fuel - tries
    {
      e := rng.RandBelow(phi - 1);
      e := e + 1;
      tries := tries + 1;
    }
    if Gcd(e, phi) != 1 {
      return None, p, q;
    }
    DivModUnique(e, phi, 0, e);
    PyPowInverse(e, phi);
    var d := PyPow(e, -1, phi).value;
    p, q := pv, qv;
    assert start <= atP && atP + Rounds <= rng.cursor && Accepts(p, rng.stream, atP);
    assert start <= atQ && atQ + Rounds <= rng.cursor && Accepts(q, rng.stream, atQ);
    r := Some(KeyPair(Key(e, n), Key(d, n)));
  }

  // ---------------------------------------------------------------------
  // encryption and decryption

  /** The decimal form of `pow(ord(c), e, n)` for each character, stopping
      at the first error. */
  function EncryptChars(chars: string, e: int, n: int): (r: Result<seq<string>, Error>)
    ensures r.Success? ==> |r.value| == |chars|
  {
    if chars == [] then Success([])
    else
      var v :- PyPow(chars[0] as int, e, n);
      var rest :- EncryptChars(chars[1..], e, n);
      Success([Show(v)] + rest)
  }

  /** `encrypt(public_key, text)`: the key is checked first, then the
      tokens of `text.strip()` are joined by single spaces. */
  function Encrypt(publicKey: seq<int>, text: string): Result<string, Error>
  {
    var key :- ValidateKey(publicKey);
    var tokens :- EncryptChars(Strip(text), key.exponent, key.modulus);
    Success(Join(tokens, ' '))
  }

  /** `chr(pow(int(token), d, n))` for each token, stopping at the first
      error, concatenated. */
  function DecryptTokens(tokens: seq<string>, d: int, n: int): (r: Result<string, Error>)
    ensures r.Success? ==> |r.value| == |tokens|
    ensures r.Success? ==> forall i :: 0 <= i < |tokens| ==> ParseInt(tokens[i]).Success?
  {
    if tokens == [] then Success([])
    else
      var v :- ParseInt(tokens[0]);
      var w :- PyPow(v, d, n);
      var c :- Chr(w);
      var rest :- DecryptTokens(tokens[1..], d, n);
      Success([c] + rest)
  }

  /** `decrypt(private_key, cipher_text)`: the key is checked first, then
      the stripped cipher text is split on single spaces. */
  function Decrypt(privateKey: seq<int>, cipherText: string): Result<string, Error>
  {
    var key :- ValidateKey(privateKey);
    DecryptTokens(Split(Strip(cipherText), ' '), key.exponent, key.modulus)
  }

  /** A key tuple of the wrong length is refused before the text is looked
      at. */
  lemma WrongKeyLength(key: seq<int>, text: string)
    requires |key| != 2
    ensures Encrypt(key, text) == Failure(ValueError(KeyTypeMessage))
    ensures Decrypt(key, text) == Failure(ValueError(KeyTypeMessage))
  {
  }

  /** With e >= 0 and n > 1 every character encrypts, token i being the
      decimal form of ord(c_i)^e mod n. */
  lemma {:induction false} EncryptCharsValues(chars: string, e: int, n: int)
    requires e >= 0 && n > 1
    ensures EncryptChars(chars, e, n).Success?
    ensures forall i :: 0 <= i < |chars| ==>
      EncryptChars(chars, e, n).value[i] == Show(Pow(chars[i] as int, e) % n)
  {
    if chars != [] {
      PyPowNatural(chars[0] as int, e, n);
      EncryptCharsValues(chars[1..], e, n);
    }
  }

  lemma {:induction false} JoinEnds(parts: seq<string>, sep: char)
    requires |parts| >= 1 && forall k :: 0 <= k < |parts| ==> parts[k] != []
    ensures var j := Join(parts, sep);
      j != [] && j[0] == parts[0][0] && j[|j| - 1] == parts[|parts| - 1][|parts[|parts| - 1]| - 1]
  {
    if |parts| > 1 {
      JoinEnds(parts[1..], sep);
    }
  }

  /** Decimal tokens joined by spaces: the result has no surrounding
      whitespace, splits back into the tokens, and each token reads back as
      its number. */
  lemma JoinedTokens(tokens: seq<string>, chars: string, e: nat, n: int)
    requires n > 1 && |tokens| == |chars| >= 1
    requires forall i :: 0 <= i < |tokens| ==> tokens[i] == Show(Pow(chars[i] as int, e) % n)
    ensures IsStripped(Join(tokens, ' ')) && Split(Join(tokens, ' '), ' ') == tokens
    ensures forall i :: 0 <= i < |tokens| ==> ParseInt(tokens[i]) == Success(Pow(chars[i] as int, e) % n)
  {
    assert forall k :: 0 <= k < |tokens| ==> tokens[k] != [] && ' ' !in tokens[k];
    SplitJoin(tokens, ' ');
    JoinEnds(tokens, ' ');
    forall i | 0 <= i < |tokens|
      ensures ParseInt(tokens[i]) == Success(Pow(chars[i] as int, e) % n)
    {
      ParseShow(Pow(chars[i] as int, e) % n);
    }
  }

  /** `encrypt` emits one token per character of the stripped text, joined
      by single spaces; each token reads back as ord(c)^e mod n, in [0, n). */
  lemma EncryptTokens(key: Key, text: string)
    requires key.exponent >= 0 && key.modulus > 1 && Strip(text) != []
    ensures Encrypt(Items(key), text).Success?
    ensures IsStripped(Encrypt(Items(key), text).value)
    ensures |Split(Encrypt(Items(key), text).value, ' ')| == |Strip(text)|
    ensures forall i :: 0 <= i < |Strip(text)| ==>
      ParseInt(Split(Encrypt(Items(key), text).value, ' ')[i])
        == Success(Pow(Strip(text)[i] as int, key.exponent) % key.modulus)
  {
    var chars := Strip(text);
    EncryptCharsValues(chars, key.exponent, key.modulus);
    var tokens := EncryptChars(chars, key.exponent, key.modulus).value;
    ValidateItems(key);
    assert Encrypt(Items(key), text) == Success(Join(tokens, ' '));
    JoinedTokens(tokens, chars, key.exponent, key.modulus);
  }

  /** Decrypting tokens that each read back as a character's code point
      gives those characters. */
  lemma {:induction false} DecryptTokensValues(tokens: seq<string>, chars: string, d: int, n: int)
    requires |tokens| == |chars|
    requires forall i :: 0 <= i < |tokens| ==>
      ParseInt(tokens[i]).Success? && PyPow(ParseInt(tokens[i]).value, d, n) == Success(chars[i] as int)
    ensures DecryptTokens(tokens, d, n) == Success(chars)
  {
    if tokens != [] {
      ChrOrd(chars[0]);
      DecryptTokensValues(tokens[1..], chars[1..], d, n);
      assert [chars[0]] + chars[1..] == chars;
    }
  }

  /** One character's round trip: (ord(c)^e mod n)^d mod n == ord(c). */
  lemma CharRoundTrip(kp: KeyPair, p: nat, q: nat, c: char)
    requires DerivedFrom(kp, p, q) && Prime(p) && Prime(q) && p != q
    requires c as int < p * q
    ensures PyPow(Pow(c as int, kp.public.exponent) % (p * q), kp.private.exponent, p * q) == Success(c as int)
  {
    var e: nat, d: nat, n := kp.public.exponent, kp.private.exponent, p * q;
    MulAtLeast(p, q);
    PowPowMod(c as int, e, d, n);
    RsaIdentity(p, q, e, d, c as int);
    PyPowNatural(Pow(c as int, e) % n, d, n);
  }

  /** Decryption undoes encryption: for a keypair derived from distinct
      primes and a text whose stripped characters all have code points
      below n, `decrypt(private, encrypt(public, text)) == text.strip()`. */
  lemma RoundTrip(kp: KeyPair, p: nat, q: nat, text: string)
    requires DerivedFrom(kp, p, q) && Prime(p) && Prime(q) && p != q
    requires Strip(text) != []
    requires forall i :: 0 <= i < |Strip(text)| ==> Strip(text)[i] as int < p * q
    ensures Encrypt(Items(kp.public), text).Success?
    ensures Decrypt(Items(kp.private), Encrypt(Items(kp.public), text).value) == Success(Strip(text))
  {
    var chars := Strip(text);
    MulAtLeast(p, q);
    EncryptTokens(kp.public, text);
    ValidateItems(kp.private);
    var cipher := Encrypt(Items(kp.public), text).value;
    var tokens := Split(cipher, ' ');
    assert Strip(cipher) == cipher;
    forall i | 0 <= i < |tokens|
      ensures ParseInt(tokens[i]).Success?
      ensures PyPow(ParseInt(tokens[i]).value, kp.private.exponent, p * q) == Success(chars[i] as int)
    {
      CharRoundTrip(kp, p, q, chars[i]);
    }
    DecryptTokensValues(tokens, chars, kp.private.exponent, p * q);
  }

  /** A text that is blank after stripping encrypts to "", and "" does not
      decrypt: its only token is empty. */
  lemma BlankText(key: Key, text: string)
    requires Strip(text) == []
    ensures Encrypt(Items(key), text) == Success([])
    ensures Decrypt(Items(key), []) == Failure(ValueError(InvalidLiteral([])))
  {
    ValidateItems(key);
  }

  /** An empty token (from doubled spaces or an empty cipher text) makes
      decryption fail. */
  lemma EmptyTokenFails(key: seq<int>, cipherText: string, i: nat)
    requires i < |Split(Strip(cipherText), ' ')| && Split(Strip(cipherText), ' ')[i] == []
    ensures Decrypt(key, cipherText).Failure?
  {
    assert Strip([]) == [];
  }
}
