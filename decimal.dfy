/** Python's conversions between ints and decimal strings: `str(v)` and
    `int(s)` in base 10. */
module Decimal {

  import opened Wrappers
  import opened Text

  function DigitChar(d: nat): (c: char)
    requires d < 10
    ensures IsDigit(c)
  {
    ('0' as int + d) as char
  }

  function DigitValue(c: char): (d: nat)
    requires IsDigit(c)
    ensures d < 10 && DigitChar(d) == c
  {
    c as int - '0' as int
  }

  /** The decimal digits of n, most significant first, without leading
      zeros. */
  function Digits(n: nat): (r: string)
    ensures |r| >= 1 && forall k :: 0 <= k < |r| ==> IsDigit(r[k])
    ensures |r| > 1 ==> r[0] != '0'
  {
    if n < 10 then [DigitChar(n)] else Digits(n / 10) + [DigitChar(n % 10)]
  }

  /** `str(v)` for an int v. */
  function Show(v: int): (r: string)
    ensures r != [] && IsStripped(r) && ' ' !in r
  {
    if v < 0 then "-" + Digits(-v) else Digits(v)
  }

  /** The number a run of digits stands for. */
  function DigitsValue(ds: string): nat
    requires forall k :: 0 <= k < |ds| ==> IsDigit(ds[k])
  {
    if ds == [] then 0 else DigitsValue(ds[..|ds| - 1]) * 10 + DigitValue(ds[|ds| - 1])
  }

  /** Digits, with single underscores allowed between two digits. */
  predicate DigitRun(b: string)
  {
    |b| >= 1 && forall k :: 0 <= k < |b| ==> RunChar(b, k)
  }

  /** The character at k of b is a digit, or an underscore between two. */
  predicate RunChar(b: string, k: nat)
    requires k < |b|
  {
    IsDigit(b[k]) || (b[k] == '_' && 0 < k < |b| - 1 && IsDigit(b[k - 1]) && IsDigit(b[k + 1]))
  }

  function DropUnderscores(b: string): (r: string)
    ensures (forall k :: 0 <= k < |b| ==> IsDigit(b[k]) || b[k] == '_') ==>
              forall k :: 0 <= k < |r| ==> IsDigit(r[k])
  {
    if b == [] then []
    else if b[0] == '_' then DropUnderscores(b[1..])
    else [b[0]] + DropUnderscores(b[1..])
  }

  /** The message `int` raises on a string that is not a base-10 literal. */
  function InvalidLiteral(s: string): string
  {
    "invalid literal for int() with base 10: '" + s + "'"
  }

  /** `int(s)`: surrounding whitespace is ignored, then an optional sign and
      a run of digits with single underscores between them. */
  function ParseInt(s: string): (r: Result<int, Error>)
    ensures r.Failure? ==> r.error == ValueError(InvalidLiteral(s))
    ensures Strip(s) == [] ==> r.Failure?
  {
    match SignedValue(Strip(s))
    case None => Failure(ValueError(InvalidLiteral(s)))
    case Some(v) => Success(v)
  }

  /** The value of an optional sign followed by a digit run. */
  function SignedValue(t: string): (r: Option<int>)
    ensures t == [] ==> r.None?
  {
    if |t| > 0 && (t[0] == '-' || t[0] == '+') then
      match UnsignedValue(t[1..])
      case None => None
      case Some(v) => Some(if t[0] == '-' then -(v as int) else v as int)
    else
      match UnsignedValue(t)
      case None => None
      case Some(v) => Some(v as int)
  }

  /** The value of a digit run, underscores dropped. */
  function UnsignedValue(body: string): (r: Option<nat>)
    ensures body == [] ==> r.None?
  {
    if !DigitRun(body) then None
    else
      assert forall k :: 0 <= k < |body| ==> IsDigit(body[k]) || body[k] == '_' by {
        forall k | 0 <= k < |body| ensures IsDigit(body[k]) || body[k] == '_' {
          assert RunChar(body, k);
        }
      }
      Some(DigitsValue(DropUnderscores(body)))
  }

  lemma {:induction false} DigitsValueOfDigits(n: nat)
    ensures DigitsValue(Digits(n)) == n
  {
    if n >= 10 {
      var ds := Digits(n);
      assert ds[..|ds| - 1] == Digits(n / 10);
      DigitsValueOfDigits(n / 10);
    }
  }

  lemma {:induction false} DropNoUnderscore(b: string)
    requires '_' !in b
    ensures DropUnderscores(b) == b
  {
    if b != [] {
      DropNoUnderscore(b[1..]);
      assert [b[0]] + b[1..] == b;
    }
  }

  /** A plain run of digits has the value its digits spell. */
  lemma UnsignedDigits(ds: string)
    requires ds != [] && forall k :: 0 <= k < |ds| ==> IsDigit(ds[k])
    ensures UnsignedValue(ds) == Some(DigitsValue(ds))
  {
    assert forall k :: 0 <= k < |ds| ==> RunChar(ds, k);
    assert '_' !in ds;
    DropNoUnderscore(ds);
  }

  lemma SignedDigits(ds: string)
    requires ds != [] && forall k :: 0 <= k < |ds| ==> IsDigit(ds[k])
    ensures SignedValue(ds) == Some(DigitsValue(ds) as int)
  {
    UnsignedDigits(ds);
  }

  lemma Negative(ds: string, v: nat)
    requires UnsignedValue(ds) == Some(v)
    ensures SignedValue("-" + ds) == Some(-(v as int))
  {
    var t := "-" + ds;
    assert t[0] == '-' && t[1..] == ds;
  }

  /** `int(str(v)) == v`. */
  lemma ParseShow(v: int)
    ensures ParseInt(Show(v)) == Success(v)
  {
    var n: nat := if v < 0 then -v else v;
    DigitsValueOfDigits(n);
    if v < 0 {
      UnsignedDigits(Digits(n));
      Negative(Digits(n), n);
    } else {
      SignedDigits(Digits(n));
    }
    assert Strip(Show(v)) == Show(v);
  }
}
