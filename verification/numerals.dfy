/**
 Decimal numerals: the rendering of integers used by Python's f-strings
 (`f"{n}"`) and the parsing done by Python's built-in `int(text)`.
 */
module Numerals {
  import opened Results

  predicate IsDigit(c: char) {
    '0' <= c <= '9'
  }

  function DigitValue(c: char): (d: nat)
    requires IsDigit(c)
    ensures d < 10
  {
    c as int - '0' as int
  }

  function DigitChar(d: nat): (c: char)
    requires d < 10
    ensures IsDigit(c) && DigitValue(c) == d
  {
    ('0' as int + d) as char
  }

  predicate AllDigits(s: string) {
    forall i :: 0 <= i < |s| ==> IsDigit(s[i])
  }

  /** Characters that may appear in the digit part of an `int()` argument. */
  predicate IsDigitOrUnderscore(c: char) {
    IsDigit(c) || c == '_'
  }

  /** The decimal rendering of a natural number: no sign, no leading zero. */
  function NatToString(n: nat): (s: string)
    ensures |s| >= 1 && AllDigits(s)
    ensures s[0] == '0' <==> n == 0
    ensures n == 0 ==> s == "0"
    decreases n
  {
    if n < 10 then [DigitChar(n)] else NatToString(n / 10) + [DigitChar(n % 10)]
  }

  /** The decimal rendering of an integer: a leading '-' for negative values. */
  function IntToString(i: int): (s: string)
    ensures |s| >= 1 && (s[0] == '-' || IsDigit(s[0])) && IsDigit(s[|s| - 1])
    ensures s[0] == '-' <==> i < 0
  {
    if i < 0 then "-" + NatToString(-i) else NatToString(i)
  }

  /** The value of a run of digits, ignoring underscores (Python's digit-group separators). */
  function DigitsValue(s: string): nat
    requires forall i :: 0 <= i < |s| ==> IsDigitOrUnderscore(s[i])
  {
    if |s| == 0 then 0
    else if IsDigit(s[|s| - 1]) then DigitsValue(s[..|s| - 1]) * 10 + DigitValue(s[|s| - 1])
    else DigitsValue(s[..|s| - 1])
  }

  lemma {:induction false} NatToStringRoundTrip(n: nat)
    ensures DigitsValue(NatToString(n)) == n
    decreases n
  {
    var s := NatToString(n);
    if n >= 10 {
      NatToStringRoundTrip(n / 10);
      assert s[..|s| - 1] == NatToString(n / 10);
    }
  }

  /** Whitespace that `int()` strips around its argument (the ASCII part of it). */
  predicate IsSpace(c: char) {
    c == ' ' || c == '\t' || c == '\n' || c == '\r' || c == '\U{B}' || c == '\U{C}'
  }

  function TrimLeft(s: string): (t: string)
    ensures |t| <= |s| && t == s[|s| - |t|..]
    ensures |t| > 0 ==> !IsSpace(t[0])
    ensures forall i :: 0 <= i < |s| - |t| ==> IsSpace(s[i])
  {
    if |s| > 0 && IsSpace(s[0]) then TrimLeft(s[1..]) else s
  }

  function TrimRight(s: string): (t: string)
    ensures |t| <= |s| && t == s[..|t|]
    ensures |t| > 0 ==> !IsSpace(t[|t| - 1])
    ensures forall i :: |t| <= i < |s| ==> IsSpace(s[i])
  {
    if |s| > 0 && IsSpace(s[|s| - 1]) then TrimRight(s[..|s| - 1]) else s
  }

  function Strip(s: string): string {
    TrimRight(TrimLeft(s))
  }

  /**
   The digit part accepted by `int()` in base 10: at least one digit, and every
   underscore sits between two digits ("1_000" is accepted, "1__0", "_1" and "1_" are not).
   */
  predicate WellFormedDigits(s: string) {
    && |s| > 0
    && IsDigit(s[0])
    && (forall i :: 0 <= i < |s| ==> IsDigitOrUnderscore(s[i]))
    && (forall i :: 0 <= i < |s| && s[i] == '_' ==> i + 1 < |s| && IsDigit(s[i + 1]))
  }

  /**
   The most digits `int()` converts from text: the default of
   `sys.get_int_max_str_digits()` (Python 3.11 on, and the 3.7 to 3.10
   security releases that brought the limit in).
   */
  const MaxStrDigits: nat := 4300

  /** The number of digits in a text; underscores and signs do not count. */
  function DigitCount(s: string): nat {
    if |s| == 0 then 0 else (if IsDigit(s[0]) then 1 else 0) + DigitCount(s[1..])
  }

  lemma {:induction false} AllDigitsCount(s: string)
    requires AllDigits(s)
    ensures DigitCount(s) == |s|
    decreases |s|
  {
    if |s| > 0 {
      AllDigitsCount(s[1..]);
    }
  }

  /**
   The digit part alone: its value, or `None` when it is malformed or holds
   more digits than `int()` converts.
   */
  function ParseDigits(s: string): (r: Option<int>)
    ensures r.Some? ==> r.value >= 0
  {
    if WellFormedDigits(s) && DigitCount(s) <= MaxStrDigits then Some(DigitsValue(s)) else None
  }

  /**
   Python's `int(text)`: surrounding whitespace is stripped, an optional sign is
   read, and the rest must be well-formed digits, at most `MaxStrDigits` of
   them; `None` stands for the `ValueError` the source raises otherwise.
   */
  function ParseInt(text: string): Option<int> {
    ParseSigned(Strip(text))
  }

  /** What `int()` reads from text with no surrounding whitespace: an optional sign, then digits. */
  function ParseSigned(t: string): Option<int> {
    if |t| > 0 && t[0] == '-' then
      match ParseDigits(t[1..])
      case Some(v) => Some(-v)
      case None => None
    else if |t| > 0 && t[0] == '+' then ParseDigits(t[1..])
    else ParseDigits(t)
  }

  lemma ParseDigitsOfNat(n: nat)
    requires |NatToString(n)| <= MaxStrDigits
    ensures ParseDigits(NatToString(n)) == Some(n)
  {
    var s := NatToString(n);
    assert forall k :: 0 <= k < |s| ==> IsDigitOrUnderscore(s[k]);
    assert WellFormedDigits(s);
    AllDigitsCount(s);
    NatToStringRoundTrip(n);
  }

  /** A string whose ends are not whitespace is left alone by `Strip`. */
  lemma StripUnpadded(s: string)
    requires |s| > 0 && !IsSpace(s[0]) && !IsSpace(s[|s| - 1])
    ensures Strip(s) == s
  {
  }

  /**
   Parsing inverts rendering: `int(str(i)) == i` for every integer of at most
   `MaxStrDigits` digits (beyond that `str()` raises as well).
   */
  lemma IntRoundTrip(i: int)
    requires DigitCount(IntToString(i)) <= MaxStrDigits
    ensures ParseInt(IntToString(i)) == Some(i)
  {
    StripUnpadded(IntToString(i));
    if i < 0 {
      MinusCount(-i);
      MinusRoundTrip(-i);
    } else {
      AllDigitsCount(NatToString(i));
      ParseDigitsOfNat(i);
    }
  }

  /** A leading '-' is not a digit. */
  lemma MinusCount(m: nat)
    ensures DigitCount("-" + NatToString(m)) == |NatToString(m)|
  {
    assert ("-" + NatToString(m))[1..] == NatToString(m);
    AllDigitsCount(NatToString(m));
  }

  lemma MinusRoundTrip(m: nat)
    requires |NatToString(m)| <= MaxStrDigits
    ensures ParseSigned("-" + NatToString(m)) == Some(-(m as int))
  {
    assert ("-" + NatToString(m))[1..] == NatToString(m);
    ParseDigitsOfNat(m);
  }

  /** A run of digits longer than `MaxStrDigits` is refused, whatever its value. */
  lemma TooManyDigitsRejected(s: string)
    requires AllDigits(s) && |s| > MaxStrDigits
    ensures ParseInt(s) == None
  {
    StripUnpadded(s);
    AllDigitsCount(s);
  }

  /** Surrounding whitespace and an explicit '+' do not change what `int()` reads. */
  lemma ParseIgnoresPadding(pad1: string, pad2: string, n: nat)
    requires |NatToString(n)| <= MaxStrDigits
    requires forall i :: 0 <= i < |pad1| ==> IsSpace(pad1[i])
    requires forall i :: 0 <= i < |pad2| ==> IsSpace(pad2[i])
    ensures ParseInt(pad1 + "+" + NatToString(n) + pad2) == Some(n)
  {
    var core := "+" + NatToString(n);
    var text := pad1 + "+" + NatToString(n) + pad2;
    assert Strip(text) == core by {
      assert text == pad1 + (core + pad2);
      TrimLeftPrefix(pad1, core + pad2);
      TrimRightSuffix(core, pad2);
    }
    PlusRoundTrip(n);
  }

  lemma PlusRoundTrip(n: nat)
    requires |NatToString(n)| <= MaxStrDigits
    ensures ParseSigned("+" + NatToString(n)) == Some(n)
  {
    assert ("+" + NatToString(n))[1..] == NatToString(n);
    ParseDigitsOfNat(n);
  }

  lemma {:induction false} TrimLeftPrefix(pad: string, s: string)
    requires forall i :: 0 <= i < |pad| ==> IsSpace(pad[i])
    requires |s| > 0 && !IsSpace(s[0])
    ensures TrimLeft(pad + s) == s
    decreases |pad|
  {
    if |pad| > 0 {
      assert (pad + s)[1..] == pad[1..] + s;
      TrimLeftPrefix(pad[1..], s);
    } else {
      assert pad + s == s;
    }
  }

  lemma {:induction false} TrimRightSuffix(s: string, pad: string)
    requires forall i :: 0 <= i < |pad| ==> IsSpace(pad[i])
    requires |s| > 0 && !IsSpace(s[|s| - 1])
    ensures TrimRight(s + pad) == s
    decreases |pad|
  {
    if |pad| > 0 {
      assert (s + pad)[..|s + pad| - 1] == s + pad[..|pad| - 1];
      TrimRightSuffix(s, pad[..|pad| - 1]);
    } else {
      assert s + pad == s;
    }
  }
}
