/** The pieces of Rust's standard library that the codecs rely on:
    the integer ranges of `u8`, `i64` and `usize`, `str::strip_prefix`,
    decimal formatting (`format!("{}", n)`) and decimal parsing
    (`str::parse::<usize>()` and `str::parse::<i64>()`, radix 10). */
module Rust {
  import opened Wrappers

  /** `usize` on a 64-bit target. */
  const USIZE_LIMIT: int := 0x1_0000_0000_0000_0000
  const I64_MIN: int := -0x8000_0000_0000_0000
  const I64_LIMIT: int := 0x8000_0000_0000_0000

  type Byte = b: int | 0 <= b < 0x100
  type Usize = n: int | 0 <= n < USIZE_LIMIT
  type I64 = x: int | I64_MIN <= x < I64_LIMIT

  // ---------------------------------------------------------------------
  // str::strip_prefix

  function StripPrefix(s: string, prefix: string): (r: Option<string>)
    ensures r.Some? <==> prefix <= s
    ensures r.Some? ==> s == prefix + r.value
  {
    if prefix <= s then Some(s[|prefix|..]) else None
  }

  // ---------------------------------------------------------------------
  // Decimal digits

  predicate IsDigit(c: char) { '0' <= c <= '9' }

  predicate AllDigits(s: string) { forall i :: 0 <= i < |s| ==> IsDigit(s[i]) }

  /** The text `Display` produces for a non-negative integer: digits only,
      and no leading zero unless the number is zero itself. */
  predicate IsCanonicalNat(s: string) {
    |s| >= 1 && AllDigits(s) && (s[0] != '0' || |s| == 1)
  }

  /** The text `Display` produces for a signed integer: an optional '-'
      before a canonical magnitude, and never "-0". */
  predicate IsCanonicalInt(s: string) {
    IsCanonicalNat(s) || (|s| >= 2 && s[0] == '-' && IsCanonicalNat(s[1..]) && s[1] != '0')
  }

  function DigitChar(d: int): (c: char)
    requires 0 <= d < 10
    ensures IsDigit(c)
  {
    ('0' as int + d) as char
  }

  function DigitValue(c: char): (d: int)
    requires IsDigit(c)
    ensures 0 <= d < 10 && DigitChar(d) == c
  {
    c as int - '0' as int
  }

  /** The number a string of decimal digits spells, most significant first. */
  function DigitsValue(s: string): nat
    requires AllDigits(s)
  {
    if s == [] then 0 else DigitsValue(s[..|s| - 1]) * 10 + DigitValue(s[|s| - 1])
  }

  // ---------------------------------------------------------------------
  // Display for integers

  /** `format!("{}", n)` for an unsigned integer. */
  function FormatNat(n: nat): (s: string)
    ensures IsCanonicalNat(s)
    ensures (s == "0") == (n == 0)
  {
    if n < 10 then [DigitChar(n)] else FormatNat(n / 10) + [DigitChar(n % 10)]
  }

  /** `format!("{}", x)` for a signed integer: a '-' only for negative values. */
  function FormatInt(x: int): (s: string)
    ensures IsCanonicalInt(s)
    ensures (|s| >= 1 && s[0] == '-') == (x < 0)
  {
    if x < 0 then "-" + FormatNat(-x) else FormatNat(x)
  }

  // ---------------------------------------------------------------------
  // FromStr for integers

  /** `s.parse::<usize>().ok()`: the empty text and a lone sign are refused,
      one leading '+' is skipped, a '-' is an invalid digit for an unsigned
      type, every other character must be a decimal digit, and a value that
      does not fit in 64 bits overflows. Leading zeros are accepted. */
  function ParseUsize(s: string): (r: Option<Usize>)
    ensures r.Some? ==> |s| >= 1 && (s[0] == '+' || IsDigit(s[0]))
    ensures r.Some? ==> forall i :: 0 < i < |s| ==> IsDigit(s[i])
  {
    if |s| == 0 then None
    else if (s[0] == '+' || s[0] == '-') && |s| == 1 then None
    else
      var digits := if s[0] == '+' then s[1..] else s;
      if AllDigits(digits) && DigitsValue(digits) < USIZE_LIMIT then Some(DigitsValue(digits))
      else None
  }

  /** `s.parse::<i64>().ok()`: as for `usize`, except that a leading '-'
      negates the magnitude, and the value must lie in the `i64` range
      (so "-9223372036854775808" is accepted). */
  function ParseI64(s: string): (r: Option<I64>)
    ensures r.Some? ==> |s| >= 1 && (s[0] == '+' || s[0] == '-' || IsDigit(s[0]))
    ensures r.Some? ==> forall i :: 0 < i < |s| ==> IsDigit(s[i])
    ensures r.Some? && r.value < 0 ==> s[0] == '-'
    ensures r.Some? && s[0] == '-' ==> r.value <= 0
  {
    if |s| == 0 then None
    else if (s[0] == '+' || s[0] == '-') && |s| == 1 then None
    else
      var digits := if s[0] == '+' || s[0] == '-' then s[1..] else s;
      if !AllDigits(digits) then None
      else
        var v: int := if s[0] == '-' then -(DigitsValue(digits) as int) else DigitsValue(digits);
        if I64_MIN <= v < I64_LIMIT then Some(v) else None
  }

  // ---------------------------------------------------------------------
  // Lemmas about digits

  lemma {:induction false} ValueOfFormat(n: nat)
    ensures DigitsValue(FormatNat(n)) == n
  {
    if n >= 10 {
      var s := FormatNat(n);
      assert s[..|s| - 1] == FormatNat(n / 10);
      ValueOfFormat(n / 10);
    }
  }

  /** A digit string that starts with a non-zero digit spells a positive number. */
  lemma {:induction false} LeadingDigitPositive(s: string)
    requires |s| >= 1 && AllDigits(s) && s[0] != '0'
    ensures DigitsValue(s) >= 1
  {
    if |s| > 1 {
      LeadingDigitPositive(s[..|s| - 1]);
    }
  }

  /** Formatting the value of a canonical digit string gives that string back. */
  lemma {:induction false} FormatOfValue(s: string)
    requires IsCanonicalNat(s)
    ensures FormatNat(DigitsValue(s)) == s
  {
    if |s| > 1 {
      var p := s[..|s| - 1];
      LeadingDigitPositive(p);
      FormatOfValue(p);
      var v := DigitsValue(s);
      assert v / 10 == DigitsValue(p) && v % 10 == DigitValue(s[|s| - 1]);
    }
  }

  /** A leading zero does not change the value of a digit string. */
  lemma {:induction false} LeadingZeroValue(s: string)
    requires AllDigits(s)
    ensures AllDigits("0" + s) && DigitsValue("0" + s) == DigitsValue(s)
  {
    if s != [] {
      var z := "0" + s;
      assert z[..|z| - 1] == "0" + s[..|s| - 1];
      LeadingZeroValue(s[..|s| - 1]);
    }
  }

  // ---------------------------------------------------------------------
  // Round trips between Display and FromStr

  lemma ParseUsizeOfFormat(n: Usize)
    ensures ParseUsize(FormatNat(n)) == Some(n)
  {
    ValueOfFormat(n);
  }

  lemma ParseI64OfFormat(x: I64)
    ensures ParseI64(FormatInt(x)) == Some(x)
  {
    if x < 0 {
      var m: nat := -(x as int);
      ValueOfFormat(m);
      ParseI64OfMinusDigits(FormatNat(m));
    } else {
      ValueOfFormat(x);
      ParseI64OfDigits(FormatNat(x));
    }
  }

  /** Parsing then formatting gives the text back exactly when the text
      was already in the form `Display` produces. */
  lemma FormatOfParseUsize(s: string)
    requires ParseUsize(s).Some?
    ensures FormatNat(ParseUsize(s).value) == s <==> IsCanonicalNat(s)
  {
    if IsCanonicalNat(s) {
      FormatOfValue(s);
    }
  }

  lemma FormatOfParseI64(s: string)
    requires ParseI64(s).Some?
    ensures FormatInt(ParseI64(s).value) == s <==> IsCanonicalInt(s)
  {
    var v := ParseI64(s).value;
    if IsCanonicalNat(s) {
      ParseI64OfDigits(s);
      FormatOfValue(s);
    } else if IsCanonicalInt(s) {
      var m := s[1..];
      assert s == "-" + m;
      ParseI64OfMinusDigits(m);
      FormatOfValue(m);
      LeadingDigitPositive(m);
      assert v == -(DigitsValue(m) as int) && v < 0;
      assert FormatInt(v) == "-" + FormatNat(DigitsValue(m));
    }
  }


  /** The parser's leniency: one leading '+' and any leading zero are
      accepted, so several texts parse to the same number. */
  lemma ParseUsizeLenient(d: string)
    requires |d| >= 1 && AllDigits(d)
    ensures ParseUsize("+" + d) == ParseUsize(d)
    ensures ParseUsize("0" + d) == ParseUsize(d)
  {
    assert ("+" + d)[1..] == d;
    LeadingZeroValue(d);
  }

  lemma ParseI64Lenient(d: string)
    requires |d| >= 1 && AllDigits(d)
    ensures ParseI64("+" + d) == ParseI64(d)
    ensures ParseI64("0" + d) == ParseI64(d)
  {
    assert ("+" + d)[1..] == d;
    LeadingZeroValue(d);
  }

  lemma ParseI64LenientNegative(d: string)
    requires |d| >= 1 && AllDigits(d)
    ensures ParseI64("-0" + d) == ParseI64("-" + d)
  {
    var z := "0" + d;
    LeadingZeroValue(d);
    assert ("-" + d)[1..] == d;
    assert "-0" + d == "-" + z && ("-" + z)[1..] == z;
  }

  // ---------------------------------------------------------------------
  // Exactly which texts parse to a given number

  /** A run of k zero digits. */
  function Zeros(k: nat): (z: string)
    ensures |z| == k && AllDigits(z)
    ensures forall i :: 0 <= i < k ==> z[i] == '0'
  {
    if k == 0 then "" else "0" + Zeros(k - 1)
  }

  lemma {:induction false} ZerosValue(k: nat, d: string)
    requires AllDigits(d)
    ensures AllDigits(Zeros(k) + d) && DigitsValue(Zeros(k) + d) == DigitsValue(d)
  {
    if k > 0 {
      ZerosValue(k - 1, d);
      assert Zeros(k) + d == "0" + (Zeros(k - 1) + d);
      LeadingZeroValue(Zeros(k - 1) + d);
    } else {
      assert Zeros(k) + d == d;
    }
  }

  lemma ZerosStep(k: nat, f: string)
    ensures Zeros(k + 1) + f == "0" + (Zeros(k) + f)
  {
    assert Zeros(k + 1) == "0" + Zeros(k);
  }

  /** Every non-empty digit string is some zeros followed by the canonical
      text of its value. */
  lemma {:induction false} SplitLeadingZeros(d: string)
    requires |d| >= 1 && AllDigits(d)
    ensures exists k: nat :: d == Zeros(k) + FormatNat(DigitsValue(d))
  {
    var v := DigitsValue(d);
    if d[0] == '0' && |d| > 1 {
      var rest := d[1..];
      assert d == "0" + rest;
      LeadingZeroValue(rest);
      assert DigitsValue(rest) == v;
      SplitLeadingZeros(rest);
      var k: nat :| rest == Zeros(k) + FormatNat(v);
      ZerosStep(k, FormatNat(v));
      assert d == Zeros(k + 1) + FormatNat(v);
    } else {
      FormatOfValue(d);
      assert d == Zeros(0) + FormatNat(v);
    }
  }

  /** A plain digit string parses to its value when that fits. */
  lemma ParseUsizeOfDigits(d: string)
    requires |d| >= 1 && AllDigits(d)
    ensures ParseUsize(d) == if DigitsValue(d) < USIZE_LIMIT then Some(DigitsValue(d)) else None
  {
    assert IsDigit(d[0]);
  }

  /** Zeros then the canonical text of n, as a `usize` literal, parses to n. */
  lemma ParseUsizeOfZerosFormat(k: nat, n: Usize)
    ensures ParseUsize(Zeros(k) + FormatNat(n)) == Some(n)
  {
    var f := FormatNat(n);
    ZerosValue(k, f);
    ValueOfFormat(n);
    ParseUsizeOfDigits(Zeros(k) + f);
  }

  lemma ParseUsizeOfPlusZerosFormat(k: nat, n: Usize)
    ensures ParseUsize("+" + (Zeros(k) + FormatNat(n))) == Some(n)
  {
    var d := Zeros(k) + FormatNat(n);
    ParseUsizeOfZerosFormat(k, n);
    ParseUsizeLenient(d);
  }

  /** An optional '+', then k zeros, then the canonical decimal text of n. */
  predicate IsUsizeSpelling(s: string, n: nat, k: nat) {
    s == Zeros(k) + FormatNat(n) || s == "+" + (Zeros(k) + FormatNat(n))
  }

  lemma ParsedUsizeIsSpelling(s: string, n: Usize)
    requires ParseUsize(s) == Some(n)
    ensures exists k: nat :: IsUsizeSpelling(s, n, k)
  {
    var c := s[0];
    var d := if c == '+' then s[1..] else s;
    assert s == if c == '+' then "+" + d else d;
    assert |d| >= 1 && AllDigits(d);
    SplitLeadingZeros(d);
    var k: nat :| d == Zeros(k) + FormatNat(DigitsValue(d));
    ParseUsizeOfDigits(d);
    if c == '+' {
      ParseUsizeLenient(d);
    }
    assert DigitsValue(d) == n;
    assert IsUsizeSpelling(s, n, k);
  }

  /** The texts that parse to a `usize` n are exactly its spellings: an
      optional '+', then any number of zeros, then the canonical decimal
      text of n. */
  lemma ParseUsizeSpellings(s: string, n: Usize)
    ensures ParseUsize(s) == Some(n) <==> exists k: nat :: IsUsizeSpelling(s, n, k)
  {
    if ParseUsize(s) == Some(n) {
      ParsedUsizeIsSpelling(s, n);
    }
    if exists k: nat :: IsUsizeSpelling(s, n, k) {
      var k: nat :| IsUsizeSpelling(s, n, k);
      ParseUsizeOfZerosFormat(k, n);
      ParseUsizeOfPlusZerosFormat(k, n);
    }
  }

  /** A digit string parses to its value when that fits in an `i64`;
      behind a '+' it parses the same; behind a '-' it parses to the
      negation when that fits. */
  lemma ParseI64OfDigits(d: string)
    requires |d| >= 1 && AllDigits(d)
    ensures ParseI64(d) == if DigitsValue(d) < I64_LIMIT then Some(DigitsValue(d)) else None
  {
    assert IsDigit(d[0]);
  }

  lemma ParseI64OfPlusDigits(d: string)
    requires |d| >= 1 && AllDigits(d)
    ensures ParseI64("+" + d) == if DigitsValue(d) < I64_LIMIT then Some(DigitsValue(d)) else None
  {
    assert ("+" + d)[1..] == d;
  }

  lemma ParseI64OfMinusDigits(d: string)
    requires |d| >= 1 && AllDigits(d)
    ensures ParseI64("-" + d) == if DigitsValue(d) <= -I64_MIN then Some(-(DigitsValue(d) as int)) else None
  {
    var t := "-" + d;
    assert |t| >= 2 && t[0] == '-' && t[1..] == d;
    var v: int := -(DigitsValue(d) as int);
    assert (I64_MIN <= v < I64_LIMIT) == (DigitsValue(d) <= -I64_MIN);
  }

  /** An optional '+' (for v >= 0) or a '-' (for v <= 0), then k zeros,
      then the canonical decimal text of the magnitude of v. */
  predicate IsI64Spelling(s: string, v: int, k: nat) {
    (v >= 0 && (s == Zeros(k) + FormatNat(v) || s == "+" + (Zeros(k) + FormatNat(v))))
    || (v <= 0 && s == "-" + (Zeros(k) + FormatNat(-v)))
  }

  lemma SpellingParsesI64(s: string, v: I64, k: nat)
    requires IsI64Spelling(s, v, k)
    ensures ParseI64(s) == Some(v)
  {
    var m: nat := if v < 0 then -(v as int) else v;
    var d := Zeros(k) + FormatNat(m);
    ZerosValue(k, FormatNat(m));
    ValueOfFormat(m);
    ParseI64OfDigits(d);
    ParseI64OfPlusDigits(d);
    ParseI64OfMinusDigits(d);
    if v == 0 {
      assert s == d || s == "+" + d || s == "-" + d;
    } else if v > 0 {
      assert s == d || s == "+" + d;
    } else {
      assert s == "-" + d;
    }
  }

  lemma ParsedI64IsSpelling(s: string, v: I64)
    requires ParseI64(s) == Some(v)
    ensures exists k: nat :: IsI64Spelling(s, v, k)
  {
    var c := s[0];
    var d := if c == '+' || c == '-' then s[1..] else s;
    assert s == if c == '+' || c == '-' then [c] + d else d;
    assert |d| >= 1 && AllDigits(d);
    SplitLeadingZeros(d);
    var k: nat :| d == Zeros(k) + FormatNat(DigitsValue(d));
    if c == '-' {
      ParseI64OfMinusDigits(d);
      assert s == "-" + d && v == -(DigitsValue(d) as int);
      assert IsI64Spelling(s, v, k);
    } else if c == '+' {
      ParseI64OfPlusDigits(d);
      assert s == "+" + d && v == DigitsValue(d);
      assert IsI64Spelling(s, v, k);
    } else {
      ParseI64OfDigits(d);
      assert s == d && v == DigitsValue(d);
      assert IsI64Spelling(s, v, k);
    }
  }

  /** The texts that parse to an `i64` v are exactly its spellings: an
      optional sign that agrees with v, any number of zeros, then the
      canonical text of the magnitude. So "-0" and "+00" parse to 0. */
  lemma ParseI64Spellings(s: string, v: I64)
    ensures ParseI64(s) == Some(v) <==> exists k: nat :: IsI64Spelling(s, v, k)
  {
    if ParseI64(s) == Some(v) {
      ParsedI64IsSpelling(s, v);
    }
    if exists k: nat :: IsI64Spelling(s, v, k) {
      var k: nat :| IsI64Spelling(s, v, k);
      SpellingParsesI64(s, v, k);
    }
  }
}
