/** Python's `int(str)` conversion of a query-string parameter, and its
    inverse `str(int)`, which writes the navigation links' numbers. */
module PyInt {
  import opened Optional
  import opened Text

  predicate IsDigit(c: char)
  {
    '0' <= c <= '9'
  }

  function DigitValue(c: char): (v: int)
    requires IsDigit(c)
    ensures 0 <= v <= 9
  {
    c as int - '0' as int
  }

  function DigitChar(v: int): (c: char)
    requires 0 <= v <= 9
    ensures IsDigit(c) && DigitValue(c) == v
  {
    ('0' as int + v) as char
  }

  /** The body of a decimal integer literal accepted by `int()`: ASCII
      digits, where single underscores may separate two digits. */
  predicate IsDigitRun(s: string)
  {
    && |s| > 0
    && IsDigit(s[0])
    && IsDigit(s[|s| - 1])
    && forall i :: 0 <= i < |s| ==>
         IsDigit(s[i]) || (s[i] == '_' && i + 1 < |s| && IsDigit(s[i + 1]))
  }

  /** The value of a digit run, read left to right, underscores skipped. */
  function RunValue(s: string): nat
  {
    if |s| == 0 then 0
    else
      var last := s[|s| - 1];
      if IsDigit(last) then RunValue(s[..|s| - 1]) * 10 + DigitValue(last)
      else RunValue(s[..|s| - 1])
  }

  /** CPython's default `sys.get_int_max_str_digits()`: `int()` refuses a
      decimal literal of more digits with `ValueError`. */
  const MaxStrDigits := 4300

  /** The number of ASCII digits in `s`; underscores and signs do not count. */
  function DigitCount(s: string): nat
  {
    if |s| == 0 then 0
    else DigitCount(s[..|s| - 1]) + (if IsDigit(s[|s| - 1]) then 1 else 0)
  }

  /** A digit run `int()` accepts: not longer than the digit limit. */
  predicate IsIntBody(s: string)
  {
    IsDigitRun(s) && DigitCount(s) <= MaxStrDigits
  }

  /** `int()` on text already stripped of white space: an optional sign
      before a digit run of at most `MaxStrDigits` digits. */
  function ParseStripped(t: string): (r: Option<int>)
    ensures r.Some? ==> |t| > 0 && (IsDigit(t[0]) || (|t| > 1 && IsDigit(t[1])))
    ensures r.Some? && r.value < 0 ==> |t| > 0 && t[0] == '-'
  {
    if |t| > 0 && (t[0] == '-' || t[0] == '+') then
      if IsIntBody(t[1..]) then
        var magnitude: int := RunValue(t[1..]);
        Some(if t[0] == '-' then -magnitude else magnitude)
      else None
    else if IsIntBody(t) then Some(RunValue(t))
    else None
  }

  /** `int(s)` for base 10: leading and trailing C white space is skipped,
      an optional sign precedes a digit run of at most `MaxStrDigits`
      digits, and anything else raises `ValueError` (modelled as None).
      Whatever parses holds a digit, and a negative result a minus sign. */
  function ParseInt(s: string): (r: Option<int>)
    ensures r.Some? ==> exists k :: 0 <= k < |s| && IsDigit(s[k])
    ensures r.Some? && r.value < 0 ==> exists k :: 0 <= k < |s| && s[k] == '-'
  {
    var t := StripBy(s, CSpace);
    var i := StripOffset(s, CSpace);
    var r := ParseStripped(t);
    assert |t| > 0 ==> s[i] == t[0];
    assert |t| > 1 ==> s[i + 1] == t[1];
    r
  }

  /** A sign `int()` accepts before the digits: none, `+` or `-`. */
  predicate IsSign(sign: string)
  {
    sign == "" || sign == "+" || sign == "-"
  }

  /** Text made only of C white space. */
  predicate AllCSpace(s: string)
  {
    forall k :: 0 <= k < |s| ==> IsCSpace(s[k])
  }

  /** The value of a digit run under a sign. */
  function Signed(sign: string, b: string): int
  {
    if sign == "-" then -(RunValue(b) as int) else RunValue(b)
  }

  /** Every decimal literal parses: C white space, an optional sign, a digit
      run of at most `MaxStrDigits` digits and C white space give the
      signed value of the run. */
  lemma {:induction false} ParseIntAcceptsLiterals(a: string, sign: string, b: string, c: string)
    requires AllCSpace(a) && AllCSpace(c) && IsSign(sign) && IsIntBody(b)
    ensures ParseInt(a + sign + b + c) == Some(Signed(sign, b))
  {
    var m := sign + b;
    assert a + sign + b + c == a + m + c;
    assert m[|m| - 1] == b[|b| - 1];
    StripPadded(a, m, c, CSpace);
    StrippedLiteral(sign, b);
  }

  /** A sign and a digit run within the limit parse to the signed value. */
  lemma {:induction false} StrippedLiteral(sign: string, b: string)
    requires IsSign(sign) && IsIntBody(b)
    ensures ParseStripped(sign + b) == Some(Signed(sign, b))
  {
    var m := sign + b;
    if sign == "" {
      assert m == b;
    } else {
      assert m[1..] == b;
    }
  }

  /** ... and nothing else does: text `int()` accepts splits into C white
      space, a sign, a digit run within the limit and C white space, and
      its value is the signed value of that run. So `"5x"`, `"1__2"`,
      `"_1"` or `"- 7"` all raise. */
  lemma {:induction false} ParseIntOnlyLiterals(s: string) returns (a: string, sign: string, b: string, c: string)
    requires ParseInt(s).Some?
    ensures s == a + sign + b + c
    ensures AllCSpace(a) && AllCSpace(c) && IsSign(sign) && IsIntBody(b)
    ensures ParseInt(s) == Some(Signed(sign, b))
  {
    var t := StripBy(s, CSpace);
    a, c := StripParts(s, CSpace);
    assert ParseInt(s) == ParseStripped(t);
    sign, b := StrippedOnlyLiteral(t);
    ConcatAssoc(a, sign, b);
  }

  /** Stripped text that parses is a sign followed by a digit run. */
  lemma {:induction false} StrippedOnlyLiteral(t: string) returns (sign: string, b: string)
    requires ParseStripped(t).Some?
    ensures t == sign + b && IsSign(sign) && IsIntBody(b)
    ensures ParseStripped(t) == Some(Signed(sign, b))
  {
    if t[0] == '-' || t[0] == '+' {
      sign := t[..1];
      b := t[1..];
    } else {
      sign := "";
      b := t;
    }
    assert t == sign + b;
  }

  /** `int()` skips C white space at either end of its argument. */
  lemma ParseIntIgnoresPadding(c: char, s: string)
    requires IsCSpace(c)
    ensures ParseInt([c] + s) == ParseInt(s)
    ensures ParseInt(s + [c]) == ParseInt(s)
  {
    StripDropsPrefix([c], s, CSpace);
    StripDropsSuffix(s, [c], CSpace);
  }

  /** `str.isspace()` accepts the information separator U+001C, but `int()`
      does not skip it: `int("\x1c5")` raises although `"\x1c5".strip()`
      is `"5"`. */
  lemma SeparatorIsNotIntSpace()
    ensures IsSpace('\U{001C}') && !IsCSpace('\U{001C}')
    ensures ParseInt("\U{001C}5") == None
    ensures ParseInt(" 5") == Some(5)
  {
    var s := "\U{001C}5";
    assert StripBy(s, CSpace) == s;
    assert !IsDigitRun(s) by {
      assert !IsDigit(s[0]);
    }
    assert ParseStripped(s) == None;
    ParseIntIgnoresPadding(' ', "5");
    assert [' '] + "5" == " 5";
    FiveParses();
  }

  /** `int("5") == 5`. */
  lemma FiveParses()
    ensures ParseInt("5") == Some(5)
  {
    var t := "5";
    assert StripBy(t, CSpace) == t;
    assert t[..0] == [];
    assert DigitCount(t) == 1;
    assert RunValue(t) == 5;
    assert IsIntBody(t);
  }

  /** A digit run longer than the limit is refused, whatever its value. */
  lemma TooManyDigitsNoInt(s: string)
    requires IsDigitRun(s) && DigitCount(s) > MaxStrDigits
    ensures ParseInt(s) == None
  {
    assert StripBy(s, CSpace) == s;
  }

  /** `str(n)` for a natural number: decimal digits without leading zeros. */
  function ShowNat(n: nat): (s: string)
    ensures |s| > 0
    ensures forall i :: 0 <= i < |s| ==> IsDigit(s[i])
  {
    if n < 10 then [DigitChar(n)] else ShowNat(n / 10) + [DigitChar(n % 10)]
  }

  /** `str(n)`: a minus sign before the digits of a negative number. */
  function ShowInt(n: int): (s: string)
    ensures |s| > 0 && (s[0] == '-' <==> n < 0)
  {
    if n < 0 then "-" + ShowNat(-n) else ShowNat(n)
  }

  /** The digits `str` writes are a digit run whose value is the number. */
  lemma {:induction false} ShowNatReadsBack(n: nat)
    ensures IsDigitRun(ShowNat(n))
    ensures RunValue(ShowNat(n)) == n
    ensures DigitCount(ShowNat(n)) == |ShowNat(n)|
  {
    var s := ShowNat(n);
    if n >= 10 {
      ShowNatReadsBack(n / 10);
      assert s[..|s| - 1] == ShowNat(n / 10);
    }
  }

  /** The magnitude of `n`, whose digits `str(n)` writes. */
  function Abs(n: int): nat
  {
    if n < 0 then -n else n
  }

  /** `str` writes about one digit per factor of ten: at most
      `1 + n / 10` of them, so any year up to 10000 stays far inside the
      digit limit. */
  lemma {:induction false} ShowNatLength(n: nat)
    ensures |ShowNat(n)| <= 1 + n / 10
  {
    if n >= 10 {
      var q := n / 10;
      ShowNatLength(q);
      assert q / 10 <= q - 1;
    }
  }

  /** `int(str(n)) == n`: every integer whose digits stay within the limit
      parses back to itself. */
  lemma ParseShowRoundTrip(n: int)
    requires |ShowNat(Abs(n))| <= MaxStrDigits
    ensures ParseInt(ShowInt(n)) == Some(n)
  {
    var digits := ShowNat(Abs(n));
    var sign := if n < 0 then "-" else "";
    ShowNatReadsBack(Abs(n));
    assert ShowInt(n) == "" + sign + digits + "";
    ParseIntAcceptsLiterals("", sign, digits, "");
  }

  /** Every year and month a calendar link can carry round-trips. */
  lemma SmallNumberRoundTrip(n: int)
    requires -10000 <= n <= 10000
    ensures ParseInt(ShowInt(n)) == Some(n)
  {
    ShowNatLength(Abs(n));
    ParseShowRoundTrip(n);
  }

  /** Input without any ASCII digit is not an integer: `int()` raises. */
  lemma NoDigitNoInt(s: string)
    requires forall k :: 0 <= k < |s| ==> !IsDigit(s[k])
    ensures ParseInt(s) == None
  {
  }
}
