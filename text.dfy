/** Decimal numbers and C strings: the conversions `strtoll`, `boost::lexical_cast`
    and `strdup`/`strchr` perform on the daemons' text. */
module Text {
  import opened Common

  predicate IsDigit(c: char) { '0' <= c <= '9' }

  predicate AllDigits(s: string) { forall i :: 0 <= i < |s| ==> IsDigit(s[i]) }

  function DigitValue(c: char): nat
    requires IsDigit(c)
  {
    (c as int) - ('0' as int)
  }

  function DigitChar(d: nat): (c: char)
    requires d < 10
    ensures IsDigit(c) && DigitValue(c) == d
  {
    (('0' as int) + d) as char
  }

  /** The decimal digits of `n`, most significant first, without leading zeros. */
  function Digits(n: nat): (s: string)
    ensures 1 <= |s| && AllDigits(s)
    ensures |s| > 1 ==> s[0] != '0'
  {
    if n < 10 then [DigitChar(n)] else Digits(n / 10) + [DigitChar(n % 10)]
  }

  /** The value of a string of decimal digits, most significant first. */
  function ValueOf(s: string): nat
    requires AllDigits(s)
  {
    if |s| == 0 then 0 else 10 * ValueOf(s[..|s| - 1]) + DigitValue(s[|s| - 1])
  }

  /** Reading back the digits of a number gives the number. */
  lemma {:induction false} ValueOfDigits(n: nat)
    ensures ValueOf(Digits(n)) == n
  {
    if n >= 10 {
      var s := Digits(n);
      assert s[..|s| - 1] == Digits(n / 10);
      ValueOfDigits(n / 10);
    }
  }

  /** How many decimal digits `s` starts with. */
  function LeadingDigits(s: string): (k: nat)
    ensures k <= |s| && AllDigits(s[..k])
    ensures k < |s| ==> !IsDigit(s[k])
  {
    if |s| == 0 || !IsDigit(s[0]) then 0 else 1 + LeadingDigits(s[1..])
  }

  /** A run of digits followed by a non-digit (or nothing) is read in full. */
  lemma {:induction false} LeadingDigitsOf(d: string, rest: string)
    requires AllDigits(d)
    requires rest == [] || !IsDigit(rest[0])
    ensures LeadingDigits(d + rest) == |d|
  {
    if d != [] {
      assert (d + rest)[1..] == d[1..] + rest;
      LeadingDigitsOf(d[1..], rest);
    }
  }

  /** `boost::lexical_cast<std::string>(long long)`: an optional minus sign and the digits. */
  function Decimal(i: int): string
  {
    if i < 0 then "-" + Digits(-i) else Digits(i)
  }

  /** `s` starts with a `+` or `-` sign. */
  predicate HasSign(s: string) { |s| > 0 && (s[0] == '+' || s[0] == '-') }

  /** `strtoll(s, &end, ...)` on decimal input: an optional sign, then digits. The result
      pairs the converted value, clamped to the `long long` range as `strtoll` does on
      overflow, with the number of characters consumed; 0 characters means nothing
      converted (`end == s`) and the value is then 0. */
  function StrToLL(s: string): (r: (int, nat))
    ensures r.1 <= |s|
    ensures r.1 == 0 ==> r.0 == 0
    ensures (r.1 == 0) == (LeadingDigits(if HasSign(s) then s[1..] else s) == 0)
    ensures r.1 > 0 ==> r.1 == |s| || !IsDigit(s[r.1])
    ensures LLONG_MIN <= r.0 <= LLONG_MAX
  {
    var sign := if HasSign(s) then 1 else 0;
    var body := s[sign..];
    var k := LeadingDigits(body);
    if k == 0 then (0, 0)
    else
      var v: int := ValueOf(body[..k]);
      (if sign == 1 && s[0] == '-' then Max(-v, LLONG_MIN) else Min(v, LLONG_MAX), sign + k)
  }

  /** A printed `long long` followed by a non-digit converts back to itself. */
  lemma StrToLLDecimal(i: int, rest: string)
    requires LLONG_MIN <= i <= LLONG_MAX
    requires rest == [] || !IsDigit(rest[0])
    ensures StrToLL(Decimal(i) + rest) == (i, |Decimal(i)|)
  {
    if i < 0 {
      StrToLLNegativeDecimal(i, rest);
    } else {
      assert ValueOf(Digits(i)) == i by { ValueOfDigits(i); }
      StrToLLUnsigned(Digits(i), rest);
    }
  }

  lemma StrToLLNegativeDecimal(i: int, rest: string)
    requires LLONG_MIN <= i < 0
    requires rest == [] || !IsDigit(rest[0])
    ensures StrToLL(Decimal(i) + rest) == (i, |Decimal(i)|)
  {
    var s := Decimal(i) + rest;
    var d := Digits(-i);
    assert s[1..] == d + rest by {
      Assoc("-", d, rest);
      Halves("-", d + rest);
    }
    assert ValueOf(d) == -i by { ValueOfDigits(-i); }
    assert |Decimal(i)| == |d| + 1;
    assert StrToLL(s).0 == i && StrToLL(s).1 == |d| + 1 by { StrToLLNegative(s, d, rest); }
  }

  /** Digits with no sign, followed by a non-digit, are read in full. */
  lemma StrToLLUnsigned(d: string, rest: string)
    requires d != [] && AllDigits(d)
    requires rest == [] || !IsDigit(rest[0])
    ensures StrToLL(d + rest).0 == Min(ValueOf(d), LLONG_MAX)
    ensures StrToLL(d + rest).1 == |d|
  {
    assert !HasSign(d + rest);
    LeadingDigitsOf(d, rest);
    assert (d + rest)[0..|d|] == d;
  }

  /** A minus sign and digits, followed by a non-digit, are read in full. */
  lemma StrToLLNegative(s: string, d: string, rest: string)
    requires d != [] && AllDigits(d)
    requires rest == [] || !IsDigit(rest[0])
    requires |s| > 0 && s[0] == '-' && s[1..] == d + rest
    ensures StrToLL(s).0 == Max(-(ValueOf(d) as int), LLONG_MIN)
    ensures StrToLL(s).1 == |d| + 1
  {
    assert HasSign(s);
    assert LeadingDigits(s[1..]) == |d| by { LeadingDigitsOf(d, rest); }
    assert s[1..][..|d|] == d;
  }

  /** The C string a `std::string` holds: everything before the first NUL. */
  function CString(s: string): (c: string)
    ensures |c| <= |s| && c == s[..|c|]
    ensures '\0' !in c
    ensures |c| < |s| ==> s[|c|] == '\0'
  {
    if |s| == 0 || s[0] == '\0' then "" else [s[0]] + CString(s[1..])
  }

  /** The position `strchr` finds: the first occurrence of `c` in `s`. */
  function IndexOf(s: string, c: char): (i: nat)
    requires c in s
    ensures i < |s| && s[i] == c && c !in s[..i]
  {
    if s[0] == c then 0 else 1 + IndexOf(s[1..], c)
  }

  /** A string without NUL is its own C string. */
  lemma {:induction false} CStringNoNul(s: string)
    requires '\0' !in s
    ensures CString(s) == s
  {
    if s != [] {
      CStringNoNul(s[1..]);
      assert s == [s[0]] + s[1..];
    }
  }

  /** `strchr` finds the first occurrence. */
  lemma {:induction false} IndexOfFirst(s: string, x: char, i: nat)
    requires i < |s| && s[i] == x && x !in s[..i]
    ensures IndexOf(s, x) == i
  {
    if i > 0 {
      assert s[1..][..i - 1] == s[1..i];
      IndexOfFirst(s[1..], x, i - 1);
    }
  }
}
