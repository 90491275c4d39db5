/** The line parse of `load_blocklist` (torrentd.cpp): each line of the `blocklist` file
    that names a blocked address range as `description:a.b.c.d-e.f.g.h` adds one rule to
    the session's IP filter. */
module Blocklist {
  import opened Common
  import opened Text

  const U32: nat := 0x1_0000_0000
  const ULONG_MAX: nat := 0xFFFF_FFFF_FFFF_FFFF

  /** A blocked range of IPv4 addresses, each packed in 32 bits, first and last included.
      The filter's own merging of rules is libtorrent's and is not part of this model. */
  datatype Rule = Rule(first: nat, last: nat)

  // -------------------------------------------------------------------------------------
  // `sscanf`.

  /** One directive of a `scanf` format: a `%u` conversion or a plain character. */
  datatype Directive = Unsigned | Literal(c: char)

  /** A conversion followed by the plain character `c`. */
  function Pair(c: char): seq<Directive> { [Unsigned, Literal(c)] }

  /** `%u.%u.%u.%u-%u.%u.%u.%u` */
  const RuleFormat: seq<Directive> :=
    Pair('.') + (Pair('.') + (Pair('.') + (Pair('-') +
    (Pair('.') + (Pair('.') + (Pair('.') + [Unsigned]))))))

  /** White space as `isspace` classifies it in the C locale. */
  predicate IsSpace(c: char)
  {
    c == ' ' || c == '\t' || c == '\n' || c == '\U{B}' || c == '\U{C}' || c == '\r'
  }

  /** How many white-space characters `s` starts with. */
  function LeadingSpaces(s: string): (k: nat)
    ensures k <= |s|
    ensures forall i :: 0 <= i < k ==> IsSpace(s[i])
    ensures k < |s| ==> !IsSpace(s[k])
  {
    if |s| == 0 || !IsSpace(s[0]) then 0 else 1 + LeadingSpaces(s[1..])
  }

  /** The value `%u` stores: the C library converts the digits as `strtoul` does into a
      64-bit `unsigned long` (clamped to its maximum on overflow, negated modulo 2^64
      after a minus sign) and the store into an `unsigned int` keeps the low 32 bits. */
  function ToUnsigned(negative: bool, magnitude: nat): (v: nat)
    ensures v < U32
    ensures !negative && magnitude < U32 ==> v == magnitude
  {
    var wide :=
      if magnitude > ULONG_MAX then ULONG_MAX
      else if negative then (ULONG_MAX + 1 - magnitude) % (ULONG_MAX + 1)
      else magnitude;
    wide % U32
  }

  /** One `%u` conversion: skip white space, an optional sign, then at least one digit.
      The result is the stored value and the number of characters consumed; `None` is
      a matching failure. */
  function ScanUnsigned(s: string): (r: Option<(nat, nat)>)
    ensures r.Some? ==> r.value.0 < U32 && 0 < r.value.1 <= |s|
    ensures r.Some? ==> r.value.1 == |s| || !IsDigit(s[r.value.1])
    ensures r.None? <==>
              var t := s[LeadingSpaces(s)..];
              LeadingDigits(if HasSign(t) then t[1..] else t) == 0
  {
    var w := LeadingSpaces(s);
    var t := s[w..];
    var sign := if HasSign(t) then 1 else 0;
    var body := t[sign..];
    var k := LeadingDigits(body);
    if k == 0 then None
    else Some((ToUnsigned(sign == 1 && t[0] == '-', ValueOf(body[..k])), w + sign + k))
  }

  /** The values `sscanf(s, fmt, ...)` assigns, in order: it stops at the first directive
      that fails, so the returned count is the length of this sequence. */
  function ScanF(fmt: seq<Directive>, s: string): (vals: seq<nat>)
    ensures |vals| <= |fmt|
    ensures forall i :: 0 <= i < |vals| ==> vals[i] < U32
    decreases |fmt|
  {
    if fmt == [] then []
    else match fmt[0]
      case Literal(c) =>
        if |s| > 0 && s[0] == c then ScanF(fmt[1..], s[1..]) else []
      case Unsigned =>
        match ScanUnsigned(s)
        case None => []
        case Some(p) => [p.0] + ScanF(fmt[1..], s[p.1..])
  }

  /** The number of conversions in a format. */
  function Conversions(fmt: seq<Directive>): nat
  {
    if fmt == [] then 0 else (if fmt[0].Unsigned? then 1 else 0) + Conversions(fmt[1..])
  }

  /** A format `ScanF` reads back unambiguously: its plain characters are neither digits
      nor white space, and no conversion follows another directly. */
  predicate Separated(fmt: seq<Directive>)
  {
    && (forall i :: 0 <= i < |fmt| && fmt[i].Literal? ==> !IsDigit(fmt[i].c) && !IsSpace(fmt[i].c))
    && (forall i :: 0 <= i < |fmt| - 1 && fmt[i].Unsigned? ==> fmt[i + 1].Literal?)
  }

  /** The text a format describes, with each conversion printed in decimal. */
  function Render(fmt: seq<Directive>, vals: seq<nat>): (s: string)
    requires |vals| == Conversions(fmt)
    ensures fmt != [] && fmt[0].Literal? ==> |s| > 0 && s[0] == fmt[0].c
    decreases |fmt|
  {
    if fmt == [] then ""
    else match fmt[0]
      case Literal(c) => [c] + Render(fmt[1..], vals)
      case Unsigned => Digits(vals[0]) + Render(fmt[1..], vals[1..])
  }

  /** A number printed in decimal and followed by a non-digit is one `%u` conversion. */
  lemma ScanDigits(n: nat, rest: string)
    requires n < U32
    requires rest == [] || !IsDigit(rest[0])
    ensures ScanUnsigned(Digits(n) + rest) == Some((n, |Digits(n)|))
  {
    var d := Digits(n);
    var s := d + rest;
    assert LeadingSpaces(s) == 0;
    assert s[0..] == s;
    assert !HasSign(s);
    LeadingDigitsOf(d, rest);
    assert s[..|d|] == d;
    ValueOfDigits(n);
  }

  /** Scanning what a separated format rendered gives back the values, whatever follows
      that does not start with a digit. */
  lemma {:induction false} ScanRender(fmt: seq<Directive>, vals: seq<nat>, tail: string)
    requires Separated(fmt)
    requires |vals| == Conversions(fmt)
    requires forall i :: 0 <= i < |vals| ==> vals[i] < U32
    requires tail == [] || !IsDigit(tail[0])
    ensures ScanF(fmt, Render(fmt, vals) + tail) == vals
    decreases |fmt|
  {
    if fmt != [] {
      SeparatedTail(fmt);
      if fmt[0].Literal? {
        ScanRender(fmt[1..], vals, tail);
        ScanLiteral(fmt, vals, tail);
      } else {
        ScanRender(fmt[1..], vals[1..], tail);
        ScanConversion(fmt, vals, tail);
        assert vals == [vals[0]] + vals[1..];
      }
    }
  }

  /** What follows the first directive of a separated format is separated, and does not
      print a leading digit after a conversion. */
  lemma SeparatedTail(fmt: seq<Directive>)
    requires Separated(fmt) && fmt != []
    ensures Separated(fmt[1..])
    ensures fmt[0].Literal? ==> !IsDigit(fmt[0].c)
    ensures fmt[0].Unsigned? && |fmt| > 1 ==> fmt[1].Literal? && !IsDigit(fmt[1].c)
  {
  }

  /** A plain character is matched and dropped. */
  lemma ScanLiteral(fmt: seq<Directive>, vals: seq<nat>, tail: string)
    requires fmt != [] && fmt[0].Literal? && |vals| == Conversions(fmt)
    ensures ScanF(fmt, Render(fmt, vals) + tail) == ScanF(fmt[1..], Render(fmt[1..], vals) + tail)
  {
    var rest := Render(fmt[1..], vals) + tail;
    assert Render(fmt, vals) + tail == [fmt[0].c] + rest;
    assert ([fmt[0].c] + rest)[1..] == rest;
  }

  /** A printed number is converted, and scanning goes on right after its digits. */
  lemma ScanConversion(fmt: seq<Directive>, vals: seq<nat>, tail: string)
    requires fmt != [] && fmt[0].Unsigned? && |vals| == Conversions(fmt)
    requires vals[0] < U32
    requires |fmt| > 1 ==> fmt[1].Literal? && !IsDigit(fmt[1].c)
    requires tail == [] || !IsDigit(tail[0])
    ensures ScanF(fmt, Render(fmt, vals) + tail)
            == [vals[0]] + ScanF(fmt[1..], Render(fmt[1..], vals[1..]) + tail)
  {
    var rest := Render(fmt[1..], vals[1..]) + tail;
    var d := Digits(vals[0]);
    assert ScanUnsigned(d + rest) == Some((vals[0], |d| as nat)) by {
      assert rest == [] || !IsDigit(rest[0]);
      ScanDigits(vals[0], rest);
    }
    assert Render(fmt, vals) + tail == d + rest by {
      Assoc(d, Render(fmt[1..], vals[1..]), tail);
    }
    assert (d + rest)[|d|..] == rest;
  }

  // -------------------------------------------------------------------------------------
  // Addresses.

  /** `(a << 24) + (b << 16) + (c << 8) + d` in `unsigned int` arithmetic, which wraps
      modulo 2^32. */
  function Pack(a: nat, b: nat, c: nat, d: nat): (x: nat)
    ensures x < U32
  {
    (a * 0x100_0000 + b * 0x1_0000 + c * 0x100 + d) % U32
  }

  /** The four bytes of a packed address, most significant first. */
  function Unpack(x: nat): (nat, nat, nat, nat)
  {
    (x / 0x100_0000 % 0x100, x / 0x1_0000 % 0x100, x / 0x100 % 0x100, x % 0x100)
  }

  /** Four octets pack without wrapping, and unpack to themselves. */
  lemma PackOctets(a: nat, b: nat, c: nat, d: nat)
    requires a < 0x100 && b < 0x100 && c < 0x100 && d < 0x100
    ensures Pack(a, b, c, d) == a * 0x100_0000 + b * 0x1_0000 + c * 0x100 + d
    ensures Unpack(Pack(a, b, c, d)) == (a, b, c, d)
  {
    var x := a * 0x100_0000 + b * 0x1_0000 + c * 0x100 + d;
    assert x < U32;
    assert x / 0x100_0000 == a;
    assert x / 0x1_0000 == a * 0x100 + b;
    assert x / 0x100 == a * 0x1_0000 + b * 0x100 + c;
  }

  /** A number above 255 carries into the byte before: `1.300.0.0` is `2.44.0.0`. */
  lemma OctetCarries()
    ensures Pack(1, 300, 0, 0) == Pack(2, 44, 0, 0)
  {
  }

  // -------------------------------------------------------------------------------------
  // Lines.

  /** The rule one line of the file adds, if any: `strchr` looks for the first `:` in the
      line read as a C string, and the eight numbers after it must all convert. */
  function RuleOf(line: string): (r: Option<Rule>)
    ensures r.Some? ==> ':' in CString(line)
    ensures r.Some? ==> r.value.first < U32 && r.value.last < U32
  {
    var c := CString(line);
    if ':' !in c then None
    else
      var vals := ScanF(RuleFormat, c[IndexOf(c, ':') + 1..]);
      if |vals| != 8 then None
      else Some(Rule(Pack(vals[0], vals[1], vals[2], vals[3]), Pack(vals[4], vals[5], vals[6], vals[7])))
  }

  /** The rules of a whole file, in the order of its lines. */
  function RulesOf(lines: seq<string>): (rules: seq<Rule>)
    ensures |rules| <= |lines|
  {
    if lines == [] then []
    else
      var last := lines[|lines| - 1];
      RulesOf(lines[..|lines| - 1]) + (if RuleOf(last).Some? then [RuleOf(last).value] else [])
  }

  /** `a.b.c.d` */
  function Dotted(a: nat, b: nat, c: nat, d: nat): string
  {
    Digits(a) + ("." + (Digits(b) + ("." + (Digits(c) + ("." + Digits(d))))))
  }

  /** `a.b.c.d-e.f.g.h` */
  function RangeText(a: nat, b: nat, c: nat, d: nat, e: nat, f: nat, g: nat, h: nat): string
  {
    Dotted(a, b, c, d) + ("-" + Dotted(e, f, g, h))
  }

  /** A conversion and a plain character that is neither a digit nor white space keep a
      format separated. */
  lemma SeparatedPair(c: char, fmt: seq<Directive>)
    requires Separated(fmt) && fmt != [] && !IsDigit(c) && !IsSpace(c)
    ensures Separated(Pair(c) + fmt)
  {
    var f := Pair(c) + fmt;
    forall i | 0 <= i < |f| - 1 && f[i].Unsigned?
      ensures f[i + 1].Literal?
    {
      if i >= 2 {
        assert f[i] == fmt[i - 2] && f[i + 1] == fmt[i - 1];
      }
    }
    forall i | 0 <= i < |f| && f[i].Literal?
      ensures !IsDigit(f[i].c) && !IsSpace(f[i].c)
    {
      if i >= 2 {
        assert f[i] == fmt[i - 2];
      }
    }
  }

  /** The rule format reads back unambiguously. */
  lemma RuleFormatSeparated()
    ensures Separated(RuleFormat)
  {
    var f7: seq<Directive> := [Unsigned];
    var f6 := Pair('.') + f7;
    SeparatedPair('.', f7);
    var f5 := Pair('.') + f6;
    SeparatedPair('.', f6);
    var f4 := Pair('.') + f5;
    SeparatedPair('.', f5);
    var f3 := Pair('-') + f4;
    SeparatedPair('-', f4);
    var f2 := Pair('.') + f3;
    SeparatedPair('.', f3);
    var f1 := Pair('.') + f2;
    SeparatedPair('.', f2);
    SeparatedPair('.', f1);
  }

  lemma RenderPair(c: char, fmt: seq<Directive>, v: nat, vals: seq<nat>)
    requires |vals| == Conversions(fmt)
    ensures Conversions(Pair(c) + fmt) == 1 + |vals|
    ensures Render(Pair(c) + fmt, [v] + vals) == Digits(v) + ([c] + Render(fmt, vals))
  {
    var f := Pair(c) + fmt;
    assert f[1..] == [Literal(c)] + fmt;
    assert f[1..][1..] == fmt;
    assert ([v] + vals)[1..] == vals;
  }

  /** The rule format prints eight numbers as its directives say, one after the other. */
  lemma RenderNested(a: nat, b: nat, c: nat, d: nat, e: nat, f: nat, g: nat, h: nat)
    ensures Conversions(RuleFormat) == 8
    ensures Render(RuleFormat, [a, b, c, d, e, f, g, h]) ==
            Digits(a) + ("." + (Digits(b) + ("." + (Digits(c) + ("." + (Digits(d) + ("-" +
            (Digits(e) + ("." + (Digits(f) + ("." + (Digits(g) + ("." + Digits(h))))))))))))))
  {
    var f7: seq<Directive> := [Unsigned];
    assert Render(f7, [h]) == Digits(h) by { assert Digits(h) + "" == Digits(h); }
    var f6 := Pair('.') + f7;
    RenderPair('.', f7, g, [h]);
    var f5 := Pair('.') + f6;
    RenderPair('.', f6, f, [g, h]);
    var f4 := Pair('.') + f5;
    RenderPair('.', f5, e, [f, g, h]);
    var f3 := Pair('-') + f4;
    RenderPair('-', f4, d, [e, f, g, h]);
    var f2 := Pair('.') + f3;
    RenderPair('.', f3, c, [d, e, f, g, h]);
    var f1 := Pair('.') + f2;
    RenderPair('.', f2, b, [c, d, e, f, g, h]);
    RenderPair('.', f1, a, [b, c, d, e, f, g, h]);
  }

  /** The rule format prints eight numbers as a range of dotted addresses. */
  lemma RenderRule(a: nat, b: nat, c: nat, d: nat, e: nat, f: nat, g: nat, h: nat)
    ensures Conversions(RuleFormat) == 8
    ensures Render(RuleFormat, [a, b, c, d, e, f, g, h]) == RangeText(a, b, c, d, e, f, g, h)
  {
    RenderNested(a, b, c, d, e, f, g, h);
    var x := "-" + Dotted(e, f, g, h);
    var r3 := "." + Digits(d);
    var r2 := Digits(c) + r3;
    var r1 := "." + r2;
    var q1 := Digits(b) + r1;
    var q0 := "." + q1;
    Assoc(Digits(a), q0, x);
    Assoc(".", q1, x);
    Assoc(Digits(b), r1, x);
    Assoc(".", r2, x);
    Assoc(Digits(c), r3, x);
    Assoc(".", Digits(d), x);
  }

  /** A line `description:a.b.c.d-e.f.g.h` followed by its line end adds the rule from
      `a.b.c.d` to `e.f.g.h` (packed without wrapping, by `PackOctets`), when the
      description holds no `:` and the line no NUL. */
  lemma {:induction false} RuleLine(name: string, a: nat, b: nat, c: nat, d: nat,
                                    e: nat, f: nat, g: nat, h: nat, tail: string)
    requires ':' !in name
    requires a < 0x100 && b < 0x100 && c < 0x100 && d < 0x100
    requires e < 0x100 && f < 0x100 && g < 0x100 && h < 0x100
    requires tail == [] || !IsDigit(tail[0])
    requires '\0' !in name + ":" + RangeText(a, b, c, d, e, f, g, h) + tail
    ensures RuleOf(name + ":" + RangeText(a, b, c, d, e, f, g, h) + tail)
            == Some(Rule(Pack(a, b, c, d), Pack(e, f, g, h)))
  {
    var vals := [a, b, c, d, e, f, g, h];
    var text := RangeText(a, b, c, d, e, f, g, h);
    var body := text + tail;
    var line := name + ":" + text + tail;
    RenderRule(a, b, c, d, e, f, g, h);
    assert line == name + (":" + body) by {
      Assoc(name + ":", text, tail);
      Assoc(name, ":", body);
    }
    assert line[|name|] == ':' && line[..|name|] == name && line[|name| + 1..] == body by {
      Halves(name, ":" + body);
      assert (":" + body)[1..] == body;
    }
    assert ScanF(RuleFormat, body) == vals by {
      RuleFormatSeparated();
      ScanRender(RuleFormat, vals, tail);
    }
    assert RuleOf(line) == Some(Rule(Pack(a, b, c, d), Pack(e, f, g, h))) by {
      RuleOfFields(line, |name|, vals);
    }
  }

  /** A line without NUL whose first `:` is followed by eight convertible numbers adds
      the rule they give. */
  lemma RuleOfFields(line: string, k: nat, vals: seq<nat>)
    requires '\0' !in line
    requires k < |line| && line[k] == ':' && ':' !in line[..k]
    requires ScanF(RuleFormat, line[k + 1..]) == vals && |vals| == 8
    ensures RuleOf(line) == Some(Rule(Pack(vals[0], vals[1], vals[2], vals[3]),
                                      Pack(vals[4], vals[5], vals[6], vals[7])))
  {
    CStringNoNul(line);
    IndexOfFirst(line, ':', k);
  }

  /** A line without a `:` before its first NUL adds no rule, nor does one where the
      numbers after the `:` stop short of eight. */
  lemma NoRule(line: string)
    ensures ':' !in CString(line) ==> RuleOf(line).None?
    ensures ':' in CString(line) &&
            |ScanF(RuleFormat, CString(line)[IndexOf(CString(line), ':') + 1..])| < 8
            ==> RuleOf(line).None?
  {
  }

  /** `load_blocklist`'s loop: read the lines in order and add the rule of each line that
      has one. */
  method LoadBlocklist(lines: seq<string>) returns (rules: seq<Rule>)
    ensures rules == RulesOf(lines)
  {
    rules := [];
    var i := 0;
    while i < |lines|
      invariant i <= |lines|
      invariant rules == RulesOf(lines[..i])
    {
      var r := RuleOf(lines[i]);
      if r.Some? {
        rules := rules + [r.value];
      }
      assert rules == RulesOf(lines[..i + 1]) by {
        RulesOfPrefix(lines, i);
      }
      i := i + 1;
    }
    assert lines[..i] == lines;
  }

  /** One more line adds its rule, if it has one, at the end. */
  lemma RulesOfPrefix(lines: seq<string>, i: nat)
    requires i < |lines|
    ensures RulesOf(lines[..i + 1])
            == RulesOf(lines[..i]) + (if RuleOf(lines[i]).Some? then [RuleOf(lines[i]).value] else [])
  {
    assert lines[..i + 1][..i] == lines[..i];
  }

  /** The rules of two parts of a file, one after the other, are the rules of the whole
      file: each line is parsed on its own. */
  lemma {:induction false} RulesOfAppend(first: seq<string>, second: seq<string>)
    ensures RulesOf(first + second) == RulesOf(first) + RulesOf(second)
    decreases |second|
  {
    if second == [] {
      assert first + second == first;
    } else {
      var n := |second| - 1;
      var whole := first + second;
      var last := second[n];
      var more := if RuleOf(last).Some? then [RuleOf(last).value] else [];
      assert RulesOf(whole) == RulesOf(first + second[..n]) + more by {
        assert whole[|whole| - 1] == last;
        assert whole[..|whole| - 1] == first + second[..n];
      }
      assert RulesOf(second) == RulesOf(second[..n]) + more;
      RulesOfAppend(first, second[..n]);
      Assoc(RulesOf(first), RulesOf(second[..n]), more);
    }
  }
}
