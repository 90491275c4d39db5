/** Request parsing of httpd.cpp: `getCommand`, `getRequest` and `parseRange`. */
module Request {
  import opened Common
  import opened Text
  import opened LineReader

  /** The request as the code keeps it: an `unordered_map<string, string>`. */
  type Fields = map<string, string>

  /** The two separators of `boost::is_any_of("\t ")`. */
  predicate IsBlank(c: char) { c == ' ' || c == '\t' }

  predicate NoBlank(t: string) { forall j :: 0 <= j < |t| ==> !IsBlank(t[j]) }

  function Blanks(s: string): nat
  {
    if s == "" then 0 else (if IsBlank(s[0]) then 1 else 0) + Blanks(s[1..])
  }

  /** `boost::split(strs, line, boost::is_any_of("\t "))` without token compression: every
      separator ends a token, so neighbouring separators give empty tokens. */
  function Split(s: string): (r: seq<string>)
    ensures |r| == Blanks(s) + 1
    ensures forall i :: 0 <= i < |r| ==> NoBlank(r[i])
  {
    if s == "" then [""]
    else
      var rest := Split(s[1..]);
      if IsBlank(s[0]) then [""] + rest else [[s[0]] + rest[0]] + rest[1..]
  }

  /** Tokens joined by one separator each: `seps[k]` stands between `ts[k]` and `ts[k + 1]`. */
  function Join(ts: seq<string>, seps: string): string
    requires |ts| >= 1 && |seps| == |ts| - 1
  {
    if |ts| == 1 then ts[0] else ts[0] + [seps[0]] + Join(ts[1..], seps[1..])
  }

  /** A token without separators is glued to the front of the first token that follows. */
  lemma {:induction false} SplitPrefix(t: string, s: string)
    requires NoBlank(t)
    ensures Split(t + s) == [t + Split(s)[0]] + Split(s)[1..]
  {
    if t != "" {
      assert (t + s)[1..] == t[1..] + s;
      SplitPrefix(t[1..], s);
      assert [t[0]] + (t[1..] + Split(s)[0]) == t + Split(s)[0];
    } else {
      assert t + s == s;
      assert t + Split(s)[0] == Split(s)[0];
      assert Split(s) == [Split(s)[0]] + Split(s)[1..];
    }
  }

  /** Splitting undoes joining with blanks, spaces and tabs alike. */
  lemma {:induction false} SplitJoin(ts: seq<string>, seps: string)
    requires |ts| >= 1 && |seps| == |ts| - 1
    requires forall i :: 0 <= i < |ts| ==> NoBlank(ts[i])
    requires forall j :: 0 <= j < |seps| ==> IsBlank(seps[j])
    ensures Split(Join(ts, seps)) == ts
  {
    if |ts| == 1 {
      SplitPrefix(ts[0], "");
      assert ts[0] + "" == ts[0];
    } else {
      var rest := Join(ts[1..], seps[1..]);
      assert Join(ts, seps) == ts[0] + ([seps[0]] + rest);
      assert Split([seps[0]] + rest) == [""] + ts[1..] by {
        assert ([seps[0]] + rest)[1..] == rest;
        SplitJoin(ts[1..], seps[1..]);
      }
      SplitPrefix(ts[0], [seps[0]] + rest);
      assert ts[0] + "" == ts[0];
      assert [ts[0]] + ts[1..] == ts;
    }
  }

  /** `getCommand` on the request line: the method and the target, or an error when the
      line has fewer than three tokens. */
  function ParseCommand(line: string): (m: Fields)
    ensures "error" in m <==> Blanks(line) < 2
    ensures "error" in m ==> m == map["error" := "Invalid protocol"]
    ensures "error" !in m ==> m.Keys == {"method", "file"}
    ensures "error" !in m ==> m["method"] == Split(line)[0] && m["file"] == Split(line)[1]
  {
    var strs := Split(line);
    if |strs| < 3 then map["error" := "Invalid protocol"]
    else map["method" := strs[0], "file" := strs[1]]
  }

  /** A request line of blank-free tokens separated by single blanks: an error below three
      tokens, and otherwise the first two as method and target. */
  lemma CommandOfTokens(ts: seq<string>, seps: string)
    requires |ts| >= 1 && |seps| == |ts| - 1
    requires forall i :: 0 <= i < |ts| ==> NoBlank(ts[i])
    requires forall j :: 0 <= j < |seps| ==> IsBlank(seps[j])
    ensures |ts| < 3 ==> ParseCommand(Join(ts, seps)) == map["error" := "Invalid protocol"]
    ensures |ts| >= 3 ==> ParseCommand(Join(ts, seps)) == map["method" := ts[0], "file" := ts[1]]
  {
    SplitJoin(ts, seps);
  }

  /** A request line of three tokens, each blank a space or a tab, gives its first two as
      method and target. */
  lemma CommandOf(method_: string, target: string, version: string, b1: char, b2: char)
    requires NoBlank(method_) && NoBlank(target) && NoBlank(version) && IsBlank(b1) && IsBlank(b2)
    ensures ParseCommand(method_ + [b1] + target + [b2] + version) == map["method" := method_, "file" := target]
  {
    var ts, seps := [method_, target, version], [b1, b2];
    CommandOfTokens(ts, seps);
    assert Join(ts, seps) == method_ + [b1] + target + [b2] + version by {
      assert Join(ts[1..], seps[1..]) == target + [b2] + Join(ts[2..], seps[2..]);
    }
  }

  /** One header line as `getRequest` reads it through `strdup` and `strchr`: the key is the
      text before the first `:`, and the value starts one character after the `:`, whatever
      that character is. Both end at the first NUL, as C strings do. No `:` before the
      first NUL is an error. */
  function HeaderLine(line: string): (h: Option<(string, string)>)
    ensures h.None? <==> ':' !in CString(line)
  {
    var c := CString(line);
    if ':' !in c then None
    else
      var i := IndexOf(c, ':');
      var after := c[i + 1..];
      Some((c[..i], if after != "" then after[1..] else after))
  }

  /** `key: value` reads back as the pair. */
  lemma HeaderLineOf(key: string, sep: char, value: string)
    requires ':' !in key && '\0' !in key && sep != '\0' && '\0' !in value
    ensures HeaderLine(key + ":" + [sep] + value) == Some((key, value))
  {
    var line := key + ":" + [sep] + value;
    var tail := [':', sep] + value;
    assert line == key + tail;
    assert '\0' !in tail;
    assert '\0' !in line by { NulFree(key, tail); }
    CStringNoNul(line);
    assert line[..|key|] == key && line[|key|..] == tail by { Halves(key, tail); }
    IndexOfFirst(line, ':', |key|);
    assert line[|key| + 1..] == tail[1..];
  }

  /** A header line that ends right after its `:` has the empty value. */
  lemma HeaderLineEmptyValue(key: string)
    requires ':' !in key && '\0' !in key
    ensures HeaderLine(key + ":") == Some((key, ""))
  {
    var line := key + ":";
    assert '\0' !in line by { NulFree(key, ":"); }
    CStringNoNul(line);
    assert line[..|key|] == key && line[|key|..] == ":" by { Halves(key, ":"); }
    IndexOfFirst(line, ':', |key|);
  }

  lemma NulFree(a: string, b: string)
    requires '\0' !in a && '\0' !in b
    ensures '\0' !in a + b
  {
    assert forall j | 0 <= j < |a + b| :: (a + b)[j] == if j < |a| then a[j] else b[j - |a|];
  }

  /** The header loop of `getRequest` on the stream `ts`, with the fields `m` read so far:
      the fields and the stream left behind. It stops after the first empty line; a
      non-empty line without `:` adds the error and nothing more is read; every other
      line sets its key to its value. */
  function ReadHeaders(m: Fields, ts: seq<Token>): (r: (Fields, seq<Token>))
    ensures |r.1| <= |ts|
    ensures m.Keys <= r.0.Keys
    decreases |ts|
  {
    var (line, rest) := ReadLine(ts);
    if line == "" then (m, rest)
    else match HeaderLine(line)
      case None => (m["error" := "Failed to parse header"], rest)
      case Some(kv) => ReadHeaders(m[kv.0 := kv.1], rest)
  }

  /** `getRequest` on the stream `ts`: the request line, then, unless it is in error, the
      headers. */
  function ReadRequest(ts: seq<Token>): (r: (Fields, seq<Token>))
    ensures |r.1| <= |ts| && (ts != [] ==> |r.1| < |ts|)
    ensures "error" in r.0 || ("method" in r.0 && "file" in r.0)
    ensures "error" in ParseCommand(ReadLine(ts).0) ==> r.0 == map["error" := "Invalid protocol"]
  {
    var (line, rest) := ReadLine(ts);
    var cmd := ParseCommand(line);
    if "error" in cmd then (cmd, rest) else ReadHeaders(cmd, rest)
  }

  // -------------------------------------------------------------------------------------
  // The same, on requests written out as text.

  /** A header line's key and value that the loop reads back without surprises. */
  predicate PlainHeader(h: (string, string))
  {
    IsOctets(h.0) && IsOctets(h.1) && ':' !in h.0 && '\0' !in h.0 && '\0' !in h.1 && '\r' !in h.0 && '\r' !in h.1
  }

  /** `key: value` CR LF, for each header in turn. */
  function HeaderText(hs: seq<(string, string)>): string
  {
    if hs == [] then "" else hs[0].0 + ": " + hs[0].1 + "\r\n" + HeaderText(hs[1..])
  }

  /** The header text of at least one header ends with CR LF, so that the empty line
      after it closes the head. */
  lemma {:induction false} HeaderTextEnds(hs: seq<(string, string)>)
    requires hs != []
    ensures |HeaderText(hs)| >= 2 && HeaderText(hs)[|HeaderText(hs)| - 2..] == "\r\n"
  {
    var line := hs[0].0 + ": " + hs[0].1 + "\r\n";
    if hs[1..] != [] {
      HeaderTextEnds(hs[1..]);
    } else {
      assert HeaderText(hs) == line + "";
    }
  }

  /** The fields after setting each header in turn. */
  function SetAll(m: Fields, hs: seq<(string, string)>): Fields
    decreases |hs|
  {
    if hs == [] then m else SetAll(m[hs[0].0 := hs[0].1], hs[1..])
  }

  lemma WireAppend(a: string, b: string)
    requires IsOctets(a) && IsOctets(b)
    ensures IsOctets(a + b) && Wire(a + b) == Wire(a) + Wire(b)
  {
    assert IsOctets(a + b) by {
      assert forall i :: 0 <= i < |a + b| ==> (a + b)[i] == if i < |a| then a[i] else b[i - |a|];
    }
    assert Octets(a + b) == Octets(a) + Octets(b);
  }

  /** One turn of the header loop, given the line read. */
  lemma ReadHeadersStep(m: Fields, ts: seq<Token>, line: string, rest: seq<Token>)
    requires ReadLine(ts) == (line, rest)
    ensures line == "" ==> ReadHeaders(m, ts) == (m, rest)
    ensures line != "" && HeaderLine(line).None? ==> ReadHeaders(m, ts) == (m["error" := "Failed to parse header"], rest)
    ensures line != "" && HeaderLine(line).Some? ==>
              var kv := HeaderLine(line).value;
              ReadHeaders(m, ts) == ReadHeaders(m[kv.0 := kv.1], rest)
  {
  }

  lemma HeaderTextLine(h: (string, string))
    requires PlainHeader(h)
    ensures IsOctets(h.0 + ": " + h.1) && '\r' !in h.0 + ": " + h.1
    ensures HeaderLine(h.0 + ": " + h.1) == Some(h)
  {
    var line := h.0 + ": " + h.1;
    assert forall j :: 0 <= j < |line| ==> line[j] in h.0 || line[j] == ':' || line[j] == ' ' || line[j] in h.1;
    assert line == h.0 + ":" + [' '] + h.1;
    HeaderLineOf(h.0, ' ', h.1);
  }

  /** Header lines `key: value` followed by an empty line are read to the fields they set,
      and reading stops right after the empty line. */
  lemma {:induction false} ReadHeadersText(m: Fields, hs: seq<(string, string)>, tail: seq<Token>)
    requires forall i :: 0 <= i < |hs| ==> PlainHeader(hs[i])
    ensures IsOctets(HeaderText(hs) + "\r\n")
    ensures ReadHeaders(m, Wire(HeaderText(hs) + "\r\n") + tail) == (SetAll(m, hs), tail)
    decreases |hs|
  {
    var text := HeaderText(hs) + "\r\n";
    if hs == [] {
      assert text == "" + "\r\n";
      ReadTextLine("", tail);
      ReadHeadersStep(m, Wire(text) + tail, "", tail);
    } else {
      var h := hs[0];
      var line := h.0 + ": " + h.1;
      var more := HeaderText(hs[1..]) + "\r\n";
      assert IsOctets(more) && ReadHeaders(m[h.0 := h.1], Wire(more) + tail) == (SetAll(m, hs), tail) by {
        ReadHeadersText(m[h.0 := h.1], hs[1..], tail);
      }
      var rest := Wire(more) + tail;
      assert IsOctets(line) && '\r' !in line && HeaderLine(line) == Some(h) by {
        HeaderTextLine(h);
      }
      assert IsOctets(line + "\r\n") && ReadLine(Wire(line + "\r\n") + rest) == (line, rest) by {
        ReadTextLine(line, rest);
      }
      assert IsOctets(text) && Wire(text) + tail == Wire(line + "\r\n") + rest by {
        Assoc(line + "\r\n", HeaderText(hs[1..]), "\r\n");
        WireAppend(line + "\r\n", more);
        Assoc(Wire(line + "\r\n"), Wire(more), tail);
      }
      ReadHeadersStep(m, Wire(text) + tail, line, rest);
    }
  }

  /** A request line of three tokens and plain headers, each line ending in CR LF and then
      an empty line, is read to the method, the target and the headers set in order. */
  lemma ReadRequestText(method_: string, target: string, version: string, hs: seq<(string, string)>, tail: seq<Token>)
    requires NoBlank(method_) && NoBlank(target) && NoBlank(version)
    requires IsOctets(method_ + " " + target + " " + version)
    requires '\r' !in method_ + " " + target + " " + version
    requires forall i :: 0 <= i < |hs| ==> PlainHeader(hs[i])
    ensures IsOctets(method_ + " " + target + " " + version + "\r\n" + HeaderText(hs) + "\r\n")
    ensures ReadRequest(Wire(method_ + " " + target + " " + version + "\r\n" + HeaderText(hs) + "\r\n") + tail)
            == (SetAll(map["method" := method_, "file" := target], hs), tail)
  {
    var first := method_ + " " + target + " " + version;
    var cmd := map["method" := method_, "file" := target];
    assert ParseCommand(first) == cmd by {
      CommandOf(method_, target, version, ' ', ' ');
      assert first == method_ + [' '] + target + [' '] + version;
    }
    ReadRequestLines(first, cmd, hs, tail);
  }

  /** A request line that parses without error, then plain header lines and the empty
      line. */
  lemma ReadRequestLines(first: string, cmd: Fields, hs: seq<(string, string)>, tail: seq<Token>)
    requires IsOctets(first) && '\r' !in first
    requires ParseCommand(first) == cmd && "error" !in cmd
    requires forall i :: 0 <= i < |hs| ==> PlainHeader(hs[i])
    ensures IsOctets(first + "\r\n" + HeaderText(hs) + "\r\n")
    ensures ReadRequest(Wire(first + "\r\n" + HeaderText(hs) + "\r\n") + tail) == (SetAll(cmd, hs), tail)
  {
    var more := HeaderText(hs) + "\r\n";
    var text := first + "\r\n" + HeaderText(hs) + "\r\n";
    assert IsOctets(more) && ReadHeaders(cmd, Wire(more) + tail) == (SetAll(cmd, hs), tail) by {
      ReadHeadersText(cmd, hs, tail);
    }
    assert IsOctets(first + "\r\n") && ReadLine(Wire(first + "\r\n") + (Wire(more) + tail)) == (first, Wire(more) + tail) by {
      ReadTextLine(first, Wire(more) + tail);
    }
    assert IsOctets(text) && Wire(text) + tail == Wire(first + "\r\n") + (Wire(more) + tail) by {
      Assoc(first + "\r\n", HeaderText(hs), "\r\n");
      WireAppend(first + "\r\n", more);
      Assoc(Wire(first + "\r\n"), Wire(more), tail);
    }
  }

  /** A header line without `:` ends the request in error, and the stream is left right
      after that line. */
  lemma HeaderWithoutColon(m: Fields, line: string, tail: seq<Token>)
    requires IsOctets(line) && '\r' !in line && line != "" && ':' !in line
    ensures IsOctets(line + "\r\n")
    ensures ReadHeaders(m, Wire(line + "\r\n") + tail) == (m["error" := "Failed to parse header"], tail)
  {
    ReadTextLine(line, tail);
    assert ':' !in CString(line);
  }

  // -------------------------------------------------------------------------------------
  // The methods, on a SocketHelper.

  /** `getCommand(stream)`. */
  method GetCommand(stream: SocketHelper) returns (res: Fields)
    requires stream.Valid()
    modifies stream, stream.buffer
    ensures stream.Valid()
    ensures var (line, rest) := ReadLine(old(stream.Pending()));
            res == ParseCommand(line) && stream.Pending() == rest
  {
    var line := stream.GetLine();
    var strs := Split(line);
    if |strs| < 3 {
      res := map["error" := "Invalid protocol"];
      return;
    }
    res := map["method" := strs[0], "file" := strs[1]];
  }

  /** `getRequest(stream)`. */
  method GetRequest(stream: SocketHelper) returns (res: Fields)
    requires stream.Valid()
    modifies stream, stream.buffer
    ensures stream.Valid()
    ensures (res, stream.Pending()) == ReadRequest(old(stream.Pending()))
  {
    res := GetCommand(stream);
    if "error" in res {
      return;
    }
    ghost var goal := ReadHeaders(res, stream.Pending());
    while true
      invariant stream.Valid()
      invariant ReadHeaders(res, stream.Pending()) == goal
      decreases |stream.Pending()|
    {
      ghost var ts := stream.Pending();
      var line := stream.GetLine();
      if line == "" {
        return;
      }
      var c := CString(line);
      if ':' !in c {
        res := res["error" := "Failed to parse header"];
        return;
      }
      var i := IndexOf(c, ':');
      var after := c[i + 1..];
      if after != "" {
        after := after[1..];
      }
      res := res[c[..i] := after];
    }
  }

  // -------------------------------------------------------------------------------------
  // parseRange.

  const Prefix: string := "bytes="

  /** `parseRange(value)`: `(0, -1)` unless the value starts with `bytes=`; then the start
      is what `strtoll` converts after the prefix (0 when nothing converts); the end is
      open unless a `-` follows right after the start and something converts after it. */
  function ParseRange(s: string): (r: Range)
    ensures !(|s| >= |Prefix| && s[..|Prefix|] == Prefix) ==> r == Range(0, Open)
    ensures LLONG_MIN <= r.start <= LLONG_MAX && LLONG_MIN <= r.end <= LLONG_MAX
  {
    if !(|s| >= |Prefix| && s[..|Prefix|] == Prefix) then Range(0, Open)
    else
      var t := s[|Prefix|..];
      var (first, used) := StrToLL(t);
      var next := t[used..];
      if next == [] || next[0] != '-' then Range(first, Open)
      else
        var (second, used2) := StrToLL(next[1..]);
        if used2 == 0 then Range(first, Open) else Range(first, second)
  }

  /** `bytes=<a>-<b>` reads back as the range from `a` to `b`. */
  lemma ParseRangeBounded(a: int, b: int)
    requires LLONG_MIN <= a <= LLONG_MAX && LLONG_MIN <= b <= LLONG_MAX
    ensures ParseRange(Prefix + Decimal(a) + "-" + Decimal(b)) == Range(a, b)
  {
    var s := Prefix + Decimal(a) + "-" + Decimal(b);
    var t := Decimal(a) + ("-" + Decimal(b));
    assert s == Prefix + t by {
      Assoc(Prefix + Decimal(a), "-", Decimal(b));
      Assoc(Prefix, Decimal(a), "-" + Decimal(b));
    }
    assert s[..|Prefix|] == Prefix && s[|Prefix|..] == t by { Halves(Prefix, t); }
    assert StrToLL(t) == (a, |Decimal(a)|) by { StrToLLDecimal(a, "-" + Decimal(b)); }
    assert t[|Decimal(a)|..] == "-" + Decimal(b) by { Halves(Decimal(a), "-" + Decimal(b)); }
    assert StrToLL(("-" + Decimal(b))[1..]) == (b, |Decimal(b)|) by {
      Halves("-", Decimal(b));
      assert Decimal(b) + "" == Decimal(b);
      StrToLLDecimal(b, "");
    }
  }

  /** `bytes=<a>-` followed by anything `strtoll` does not convert (nothing, a letter, a
      lone sign) reads back as the open range from `a`. */
  lemma ParseRangeOpen(a: int, rest: string)
    requires LLONG_MIN <= a <= LLONG_MAX
    requires StrToLL(rest).1 == 0
    ensures ParseRange(Prefix + Decimal(a) + "-" + rest) == Range(a, Open)
  {
    var s := Prefix + Decimal(a) + "-" + rest;
    var t := Decimal(a) + ("-" + rest);
    assert s == Prefix + t by {
      Assoc(Prefix + Decimal(a), "-", rest);
      Assoc(Prefix, Decimal(a), "-" + rest);
    }
    assert s[..|Prefix|] == Prefix && s[|Prefix|..] == t by { Halves(Prefix, t); }
    assert StrToLL(t) == (a, |Decimal(a)|) by { StrToLLDecimal(a, "-" + rest); }
    assert t[|Decimal(a)|..] == "-" + rest by { Halves(Decimal(a), "-" + rest); }
    assert ("-" + rest)[1..] == rest by { Halves("-", rest); }
  }

  /** `bytes=<a>` followed by nothing, or by anything but a digit or `-`, reads back as the
      open range from `a`; so the suffix form `bytes=-500` of a range request gives the
      start -500. */
  lemma ParseRangeNoDash(a: int, rest: string)
    requires LLONG_MIN <= a <= LLONG_MAX
    requires rest == [] || (rest[0] != '-' && !IsDigit(rest[0]))
    ensures ParseRange(Prefix + Decimal(a) + rest) == Range(a, Open)
  {
    var s := Prefix + Decimal(a) + rest;
    var t := Decimal(a) + rest;
    assert s == Prefix + t by { Assoc(Prefix, Decimal(a), rest); }
    assert s[..|Prefix|] == Prefix && s[|Prefix|..] == t by { Halves(Prefix, t); }
    assert StrToLL(t) == (a, |Decimal(a)|) by { StrToLLDecimal(a, rest); }
    assert t[|Decimal(a)|..] == rest by { Halves(Decimal(a), rest); }
  }

  /** A request without a `Range` header looks up the empty value, which gives the whole
      file. */
  lemma ParseRangeAbsent()
    ensures ParseRange("") == Range(0, Open)
  {
  }

  /** The value of a header, as `request["Range"]` returns it: empty when absent. */
  function Lookup(m: Fields, key: string): string
  {
    if key in m then m[key] else ""
  }
}
