/** The response head `clientHandler` and `giveContentLength` write before the body. */
module Response {
  import opened Common
  import opened Text
  import opened LineReader
  import opened Request

  /** What `clientHandler` writes when the request is in error, before closing. */
  const ProtocolFail: string := "Protocol fail...\n\r"

  /** That answer is plain text, written byte for byte. */
  lemma ProtocolFailOctets()
    ensures IsOctets(ProtocolFail)
  {
  }

  /** The status line, without its CR LF: 206 when the range starts anywhere but 0, even
      at a negative start, and 200 otherwise. Both in the HTTP/1.0 form of RFC 1945. */
  function StatusLine(r: Range): (s: string)
    ensures s == "HTTP/1.0 206 Partial Content" <==> r.start != 0
    ensures s == "HTTP/1.0 200 OK" <==> r.start == 0
  {
    if r.start != 0 then "HTTP/1.0 206 Partial Content" else "HTTP/1.0 200 OK"
  }

  /** The value `giveContentLength` writes as `Content-Length`: the rest of the file from
      the start for an open range, and the end itself for a bounded one. */
  function ContentLength(r: Range, fileSize: int): (n: int)
    ensures r.end == Open ==> r.start + n == fileSize
    ensures r.end != Open ==> n == r.end
  {
    if r.end == Open then fileSize - r.start else r.end
  }

  /** The three numbers of `Content-Range`, written only when the start is not 0: the
      start, the end unless it is 0 (the file size then), and the Content-Length. */
  function ContentRange(r: Range, fileSize: int): (v: Option<(int, int, int)>)
    ensures v.Some? <==> r.start != 0
    ensures v.Some? ==> v.value.0 == r.start && v.value.2 == ContentLength(r, fileSize)
    ensures v.Some? ==> v.value.1 == (if r.end == 0 then fileSize else r.end)
  {
    if r.start == 0 then None
    else Some((r.start, if r.end != 0 then r.end else fileSize, ContentLength(r, fileSize)))
  }

  /** `<first>-<second>/<third>`, without a unit. */
  function RangeText(v: (int, int, int)): string
  {
    Decimal(v.0) + "-" + Decimal(v.1) + "/" + Decimal(v.2)
  }

  /** The header lines of the head, in the order they are written. */
  function HeadHeaders(r: Range, fileSize: int): seq<(string, string)>
  {
    [("Server", "Bittorrent2Http"), ("Connection", "close"), ("Accept-Ranges", "bytes"),
     ("Content-Length", Decimal(ContentLength(r, fileSize)))]
    + match ContentRange(r, fileSize)
      case None => []
      case Some(v) => [("Content-Range", RangeText(v))]
  }

  /** Everything written before the body: the status line, the headers and an empty line. */
  function Head(r: Range, fileSize: int): (h: string)
    ensures |h| >= |StatusLine(r)| + 6
    ensures h[..|StatusLine(r)| + 2] == StatusLine(r) + "\r\n"
    ensures h[|h| - 4..] == "\r\n\r\n"
  {
    var hs := HeadHeaders(r, fileSize);
    HeaderTextEnds(hs);
    StatusLine(r) + "\r\n" + HeaderText(hs) + "\r\n"
  }

  // -------------------------------------------------------------------------------------
  // Properties of the head.

  /** Text made only of digits, `-` and `/`. */
  predicate NumberText(s: string)
  {
    forall j :: 0 <= j < |s| ==> IsDigit(s[j]) || s[j] == '-' || s[j] == '/'
  }

  lemma DecimalText(i: int)
    ensures NumberText(Decimal(i))
  {
    if i < 0 {
      var d := Digits(-i);
      assert forall j :: 1 <= j < |"-" + d| ==> ("-" + d)[j] == d[j - 1];
    }
  }

  lemma NumberTextAppend(a: string, b: string)
    requires NumberText(a) && NumberText(b)
    ensures NumberText(a + b)
  {
    assert forall j :: 0 <= j < |a + b| ==> (a + b)[j] == if j < |a| then a[j] else b[j - |a|];
  }

  lemma RangeTextNumbers(v: (int, int, int))
    ensures NumberText(RangeText(v))
  {
    DecimalText(v.0);
    DecimalText(v.1);
    DecimalText(v.2);
    assert NumberText("-") && NumberText("/");
    NumberTextAppend(Decimal(v.0), "-");
    NumberTextAppend(Decimal(v.0) + "-", Decimal(v.1));
    NumberTextAppend(Decimal(v.0) + "-" + Decimal(v.1), "/");
    NumberTextAppend(Decimal(v.0) + "-" + Decimal(v.1) + "/", Decimal(v.2));
  }

  lemma NumberHeader(key: string, s: string)
    requires PlainHeader((key, ""))
    requires NumberText(s)
    ensures PlainHeader((key, s))
  {
    assert forall j :: 0 <= j < |s| ==> s[j] as int < 256 && s[j] != '\0' && s[j] != '\r';
  }

  /** Every header of the head is one the request reader reads back unchanged. */
  lemma HeadHeadersPlain(r: Range, fileSize: int)
    ensures forall i :: 0 <= i < |HeadHeaders(r, fileSize)| ==> PlainHeader(HeadHeaders(r, fileSize)[i])
  {
    var hs := HeadHeaders(r, fileSize);
    ServerPlain();
    ConnectionPlain();
    AcceptRangesPlain();
    assert PlainHeader(("Content-Length", Decimal(ContentLength(r, fileSize)))) by {
      LengthKeyPlain();
      DecimalText(ContentLength(r, fileSize));
      NumberHeader("Content-Length", Decimal(ContentLength(r, fileSize)));
    }
    if r.start != 0 {
      assert PlainHeader(("Content-Range", RangeText(ContentRange(r, fileSize).value))) by {
        RangeKeyPlain();
        RangeTextNumbers(ContentRange(r, fileSize).value);
        NumberHeader("Content-Range", RangeText(ContentRange(r, fileSize).value));
      }
    }
  }

  lemma ServerPlain() ensures PlainHeader(("Server", "Bittorrent2Http")) {}
  lemma ConnectionPlain() ensures PlainHeader(("Connection", "close")) {}
  lemma AcceptRangesPlain() ensures PlainHeader(("Accept-Ranges", "bytes")) {}
  lemma LengthKeyPlain() ensures PlainHeader(("Content-Length", "")) {}
  lemma RangeKeyPlain() ensures PlainHeader(("Content-Range", "")) {}

  /** The fields a reader of the head ends with. */
  lemma HeadFieldsOf(r: Range, fileSize: int)
    ensures var f := SetAll(map[], HeadHeaders(r, fileSize));
            && "Server" in f && f["Server"] == "Bittorrent2Http"
            && "Connection" in f && f["Connection"] == "close"
            && "Accept-Ranges" in f && f["Accept-Ranges"] == "bytes"
            && "Content-Length" in f && f["Content-Length"] == Decimal(ContentLength(r, fileSize))
            && ("Content-Range" in f <==> r.start != 0)
            && (r.start != 0 ==> f["Content-Range"] == RangeText(ContentRange(r, fileSize).value))
  {
    var hs := HeadHeaders(r, fileSize);
    var m0: Fields := map[];
    var m4 := m0["Server" := "Bittorrent2Http"]["Connection" := "close"]["Accept-Ranges" := "bytes"]
                ["Content-Length" := Decimal(ContentLength(r, fileSize))];
    assert SetAll(m0, hs) == SetAll(m4, hs[4..]) by {
      assert SetAll(m0, hs) == SetAll(m0["Server" := "Bittorrent2Http"], hs[1..]);
      assert SetAll(m0["Server" := "Bittorrent2Http"], hs[1..])
          == SetAll(m0["Server" := "Bittorrent2Http"]["Connection" := "close"], hs[2..]);
      assert SetAll(m0["Server" := "Bittorrent2Http"]["Connection" := "close"], hs[2..])
          == SetAll(m0["Server" := "Bittorrent2Http"]["Connection" := "close"]["Accept-Ranges" := "bytes"], hs[3..]);
      assert hs[3..][1..] == hs[4..];
    }
    if r.start != 0 {
      var v := RangeText(ContentRange(r, fileSize).value);
      assert hs[4..] == [("Content-Range", v)];
      assert SetAll(m4, hs[4..]) == SetAll(m4["Content-Range" := v], []);
    } else {
      assert hs[4..] == [];
    }
  }

  /** Read with the request reader, the head gives back its status line, then headers
      whose fields say the status, the Content-Length and, exactly for a start other than
      0, the Content-Range; the empty line ends it and nothing is left over. */
  lemma HeadReadBack(r: Range, fileSize: int)
    ensures IsOctets(Head(r, fileSize))
    ensures var (status, rest) := ReadLine(Wire(Head(r, fileSize)));
            var (f, left) := ReadHeaders(map[], rest);
            && status == StatusLine(r) && left == []
            && "Content-Length" in f && f["Content-Length"] == Decimal(ContentLength(r, fileSize))
            && ("Content-Range" in f <==> r.start != 0)
            && (r.start != 0 ==> f["Content-Range"] == RangeText(ContentRange(r, fileSize).value))
  {
    var hs := HeadHeaders(r, fileSize);
    var first := StatusLine(r);
    var more := HeaderText(hs) + "\r\n";
    assert IsOctets(more) && ReadHeaders(map[], Wire(more)) == (SetAll(map[], hs), []) by {
      HeadHeadersPlain(r, fileSize);
      ReadHeadersText(map[], hs, []);
      assert Wire(more) + [] == Wire(more);
    }
    assert IsOctets(Head(r, fileSize)) && ReadLine(Wire(Head(r, fileSize))) == (first, Wire(more)) by {
      StatusPlain(r);
      ReadTextLine(first, Wire(more));
      Assoc(first + "\r\n", HeaderText(hs), "\r\n");
      WireAppend(first + "\r\n", more);
    }
    HeadFieldsOf(r, fileSize);
  }

  lemma StatusPlain(r: Range)
    ensures IsOctets(StatusLine(r)) && '\r' !in StatusLine(r)
  {
  }

  /** The status is 206 exactly when the parsed start is not 0, whatever the rest of the
      request: a range starting at byte 0 is answered 200. */
  lemma StatusOfRange(value: string)
    ensures StatusLine(ParseRange(value)) == "HTTP/1.0 206 Partial Content" <==> ParseRange(value).start != 0
    ensures ParseRange(value).start == 0 ==> ContentRange(ParseRange(value), 0).None?
  {
  }

  /** For `bytes=<a>-` the Content-Length is what is left from `a` on, and the
      Content-Range, present when `a` is not 0, prints the open end -1 as its middle field. */
  lemma OpenRangeHead(a: int, fileSize: int)
    requires LLONG_MIN <= a <= LLONG_MAX
    ensures var r := ParseRange(Prefix + Decimal(a) + "-");
            && ContentLength(r, fileSize) == fileSize - a
            && (a != 0 ==> ContentRange(r, fileSize) == Some((a, -1, fileSize - a)))
  {
    ParseRangeOpen(a, "");
    assert Prefix + Decimal(a) + "-" + "" == Prefix + Decimal(a) + "-";
  }

  /** For `bytes=<a>-<b>` the Content-Length is `b`, not the width of the range, and the
      Content-Range prints `b` unless it is 0. */
  lemma BoundedRangeHead(a: int, b: int, fileSize: int)
    requires LLONG_MIN <= a <= LLONG_MAX && LLONG_MIN <= b <= LLONG_MAX && b != Open
    ensures var r := ParseRange(Prefix + Decimal(a) + "-" + Decimal(b));
            && ContentLength(r, fileSize) == b
            && (a != 0 ==> ContentRange(r, fileSize) == Some((a, if b != 0 then b else fileSize, b)))
  {
    ParseRangeBounded(a, b);
  }

  // -------------------------------------------------------------------------------------
  // What the two range headers should say (RFC 7233, sections 2.1 and 4.2): positions
  // are inclusive, an open range ends at the last byte of the file, and the length after
  // the `/` is the size of the whole file.

  /** The last byte a range asks for. */
  function LastByte(r: Range, fileSize: int): int
  {
    if r.end == Open then fileSize - 1 else r.end
  }

  /** The Content-Length of the bytes from the start to the last byte, both included. */
  function ContentLengthFixed(r: Range, fileSize: int): (n: int)
    ensures n == LastByte(r, fileSize) - r.start + 1
    ensures r.end == Open ==> n == ContentLength(r, fileSize)
  {
    if r.end == Open then fileSize - r.start else r.end - r.start + 1
  }

  /** The Content-Range numbers: first byte, last byte, complete length. */
  function ContentRangeFixed(r: Range, fileSize: int): (v: Option<(int, int, int)>)
    ensures v.Some? ==> v.value.1 - v.value.0 + 1 == ContentLengthFixed(r, fileSize)
  {
    if r.start == 0 then None else Some((r.start, LastByte(r, fileSize), fileSize))
  }

  /** With the corrected headers, a range inside the file announces as many bytes as its
      Content-Range covers, and that Content-Range lies within the complete length. */
  lemma FixedHeadersAgree(r: Range, fileSize: int)
    requires 0 < r.start <= LastByte(r, fileSize) < fileSize
    ensures var v := ContentRangeFixed(r, fileSize).value;
            && 0 <= v.0 <= v.1 < v.2 == fileSize
            && 0 < ContentLengthFixed(r, fileSize) <= fileSize - r.start
  {
  }

  /** As written, the open range `bytes=500000-` of a 1000000-byte file gets the
      Content-Range `500000--1/500000`, where `500000-999999/1000000` is meant. */
  lemma OpenRangeMiddleField()
    ensures ContentRange(ParseRange(Prefix + Decimal(500000) + "-"), 1000000) == Some((500000, -1, 500000))
    ensures ContentRangeFixed(ParseRange(Prefix + Decimal(500000) + "-"), 1000000) == Some((500000, 999999, 1000000))
  {
    ParseRangeOpen(500000, "");
    assert Prefix + Decimal(500000) + "-" + "" == Prefix + Decimal(500000) + "-";
  }

  /** As written, `bytes=100-199` of a 1000-byte file announces 199 bytes, where the range
      holds 100. */
  lemma BoundedRangeLength()
    ensures ContentLength(ParseRange(Prefix + Decimal(100) + "-" + Decimal(199)), 1000) == 199
    ensures ContentLengthFixed(ParseRange(Prefix + Decimal(100) + "-" + Decimal(199)), 1000) == 100
  {
    ParseRangeBounded(100, 199);
  }
}
