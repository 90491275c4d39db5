/** The `SocketHelper` of httpd.cpp: a 1024-byte buffer in front of a socket, read a byte
    or a CR LF terminated line at a time.

    The socket is modelled by the chunks successive `read` calls deliver. A `read` of at
    most `n` bytes returns the first `min(n, |chunk|)` bytes of the next chunk and leaves
    the rest of that chunk for the following call; an empty chunk is a `read` that returns
    0 (the peer sent nothing); once the chunks are used up every `read` returns 0.

    Seen from the helper's callers, this is one stream of tokens: the bytes not yet
    consumed, where each empty `read` still to come is an `Eof` token and the end of the
    sequence stands for the `read` calls that return 0 for ever. */
module LineReader {
  import opened Common

  const Capacity: int := 1024
  const CR: byte := 13
  const LF: byte := 10

  datatype Token = Byte(b: byte) | Eof

  function Bytes(bs: seq<byte>): (ts: seq<Token>)
    ensures |ts| == |bs|
  {
    seq(|bs|, i requires 0 <= i < |bs| => Byte(bs[i]))
  }

  /** The tokens successive `read` calls deliver from `chunks`. */
  function Stream(chunks: seq<seq<byte>>): seq<Token>
  {
    if chunks == [] then []
    else (if chunks[0] == [] then [Eof] else Bytes(chunks[0])) + Stream(chunks[1..])
  }

  lemma StreamCons(c: seq<byte>, rest: seq<seq<byte>>)
    ensures Stream([c] + rest) == (if c == [] then [Eof] else Bytes(c)) + Stream(rest)
  {
    assert ([c] + rest)[1..] == rest;
  }

  /** `(char)v` for a byte `v`. */
  function Char(b: byte): char { (b as int) as char }

  function Chars(bs: seq<byte>): (s: string)
    ensures |s| == |bs|
  {
    seq(|bs|, i requires 0 <= i < |bs| => Char(bs[i]))
  }

  /** Text whose characters are all single bytes. */
  predicate IsOctets(s: string) { forall i :: 0 <= i < |s| ==> s[i] as int < 256 }

  /** The bytes of such text on the wire. */
  function Octets(s: string): (bs: seq<byte>)
    requires IsOctets(s)
    ensures |bs| == |s| && Chars(bs) == s
  {
    seq(|s|, i requires 0 <= i < |s| => s[i] as int as byte)
  }

  /** The token stream of a text sent in one piece. */
  function Wire(s: string): seq<Token>
    requires IsOctets(s)
  {
    Bytes(Octets(s))
  }

  /** What `next()` returns on the stream `ts`: the next byte, or -1 when the buffer is
      empty and a refill gets nothing. */
  function PeekByte(ts: seq<Token>): int
  {
    if ts == [] then -1 else match ts[0] case Eof => -1 case Byte(b) => b as int
  }

  /** The stream after a refill attempt: an empty `read` is used up by the attempt. */
  function Settle(ts: seq<Token>): seq<Token>
  {
    if ts != [] && ts[0] == Eof then ts[1..] else ts
  }

  /** The stream after `getc()`: one token is used up, if there is one. */
  function Rest(ts: seq<Token>): seq<Token>
  {
    if ts == [] then ts else ts[1..]
  }

  /** `getLine()` on the stream `ts`: the line read and the stream left behind. The
      line ends at a CR immediately followed by LF, which are dropped, or where a `read`
      returns 0 while a new byte is wanted. After a CR, `next()` looks at the following
      byte; if that look needs a refill and the refill gets nothing, the empty `read` is
      used up, the CR is kept and the line goes on. */
  function ReadLine(ts: seq<Token>): (r: (string, seq<Token>))
    ensures |r.1| <= |ts|
    ensures ts != [] ==> |r.1| < |ts|
    decreases |ts|
  {
    if ts == [] then ("", [])
    else match ts[0]
      case Eof => ("", ts[1..])
      case Byte(b) =>
        if b == CR && |ts| > 1 && ts[1] == Byte(LF) then ("", ts[2..])
        else
          var rest := ReadLine(if b == CR then Settle(ts[1..]) else ts[1..]);
          ([Char(b)] + rest.0, rest.1)
  }

  /** One step of `getLine()`'s loop, as `ReadLine` takes it: the stream ends the line,
      a CR LF pair ends it, or the byte read joins it. */
  lemma ReadLineStep(ts: seq<Token>)
    ensures PeekByte(ts) == -1 ==> ReadLine(ts) == ("", Rest(ts))
    ensures PeekByte(ts) == CR as int && PeekByte(Rest(ts)) == LF as int ==>
              ReadLine(ts) == ("", Settle(Rest(ts))[1..])
    ensures PeekByte(ts) != -1 && !(PeekByte(ts) == CR as int && PeekByte(Rest(ts)) == LF as int) ==>
              var b := ts[0].b;
              var next := if b == CR then Settle(Rest(ts)) else Rest(ts);
              ReadLine(ts) == ([Char(b)] + ReadLine(next).0, ReadLine(next).1)
  {
  }

  /** The index of the first CR LF pair in `bs`, or `|bs|` when there is none. */
  function FirstCRLF(bs: seq<byte>): (k: nat)
    ensures k <= |bs|
    ensures k < |bs| ==> k + 1 < |bs| && bs[k] == CR && bs[k + 1] == LF
    ensures forall j :: 0 <= j < k && j + 1 < |bs| ==> !(bs[j] == CR && bs[j + 1] == LF)
  {
    if |bs| < 2 then |bs|
    else if bs[0] == CR && bs[1] == LF then 0
    else 1 + FirstCRLF(bs[1..])
  }

  /** On bytes that arrive without an empty `read` in between, `getLine()` returns exactly
      the bytes before the first CR LF and consumes that CR LF, whatever follows; a CR
      not followed by LF stays in the line. */
  lemma {:induction false} ReadLineToCRLF(bs: seq<byte>, tail: seq<Token>)
    requires FirstCRLF(bs) < |bs|
    ensures var k := FirstCRLF(bs);
            ReadLine(Bytes(bs) + tail) == (Chars(bs[..k]), Bytes(bs[k + 2..]) + tail)
  {
    if bs[0] == CR && bs[1] == LF {
      assert (Bytes(bs) + tail)[2..] == Bytes(bs[2..]) + tail;
    } else {
      ReadLineToCRLF(bs[1..], tail);
      ReadLineJoins(bs, tail);
    }
  }

  /** The step of `ReadLineToCRLF` for a first byte that does not start the CR LF. */
  lemma ReadLineJoins(bs: seq<byte>, tail: seq<Token>)
    requires FirstCRLF(bs) < |bs| && !(bs[0] == CR && bs[1] == LF)
    requires var k := FirstCRLF(bs[1..]);
             ReadLine(Bytes(bs[1..]) + tail) == (Chars(bs[1..][..k]), Bytes(bs[1..][k + 2..]) + tail)
    ensures var k := FirstCRLF(bs);
            ReadLine(Bytes(bs) + tail) == (Chars(bs[..k]), Bytes(bs[k + 2..]) + tail)
  {
    var k := FirstCRLF(bs);
    var next := Bytes(bs[1..]) + tail;
    assert ReadLine(next) == (Chars(bs[1..k]), Bytes(bs[k + 2..]) + tail) by {
      assert k == 1 + FirstCRLF(bs[1..]);
      assert bs[1..][..k - 1] == bs[1..k] && bs[1..][k - 1 + 2..] == bs[k + 2..];
    }
    assert ReadLine(Bytes(bs) + tail) == ([Char(bs[0])] + ReadLine(next).0, ReadLine(next).1) by {
      ReadLineByte(bs, tail);
    }
    assert [Char(bs[0])] + Chars(bs[1..k]) == Chars(bs[..k]);
  }

  /** A byte that is not a CR followed by LF, nor a CR that is the last byte, joins the
      line. */
  lemma ReadLineByte(bs: seq<byte>, tail: seq<Token>)
    requires bs != [] && (bs[0] == CR ==> |bs| > 1 && bs[1] != LF)
    ensures var next := Bytes(bs[1..]) + tail;
            ReadLine(Bytes(bs) + tail) == ([Char(bs[0])] + ReadLine(next).0, ReadLine(next).1)
  {
    var ts := Bytes(bs) + tail;
    var next := Bytes(bs[1..]) + tail;
    assert ts[0] == Byte(bs[0]) && ts[1..] == next;
    if bs[0] == CR {
      assert next[0] == Byte(bs[1]);
      assert Settle(next) == next;
    }
  }

  /** Bytes with no CR LF and no final CR are the start of the line, which runs on into
      what follows them. */
  lemma {:induction false} ReadLineThrough(bs: seq<byte>, tail: seq<Token>)
    requires FirstCRLF(bs) == |bs| && (bs == [] || bs[|bs| - 1] != CR)
    ensures ReadLine(Bytes(bs) + tail) == (Chars(bs) + ReadLine(tail).0, ReadLine(tail).1)
  {
    var ts := Bytes(bs) + tail;
    var r := ReadLine(tail);
    if bs == [] {
      assert ts == tail;
      assert Chars(bs) + r.0 == r.0;
    } else {
      var b := bs[0];
      var next := Bytes(bs[1..]) + tail;
      assert ReadLine(next) == (Chars(bs[1..]) + r.0, r.1) by {
        assert |bs| > 1 ==> bs[1..][|bs| - 2] == bs[|bs| - 1];
        ReadLineThrough(bs[1..], tail);
      }
      assert b == CR ==> |bs| > 1 && bs[1] != LF;
      ReadLineByte(bs, tail);
      assert [Char(b)] + (Chars(bs[1..]) + r.0) == Chars(bs) + r.0 by {
        assert [Char(b)] + Chars(bs[1..]) == Chars(bs);
        Assoc([Char(b)], Chars(bs[1..]), r.0);
      }
    }
  }

  /** At the end of the stream, a line with no CR LF is all the bytes, a final CR included. */
  lemma {:induction false} ReadLineAtEnd(bs: seq<byte>)
    requires FirstCRLF(bs) == |bs|
    ensures ReadLine(Bytes(bs)) == (Chars(bs), [])
  {
    if bs != [] {
      var ts := Bytes(bs);
      assert ts[1..] == Bytes(bs[1..]);
      ReadLineAtEnd(bs[1..]);
      assert Settle(ts[1..]) == ts[1..];
      assert [Char(bs[0])] + Chars(bs[1..]) == Chars(bs);
    }
  }

  /** A line of text without CR, sent with its CR LF, is read back whole, and reading stops
      right after its CR LF. */
  lemma ReadTextLine(line: string, tail: seq<Token>)
    requires IsOctets(line) && '\r' !in line
    ensures IsOctets(line + "\r\n")
    ensures ReadLine(Wire(line + "\r\n") + tail) == (line, tail)
  {
    var bs := Octets(line + "\r\n");
    assert bs[..|line|] == Octets(line);
    assert bs[|line|] == CR && bs[|line| + 1] == LF;
    assert forall j :: 0 <= j < |line| ==> bs[j] != CR;
    NoEarlierCRLF(bs, |line|);
    ReadLineToCRLF(bs, tail);
    assert Chars(bs[..|line|]) == line;
    assert Bytes(bs[|line| + 2..]) + tail == tail;
  }

  lemma {:induction false} NoEarlierCRLF(bs: seq<byte>, k: nat)
    requires k + 1 < |bs| && bs[k] == CR && bs[k + 1] == LF
    requires forall j :: 0 <= j < k ==> bs[j] != CR
    ensures FirstCRLF(bs) == k
  {
    if k > 0 {
      NoEarlierCRLF(bs[1..], k - 1);
    }
  }

  /** A CR whose look-ahead meets an empty `read` stays in the line, and the line goes on
      with the bytes of the next `read`. */
  lemma CarriageReturnBeforeEmptyRead(bs: seq<byte>)
    requires LF !in bs && CR !in bs
    ensures ReadLine([Byte(CR), Eof] + Bytes(bs)) == (Chars([CR] + bs), [])
  {
    var ts := [Byte(CR), Eof] + Bytes(bs);
    assert Settle(ts[1..]) == Bytes(bs);
    assert FirstCRLF(bs) == |bs|;
    ReadLineAtEnd(bs);
    assert [Char(CR)] + Chars(bs) == Chars([CR] + bs);
  }

  /** A `read` that takes the first `got` bytes of the next chunk leaves the rest of the
      stream after them; one that finds an empty chunk uses up its `Eof`. */
  lemma ReadSplit(chunk: seq<byte>, rest: seq<seq<byte>>, got: nat)
    requires got <= |chunk| && (got == 0 <==> chunk == [])
    ensures var after := if got < |chunk| then [chunk[got..]] + rest else rest;
            Settle(Stream([chunk] + rest)) == Bytes(chunk[..got]) + Stream(after)
    ensures got == 0 <==> PeekByte(Stream([chunk] + rest)) == -1
  {
    StreamCons(chunk, rest);
    if got == 0 {
      assert Bytes(chunk[..got]) + Stream(rest) == Stream(rest);
    } else if got < |chunk| {
      StreamCons(chunk[got..], rest);
      assert Bytes(chunk) == Bytes(chunk[..got]) + Bytes(chunk[got..]);
      Assoc(Bytes(chunk[..got]), Bytes(chunk[got..]), Stream(rest));
    } else {
      assert chunk[..got] == chunk;
    }
  }

  /** Dropping the first of the buffered bytes. */
  lemma DropFirst(was: seq<byte>, later: seq<Token>)
    requires was != []
    ensures (Bytes(was) + later)[1..] == Bytes(was[1..]) + later
  {
    assert Bytes(was)[1..] == Bytes(was[1..]);
  }

  class SocketHelper {
    /** `uint8_t buffer[1024]`. */
    const buffer: array<byte>
    /** `_pos`: where the unread bytes start. */
    var pos: int
    /** `_size`: how many unread bytes the buffer holds. */
    var size: int
    /** What the socket still has to deliver to `read`. */
    var input: seq<seq<byte>>

    ghost predicate Valid()
      reads this
    {
      buffer.Length == Capacity && 0 <= pos < Capacity && 0 <= size && pos + size <= Capacity
    }

    /** The tokens not yet consumed: the buffered bytes, then what the socket delivers. */
    ghost function Pending(): seq<Token>
      reads this, buffer
      requires Valid()
    {
      Bytes(buffer[pos..pos + size]) + Stream(input)
    }

    constructor (input: seq<seq<byte>>)
      ensures Valid() && fresh(buffer)
      ensures pos == 0 && size == 0 && this.input == input
      ensures Pending() == Stream(input)
    {
      buffer := new byte[Capacity];
      pos, size := 0, 0;
      this.input := input;
    }

    /** `pop()`: drops the byte at `_pos`, if there is one. */
    method Pop()
      requires Valid()
      modifies this
      ensures Valid() && input == old(input)
      ensures old(size) == 0 ==> pos == old(pos) && size == 0
      ensures old(size) != 0 ==> size == old(size) - 1 && pos == (old(pos) + 1) % Capacity
      ensures old(size) == 0 ==> Pending() == old(Pending())
      ensures old(size) != 0 ==> Pending() == old(Pending())[1..]
    {
      if size != 0 {
        ghost var was := buffer[pos..pos + size];
        ghost var later := Stream(input);
        assert old(Pending()) == Bytes(was) + later;
        pos := pos + 1;
        size := size - 1;
        pos := pos % Capacity;
        assert buffer[pos..pos + size] == was[1..] by {
          if size != 0 {
            assert pos == old(pos) + 1;
          }
        }
        assert Pending() == Bytes(was[1..]) + later;
        DropFirst(was, later);
      }
    }

    /** `readMore()`: when the buffer is empty, one `read` of at most `1024 - _pos` bytes
        into `buffer[_pos..]`. */
    method ReadMore()
      requires Valid()
      modifies this, buffer
      ensures Valid() && pos == old(pos)
      ensures old(size) != 0 ==> size == old(size) && input == old(input) && buffer[..] == old(buffer[..])
      ensures forall i :: 0 <= i < pos ==> buffer[i] == old(buffer[i])
      ensures old(size) == 0 ==> (size == 0 <==> PeekByte(old(Pending())) == -1)
      ensures Pending() == if old(size) == 0 then Settle(old(Pending())) else old(Pending())
    {
      if size != 0 {
        return;
      }
      var n := Capacity - pos;
      ghost var before := Pending();
      assert before == Stream(input) by {
        assert buffer[pos..pos] == [];
      }
      var got := Read(n);
      size := size + got;
      assert Pending() == Settle(before);
    }

    /** `read(_fd, &buffer[_pos], n)`: the next chunk, cut to `n` bytes, lands in the
        buffer from `_pos` on, and what is left of it stays for the next call. */
    method Read(n: int) returns (got: int)
      requires Valid() && size == 0 && n == Capacity - pos
      modifies this, buffer
      ensures pos == old(pos) && size == 0 && 0 <= got <= n
      ensures forall i :: 0 <= i < pos ==> buffer[i] == old(buffer[i])
      ensures Bytes(buffer[pos..pos + got]) + Stream(input) == Settle(old(Stream(input)))
      ensures got == 0 <==> PeekByte(old(Stream(input))) == -1
    {
      if input == [] {
        return 0;
      }
      var chunk := input[0];
      var rest := input[1..];
      got := if |chunk| < n then |chunk| else n;
      assert input == [chunk] + rest;
      Fill(pos, chunk[..got]);
      if got < |chunk| {
        input := [chunk[got..]] + rest;
      } else {
        input := rest;
      }
      ReadSplit(chunk, rest, got);
    }

    /** Where `read` puts what it receives: `data` into the buffer from `at` on. */
    method Fill(at: int, data: seq<byte>)
      requires Valid() && 0 <= at && at + |data| <= Capacity
      modifies buffer
      ensures buffer[at..at + |data|] == data
      ensures forall i :: 0 <= i < at ==> buffer[i] == old(buffer[i])
    {
      forall i | 0 <= i < |data| {
        buffer[at + i] := data[i];
      }
    }

    /** `next()`: the byte at `_pos` without consuming it, refilling an empty buffer
        first; -1 when the buffer is still empty. */
    method Next() returns (v: int)
      requires Valid()
      modifies this, buffer
      ensures Valid()
      ensures v == PeekByte(old(Pending())) && Pending() == Settle(old(Pending()))
      ensures (v == -1) == (size == 0)
      ensures v != -1 ==> v == buffer[pos] as int
    {
      if size == 0 {
        ReadMore();
      }
      if size == 0 {
        return -1;
      }
      assert Pending()[0] == Byte(buffer[pos]);
      return buffer[pos] as int;
    }

    /** `getc()`: `next()` followed by `pop()`. */
    method Getc() returns (v: int)
      requires Valid()
      modifies this, buffer
      ensures Valid()
      ensures v == PeekByte(old(Pending())) && Pending() == Rest(old(Pending()))
    {
      v := Next();
      Pop();
    }

    /** `getLine()`: bytes up to the first CR LF, or up to an empty `read`. */
    method GetLine() returns (line: string)
      requires Valid()
      modifies this, buffer
      ensures Valid()
      ensures (line, Pending()) == ReadLine(old(Pending()))
    {
      line := "";
      ghost var start := Pending();
      assert line + ReadLine(start).0 == ReadLine(start).0;
      while true
        invariant Valid()
        invariant ReadLine(start).0 == line + ReadLine(Pending()).0
        invariant ReadLine(start).1 == ReadLine(Pending()).1
        decreases |Pending()|
      {
        ghost var ts := Pending();
        ReadLineStep(ts);
        var v := Getc();
        if v == -1 {
          assert line + "" == line;
          return;
        }
        var b := v as byte;
        assert b == ts[0].b;
        if b == CR {
          var w := Next();
          if w == LF as int {
            Pop();
            assert line + "" == line;
            return;
          }
        }
        assert ReadLine(start).0 == (line + [Char(b)]) + ReadLine(Pending()).0 by {
          Assoc(line, [Char(b)], ReadLine(Pending()).0);
        }
        line := line + [Char(b)];
      }
    }
  }
}
