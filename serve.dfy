/** The connection side of httpd.cpp: `serveFile`, which copies the file to the socket as
    far as the torrent has it and keeps the connection's range in the registry up to date,
    and `clientHandler`, which reads the request and writes the head before the body.

    The file is the byte sequence on disk. The socket is the sequence of its answers to
    successive body writes: a write of `n` bytes takes the first `min(answer, n)` of them,
    and once the answers run out every write takes none. What `setFileInfos` publishes
    becomes a sequence of snapshots, one for each time the loop wakes up. */
module Serve {
  import opened Common
  import opened Text
  import opened LineReader
  import opened Request
  import opened Response
  import opened Registry

  /** `sizeof(buffer)` of the copy loop. */
  const ChunkSize: int := 1024

  /** The C conversion of a `long long` to a 32-bit `int`: the value modulo 2^32, read as
      two's complement. */
  function Int32(x: int): (y: int)
    ensures -0x8000_0000 <= y < 0x8000_0000
    ensures -0x8000_0000 <= x < 0x8000_0000 ==> y == x
    ensures (x - y) % 0x1_0000_0000 == 0
  {
    (x + 0x8000_0000) % 0x1_0000_0000 - 0x8000_0000
  }

  /** The number of bytes the loop asks `read` for, given the answer of `availableData`:
      the answer as an `int`; 0 stops the loop; anything above the buffer size is cut to
      it, and so is a negative value, since `length > sizeof(buffer)` compares it as an
      unsigned number. */
  function ChunkLength(avail: int): (n: int)
    ensures 0 <= n <= ChunkSize
    ensures n == 0 <==> Int32(avail) == 0
    ensures 0 < avail <= ChunkSize ==> n == avail
    ensures n < ChunkSize ==> n == Int32(avail)
  {
    var length := Int32(avail);
    if length < 0 || length > ChunkSize then ChunkSize else length
  }

  /** What the `fileInfos` snapshot holds: whether a file path is set, the file size, and
      the `availableData` function, which gives for an offset and a wanted size how many
      bytes from that offset can be served. */
  datatype Info = Info(hasPath: bool, fileSize: int, avail: (int, int) -> int)

  /** The outcome of the disconnect probe `recv(fd, &c, 1, MSG_PEEK|MSG_DONTWAIT)`: data
      waiting, the peer closed (0), no data yet (-1 with `EAGAIN`), or another error. */
  datatype Probe = Data | Closed | WouldBlock | Failed

  /** One wake-up of the loop: the probe made after the wait, then the next snapshot. */
  datatype Wake = Wake(probe: Probe, info: Info)

  /** The file position after `lseek(file, start, SEEK_SET)`: a negative offset is refused
      and the position stays at 0. */
  function SeekPos(start: int): (p: nat)
    ensures start >= 0 ==> p == start
    ensures start < 0 ==> p == 0
  {
    if start >= 0 then start else 0
  }

  /** A suffix range `bytes=-N` is read as the start -N with an open end: the answer is
      206 with a Content-Length N bytes longer than the file and a Content-Range ending
      in -1, and the body is read from position 0, where the refused seek leaves it. */
  lemma SuffixRangeAsWritten(n: int, fileSize: int)
    requires 0 < n <= LLONG_MAX
    ensures var r := ParseRange(Prefix + Decimal(-n));
            && r == Range(-n, Open)
            && StatusLine(r) == "HTTP/1.0 206 Partial Content"
            && ContentLength(r, fileSize) == fileSize + n
            && ContentRange(r, fileSize) == Some((-n, Open, fileSize + n))
            && SeekPos(r.start) == 0
  {
    ParseRangeNoDash(-n, "");
    assert Prefix + Decimal(-n) + "" == Prefix + Decimal(-n);
  }

  // -------------------------------------------------------------------------------------
  // The socket, and the record of a copy.

  /** One turn of the copy loop: the cursor and the file position it read at, the bytes
      `read` returned, and the bytes `write` then took of them. */
  datatype Chunk = Chunk(cursor: int, filePos: nat, read: nat, written: nat)

  /** `write(fd, buffer, n)` on a socket whose successive answers are `answers`: the next
      answer, cut to `n`, is the count returned (0 stands for both 0 and -1, which the loop
      treats alike); once the answers are used up the peer is gone and every write
      returns 0. */
  function Write(answers: seq<nat>, n: nat): (r: (nat, seq<nat>))
    ensures r.0 <= n
    ensures answers != [] ==> r.1 == answers[1..]
  {
    if answers == [] then (0, []) else (Min(answers[0], n), answers[1..])
  }

  /** `sent` is a stretch of the file starting at byte `p`. */
  predicate SentFrom(sent: seq<byte>, data: seq<byte>, p: int)
  {
    sent == [] || (0 <= p && p + |sent| <= |data| && sent == data[p..p + |sent|])
  }

  /** The bytes of the file that a chunk put on the socket: the first `written` of those
      it read. */
  function Piece(data: seq<byte>, c: Chunk): seq<byte>
  {
    Bytes(data, c.filePos, c.written)
  }

  /** The `n` bytes of the file from byte `i` on, or none when they run past its end;
      built one byte at a time, see `BytesSlice`. */
  function Bytes(data: seq<byte>, i: nat, n: nat): seq<byte>
  {
    if n == 0 || i + n > |data| then [] else Bytes(data, i, n - 1) + [data[i + n - 1]]
  }

  lemma {:induction false} BytesSlice(data: seq<byte>, i: nat, n: nat)
    requires i + n <= |data|
    ensures Bytes(data, i, n) == data[i..i + n]
  {
    if n > 0 {
      BytesSlice(data, i, n - 1);
      assert data[i..i + n] == data[i..i + n - 1] + [data[i + n - 1]];
    }
  }

  /** What the socket received from the chunks `cs`, in order. */
  function Written(data: seq<byte>, cs: seq<Chunk>): seq<byte>
  {
    if cs == [] then [] else Written(data, cs[..|cs| - 1]) + Piece(data, cs[|cs| - 1])
  }

  /** The cursor after the chunks `cs` read from `cur0`. */
  function Reach(cs: seq<Chunk>, cur0: int): int
  {
    if cs == [] then cur0 else cs[|cs| - 1].cursor + cs[|cs| - 1].read
  }

  /** The chunks follow each other from cursor `cur0` and file position `pos0`: each is
      read where the one before it ended, and as far into the file from `pos0` as its
      cursor is from `cur0`. */
  predicate Chain(cs: seq<Chunk>, cur0: int, pos0: int)
  {
    || cs == []
    || (&& Chain(cs[..|cs| - 1], cur0, pos0)
        && cs[|cs| - 1].cursor == Reach(cs[..|cs| - 1], cur0)
        && cs[|cs| - 1].filePos == pos0 + (cs[|cs| - 1].cursor - cur0))
  }

  /** Every chunk fills at most one buffer and lies in the file. */
  predicate Fits(data: seq<byte>, cs: seq<Chunk>)
  {
    || cs == []
    || (&& Fits(data, cs[..|cs| - 1]) && cs[|cs| - 1].read <= ChunkSize
        && cs[|cs| - 1].filePos + cs[|cs| - 1].read <= |data|)
  }

  /** Each chunk is as long as the lambda allowed at its cursor, cut to one buffer, or the
      rest of the file from its file position when that is shorter. */
  predicate Sized(data: seq<byte>, avail: (int, int) -> int, cs: seq<Chunk>)
  {
    || cs == []
    || (&& Sized(data, avail, cs[..|cs| - 1])
        && var c := cs[|cs| - 1];
           0 < c.read == Min(ChunkLength(avail(c.cursor, ChunkSize)), |data| - c.filePos))
  }

  /** The chunks were the first writes on a socket with the answers `answers`, one answer
      each: chunk `k` took some of its bytes, as many as answer `k` allowed. */
  predicate Took(answers: seq<nat>, cs: seq<Chunk>)
  {
    || cs == []
    || (&& Took(answers, cs[..|cs| - 1]) && |cs| <= |answers|
        && 0 < cs[|cs| - 1].written == Min(answers[|cs| - 1], cs[|cs| - 1].read))
  }

  /** The socket took every chunk whole. */
  predicate Whole(cs: seq<Chunk>)
  {
    cs == [] || (Whole(cs[..|cs| - 1]) && cs[|cs| - 1].written == cs[|cs| - 1].read)
  }

  lemma Slices(data: seq<byte>, i: int, j: int, k: int)
    requires 0 <= i <= j <= k <= |data|
    ensures data[i..j] + data[j..k] == data[i..k]
  {
  }

  /** Dropping the last chunk of `a + b`, for a non-empty `b`, drops the last of `b`. */
  lemma Init(a: seq<Chunk>, b: seq<Chunk>)
    requires b != []
    ensures (a + b)[..|a + b| - 1] == a + b[..|b| - 1] && (a + b)[|a + b| - 1] == b[|b| - 1]
  {
  }

  lemma {:induction false} WrittenAppend(data: seq<byte>, a: seq<Chunk>, b: seq<Chunk>)
    ensures Written(data, a + b) == Written(data, a) + Written(data, b)
  {
    if b == [] {
      assert a + b == a;
    } else {
      Init(a, b);
      WrittenAppend(data, a, b[..|b| - 1]);
    }
  }

  lemma {:induction false} ChainAppend(a: seq<Chunk>, b: seq<Chunk>, cur0: int, pos0: int, mid: int, midPos: int)
    requires Chain(a, cur0, pos0) && mid == Reach(a, cur0) && midPos == pos0 + (mid - cur0)
    requires Chain(b, mid, midPos)
    ensures Chain(a + b, cur0, pos0) && Reach(a + b, cur0) == Reach(b, mid)
  {
    if b == [] {
      assert a + b == a;
    } else {
      Init(a, b);
      ChainAppend(a, b[..|b| - 1], cur0, pos0, mid, midPos);
    }
  }

  lemma {:induction false} FitsAppend(data: seq<byte>, a: seq<Chunk>, b: seq<Chunk>)
    requires Fits(data, a) && Fits(data, b)
    ensures Fits(data, a + b)
  {
    if b == [] {
      assert a + b == a;
    } else {
      Init(a, b);
      FitsAppend(data, a, b[..|b| - 1]);
    }
  }

  lemma {:induction false} TookAppend(answers: seq<nat>, a: seq<Chunk>, b: seq<Chunk>)
    requires Took(answers, a) && |a| <= |answers| && Took(answers[|a|..], b)
    ensures Took(answers, a + b)
  {
    if b == [] {
      assert a + b == a;
    } else {
      Init(a, b);
      TookAppend(answers, a, b[..|b| - 1]);
      assert answers[|a|..][|b| - 1] == answers[|a + b| - 1];
    }
  }

  // -------------------------------------------------------------------------------------
  // The copy loop.

  /** What a copy from cursor `cur0` and file position `pos0`, on a socket with the
      answers `answers0`, has done once it reached cursor `cur` and file position `pos`
      with the chunks `chunks`: the cursor and the file position moved together; the
      chunks follow each other from the start and reach the cursor; each was read as far
      as the lambda and the file allowed and lies in the file; they were the socket's
      first writes, one answer each; and the socket received the written part of each. */
  predicate Copied(data: seq<byte>, avail: (int, int) -> int, cur0: int, pos0: int, answers0: seq<nat>,
                   cur: int, pos: int, chunks: seq<Chunk>, sent: seq<byte>)
  {
    && cur >= cur0 && pos - pos0 == cur - cur0
    && Chain(chunks, cur0, pos0) && cur == Reach(chunks, cur0)
    && Sized(data, avail, chunks) && Fits(data, chunks)
    && Took(answers0, chunks) && |chunks| <= |answers0|
    && sent == Written(data, chunks)
  }

  /** Why a copy stopped: without failure at the end of the range or when nothing is
      available; with failure before both, because the file had no more bytes or the
      socket took nothing (its answers were used up, or the next one was 0). */
  predicate Stopped(data: seq<byte>, avail: (int, int) -> int, end: int, answers0: seq<nat>,
                    cur: int, pos: int, chunks: seq<Chunk>, fail: bool)
  {
    && (!fail ==> (end != Open && cur >= end) || ChunkLength(avail(cur, ChunkSize)) == 0)
    && (fail ==> (end == Open || cur < end) && ChunkLength(avail(cur, ChunkSize)) != 0)
    && (fail ==> pos >= |data| || |chunks| >= |answers0| || answers0[|chunks|] == 0)
  }

  /** One more turn of the copy loop keeps what `Copied` records, when the chunk starts
      at the cursor, was read as far as the lambda and the file allowed, and was taken in
      part by the socket's next answer. */
  lemma CopiedStep(data: seq<byte>, avail: (int, int) -> int, cur0: int, pos0: int, answers0: seq<nat>,
                   cur: int, pos: int, chunks: seq<Chunk>, sent: seq<byte>, answers: seq<nat>, c: Chunk)
    requires Copied(data, avail, cur0, pos0, answers0, cur, pos, chunks, sent) && answers == answers0[|chunks|..]
    requires c.cursor == cur && c.filePos == pos
    requires 0 < c.read == Min(ChunkLength(avail(cur, ChunkSize)), |data| - pos)
    requires answers != [] && 0 < c.written == Min(answers[0], c.read)
    ensures Copied(data, avail, cur0, pos0, answers0, cur + c.read, pos + c.read, chunks + [c],
                   sent + data[pos..pos + c.written])
    ensures answers[1..] == answers0[|chunks| + 1..]
  {
    Init(chunks, [c]);
    BytesSlice(data, pos, c.written);
    assert answers0[|chunks|] == answers[0];
  }

  /** A copy that starts at or past the end of the file reads nothing, one that starts
      in the file stays in it, and a bounded range is passed by less than one buffer. */
  predicate Bounded(data: seq<byte>, end: int, cur0: int, pos0: int, cur: int, pos: int, chunks: seq<Chunk>)
  {
    && (pos0 >= |data| ==> chunks == [] && pos == pos0)
    && (pos0 <= |data| ==> pos <= |data|)
    && (end != Open && cur != cur0 ==> cur < end + ChunkSize)
  }

  /** One more turn of the copy loop, from before the end of the range, keeps `Bounded`. */
  lemma BoundedStep(data: seq<byte>, end: int, cur0: int, pos0: int, cur: int, pos: int, chunks: seq<Chunk>, c: Chunk)
    requires Bounded(data, end, cur0, pos0, cur, pos, chunks) && (end == Open || cur < end)
    requires 0 < c.read <= ChunkSize && c.read <= |data| - pos
    ensures Bounded(data, end, cur0, pos0, cur + c.read, pos + c.read, chunks + [c])
  {
  }

  /** The copy loop of `serveFile` for one snapshot: while the cursor is before the end
      (or the range is open), ask `availableData` how much there is, read that much (at
      most one buffer) from the file and write it; then advance the cursor and the file
      position by what was read, even when the socket took less. A read or a write of 0
      bytes fails the copy. A copy that starts at or past the end of the file reads
      nothing, and a bounded range is passed by less than one buffer. */
  method ServeChunks(data: seq<byte>, avail: (int, int) -> int, end: int, cur0: int, pos0: nat, answers0: seq<nat>)
    returns (cur: int, pos: nat, chunks: seq<Chunk>, sent: seq<byte>, answers: seq<nat>, fail: bool)
    ensures Copied(data, avail, cur0, pos0, answers0, cur, pos, chunks, sent)
    ensures Stopped(data, avail, end, answers0, cur, pos, chunks, fail)
    ensures !fail ==> answers == answers0[|chunks|..]
    ensures Bounded(data, end, cur0, pos0, cur, pos, chunks)
  {
    cur, pos, chunks, sent, answers, fail := cur0, pos0, [], [], answers0, false;
    while end == Open || cur < end
      invariant Copied(data, avail, cur0, pos0, answers0, cur, pos, chunks, sent)
      invariant answers == answers0[|chunks|..]
      invariant Bounded(data, end, cur0, pos0, cur, pos, chunks)
      decreases |data| - pos
    {
      var length := ChunkLength(avail(cur, ChunkSize));
      if length == 0 {
        return;
      }
      var res := if pos < |data| then Min(length, |data| - pos) else 0;
      if res == 0 {
        fail := true;
        return;
      }
      var written, left := Write(answers, res).0, Write(answers, res).1;
      if written == 0 {
        answers, fail := left, true;
        return;
      }
      var c := Chunk(cur, pos, res, written);
      CopiedStep(data, avail, cur0, pos0, answers0, cur, pos, chunks, sent, answers, c);
      BoundedStep(data, end, cur0, pos0, cur, pos, chunks, c);
      sent := sent + data[pos..pos + written];
      chunks := chunks + [c];
      cur, pos, answers := cur + res, pos + res, left;
    }
  }

  /** When the socket took every chunk whole, it received the file from the start position
      on, as many bytes as the cursor moved. */
  lemma {:induction false} WholeContiguous(data: seq<byte>, cs: seq<Chunk>, cur0: int, pos0: nat)
    requires Chain(cs, cur0, pos0) && Whole(cs) && Fits(data, cs)
    ensures SentFrom(Written(data, cs), data, pos0) && |Written(data, cs)| == Reach(cs, cur0) - cur0
  {
    if cs != [] {
      var init, c := cs[..|cs| - 1], cs[|cs| - 1];
      WholeContiguous(data, init, cur0, pos0);
      var w := Written(data, init);
      assert Written(data, cs) == w + Piece(data, c);
      assert |w| == c.cursor - cur0 && c.filePos == pos0 + |w| && c.filePos + c.written <= |data|;
      BytesSlice(data, c.filePos, c.written);
      SentFromExtend(data, w, pos0, c.written);
    }
  }

  /** A stretch of the file from byte `p` followed by the next `n` bytes is one. */
  lemma SentFromExtend(data: seq<byte>, w: seq<byte>, p: nat, n: nat)
    requires SentFrom(w, data, p) && p + |w| + n <= |data|
    ensures SentFrom(w + data[p + |w|..p + |w| + n], data, p)
  {
    if w == [] {
      assert w + data[p..p + n] == data[p..p + n];
    } else {
      Slices(data, p, p + |w|, p + |w| + n);
    }
  }

  /** The lambda of a 2048-byte file downloaded in full. */
  function UpTo2048(off: int, size: int): int
  {
    if off < 2048 then size else 0
  }

  /** A short write followed by a whole one leaves a gap: 2048 bytes available from the
      start, and a socket that takes 500 bytes and then 1024. Whatever `ServeChunks`
      returns, the cursor reaches 2048 without failure, as if all had been sent, but the
      client receives bytes 0 to 499 followed by bytes 1024 to 2047. */
  lemma ShortWriteGap(cur: int, pos: int, chunks: seq<Chunk>, sent: seq<byte>, fail: bool)
    requires Copied(seq(2048, i => (i % 256) as byte), UpTo2048, 0, 0, [500, 1024], cur, pos, chunks, sent)
    requires Stopped(seq(2048, i => (i % 256) as byte), UpTo2048, Open, [500, 1024], cur, pos, chunks, fail)
    ensures var data := seq(2048, i => (i % 256) as byte);
            && cur == 2048 && !fail
            && sent == data[..500] + data[1024..]
            && sent[500] != data[500]
  {
    var data := seq(2048, i => (i % 256) as byte);
    var answers0: seq<nat> := [500, 1024];
    assert ChunkLength(UpTo2048(0, ChunkSize)) == 1024;
    assert ChunkLength(UpTo2048(1024, ChunkSize)) == 1024;
    assert ChunkLength(UpTo2048(2048, ChunkSize)) == 0;
    assert |chunks| == 2 by {
      if |chunks| < 2 {
        assert false;
      }
    }
    var first := chunks[..1];
    assert chunks[..|chunks| - 1] == first && first[..0] == [];
    assert Chain(first, 0, 0) && Sized(data, UpTo2048, first) && Took(answers0, first);
    assert chunks[0] == first[0] == Chunk(0, 0, 1024, 500);
    assert chunks[1] == Chunk(1024, 1024, 1024, 1024);
    assert Written(data, first) == [] + data[0..500] by {
      BytesSlice(data, 0, 500);
    }
    assert sent == data[0..500] + data[1024..2048] by {
      BytesSlice(data, 1024, 1024);
    }
    assert data[500] == 244 && data[1024] == 0;
  }

  /** The copy loop as evidently intended: the cursor and the file position advance by
      the bytes the socket took, so that the next read starts at the first byte not yet
      sent. The client then receives the file from the start position on without a gap,
      exactly as far as the cursor moved, whatever the socket does. */
  method ServeChunksFixed(data: seq<byte>, avail: (int, int) -> int, end: int, cur0: int, pos0: nat, answers0: seq<nat>)
    returns (cur: int, pos: nat, sent: seq<byte>, answers: seq<nat>, fail: bool)
    ensures SentFrom(sent, data, pos0) && |sent| == pos - pos0 == cur - cur0
    ensures !fail ==> (end != Open && cur >= end) || ChunkLength(avail(cur, ChunkSize)) == 0
    ensures fail ==> (end == Open || cur < end) && ChunkLength(avail(cur, ChunkSize)) != 0
  {
    cur, pos, sent, answers, fail := cur0, pos0, [], answers0, false;
    while end == Open || cur < end
      invariant SentFrom(sent, data, pos0) && |sent| == pos - pos0 == cur - cur0
      decreases |data| - pos
    {
      var length := ChunkLength(avail(cur, ChunkSize));
      if length == 0 {
        return;
      }
      var res := if pos < |data| then Min(length, |data| - pos) else 0;
      if res == 0 {
        fail := true;
        return;
      }
      var written, left := Write(answers, res).0, Write(answers, res).1;
      if written == 0 {
        answers, fail := left, true;
        return;
      }
      SentFromExtend(data, sent, pos0, written);
      sent := sent + data[pos..pos + written];
      cur, pos, answers := cur + written, pos + written, left;
    }
  }

  // -------------------------------------------------------------------------------------
  // serveFile.

  /** `serveFile`: register the range, then for each snapshot open the file once a path
      is known (seeking to the start), copy what is available, and replace the registered
      range by the one starting at the new cursor. Stop when the copy failed, when the
      cursor reached the file size or the end of the range, or when the probe after a
      wake-up reports an error other than `EAGAIN`; then unregister the range. When the
      wake-ups run out while the loop is waiting, `waiting` is set: the range stays
      registered. `log` records every chunk of every pass. */
  method ServeFile(reg: RangeRegistry, range0: Range, data: seq<byte>, first: Info, wakes: seq<Wake>, answers0: seq<nat>)
    returns (sent: seq<byte>, cur: int, waiting: bool, ghost log: seq<Chunk>)
    modifies reg
    ensures cur >= range0.start
    ensures waiting ==> multiset(reg.ranges) == multiset(old(reg.ranges)) + multiset{Range(cur, range0.end)}
    ensures !waiting ==> multiset(reg.ranges) == multiset(old(reg.ranges))
    ensures Logged(data, answers0, range0.start, log, cur, sent)
    ensures Whole(log) ==> SentFrom(sent, data, SeekPos(range0.start)) && |sent| == cur - range0.start
    ensures range0.end != Open && cur != range0.start ==> cur < range0.end + ChunkSize
  {
    ghost var others := multiset(reg.ranges);
    var range := range0;
    cur := range0.start;
    reg.Insert(range);
    var isOpen := false;
    var pos: nat := 0;
    var info := first;
    var k := 0;
    var answers := answers0;
    sent, waiting, log := [], false, [];
    var stop := false;
    while !stop
      invariant multiset(reg.ranges) == others + multiset{range}
      invariant range == Range(cur, range0.end)
      invariant k <= |wakes|
      invariant Progress(data, range0, answers0, isOpen, cur, pos, log, sent)
      invariant !stop ==> answers == answers0[|log|..]
      decreases |wakes| - k, if stop then 0 else 1
    {
      var fail;
      isOpen, cur, pos, answers, sent, fail, log := CopyPass(data, info, range0, answers0, isOpen, cur, pos, answers, sent, log);
      var next := Range(cur, range0.end);
      MoveEntry(reg, range, next, others);
      range := next;
      stop := fail || (info.hasPath && cur == info.fileSize) || (cur >= range0.end && range0.end != Open);
      if !stop {
        if k == |wakes| {
          waiting := true;
          if Whole(log) {
            WholeContiguous(data, log, range0.start, SeekPos(range0.start));
          }
          return;
        }
        var w := wakes[k];
        k := k + 1;
        stop := w.probe == Failed;
        info := w.info;
      }
    }
    reg.Delete(range);
    if Whole(log) {
      WholeContiguous(data, log, range0.start, SeekPos(range0.start));
    }
  }

  /** The registry update after a pass: `deleteRange` of the old range, then
      `insertRange` of the one at the new cursor. */
  method MoveEntry(reg: RangeRegistry, before: Range, after: Range, ghost others: multiset<Range>)
    requires multiset(reg.ranges) == others + multiset{before}
    modifies reg
    ensures reg.ranges == RemoveFirst(old(reg.ranges), before) + [after]
    ensures multiset(reg.ranges) == others + multiset{after}
  {
    reg.Delete(before);
    reg.Insert(after);
  }

  /** The chunks `log` of all passes so far for a range from `start`, on a socket with
      the answers `answers0`: they follow each other from the range start and its seek
      position up to the cursor `cur`, lie in the file and were the socket's first writes,
      one answer each; `sent` is the written part of each. */
  predicate Logged(data: seq<byte>, answers0: seq<nat>, start: int, log: seq<Chunk>, cur: int, sent: seq<byte>)
  {
    && Chain(log, start, SeekPos(start)) && cur == Reach(log, start)
    && Fits(data, log) && Took(answers0, log) && |log| <= |answers0|
    && sent == Written(data, log)
  }

  /** What holds at every pass of `serveFile` for the range `r`: the cursor never went
      back; before the file is open nothing moved; once it is, the file position is the
      seek position moved by as much as the cursor; the chunks are `Logged`; and a
      bounded range is passed by less than a buffer. */
  predicate Progress(data: seq<byte>, r: Range, answers0: seq<nat>, isOpen: bool, cur: int, pos: nat,
                     log: seq<Chunk>, sent: seq<byte>)
  {
    && cur >= r.start
    && (!isOpen ==> cur == r.start && log == [])
    && (isOpen ==> pos == SeekPos(r.start) + (cur - r.start))
    && Logged(data, answers0, r.start, log, cur, sent)
    && (r.end != Open && cur != r.start ==> cur < r.end + ChunkSize)
  }

  /** A copy on the open file, which went on from the cursor and file position of the
      passes before, continues their `Progress`. */
  lemma ProgressAppend(data: seq<byte>, avail: (int, int) -> int, r: Range, answers0: seq<nat>,
                       cur0: int, pos0: nat, log0: seq<Chunk>, sent0: seq<byte>,
                       cur: int, pos: nat, chunks: seq<Chunk>, s: seq<byte>)
    requires Progress(data, r, answers0, true, cur0, pos0, log0, sent0)
    requires Copied(data, avail, cur0, pos0, answers0[|log0|..], cur, pos, chunks, s)
    requires r.end != Open && cur != cur0 ==> cur < r.end + ChunkSize
    ensures Progress(data, r, answers0, true, cur, pos, log0 + chunks, sent0 + s)
    ensures answers0[|log0|..][|chunks|..] == answers0[|log0 + chunks|..]
  {
    LoggedAppend(data, answers0, r.start, log0, cur0, sent0, chunks, cur, s);
  }

  /** `Logged` survives appending the chunks of a copy that began where the log ended. */
  lemma LoggedAppend(data: seq<byte>, answers0: seq<nat>, start: int, log0: seq<Chunk>, cur0: int,
                     sent0: seq<byte>, chunks: seq<Chunk>, cur: int, s: seq<byte>)
    requires Logged(data, answers0, start, log0, cur0, sent0)
    requires Chain(chunks, cur0, SeekPos(start) + (cur0 - start)) && cur == Reach(chunks, cur0)
    requires Fits(data, chunks) && Took(answers0[|log0|..], chunks) && |chunks| <= |answers0[|log0|..]|
    requires s == Written(data, chunks)
    ensures Logged(data, answers0, start, log0 + chunks, cur, sent0 + s)
  {
    ChainAppend(log0, chunks, start, SeekPos(start), cur0, SeekPos(start) + (cur0 - start));
    FitsAppend(data, log0, chunks);
    TookAppend(answers0, log0, chunks);
    WrittenAppend(data, log0, chunks);
  }

  /** One pass of `serveFile` before the registry update: the file is opened and seeked
      the first time a path is known, then, with a path, the copy loop runs. */
  method CopyPass(data: seq<byte>, info: Info, r: Range, answers0: seq<nat>,
                  isOpen0: bool, cur0: int, pos0: nat, answers1: seq<nat>, sent0: seq<byte>, ghost log0: seq<Chunk>)
    returns (isOpen: bool, cur: int, pos: nat, answers: seq<nat>, sent: seq<byte>, fail: bool, ghost log: seq<Chunk>)
    requires Progress(data, r, answers0, isOpen0, cur0, pos0, log0, sent0) && answers1 == answers0[|log0|..]
    ensures Progress(data, r, answers0, isOpen, cur, pos, log, sent)
    ensures !fail ==> answers == answers0[|log|..]
    ensures cur >= cur0 && log0 <= log && sent0 <= sent
    ensures isOpen == (isOpen0 || info.hasPath)
    ensures !info.hasPath ==> cur == cur0 && log == log0 && !fail
  {
    isOpen, cur, pos, answers, sent, fail, log := isOpen0, cur0, pos0, answers1, sent0, false, log0;
    if !isOpen && info.hasPath {
      isOpen := true;
      pos := SeekPos(cur);
    }
    if info.hasPath {
      cur, pos, answers, sent, fail, log := CopyOpen(data, info.avail, r, answers0, cur, pos, answers, sent, log);
    }
  }

  /** The copy loop of a pass on the open file, appending what it sends and its chunks. */
  method CopyOpen(data: seq<byte>, avail: (int, int) -> int, r: Range, answers0: seq<nat>,
                  cur0: int, pos0: nat, answers1: seq<nat>, sent0: seq<byte>, ghost log0: seq<Chunk>)
    returns (cur: int, pos: nat, answers: seq<nat>, sent: seq<byte>, fail: bool, ghost log: seq<Chunk>)
    requires Progress(data, r, answers0, true, cur0, pos0, log0, sent0) && answers1 == answers0[|log0|..]
    ensures Progress(data, r, answers0, true, cur, pos, log, sent)
    ensures !fail ==> answers == answers0[|log|..]
    ensures cur >= cur0 && log0 <= log && sent0 <= sent
  {
    var chunks, s;
    cur, pos, chunks, s, answers, fail := ServeChunks(data, avail, r.end, cur0, pos0, answers1);
    ProgressAppend(data, avail, r, answers0, cur0, pos0, log0, sent0, cur, pos, chunks, s);
    log := log0 + chunks;
    sent := sent0 + s;
  }

  /** `clientHandler`: read the request; on an error answer `Protocol fail...` and leave
      the registry alone; otherwise write the head for the range the `Range` header asks
      for (empty when absent) and the size `giveContentLength` finds, then serve the
      file. */
  method ClientHandler(stream: SocketHelper, reg: RangeRegistry, size: int, data: seq<byte>,
                       first: Info, wakes: seq<Wake>, answers0: seq<nat>)
    returns (out: seq<byte>, waiting: bool, ghost log: seq<Chunk>)
    requires stream.Valid()
    modifies stream, stream.buffer, reg
    ensures stream.Valid()
    ensures stream.Pending() == ReadRequest(old(stream.Pending())).1
    ensures Handled(ReadRequest(old(stream.Pending())).0, size, data, answers0, log, out, waiting, old(reg.ranges), reg.ranges)
  {
    var request := GetRequest(stream);
    if "error" in request {
      ProtocolFailOctets();
      out := Octets(ProtocolFail);
      waiting, log := false, [];
      return;
    }
    out, waiting, log := Respond(reg, ParseRange(Lookup(request, "Range")), size, data, first, wakes, answers0);
  }

  /** The answer to the request `req`, the registry going from `before` to `after`: on an
      error, `Protocol fail...` and the registry untouched; otherwise the head and body
      for the range asked for, and, unless the connection is still waiting, the registry
      holding the same ranges as before. */
  predicate Handled(req: Fields, size: int, data: seq<byte>, answers0: seq<nat>, log: seq<Chunk>, out: seq<byte>,
                    waiting: bool, before: seq<Range>, after: seq<Range>)
  {
    && ("error" in req ==> IsOctets(ProtocolFail) && out == Octets(ProtocolFail) && after == before && !waiting)
    && ("error" !in req ==>
          Answered(ParseRange(Lookup(req, "Range")), size, data, answers0, log, out)
          && (!waiting ==> multiset(after) == multiset(before)))
  }

  /** `out` is the head for the range `r` of a file of `size` bytes, then the written part
      of each chunk of `log`: chunks that follow each other in the file from the range's
      seek position on, and that were the socket's successive writes. When the socket took
      every chunk whole, the body is the file from the seek position on. */
  predicate Answered(r: Range, size: int, data: seq<byte>, answers0: seq<nat>, log: seq<Chunk>, out: seq<byte>)
  {
    && IsOctets(Head(r, size)) && |Octets(Head(r, size))| <= |out|
    && out[..|Head(r, size)|] == Octets(Head(r, size))
    && Chain(log, r.start, SeekPos(r.start)) && Fits(data, log) && Took(answers0, log)
    && out[|Head(r, size)|..] == Written(data, log)
    && (Whole(log) ==> SentFrom(out[|Head(r, size)|..], data, SeekPos(r.start)))
  }

  /** The answer to a request without error for the range `r`: the head, then the
      body `serveFile` sends. */
  method Respond(reg: RangeRegistry, r: Range, size: int, data: seq<byte>,
                 first: Info, wakes: seq<Wake>, answers0: seq<nat>)
    returns (out: seq<byte>, waiting: bool, ghost log: seq<Chunk>)
    modifies reg
    ensures Answered(r, size, data, answers0, log, out)
    ensures !waiting ==> multiset(reg.ranges) == multiset(old(reg.ranges))
  {
    HeadReadBack(r, size);
    var head := Octets(Head(r, size));
    var body, cur;
    body, cur, waiting, log := ServeFile(reg, r, data, first, wakes, answers0);
    out := head + body;
    assert out[|head|..] == body;
  }

  // -------------------------------------------------------------------------------------
  // The registry across one pass.

  /** A pass replaces the connection's entry by one at the new cursor: as a collection,
      the registry loses the old range and gains the new one. */
  lemma {:induction false} PassReplaces(s: seq<Range>, before: Range, after: Range)
    requires before in s
    ensures multiset(RemoveFirst(s, before) + [after]) == multiset(s) - multiset{before} + multiset{after}
    ensures |RemoveFirst(s, before) + [after]| == |s|
  {
    RemoveFirstMultiset(s, before);
  }
}
