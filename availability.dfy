/** The `availableData` function torrentd.cpp hands to the HTTP side with each status
    update: for an offset in the file and a wanted size, how many bytes from that offset
    are downloaded, judged on a snapshot of the `pieces` bitfield. */
module Availability {
  import opened Common
  import opened Layout

  /** What the code credits for the start piece: the bytes from the file's own start in
      its first piece to that piece's end, whatever the piece of `off` is. */
  function FirstCredit(l: Layout): (c: int)
    requires l.pieceLength > 0
    ensures 0 < c <= l.pieceLength
    ensures l.offset % l.pieceLength == 0 ==> c == l.pieceLength
  {
    l.pieceLength - l.offset % l.pieceLength
  }

  /** The pieces `from` up to `to` (excluded) are in the bitfield and downloaded. */
  predicate AllAvailable(pieces: seq<bool>, from: int, to: int)
  {
    0 <= from && (from < to ==> to <= |pieces|) && forall q :: from <= q < to ==> pieces[q]
  }

  /** Every bitfield lookup the scan from `start` makes is in range: the start piece is,
      and either `lastPiece` is too or a missing piece after the start stops the scan
      before the bitfield ends. */
  predicate ReadsInRange(l: Layout, pieces: seq<bool>, start: int)
  {
    0 <= start < |pieces| && (l.lastPiece < |pieces| || exists m :: start < m < |pieces| && !pieces[m])
  }

  /** The scan loop from piece `pos` with `res` bytes credited so far: it goes on while
      fewer than `size` bytes are credited, stops after `lastPiece` and at a missing
      piece, credits the rest of the file at `lastPiece`, and a whole piece otherwise. */
  function Scan(l: Layout, pieces: seq<bool>, off: int, size: int, start: int, pos: int, res: int): (r: int)
    requires Sane(l) && ReadsInRange(l, pieces, start)
    requires start < pos && AllAvailable(pieces, start + 1, pos)
    ensures r >= res || r == l.fileSize - off
    ensures r > res ==> pos < |pieces| && pieces[pos]
    decreases l.lastPiece + 1 - pos
  {
    if res >= size || pos > l.lastPiece then res
    else
      assert pos < |pieces| by { InRangeAt(l, pieces, start, pos); }
      if !pieces[pos] then res
      else if pos == l.lastPiece then l.fileSize - off
      else Scan(l, pieces, off, size, start, pos + 1, res + l.pieceLength)
  }

  lemma InRangeAt(l: Layout, pieces: seq<bool>, start: int, pos: int)
    requires ReadsInRange(l, pieces, start)
    requires start < pos <= l.lastPiece && AllAvailable(pieces, start + 1, pos)
    ensures pos < |pieces|
  {
    if l.lastPiece >= |pieces| {
      var m :| start < m < |pieces| && !pieces[m];
    }
  }

  /** The lambda: 0 when the start piece is missing; otherwise the scan from the piece
      after it, starting from the first piece's credit, cut to `size`. */
  function Available(l: Layout, pieces: seq<bool>, off: int, size: int): (r: int)
    requires Sane(l) && ReadsInRange(l, pieces, PieceOf(l, off))
    ensures !pieces[PieceOf(l, off)] ==> r == 0
    ensures pieces[PieceOf(l, off)] ==> r <= size
  {
    var start := PieceOf(l, off);
    if !pieces[start] then 0
    else Min(Scan(l, pieces, off, size, start, start + 1, FirstCredit(l)), size)
  }

  /** The lambda's body, with its `while` loop. */
  method AvailableData(l: Layout, pieces: seq<bool>, off: int, size: int) returns (res: int)
    requires Sane(l) && ReadsInRange(l, pieces, PieceOf(l, off))
    ensures res == Available(l, pieces, off, size)
  {
    var start := PieceOf(l, off);
    res := 0;
    if !pieces[start] {
      return 0;
    }
    res := FirstCredit(l);
    var pos := start + 1;
    while res < size
      invariant start < pos && AllAvailable(pieces, start + 1, pos)
      invariant Scan(l, pieces, off, size, start, pos, res) == Scan(l, pieces, off, size, start, start + 1, FirstCredit(l))
      decreases l.lastPiece + 1 - pos
    {
      if pos > l.lastPiece {
        break;
      }
      InRangeAt(l, pieces, start, pos);
      if !pieces[pos] {
        break;
      }
      if pos == l.lastPiece {
        res := l.fileSize - off;
        break;
      }
      res := res + l.pieceLength;
      pos := pos + 1;
    }
    if res > size {
      res := size;
    }
  }

  // -------------------------------------------------------------------------------------
  // Properties of the scan.

  /** The credit after the scan has passed the pieces before `pos`. */
  function Credit(l: Layout, first: int, start: int, pos: int): int
  {
    first + (pos - start - 1) * l.pieceLength
  }

  lemma CreditGrows(l: Layout, first: int, start: int, p: int, q: int)
    requires l.pieceLength > 0 && p <= q
    ensures Credit(l, first, start, p) <= Credit(l, first, start, q)
  {
    MulMonotone(p - start - 1, q - start - 1, l.pieceLength);
  }

  lemma {:induction false} ScanToMissing(l: Layout, pieces: seq<bool>, off: int, size: int, first: int, start: int, pos: int, m: int)
    requires Sane(l) && ReadsInRange(l, pieces, start)
    requires start < pos <= m <= l.lastPiece && m < |pieces| && !pieces[m]
    requires AllAvailable(pieces, start + 1, m)
    ensures Min(Scan(l, pieces, off, size, start, pos, Credit(l, first, start, pos)), size) == Min(Credit(l, first, start, m), size)
    decreases m - pos
  {
    var res := Credit(l, first, start, pos);
    if res >= size {
      CreditGrows(l, first, start, pos, m);
    } else if pos < m {
      assert Credit(l, first, start, pos + 1) == res + l.pieceLength;
      ScanToMissing(l, pieces, off, size, first, start, pos + 1, m);
    }
  }

  /** The scan stops at the first missing piece: the answer is what is credited up to it,
      cut to `size`. */
  lemma StopsAtFirstMissing(l: Layout, pieces: seq<bool>, off: int, size: int, m: int)
    requires Sane(l) && ReadsInRange(l, pieces, PieceOf(l, off))
    requires pieces[PieceOf(l, off)]
    requires PieceOf(l, off) < m <= l.lastPiece && m < |pieces| && !pieces[m]
    requires AllAvailable(pieces, PieceOf(l, off) + 1, m)
    ensures Available(l, pieces, off, size) == Min(Credit(l, FirstCredit(l), PieceOf(l, off), m), size)
  {
    var start := PieceOf(l, off);
    assert Credit(l, FirstCredit(l), start, start + 1) == FirstCredit(l);
    ScanToMissing(l, pieces, off, size, FirstCredit(l), start, start + 1, m);
  }

  lemma {:induction false} ScanToLast(l: Layout, pieces: seq<bool>, off: int, size: int, first: int, start: int, pos: int)
    requires Sane(l) && ReadsInRange(l, pieces, start)
    requires start < pos <= l.lastPiece && AllAvailable(pieces, start + 1, l.lastPiece + 1)
    requires Credit(l, first, start, l.lastPiece) < size
    ensures Scan(l, pieces, off, size, start, pos, Credit(l, first, start, pos)) == l.fileSize - off
    decreases l.lastPiece - pos
  {
    CreditGrows(l, first, start, pos, l.lastPiece);
    if pos < l.lastPiece {
      assert Credit(l, first, start, pos + 1) == Credit(l, first, start, pos) + l.pieceLength;
      ScanToLast(l, pieces, off, size, first, start, pos + 1);
    }
  }

  /** A scan that reaches a downloaded `lastPiece` answers the rest of the file from
      `off`, cut to `size`. */
  lemma ReachesLastPiece(l: Layout, pieces: seq<bool>, off: int, size: int)
    requires Sane(l) && ReadsInRange(l, pieces, PieceOf(l, off))
    requires pieces[PieceOf(l, off)] && PieceOf(l, off) < l.lastPiece
    requires AllAvailable(pieces, PieceOf(l, off) + 1, l.lastPiece + 1)
    requires Credit(l, FirstCredit(l), PieceOf(l, off), l.lastPiece) < size
    ensures Available(l, pieces, off, size) == Min(l.fileSize - off, size)
  {
    var start := PieceOf(l, off);
    var first := FirstCredit(l);
    assert Scan(l, pieces, off, size, start, start + 1, first) == l.fileSize - off by {
      assert Credit(l, first, start, start + 1) == first;
      ScanToLast(l, pieces, off, size, first, start, start + 1);
    }
    assert Available(l, pieces, off, size) == Min(Scan(l, pieces, off, size, start, start + 1, first), size);
  }

  // -------------------------------------------------------------------------------------
  // The credit of the start piece.

  /** The bytes from `off` to the end of its piece. */
  function FirstCreditAt(l: Layout, off: int): int
    requires l.pieceLength > 0
  {
    l.pieceLength - (off + l.offset) % l.pieceLength
  }

  /** The bytes the start piece holds from `off` on: to the end of the piece, or to the
      end of the file when the file ends in that piece. */
  function FirstCreditFixed(l: Layout, off: int): int
    requires l.pieceLength > 0
  {
    Min(FirstCreditAt(l, off), l.fileSize - off)
  }

  /** The lambda with the start piece credited from `off` on, and not past the file. */
  function AvailableFixed(l: Layout, pieces: seq<bool>, off: int, size: int): (r: int)
    requires Sane(l) && ReadsInRange(l, pieces, PieceOf(l, off))
    ensures !pieces[PieceOf(l, off)] ==> r == 0
    ensures pieces[PieceOf(l, off)] ==> r <= size
  {
    var start := PieceOf(l, off);
    if !pieces[start] then 0
    else Min(Scan(l, pieces, off, size, start, start + 1, FirstCreditFixed(l, off)), size)
  }

  /** Every piece holding one of the `r` bytes from offset `off` of the file is
      downloaded: those are the pieces from the start piece on that begin before the
      last of the bytes. */
  ghost predicate Backed(l: Layout, pieces: seq<bool>, off: int, r: int)
    requires l.pieceLength > 0
  {
    r <= 0 || forall q :: PieceOf(l, off) <= q && q * l.pieceLength < off + l.offset + r ==> 0 <= q < |pieces| && pieces[q]
  }

  lemma BackedUpTo(l: Layout, pieces: seq<bool>, off: int, r: int, p: int)
    requires l.pieceLength > 0 && r <= p * l.pieceLength - (off + l.offset)
    requires AllAvailable(pieces, PieceOf(l, off), p)
    ensures Backed(l, pieces, off, r)
  {
    forall q | PieceOf(l, off) <= q && q * l.pieceLength < off + l.offset + r
      ensures 0 <= q < |pieces| && pieces[q]
    {
      if q >= p {
        MulMonotone(p, q, l.pieceLength);
        assert false;
      }
      assert PieceOf(l, off) <= q < p;
    }
  }

  lemma {:induction false} ScanBacked(l: Layout, pieces: seq<bool>, off: int, size: int, start: int, pos: int, res: int)
    requires Sane(l) && ReadsInRange(l, pieces, start)
    requires l.lastPiece * l.pieceLength <= l.offset + l.fileSize < (l.lastPiece + 1) * l.pieceLength
    requires start == PieceOf(l, off) && start < pos
    requires AllAvailable(pieces, start, pos) && AllAvailable(pieces, start + 1, pos)
    requires res <= pos * l.pieceLength - (off + l.offset)
    ensures Backed(l, pieces, off, Scan(l, pieces, off, size, start, pos, res))
    decreases l.lastPiece + 1 - pos
  {
    if res >= size || pos > l.lastPiece || !pieces[pos] {
      BackedUpTo(l, pieces, off, res, pos);
    } else if pos == l.lastPiece {
      assert AllAvailable(pieces, start, pos + 1);
      BackedUpTo(l, pieces, off, l.fileSize - off, pos + 1);
    } else {
      assert res + l.pieceLength <= (pos + 1) * l.pieceLength - (off + l.offset);
      assert AllAvailable(pieces, start, pos + 1) && AllAvailable(pieces, start + 1, pos + 1);
      ScanBacked(l, pieces, off, size, start, pos + 1, res + l.pieceLength);
    }
  }

  /** With the start piece credited from `off`, every byte the lambda allows is in a
      downloaded piece. */
  lemma AvailableFixedSound(l: Layout, pieces: seq<bool>, off: int, size: int)
    requires Sane(l) && off + l.offset >= 0 && ReadsInRange(l, pieces, PieceOf(l, off))
    requires l.lastPiece * l.pieceLength <= l.offset + l.fileSize < (l.lastPiece + 1) * l.pieceLength
    ensures Backed(l, pieces, off, AvailableFixed(l, pieces, off, size))
  {
    var start := PieceOf(l, off);
    if pieces[start] {
      assert FirstCreditFixed(l, off) <= (start + 1) * l.pieceLength - (off + l.offset) by {
        FirstCreditToPieceEnd(l, off);
      }
      var r := Scan(l, pieces, off, size, start, start + 1, FirstCreditFixed(l, off));
      assert Backed(l, pieces, off, r) by {
        assert AllAvailable(pieces, start, start + 1);
        ScanBacked(l, pieces, off, size, start, start + 1, FirstCreditFixed(l, off));
      }
      BackedFewer(l, pieces, off, Min(r, size), r);
    }
  }

  /** With the start piece credited from `off`, the lambda never allows more than the file
      holds from `off` on. */
  lemma AvailableFixedWithinFile(l: Layout, pieces: seq<bool>, off: int, size: int)
    requires Sane(l) && off + l.offset >= 0 && ReadsInRange(l, pieces, PieceOf(l, off))
    requires l.lastPiece * l.pieceLength <= l.offset + l.fileSize
    ensures pieces[PieceOf(l, off)] && off <= l.fileSize ==> AvailableFixed(l, pieces, off, size) <= l.fileSize - off
  {
    var start := PieceOf(l, off);
    if pieces[start] && off <= l.fileSize {
      assert FirstCreditFixed(l, off) <= (start + 1) * l.pieceLength - (off + l.offset) by {
        FirstCreditToPieceEnd(l, off);
      }
      ScanWithinFile(l, pieces, off, size, start, start + 1, FirstCreditFixed(l, off));
    }
  }

  /** A scan whose credit so far stays within the file and within the pieces before `pos`
      ends within the file. */
  lemma {:induction false} ScanWithinFile(l: Layout, pieces: seq<bool>, off: int, size: int, start: int, pos: int, res: int)
    requires Sane(l) && ReadsInRange(l, pieces, start)
    requires l.lastPiece * l.pieceLength <= l.offset + l.fileSize
    requires start < pos && AllAvailable(pieces, start + 1, pos)
    requires res <= pos * l.pieceLength - (off + l.offset) && res <= l.fileSize - off
    ensures Scan(l, pieces, off, size, start, pos, res) <= l.fileSize - off
    decreases l.lastPiece + 1 - pos
  {
    if res < size && pos < l.lastPiece {
      InRangeAt(l, pieces, start, pos);
      if pieces[pos] {
        assert res + l.pieceLength <= l.fileSize - off by {
          MulMonotone(pos + 1, l.lastPiece, l.pieceLength);
          MulSucc(pos, l.pieceLength);
        }
        assert res + l.pieceLength <= (pos + 1) * l.pieceLength - (off + l.offset) by {
          MulSucc(pos, l.pieceLength);
        }
        ScanWithinFile(l, pieces, off, size, start, pos + 1, res + l.pieceLength);
      }
    }
  }

  /** Crediting from `off` credits up to the end of its piece. */
  lemma FirstCreditToPieceEnd(l: Layout, off: int)
    requires l.pieceLength > 0 && off + l.offset >= 0
    ensures FirstCreditAt(l, off) == (PieceOf(l, off) + 1) * l.pieceLength - (off + l.offset)
  {
    var a := off + l.offset;
    assert a == (a / l.pieceLength) * l.pieceLength + a % l.pieceLength;
    assert (a / l.pieceLength + 1) * l.pieceLength == (a / l.pieceLength) * l.pieceLength + l.pieceLength;
  }

  /** Fewer bytes are backed by the same pieces. */
  lemma BackedFewer(l: Layout, pieces: seq<bool>, off: int, r1: int, r2: int)
    requires l.pieceLength > 0 && r1 <= r2 && Backed(l, pieces, off, r2)
    ensures Backed(l, pieces, off, r1)
  {
    if r1 > 0 {
      forall q | PieceOf(l, off) <= q && q * l.pieceLength < off + l.offset + r1
        ensures 0 <= q < |pieces| && pieces[q]
      {
        assert q * l.pieceLength < off + l.offset + r2;
      }
    }
  }

  /** A two-piece torrent of which only piece 0 is downloaded, holding one file of 30000
      bytes: asked for 1024 bytes at offset 16000, the lambda allows all 1024 though bytes
      16384 and up are in the missing piece 1; crediting from the offset allows 384. */
  lemma CreditIgnoresOffset()
    ensures ComputeLayout(16384, 2, 0, 30000) == Layout(16384, 2, 0, 2, 0, 1, 30000)
    ensures var l := Layout(16384, 2, 0, 2, 0, 1, 30000);
            && Available(l, [true, false], 16000, 1024) == 1024
            && !Backed(l, [true, false], 16000, 1024)
            && AvailableFixed(l, [true, false], 16000, 1024) == 384
  {
    var l := Layout(16384, 2, 0, 2, 0, 1, 30000);
    var pieces := [true, false];
    assert PieceOf(l, 16000) == 0;
    assert ReadsInRange(l, pieces, 0);
    assert Available(l, pieces, 16000, 1024) == 1024 by {
      assert FirstCredit(l) == 16384;
      assert Scan(l, pieces, 16000, 1024, 0, 1, 16384) == 16384;
    }
    assert !Backed(l, pieces, 16000, 1024) by {
      assert 16384 < 16000 + 1024;
      assert 1 * 16384 == 16384;
      assert !pieces[1];
    }
    assert AvailableFixed(l, pieces, 16000, 1024) == 384 by {
      assert FirstCreditAt(l, 16000) == 384;
      assert FirstCreditFixed(l, 16000) == 384;
      assert Scan(l, pieces, 16000, 1024, 0, 1, 384) == 384;
    }
  }

  /** The same torrent with both pieces downloaded: asked for 1024 bytes at offset 29000,
      the lambda allows all 1024 though the file ends 1000 bytes on, because an offset in
      `lastPiece` is credited to the end of that piece; the corrected lambda allows 1000. */
  lemma CreditPastEndOfFile()
    ensures var l := Layout(16384, 2, 0, 2, 0, 1, 30000);
            && Available(l, [true, true], 29000, 1024) == 1024
            && l.fileSize - 29000 == 1000
            && AvailableFixed(l, [true, true], 29000, 1024) == 1000
  {
    var l := Layout(16384, 2, 0, 2, 0, 1, 30000);
    var pieces := [true, true];
    assert PieceOf(l, 29000) == 1;
    assert ReadsInRange(l, pieces, 1);
    assert Available(l, pieces, 29000, 1024) == 1024 by {
      assert FirstCredit(l) == 16384;
      assert Scan(l, pieces, 29000, 1024, 1, 2, 16384) == 16384;
    }
    assert AvailableFixed(l, pieces, 29000, 1024) == 1000 by {
      assert FirstCreditAt(l, 29000) == 3768;
      assert FirstCreditFixed(l, 29000) == 1000;
      assert Scan(l, pieces, 29000, 1024, 1, 2, 1000) == 1000;
    }
  }
}
