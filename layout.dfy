/** Where the served file lies among the torrent's pieces (torrentd.cpp, the one-time
    `infos` computation): the piece length, the number of pieces of the torrent, the
    file's byte offset in the torrent and its size, and the piece numbers derived from
    them. */
module Layout {
  import opened Common

  datatype Layout = Layout(pieceLength: int, nTotalPieces: int, offset: int, nPieces: int,
                           firstPiece: int, lastPiece: int, fileSize: int)

  /** What libtorrent guarantees of the inputs. */
  predicate Sane(l: Layout)
  {
    l.pieceLength > 0 && l.nTotalPieces >= 0 && l.offset >= 0 && l.fileSize >= 0
  }

  /** Sane inputs, and piece numbers that are not negative and in order. */
  predicate WellFormed(l: Layout)
  {
    Sane(l) && 0 <= l.firstPiece <= l.lastPiece
  }

  /** `nPieces`, `firstPiece` and `lastPiece` as the event loop computes them: the pieces
      the file's size spans, rounded up; the piece holding the file's first byte; and the
      piece holding the byte just after the file's end. */
  function ComputeLayout(pieceLength: int, nTotalPieces: int, offset: int, fileSize: int): (l: Layout)
    requires pieceLength > 0 && nTotalPieces >= 0 && offset >= 0 && fileSize >= 0
    ensures WellFormed(l)
    ensures l.pieceLength == pieceLength && l.nTotalPieces == nTotalPieces
    ensures l.offset == offset && l.fileSize == fileSize
    ensures 0 <= l.firstPiece && l.firstPiece * pieceLength <= offset < (l.firstPiece + 1) * pieceLength
    ensures l.firstPiece <= l.lastPiece
    ensures l.lastPiece * pieceLength <= offset + fileSize < (l.lastPiece + 1) * pieceLength
    ensures 0 <= l.nPieces && (l.nPieces - 1) * pieceLength < fileSize <= l.nPieces * pieceLength
  {
    var nPieces := (fileSize + pieceLength - 1) / pieceLength;
    var firstPiece := offset / pieceLength;
    var lastPiece := (offset + fileSize) / pieceLength;
    DivBounds(fileSize + pieceLength - 1, pieceLength);
    DivBounds(offset, pieceLength);
    DivBounds(offset + fileSize, pieceLength);
    DivMonotone(offset, offset + fileSize, pieceLength);
    Layout(pieceLength, nTotalPieces, offset, nPieces, firstPiece, lastPiece, fileSize)
  }

  /** The piece of the torrent holding byte `x` of the file, `(x + offset) / pieceLength`
      in C's division: `pieceN` for a range's cursor (torrentd.cpp:303) and `start` for
      the offset `availableData` is asked about (torrentd.cpp:355). */
  function PieceOf(l: Layout, x: int): (p: int)
    requires l.pieceLength > 0
    ensures x + l.offset >= 0 ==> p * l.pieceLength <= x + l.offset < (p + 1) * l.pieceLength
    ensures x + l.offset < 0 ==> p <= 0
  {
    var c := x + l.offset;
    if c >= 0 then DivBounds(c, l.pieceLength); CDiv(c, l.pieceLength)
    else CDiv(c, l.pieceLength)
  }

  /** The quotient of a division by a positive divisor brackets the dividend. */
  lemma DivBounds(a: int, b: int)
    requires b > 0
    ensures (a / b) * b <= a < (a / b + 1) * b
  {
    assert a == (a / b) * b + a % b;
  }

  lemma DivMonotone(a: int, c: int, b: int)
    requires b > 0 && a <= c
    ensures a / b <= c / b
  {
    DivBounds(a, b);
    DivBounds(c, b);
    if a / b > c / b {
      assert (c / b + 1) * b <= (a / b) * b by {
        MulMonotone(c / b + 1, a / b, b);
      }
    }
  }

  lemma MulMonotone(x: int, y: int, b: int)
    requires b > 0 && x <= y
    ensures x * b <= y * b
  {
  }

  /** The one piece count a piece number `n` can be when it brackets `a` as a quotient
      does. */
  lemma {:induction false} QuotientUnique(n: int, a: int, b: int)
    requires b > 0 && n * b <= a < (n + 1) * b
    ensures n == a / b
  {
    DivBounds(a, b);
    if n < a / b {
      MulMonotone(n + 1, a / b, b);
    } else if n > a / b {
      MulMonotone(a / b + 1, n, b);
    }
  }

  // -------------------------------------------------------------------------------------
  // The last piece.

  /** The piece holding the file's last byte. */
  function LastPieceOfFile(l: Layout): (p: int)
    requires Sane(l) && l.fileSize > 0
    ensures p * l.pieceLength <= l.offset + l.fileSize - 1 < (p + 1) * l.pieceLength
  {
    DivBounds(l.offset + l.fileSize - 1, l.pieceLength);
    (l.offset + l.fileSize - 1) / l.pieceLength
  }

  /** The computed `lastPiece` is the piece of the last byte, except when the file ends on
      a piece boundary: then it is the piece after. */
  lemma LastPieceVersusFile(pieceLength: int, nTotalPieces: int, offset: int, fileSize: int)
    requires pieceLength > 0 && nTotalPieces >= 0 && offset >= 0 && fileSize > 0
    ensures var l := ComputeLayout(pieceLength, nTotalPieces, offset, fileSize);
            && ((offset + fileSize) % pieceLength != 0 ==> l.lastPiece == LastPieceOfFile(l))
            && ((offset + fileSize) % pieceLength == 0 ==> l.lastPiece == LastPieceOfFile(l) + 1)
  {
    var l := ComputeLayout(pieceLength, nTotalPieces, offset, fileSize);
    var e := offset + fileSize;
    var q := e / pieceLength;
    assert l.lastPiece == q;
    assert LastPieceOfFile(l) == (e - 1) / pieceLength;
    assert e == q * pieceLength + e % pieceLength;
    MulSucc(q - 1, pieceLength);
    MulSucc(q, pieceLength);
    if e % pieceLength != 0 {
      QuotientUnique(q, e - 1, pieceLength);
    } else {
      QuotientUnique(q - 1, e - 1, pieceLength);
    }
  }

  lemma MulSucc(x: int, b: int)
    ensures (x + 1) * b == x * b + b
  {
  }

  /** For the last file of a torrent (the torrent's pieces are just enough to hold it),
      the piece of its last byte is the torrent's last piece, while `lastPiece` is past
      the end exactly when the file ends on a piece boundary. */
  lemma LastFileOfTorrent(pieceLength: int, nTotalPieces: int, offset: int, fileSize: int)
    requires pieceLength > 0 && nTotalPieces >= 0 && offset >= 0 && fileSize > 0
    requires (nTotalPieces - 1) * pieceLength < offset + fileSize <= nTotalPieces * pieceLength
    ensures var l := ComputeLayout(pieceLength, nTotalPieces, offset, fileSize);
            && LastPieceOfFile(l) == nTotalPieces - 1
            && (l.lastPiece < nTotalPieces <==> (offset + fileSize) % pieceLength != 0)
  {
    var l := ComputeLayout(pieceLength, nTotalPieces, offset, fileSize);
    QuotientUnique(nTotalPieces - 1, offset + fileSize - 1, pieceLength);
    LastPieceVersusFile(pieceLength, nTotalPieces, offset, fileSize);
  }

  /** A single-file torrent of two full 16 KiB pieces: `lastPiece` is 2, one past the
      torrent's pieces, where the file's last byte is in piece 1. */
  lemma AlignedLastPiece()
    ensures ComputeLayout(16384, 2, 0, 32768).lastPiece == 2
    ensures LastPieceOfFile(ComputeLayout(16384, 2, 0, 32768)) == 1
  {
  }
}
