/** The piece priorities the event loop of torrentd.cpp hands to libtorrent on every
    status update: built from scratch from the layout and a snapshot of the active range
    registry. */
module Priorities {
  import opened Common
  import opened Layout

  /** `10*1024*1024`, the bytes to favour after each cursor. */
  const TenMiB: int := 10 * 1024 * 1024

  /** `TenMB_in_pieces`: how many pieces ten MiB span, at least one. */
  function WindowWidth(l: Layout): (w: int)
    requires l.pieceLength > 0
    ensures w == Max(1, TenMiB / l.pieceLength)
  {
    var w := TenMiB / l.pieceLength;
    if w == 0 then 1 else w
  }

  /** The window is the whole pieces that fit in ten MiB, or one piece when a piece is
      larger than that. */
  lemma WindowCoversTenMiB(l: Layout)
    requires l.pieceLength > 0
    ensures WindowWidth(l) >= 1
    ensures l.pieceLength <= TenMiB ==>
              WindowWidth(l) * l.pieceLength <= TenMiB < (WindowWidth(l) + 1) * l.pieceLength
    ensures l.pieceLength > TenMiB ==> WindowWidth(l) == 1
  {
    DivBounds(TenMiB, l.pieceLength);
    if l.pieceLength <= TenMiB {
      assert TenMiB / l.pieceLength >= 1 by {
        if TenMiB / l.pieceLength <= 0 {
          MulMonotone(TenMiB / l.pieceLength + 1, 1, l.pieceLength);
        }
      }
    }
  }

  /** Piece `j` is one the boost loop for a range at `start` sets to 7: one of the
      `TenMB_in_pieces` pieces from the cursor piece on, and not after `lastPiece`. */
  predicate InWindow(l: Layout, start: int, j: int)
    requires l.pieceLength > 0
  {
    PieceOf(l, start) <= j < PieceOf(l, start) + WindowWidth(l) && j <= l.lastPiece
  }

  /** The boost loop for a range at `start` writes only inside the vector. */
  predicate WindowInBounds(l: Layout, start: int)
    requires l.pieceLength > 0
  {
    var n := PieceOf(l, start);
    var hi := Min(n + WindowWidth(l) - 1, l.lastPiece);
    n > hi || (0 <= n && hi < l.nTotalPieces)
  }

  predicate Boosted(l: Layout, ranges: seq<Range>, j: int)
    requires l.pieceLength > 0
  {
    exists k :: 0 <= k < |ranges| && InWindow(l, ranges[k].start, j)
  }

  /** The priority before any range is looked at: 7 at `lastPiece` when the torrent has
      that piece, 1 over the file's pieces, 0 elsewhere. */
  function BasePriority(l: Layout, j: int): (v: int)
    ensures v == 0 || v == 1 || v == 7
    ensures v == 7 <==> j == l.lastPiece && l.lastPiece < l.nTotalPieces
    ensures l.firstPiece <= l.lastPiece ==> (v == 0 <==> j < l.firstPiece || j > l.lastPiece)
  {
    if j == l.lastPiece && l.lastPiece < l.nTotalPieces then 7
    else if l.firstPiece <= j <= l.lastPiece then 1
    else 0
  }

  /** The priority of piece `j`: 7 inside the window of some range, the base priority
      otherwise. */
  function Priority(l: Layout, ranges: seq<Range>, j: int): (v: int)
    requires l.pieceLength > 0
    ensures v == 0 || v == 1 || v == 7
  {
    if Boosted(l, ranges, j) then 7 else BasePriority(l, j)
  }

  lemma BoostedSnoc(l: Layout, ranges: seq<Range>, k: nat, j: int)
    requires l.pieceLength > 0 && k < |ranges|
    ensures Boosted(l, ranges[..k + 1], j) <==> Boosted(l, ranges[..k], j) || InWindow(l, ranges[k].start, j)
  {
    if Boosted(l, ranges[..k + 1], j) && !InWindow(l, ranges[k].start, j) {
      var i :| 0 <= i < k + 1 && InWindow(l, ranges[..k + 1][i].start, j);
      assert ranges[..k][i] == ranges[i];
    }
    if Boosted(l, ranges[..k], j) {
      var i :| 0 <= i < k && InWindow(l, ranges[..k][i].start, j);
      assert ranges[..k + 1][i] == ranges[i];
    }
    if InWindow(l, ranges[k].start, j) {
      assert ranges[..k + 1][k] == ranges[k];
    }
  }

  /** The priority vector: `priorities(nTotalPieces, 0)`, then 1 from `firstPiece` while
      within `lastPiece` and the vector, then 7 at `lastPiece` if it is in the vector, then
      for each range in the snapshot 7 over its window. */
  method ComputePriorities(l: Layout, ranges: seq<Range>) returns (p: array<int>)
    requires WellFormed(l)
    requires forall k :: 0 <= k < |ranges| ==> WindowInBounds(l, ranges[k].start)
    ensures p.Length == l.nTotalPieces
    ensures forall j :: 0 <= j < p.Length ==> p[j] == Priority(l, ranges, j)
  {
    p := new int[l.nTotalPieces](_ => 0);
    var j := l.firstPiece;
    while j <= l.lastPiece && j < l.nTotalPieces
      invariant l.firstPiece <= j <= l.lastPiece + 1
      invariant forall i :: 0 <= i < p.Length ==> p[i] == if l.firstPiece <= i < j then 1 else 0
    {
      p[j] := 1;
      j := j + 1;
    }
    if l.lastPiece < l.nTotalPieces {
      p[l.lastPiece] := 7;
    }
    assert forall i :: 0 <= i < p.Length ==> p[i] == BasePriority(l, i);
    var k := 0;
    while k < |ranges|
      invariant 0 <= k <= |ranges|
      invariant forall i :: 0 <= i < p.Length ==> p[i] == if Boosted(l, ranges[..k], i) then 7 else BasePriority(l, i)
    {
      var width := WindowWidth(l);
      var pieceN := PieceOf(l, ranges[k].start);
      var t := 0;
      while t < width && t + pieceN <= l.lastPiece
        invariant 0 <= t <= width
        invariant t == 0 || pieceN + t <= l.lastPiece + 1
        invariant forall i :: 0 <= i < p.Length ==>
                    p[i] == if Boosted(l, ranges[..k], i) || (pieceN <= i < pieceN + t) then 7 else BasePriority(l, i)
      {
        var pos := t + pieceN;
        assert InWindow(l, ranges[k].start, pos);
        p[pos] := 7;
        t := t + 1;
      }
      assert forall i :: InWindow(l, ranges[k].start, i) <==> pieceN <= i < pieceN + t;
      forall i | 0 <= i < p.Length
        ensures p[i] == if Boosted(l, ranges[..k + 1], i) then 7 else BasePriority(l, i)
      {
        BoostedSnoc(l, ranges, k, i);
      }
      k := k + 1;
    }
    assert ranges[..k] == ranges;
  }

  // -------------------------------------------------------------------------------------
  // Properties of the vector.

  /** A cursor inside the file (not before its start) is in one of the file's pieces or
      after them. */
  lemma CursorPieceFrom(l: Layout, start: int)
    requires WellFormed(l) && start >= 0
    requires l.firstPiece == l.offset / l.pieceLength
    ensures PieceOf(l, start) >= l.firstPiece
  {
    DivMonotone(l.offset, start + l.offset, l.pieceLength);
  }

  /** With every cursor at or after the file's start, the pieces outside
      `[firstPiece, lastPiece]` keep priority 0. */
  lemma OutsideFileZero(l: Layout, ranges: seq<Range>, j: int)
    requires WellFormed(l) && l.firstPiece == l.offset / l.pieceLength
    requires forall k :: 0 <= k < |ranges| ==> ranges[k].start >= 0
    requires j < l.firstPiece || j > l.lastPiece
    ensures Priority(l, ranges, j) == 0
  {
    if Boosted(l, ranges, j) {
      var k :| 0 <= k < |ranges| && InWindow(l, ranges[k].start, j);
      CursorPieceFrom(l, ranges[k].start);
    }
  }

  /** Every piece of the file that the torrent has gets a priority of at least 1, and
      `lastPiece` gets 7 when the torrent has that piece. */
  lemma FilePiecesWanted(l: Layout, ranges: seq<Range>, j: int)
    requires WellFormed(l)
    ensures l.firstPiece <= j <= l.lastPiece && j < l.nTotalPieces ==> Priority(l, ranges, j) >= 1
    ensures l.lastPiece < l.nTotalPieces ==> Priority(l, ranges, l.lastPiece) == 7
  {
  }

  /** Every piece of a range's window gets 7; a piece gets 7 only in a window or at
      `lastPiece`. */
  lemma WindowsTop(l: Layout, ranges: seq<Range>, k: nat, j: int)
    requires WellFormed(l) && k < |ranges|
    ensures InWindow(l, ranges[k].start, j) ==> Priority(l, ranges, j) == 7
    ensures Priority(l, ranges, j) == 7 ==> Boosted(l, ranges, j) || j == l.lastPiece
  {
  }

  /** In bytes: for a cursor inside the torrent, a piece is in its window exactly when
      it is not after `lastPiece` and holds one of the bytes from the cursor on to
      `WindowWidth - 1` pieces' worth past it, that is, it ends after the cursor and
      starts no later than that last byte. */
  lemma WindowBytes(l: Layout, start: int, j: int)
    requires WellFormed(l) && start + l.offset >= 0
    ensures InWindow(l, start, j) <==>
            && j <= l.lastPiece
            && start + l.offset < (j + 1) * l.pieceLength
            && j * l.pieceLength <= start + l.offset + (WindowWidth(l) - 1) * l.pieceLength
  {
    var c, b := start + l.offset, l.pieceLength;
    var n, w := PieceOf(l, start), WindowWidth(l);
    assert n <= j <==> c < (j + 1) * b by {
      if n <= j {
        MulMonotone(n + 1, j + 1, b);
      } else {
        MulMonotone(j + 1, n, b);
      }
    }
    assert j <= n + w - 1 <==> j * b <= c + (w - 1) * b by {
      if j <= n + w - 1 {
        MulMonotone(j, n + w - 1, b);
        MulAdd(n, w - 1, b);
      } else {
        MulMonotone(n + w, j, b);
        MulAdd(n + 1, w - 1, b);
      }
    }
  }

  lemma MulAdd(x: int, y: int, b: int)
    ensures (x + y) * b == x * b + y * b
  {
  }

  /** The cursors the registry holds. */
  function Starts(ranges: seq<Range>): set<int>
  {
    set k | 0 <= k < |ranges| :: ranges[k].start
  }

  /** The vector depends only on the set of cursors: neither the order of the ranges, nor
      their ends, nor repeated entries change it. */
  lemma OrderIndependent(l: Layout, r1: seq<Range>, r2: seq<Range>, j: int)
    requires WellFormed(l) && Starts(r1) == Starts(r2)
    ensures Priority(l, r1, j) == Priority(l, r2, j)
  {
    BoostedBySet(l, r1, r2, j);
    BoostedBySet(l, r2, r1, j);
  }

  lemma BoostedBySet(l: Layout, r1: seq<Range>, r2: seq<Range>, j: int)
    requires WellFormed(l) && Starts(r1) == Starts(r2)
    ensures Boosted(l, r1, j) ==> Boosted(l, r2, j)
  {
    if Boosted(l, r1, j) {
      var k :| 0 <= k < |r1| && InWindow(l, r1[k].start, j);
      assert r1[k].start in Starts(r2);
      var k2 :| 0 <= k2 < |r2| && r2[k2].start == r1[k].start;
    }
  }

  /** Without any range the vector is the base one. */
  lemma NoRanges(l: Layout, j: int)
    requires WellFormed(l)
    ensures Priority(l, [], j) == BasePriority(l, j)
  {
  }

  /** In a single-file torrent two pieces long whose file ends on the boundary,
      `lastPiece` is 2: no piece gets 7 from it, and a range whose cursor is in piece 1
      would have the boost loop write at index 2, outside the vector. */
  lemma AlignedFileWindow()
    ensures var l := ComputeLayout(16384, 2, 0, 32768);
            && BasePriority(l, 0) == 1 && BasePriority(l, 1) == 1
            && !WindowInBounds(l, 16384)
  {
    var l := ComputeLayout(16384, 2, 0, 32768);
    assert PieceOf(l, 16384) == 1;
    assert WindowWidth(l) == 640;
  }
}
