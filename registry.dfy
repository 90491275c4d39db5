/** The active range registry of httpd.cpp (`_currentRanges` with `insertRange`,
    `deleteRange` and `getRanges`): the ranges, with their current cursors, of every
    connection being served; the torrent side reads it to choose piece priorities. */
module Registry {
  import opened Common

  /** `s` without its first element equal to `x`; `s` itself when there is none. */
  function RemoveFirst(s: seq<Range>, x: Range): (t: seq<Range>)
    ensures x in s ==> |t| == |s| - 1
    ensures x !in s ==> t == s
  {
    if s == [] then []
    else if s[0] == x then s[1..]
    else [s[0]] + RemoveFirst(s[1..], x)
  }

  /** The position of the first element equal to `x`. */
  function FirstIndex(s: seq<Range>, x: Range): (i: nat)
    requires x in s
    ensures i < |s| && s[i] == x && x !in s[..i]
  {
    if s[0] == x then 0 else 1 + FirstIndex(s[1..], x)
  }

  lemma {:induction false} FirstIndexAt(s: seq<Range>, x: Range, i: nat)
    requires i < |s| && s[i] == x
    requires forall j :: 0 <= j < i ==> s[j] != x
    ensures FirstIndex(s, x) == i
  {
    if i > 0 {
      FirstIndexAt(s[1..], x, i - 1);
    }
  }

  /** Deleting cuts out exactly the first match and keeps everything else in order. */
  lemma {:induction false} RemoveFirstAt(s: seq<Range>, x: Range)
    requires x in s
    ensures var i := FirstIndex(s, x); RemoveFirst(s, x) == s[..i] + s[i + 1..]
  {
    if s[0] != x {
      var i := FirstIndex(s[1..], x);
      assert FirstIndex(s, x) == i + 1;
      assert RemoveFirst(s[1..], x) == s[1..i + 1] + s[i + 2..] by {
        RemoveFirstAt(s[1..], x);
        assert s[1..][..i] == s[1..i + 1] && s[1..][i + 1..] == s[i + 2..];
      }
      assert s[..i + 1] == [s[0]] + s[1..i + 1];
      Assoc([s[0]], s[1..i + 1], s[i + 2..]);
    }
  }

  /** Deleting removes one occurrence of `x`, if there is one, and nothing else. */
  lemma {:induction false} RemoveFirstMultiset(s: seq<Range>, x: Range)
    ensures multiset(RemoveFirst(s, x)) == multiset(s) - multiset{x}
  {
    if s != [] {
      assert s == [s[0]] + s[1..];
      if s[0] != x {
        RemoveFirstMultiset(s[1..], x);
      }
    }
  }

  /** Deleting what was just appended gives back the same ranges, though not in the same
      order when an equal range was already there. */
  lemma RemoveAfterAppend(s: seq<Range>, x: Range)
    ensures multiset(RemoveFirst(s + [x], x)) == multiset(s)
    ensures x !in s ==> RemoveFirst(s + [x], x) == s
  {
    RemoveFirstMultiset(s + [x], x);
    if x !in s {
      RemoveFirstAt(s + [x], x);
      assert FirstIndex(s + [x], x) == |s|;
      assert (s + [x])[..|s|] == s;
    }
  }

  /** A second equal range keeps its place when the first one is deleted. */
  lemma RemoveFirstOfTwo(a: Range, b: Range)
    requires a != b
    ensures RemoveFirst([a, b, a], a) == [b, a]
  {
  }

  class RangeRegistry {
    /** `_currentRanges`, front first. */
    var ranges: seq<Range>

    constructor()
      ensures ranges == []
    {
      ranges := [];
    }

    /** `insertRange`: append at the back. */
    method Insert(r: Range)
      modifies this
      ensures ranges == old(ranges) + [r]
    {
      ranges := ranges + [r];
    }

    /** `deleteRange`: walk from the front and erase the first equal range; when there is
        none, nothing changes. */
    method Delete(r: Range)
      modifies this
      ensures ranges == RemoveFirst(old(ranges), r)
      ensures multiset(ranges) == multiset(old(ranges)) - multiset{r}
    {
      var s := ranges;
      var i := 0;
      while i < |s|
        invariant i <= |s|
        invariant forall j :: 0 <= j < i ==> s[j] != r
      {
        if s[i] == r {
          assert RemoveFirst(s, r) == s[..i] + s[i + 1..] by {
            FirstIndexAt(s, r, i);
            RemoveFirstAt(s, r);
          }
          ranges := s[..i] + s[i + 1..];
          RemoveFirstMultiset(s, r);
          return;
        }
        i := i + 1;
      }
      assert r !in s;
    }

    /** `getRanges`: a copy of the list, in order. */
    method Snapshot() returns (s: seq<Range>)
      ensures s == ranges
    {
      s := ranges;
    }
  }
}
