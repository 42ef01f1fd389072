/** The storage layout of the buffer: an allocated block of bytes with an unused
    region, the gap, between `gapStart` and `gapEnd`. The text is the bytes before
    the gap followed by the bytes after it. This module holds the abstraction from
    storage to text and the two byte-moving primitives the buffer is built on. */
module GapStorage {

  /** The storage layout is well formed. */
  predicate GapInBlock(size: int, gapStart: int, gapEnd: int) {
    0 <= gapStart <= gapEnd <= size
  }

  /** The text a block holds: the bytes before the gap, then the bytes after it. */
  function Logical(block: seq<char>, gapStart: int, gapEnd: int): (r: seq<char>)
    requires GapInBlock(|block|, gapStart, gapEnd)
    ensures |r| == |block| - (gapEnd - gapStart)
  {
    block[..gapStart] + block[gapEnd..]
  }

  /** The storage index of text offset `pos`: itself before the gap, shifted past the
      gap from the gap start on. */
  function Physical(gapStart: int, gapEnd: int, pos: int): int {
    if pos < gapStart then pos else pos + (gapEnd - gapStart)
  }

  /** A text offset never lands in the gap, and the byte stored there is the
      text's byte at that offset. */
  lemma PhysicalIsOutsideGap(block: seq<char>, gapStart: int, gapEnd: int, pos: int)
    requires GapInBlock(|block|, gapStart, gapEnd)
    requires 0 <= pos < |Logical(block, gapStart, gapEnd)|
    ensures var p := Physical(gapStart, gapEnd, pos);
      (0 <= p < gapStart || gapEnd <= p < |block|) &&
      block[p] == Logical(block, gapStart, gapEnd)[pos]
  {
  }

  /** Two layouts hold the same text when they have the same length and store the
      same byte for every offset. */
  lemma {:induction false} SameLogical(b1: seq<char>, s1: int, e1: int, b2: seq<char>, s2: int, e2: int)
    requires GapInBlock(|b1|, s1, e1) && GapInBlock(|b2|, s2, e2)
    requires |b1| - (e1 - s1) == |b2| - (e2 - s2)
    requires forall pos :: 0 <= pos < |b1| - (e1 - s1) ==> b1[Physical(s1, e1, pos)] == b2[Physical(s2, e2, pos)]
    ensures Logical(b1, s1, e1) == Logical(b2, s2, e2)
  {
    var l1, l2 := Logical(b1, s1, e1), Logical(b2, s2, e2);
    forall pos | 0 <= pos < |l1|
      ensures l1[pos] == l2[pos]
    {
      PhysicalIsOutsideGap(b1, s1, e1, pos);
      PhysicalIsOutsideGap(b2, s2, e2, pos);
    }
  }

  /** A block after `n` bytes were copied from index `from` to index `to`. */
  function Moved(block: seq<char>, from: int, to: int, n: int): (r: seq<char>)
    requires 0 <= n && 0 <= from && from + n <= |block| && 0 <= to && to + n <= |block|
    ensures |r| == |block|
  {
    block[..to] + block[from..from + n] + block[to + n..]
  }

  /** The byte at index `k` of a block after a move. */
  lemma MovedAt(block: seq<char>, from: int, to: int, n: int, k: int)
    requires 0 <= n && 0 <= from && from + n <= |block| && 0 <= to && to + n <= |block|
    requires 0 <= k < |block|
    ensures Moved(block, from, to, n)[k] == if to <= k < to + n then block[from + (k - to)] else block[k]
  {
    var m := Moved(block, from, to, n);
    if k < to {
      assert m[k] == block[..to][k];
    } else if k < to + n {
      assert m[k] == block[from..from + n][k - to];
    } else {
      assert m[k] == block[to + n..][k - to - n];
    }
  }

  /** Sliding the gap up to `pos` (moving the bytes just after it down to its old
      start) keeps the text. */
  lemma MoveGapUpKeepsText(block: seq<char>, gapStart: int, gapEnd: int, pos: int)
    requires GapInBlock(|block|, gapStart, gapEnd)
    requires gapStart <= pos <= |block| - (gapEnd - gapStart)
    ensures Logical(Moved(block, gapEnd, gapStart, pos - gapStart), pos, pos + (gapEnd - gapStart))
      == Logical(block, gapStart, gapEnd)
  {
    var d := pos - gapStart;
    var m := Moved(block, gapEnd, gapStart, d);
    forall i | 0 <= i < |block| - (gapEnd - gapStart)
      ensures m[Physical(pos, gapEnd + d, i)] == block[Physical(gapStart, gapEnd, i)]
    {
      MovedAt(block, gapEnd, gapStart, d, Physical(pos, gapEnd + d, i));
    }
    SameLogical(m, pos, gapEnd + d, block, gapStart, gapEnd);
  }

  /** Sliding the gap down to `pos` (moving the bytes just before it up to its old
      end) keeps the text. */
  lemma MoveGapDownKeepsText(block: seq<char>, gapStart: int, gapEnd: int, pos: int)
    requires GapInBlock(|block|, gapStart, gapEnd)
    requires 0 <= pos <= gapStart
    ensures Logical(Moved(block, pos, pos + (gapEnd - gapStart), gapStart - pos), pos, pos + (gapEnd - gapStart))
      == Logical(block, gapStart, gapEnd)
  {
    var gapLen := gapEnd - gapStart;
    var m := Moved(block, pos, pos + gapLen, gapStart - pos);
    forall i | 0 <= i < |block| - gapLen
      ensures m[Physical(pos, pos + gapLen, i)] == block[Physical(gapStart, gapEnd, i)]
    {
      MovedAt(block, pos, pos + gapLen, gapStart - pos, Physical(pos, pos + gapLen, i));
    }
    SameLogical(m, pos, pos + gapLen, block, gapStart, gapEnd);
  }

  /** Writing `src` at the start of the gap and moving the gap start past it
      inserts `src` into the text at the old gap start. */
  lemma FillGapInserts(block: seq<char>, gapStart: int, gapEnd: int, src: seq<char>)
    requires GapInBlock(|block|, gapStart, gapEnd) && gapStart + |src| <= gapEnd
    ensures var t := Logical(block, gapStart, gapEnd);
      Logical(Written(block, gapStart, src), gapStart + |src|, gapEnd) == t[..gapStart] + src + t[gapStart..]
  {
    var t := Logical(block, gapStart, gapEnd);
    var w := Written(block, gapStart, src);
    assert w[..gapStart + |src|] == block[..gapStart] + src;
    assert w[gapEnd..] == block[gapEnd..];
    assert t[..gapStart] == block[..gapStart];
    assert t[gapStart..] == block[gapEnd..];
  }

  /** Widening the gap so that it starts at `start` and swallows the `end - gapStart`
      bytes after it removes the text range [start, end). */
  lemma WidenGapRemoves(block: seq<char>, gapStart: int, gapEnd: int, start: int, end: int)
    requires GapInBlock(|block|, gapStart, gapEnd)
    requires 0 <= start <= gapStart <= end <= |block| - (gapEnd - gapStart)
    ensures var t := Logical(block, gapStart, gapEnd);
      GapInBlock(|block|, start, gapEnd + (end - gapStart)) &&
      Logical(block, start, gapEnd + (end - gapStart)) == t[..start] + t[end..]
  {
    var t := Logical(block, gapStart, gapEnd);
    var e := gapEnd + (end - gapStart);
    assert t[..start] == block[..start];
    assert t[end..] == block[e..];
  }

  /** The text range [s, e) read straight from storage: from before the gap, from
      after it, or in two pieces when it spans the gap. */
  lemma LogicalSlice(block: seq<char>, gapStart: int, gapEnd: int, s: int, e: int)
    requires GapInBlock(|block|, gapStart, gapEnd)
    requires 0 <= s <= e <= |block| - (gapEnd - gapStart)
    ensures var t := Logical(block, gapStart, gapEnd);
      var gapLen := gapEnd - gapStart;
      t[s..e] ==
        if e <= gapStart then block[s..e]
        else if s >= gapStart then block[s + gapLen..e + gapLen]
        else block[s..gapStart] + block[gapEnd..gapEnd + (e - gapStart)]
  {
    var t := Logical(block, gapStart, gapEnd);
    var gapLen := gapEnd - gapStart;
    if e <= gapStart {
      assert t[s..e] == block[..gapStart][s..e];
    } else if s >= gapStart {
      assert t[s..e] == block[gapEnd..][s - gapStart..e - gapStart];
    } else {
      assert t[s..e] == t[s..gapStart] + t[gapStart..e];
      assert t[s..gapStart] == block[..gapStart][s..];
      assert t[gapStart..e] == block[gapEnd..][..e - gapStart];
    }
  }

  /** Copies `n` bytes from index `from` down to index `to <= from` within `a`, front
      to back, so that every byte is read before it is overwritten. */
  method MoveBytesDown(a: array<char>, from: int, to: int, n: int)
    requires 0 <= n && 0 <= to <= from && from + n <= a.Length
    modifies a
    ensures forall k :: 0 <= k < to ==> a[k] == old(a[k])
    ensures forall k :: to <= k < to + n ==> a[k] == old(a[from + (k - to)])
    ensures forall k :: to + n <= k < a.Length ==> a[k] == old(a[k])
  {
    ghost var s := a[..];
    var i := 0;
    while i < n
      invariant 0 <= i <= n
      invariant forall k :: 0 <= k < to ==> a[k] == s[k]
      invariant forall k :: to <= k < to + i ==> a[k] == s[from + (k - to)]
      invariant forall k :: to + i <= k < a.Length ==> a[k] == s[k]
    {
      a[to + i] := a[from + i];
      i := i + 1;
    }
  }

  /** Copies `n` bytes from index `from` up to index `to > from` within `a`, back to
      front, so that every byte is read before it is overwritten. */
  method MoveBytesUp(a: array<char>, from: int, to: int, n: int)
    requires 0 <= n && 0 <= from < to && to + n <= a.Length
    modifies a
    ensures forall k :: 0 <= k < to ==> a[k] == old(a[k])
    ensures forall k :: to <= k < to + n ==> a[k] == old(a[from + (k - to)])
    ensures forall k :: to + n <= k < a.Length ==> a[k] == old(a[k])
  {
    ghost var s := a[..];
    var i := n;
    while i > 0
      invariant 0 <= i <= n
      invariant forall k :: 0 <= k < to + i ==> a[k] == s[k]
      invariant forall k :: to + i <= k < to + n ==> a[k] == s[from + (k - to)]
      invariant forall k :: to + n <= k < a.Length ==> a[k] == s[k]
    {
      i := i - 1;
      a[to + i] := a[from + i];
    }
  }

  /** Copies `n` bytes from index `from` to index `to` within `a`, correctly for
      overlapping ranges (the `memmove` the buffer uses to slide its gap). */
  method MoveBytes(a: array<char>, from: int, to: int, n: int)
    requires 0 <= n && 0 <= from && from + n <= a.Length && 0 <= to && to + n <= a.Length
    modifies a
    ensures a[..] == Moved(old(a[..]), from, to, n)
  {
    ghost var s := a[..];
    if to <= from {
      MoveBytesDown(a, from, to, n);
    } else {
      MoveBytesUp(a, from, to, n);
    }
    forall k | 0 <= k < a.Length
      ensures a[..][k] == Moved(s, from, to, n)[k]
    {
      MovedAt(s, from, to, n, k);
    }
  }

  /** The byte moving half of relocating the gap of block `a` to start at `pos`:
      the bytes between the old and the new gap position are moved across the gap,
      which keeps the text. */
  method SlideGap(a: array<char>, gapStart: int, gapEnd: int, pos: int)
    requires GapInBlock(a.Length, gapStart, gapEnd)
    requires 0 <= pos <= a.Length - (gapEnd - gapStart)
    modifies a
    ensures Logical(a[..], pos, pos + (gapEnd - gapStart)) == Logical(old(a[..]), gapStart, gapEnd)
  {
    ghost var b := a[..];
    if pos > gapStart {
      MoveBytes(a, gapEnd, gapStart, pos - gapStart);
      MoveGapUpKeepsText(b, gapStart, gapEnd, pos);
    } else {
      MoveBytes(a, pos, pos + (gapEnd - gapStart), gapStart - pos);
      MoveGapDownKeepsText(b, gapStart, gapEnd, pos);
    }
  }

  /** A block after `src` was written over it starting at index `to`. */
  function Written(block: seq<char>, to: int, src: seq<char>): (r: seq<char>)
    requires 0 <= to && to + |src| <= |block|
    ensures |r| == |block|
  {
    block[..to] + src + block[to + |src|..]
  }

  /** Copies `n` bytes from index `from` of `src` into `dst` at index `to` (the
      `memcpy` between distinct blocks). */
  method CopyBytes(dst: array<char>, to: int, src: array<char>, from: int, n: int)
    requires dst != src
    requires 0 <= n && 0 <= from && from + n <= src.Length && 0 <= to && to + n <= dst.Length
    modifies dst
    ensures forall k :: 0 <= k < to ==> dst[k] == old(dst[k])
    ensures forall k :: to <= k < to + n ==> dst[k] == src[from + (k - to)]
    ensures forall k :: to + n <= k < dst.Length ==> dst[k] == old(dst[k])
  {
    ghost var d := dst[..];
    var i := 0;
    while i < n
      invariant 0 <= i <= n
      invariant forall k :: 0 <= k < to ==> dst[k] == d[k]
      invariant forall k :: to <= k < to + i ==> dst[k] == src[from + (k - to)]
      invariant forall k :: to + i <= k < dst.Length ==> dst[k] == d[k]
    {
      dst[to + i] := src[from + i];
      i := i + 1;
    }
  }

  /** Writes the bytes of `src` into `dst` at index `to` (copying a caller's string
      into the buffer). */
  method WriteBytes(dst: array<char>, to: int, src: seq<char>)
    requires 0 <= to && to + |src| <= dst.Length
    modifies dst
    ensures dst[..] == Written(old(dst[..]), to, src)
  {
    ghost var d := dst[..];
    var i := 0;
    while i < |src|
      invariant 0 <= i <= |src|
      invariant forall k :: 0 <= k < to ==> dst[k] == d[k]
      invariant forall k :: to <= k < to + i ==> dst[k] == src[k - to]
      invariant forall k :: to + i <= k < dst.Length ==> dst[k] == d[k]
    {
      dst[to + i] := src[i];
      i := i + 1;
    }
    assert dst[..] == Written(d, to, src) by {
      var w := Written(d, to, src);
      forall k | 0 <= k < dst.Length
        ensures dst[..][k] == w[k]
      {
        if to <= k < to + |src| {
          assert w[k] == (d[..to] + src)[k];
        }
      }
    }
  }

  /** Writes `src` at the start of the gap of block `a` (which has room for it); with
      the gap start moved past it, the text has `src` inserted at the old gap start. */
  method FillGap(a: array<char>, gapStart: int, gapEnd: int, src: seq<char>)
    requires GapInBlock(a.Length, gapStart, gapEnd) && gapStart + |src| <= gapEnd
    modifies a
    ensures var t := Logical(old(a[..]), gapStart, gapEnd);
      Logical(a[..], gapStart + |src|, gapEnd) == t[..gapStart] + src + t[gapStart..]
  {
    FillGapInserts(a[..], gapStart, gapEnd, src);
    WriteBytes(a, gapStart, src);
  }

  /** A fresh block of `|t| + gapLen` bytes holding `t` with the gap at the end. */
  method NewBlock(t: seq<char>, gapLen: int) returns (b: array<char>)
    requires 0 <= gapLen
    ensures fresh(b) && b.Length == |t| + gapLen
    ensures Logical(b[..], |t|, |t| + gapLen) == t
  {
    b := new char[|t| + gapLen];
    WriteBytes(b, 0, t);
    assert b[..][..|t|] == t;
  }

  /** A fresh block holding the same text as block `a`, with a gap of `newGapLen`
      bytes starting at text offset `newGapStart` (the three-copy reallocation). */
  method Regap(a: array<char>, gapStart: int, gapEnd: int, newGapStart: int, newGapLen: int)
    returns (b: array<char>)
    requires GapInBlock(a.Length, gapStart, gapEnd)
    requires 0 <= newGapStart <= a.Length - (gapEnd - gapStart) && 0 <= newGapLen
    ensures fresh(b) && b.Length == a.Length - (gapEnd - gapStart) + newGapLen
    ensures Logical(b[..], newGapStart, newGapStart + newGapLen) == Logical(a[..], gapStart, gapEnd)
  {
    var length := a.Length - (gapEnd - gapStart);
    b := new char[length + newGapLen];
    var newGapEnd := newGapStart + newGapLen;
    if newGapStart <= gapStart {
      CopyBytes(b, 0, a, 0, newGapStart);
      CopyBytes(b, newGapEnd, a, newGapStart, gapStart - newGapStart);
      CopyBytes(b, newGapEnd + gapStart - newGapStart, a, gapEnd, length - gapStart);
    } else {
      CopyBytes(b, 0, a, 0, gapStart);
      CopyBytes(b, gapStart, a, gapEnd, newGapStart - gapStart);
      CopyBytes(b, newGapEnd, a, gapEnd + newGapStart - gapStart, length - newGapStart);
    }
    forall i | 0 <= i < length
      ensures b[..][Physical(newGapStart, newGapEnd, i)] == a[..][Physical(gapStart, gapEnd, i)]
    {
      if i < newGapStart && i < gapStart {
        assert b[i] == a[i];
      } else if newGapStart <= i < gapStart {
        assert b[i + newGapLen] == a[i];
      } else if gapStart <= i < newGapStart {
        assert b[i] == a[i + (gapEnd - gapStart)];
      } else {
        assert b[i + newGapLen] == a[i + (gapEnd - gapStart)];
      }
    }
    SameLogical(b[..], newGapStart, newGapEnd, a[..], gapStart, gapEnd);
  }
}
