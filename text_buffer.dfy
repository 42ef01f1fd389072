/** The text buffer: a gap buffer of bytes, the three selections it keeps up to
    date, its display settings and its callback registries. Mutators report the
    callback calls they would make, in order, as a list of notices. */
module TextBuffers {
  import opened GapStorage
  import opened TextSelection
  import opened Callbacks
  import TextScan
  import Display

  /** A call the buffer makes to its registered callbacks: the pre-delete callbacks
      before text goes away, the modify callbacks after any change. */
  datatype Notice =
    | Predelete(pos: int, nDeleted: int)
    | Modified(pos: int, nInserted: int, nDeleted: int, nRestyled: int, deletedText: string)

  /** `pos` clamped into [0, length]. */
  function Clamp(pos: int, length: int): (r: int)
    requires 0 <= length
    ensures 0 <= r <= length
    ensures 0 <= pos <= length ==> r == pos
  {
    if pos > length then length else if pos < 0 then 0 else pos
  }

  /** The three selections after an edit at `pos` replacing `nDeleted` bytes by
      `nInserted` bytes. */
  function UpdatedAll(sels: (SelState, SelState, SelState), pos: int, nDeleted: int, nInserted: int)
    : (SelState, SelState, SelState)
  {
    (Updated(sels.0, pos, nDeleted, nInserted), Updated(sels.1, pos, nDeleted, nInserted),
     Updated(sels.2, pos, nDeleted, nInserted))
  }

  /** The three selections after a replacement of [start, end) by `nInserted` bytes,
      which is a removal followed, when anything is inserted, by an insertion. */
  function ReplacedAll(sels: (SelState, SelState, SelState), start: int, end: int, nInserted: int)
    : (SelState, SelState, SelState)
  {
    var removed := UpdatedAll(sels, start, end - start, 0);
    if nInserted == 0 then removed else UpdatedAll(removed, start, 0, nInserted)
  }

  /** Every active selection of the three lies inside a text of `length` bytes. */
  predicate AllInBounds(sels: (SelState, SelState, SelState), length: int) {
    InBounds(sels.0, length) && InBounds(sels.1, length) && InBounds(sels.2, length)
  }

  /** Updating the three selections for an edit of a text keeps them inside it. */
  lemma UpdatedAllKeepsInBounds(sels: (SelState, SelState, SelState), length: int, pos: int, nDeleted: int,
                                nInserted: int)
    requires AllInBounds(sels, length)
    requires 0 <= pos && 0 <= nDeleted && 0 <= nInserted && pos + nDeleted <= length
    ensures AllInBounds(UpdatedAll(sels, pos, nDeleted, nInserted), length - nDeleted + nInserted)
  {
    UpdateKeepsInBounds(sels.0, length, pos, nDeleted, nInserted);
    UpdateKeepsInBounds(sels.1, length, pos, nDeleted, nInserted);
    UpdateKeepsInBounds(sels.2, length, pos, nDeleted, nInserted);
  }

  /** Removing what was just inserted gives back the text. */
  lemma {:induction false} RemoveUndoesInsert(t: seq<char>, pos: int, text: seq<char>)
    requires 0 <= pos <= |t|
    ensures Edited(Edited(t, pos, 0, text), pos, |text|, []) == t
  {
    var u := Edited(t, pos, 0, text);
    assert u[..pos] == t[..pos];
    assert u[pos + |text|..] == t[pos..];
  }

  /** Inserting the deleted text that a removal reports, where it was removed, gives
      back the text. */
  lemma {:induction false} DeletedTextUndoesRemove(t: seq<char>, start: int, end: int)
    requires 0 <= start <= end <= |t|
    ensures Edited(Edited(t, start, end - start, []), start, 0, t[start..end]) == t
  {
    var u := Edited(t, start, end - start, []);
    assert u[..start] == t[..start];
    assert u[start..] == t[end..];
    assert t == t[..start] + t[start..end] + t[end..];
  }

  /** A replacement is the removal of the range followed by the insertion at its
      start. */
  lemma {:induction false} ReplaceIsRemoveThenInsert(t: seq<char>, start: int, end: int, text: seq<char>)
    requires 0 <= start <= end <= |t|
    ensures Edited(t, start, end - start, text) == Edited(Edited(t, start, end - start, []), start, 0, text)
  {
    var u := Edited(t, start, end - start, []);
    assert u[..start] == t[..start];
    assert u[start..] == t[end..];
  }

  class TextBuffer {
    var mBuf: array<char>
    var mGapStart: int
    var mGapEnd: int
    var mLength: int
    var mTabDist: int
    var mUseTabs: bool
    const mPrimary: Selection
    const mSecondary: Selection
    const mHighlight: Selection
    var mModifyProcs: seq<Registration>
    var mPredeleteProcs: seq<Registration>
    var mCursorPosHint: int
    var mCanUndo: bool
    var mPreferredGapSize: int

    /** The storage holds the gap inside the block, and the block is exactly the gap
        plus the text. */
    ghost predicate StorageOk()
      reads this, mBuf
    {
      GapInBlock(mBuf.Length, mGapStart, mGapEnd) && mLength == mBuf.Length - (mGapEnd - mGapStart)
    }

    /** The text the buffer holds. */
    ghost function Text(): seq<char>
      reads this, mBuf
      requires StorageOk()
    {
      Logical(mBuf[..], mGapStart, mGapEnd)
    }

    /** The three selections are distinct objects. */
    ghost predicate SelectionsDistinct() {
      mPrimary != mSecondary && mPrimary != mHighlight && mSecondary != mHighlight
    }

    /** The buffer invariant: well-formed storage, a non-negative preferred gap, three
        distinct selections, and every active selection inside the text. */
    ghost predicate Valid()
      reads this, mBuf, mPrimary, mSecondary, mHighlight
    {
      StorageOk() && mPreferredGapSize >= 0 && SelectionsDistinct() &&
      AllInBounds(Selections(), mLength)
    }

    /** The settings no text edit touches. */
    ghost function Config(): (int, bool, seq<Registration>, seq<Registration>, bool, int)
      reads this
    {
      (mTabDist, mUseTabs, mModifyProcs, mPredeleteProcs, mCanUndo, mPreferredGapSize)
    }

    /** The state of the three selections. */
    ghost function Selections(): (SelState, SelState, SelState)
      reads mPrimary, mSecondary, mHighlight
    {
      (mPrimary.State(), mSecondary.State(), mHighlight.State())
    }

    /** A new, empty buffer whose gap, the whole block, is `preferredGapSize` bytes;
        tabs every 8 columns, no selections, no callbacks, undo on. `requestedSize`
        only reserves room in the source and does not change the layout. */
    constructor (requestedSize: int := 0, preferredGapSize: int := 1024)
      requires 0 <= preferredGapSize
      ensures Valid() && fresh(mBuf) && fresh(mPrimary) && fresh(mSecondary) && fresh(mHighlight)
      ensures Text() == [] && mGapStart == 0 && mGapEnd == preferredGapSize
      ensures Config() == (8, true, [], [], true, preferredGapSize) && mCursorPosHint == 0
      ensures Selections() == (SelState(false, false, 0, 0, 0, 0), SelState(false, false, 0, 0, 0, 0),
                               SelState(false, false, 0, 0, 0, 0))
    {
      mLength := 0;
      mPreferredGapSize := preferredGapSize;
      mBuf := new char[preferredGapSize];
      mGapStart := 0;
      mGapEnd := preferredGapSize;
      mTabDist := 8;
      mUseTabs := true;
      mPrimary := new Selection();
      mSecondary := new Selection();
      mHighlight := new Selection();
      mModifyProcs := [];
      mPredeleteProcs := [];
      mCursorPosHint := 0;
      mCanUndo := true;
    }

    /** The number of bytes of text. */
    function Length(): (r: int)
      reads this, mBuf
      requires StorageOk()
      ensures r == |Text()|
    {
      mLength
    }

    /** The storage index of text offset `pos`; an offset inside the text never
        addresses a gap byte. */
    function Address(pos: int): (r: int)
      reads this, mBuf
      requires StorageOk() && 0 <= pos <= mLength
      ensures 0 <= r <= mBuf.Length
      ensures pos < mLength ==> r < mGapStart || mGapEnd <= r < mBuf.Length
      ensures pos < mLength ==> mBuf[r] == Text()[pos]
    {
      if pos < mLength then PhysicalIsOutsideGap(mBuf[..], mGapStart, mGapEnd, pos); Physical(mGapStart, mGapEnd, pos)
      else Physical(mGapStart, mGapEnd, pos)
    }

    /** The byte at `pos`, or NUL outside the text. */
    function Character(pos: int): (r: char)
      reads this, mBuf
      requires StorageOk()
      ensures 0 <= pos < |Text()| ==> r == Text()[pos]
      ensures !(0 <= pos < |Text()|) ==> r == 0 as char
    {
      if 0 <= pos < mLength then mBuf[Address(pos)] else 0 as char
    }

    /** A copy of the whole text. */
    method CopyText() returns (r: string)
      requires StorageOk()
      ensures r == Text()
    {
      r := mBuf[..mGapStart] + mBuf[mGapEnd..];
      assert mBuf[..][..mGapStart] == mBuf[..mGapStart];
      assert mBuf[..][mGapEnd..] == mBuf[mGapEnd..];
    }

    /** A copy of the text between two offsets given in either order. A start outside
        the text gives the empty string; an end past the text is cut to it. */
    method TextRange(start: int, end: int) returns (r: string)
      requires StorageOk()
      requires 0 <= start <= mLength ==> 0 <= end
      ensures !(0 <= start <= |Text()|) ==> r == []
      ensures 0 <= start <= |Text()| ==>
        var lo := if end < start then end else start;
        var hi := if end < start then start else end;
        r == Text()[lo..if hi > |Text()| then |Text()| else hi]
    {
      if start < 0 || start > mLength {
        return [];
      }
      var s, e := start, end;
      if e < s {
        s, e := e, s;
      }
      if e > mLength {
        e := mLength;
      }
      LogicalSlice(mBuf[..], mGapStart, mGapEnd, s, e);
      if e <= mGapStart {
        r := mBuf[s..e];
      } else if s >= mGapStart {
        r := mBuf[s + (mGapEnd - mGapStart)..e + (mGapEnd - mGapStart)];
      } else {
        r := mBuf[s..mGapStart] + mBuf[mGapEnd..mGapEnd + (e - mGapStart)];
      }
    }

    /** Slides the gap so that it starts at `pos`, keeping its size and the text. */
    method MoveGap(pos: int)
      requires StorageOk() && 0 <= pos <= mLength
      modifies this`mGapStart, this`mGapEnd, mBuf
      ensures StorageOk() && Text() == old(Text())
      ensures mGapStart == pos && mGapEnd - mGapStart == old(mGapEnd - mGapStart)
    {
      var gapLen := mGapEnd - mGapStart;
      SlideGap(mBuf, mGapStart, mGapEnd, pos);
      ghost var moved := mBuf[..];
      mGapEnd := pos + gapLen;
      mGapStart := pos;
      assert mBuf[..] == moved;
    }
  
    /** Replaces the block by a fresh one with the same text and a gap of `newGapLen`
        bytes starting at text offset `newGapStart`. */
    method ReallocateWithGap(newGapStart: int, newGapLen: int)
      requires StorageOk() && 0 <= newGapStart <= mLength && 0 <= newGapLen
      modifies this`mBuf, this`mGapStart, this`mGapEnd
      ensures StorageOk() && Text() == old(Text()) && fresh(mBuf)
      ensures mGapStart == newGapStart && mGapEnd == newGapStart + newGapLen
    {
      var newBuf := Regap(mBuf, mGapStart, mGapEnd, newGapStart, newGapLen);
      mBuf := newBuf;
      mGapStart := newGapStart;
      mGapEnd := newGapStart + newGapLen;
    }

    /** Adjusts all three selections after an edit at `pos` replacing `nDeleted`
        bytes by `nInserted` bytes. */
    method UpdateSelections(pos: int, nDeleted: int, nInserted: int)
      requires SelectionsDistinct()
      modifies mPrimary, mSecondary, mHighlight
      ensures Selections() == UpdatedAll(old(Selections()), pos, nDeleted, nInserted)
    {
      mPrimary.Update(pos, nDeleted, nInserted);
      mSecondary.Update(pos, nDeleted, nInserted);
      mHighlight.Update(pos, nDeleted, nInserted);
    }

    /** Prepares the storage for inserting `n` bytes at `pos`: reallocates with a gap of
        `n` plus the preferred size there when the gap is too small, and otherwise
        slides the gap there if it is elsewhere. */
    method OpenGap(pos: int, n: int)
      requires StorageOk() && 0 <= pos <= mLength && 0 <= n && 0 <= mPreferredGapSize
      modifies this`mBuf, this`mGapStart, this`mGapEnd, mBuf
      ensures StorageOk() && Text() == old(Text()) && mGapStart == pos && n <= mGapEnd - mGapStart
      ensures mBuf == old(mBuf) || fresh(mBuf)
    {
      if n > mGapEnd - mGapStart {
        ReallocateWithGap(pos, n + mPreferredGapSize);
      } else if pos != mGapStart {
        MoveGap(pos);
      }
    }

    /** The storage half of an insertion: opens the gap at `pos` and fills it with
        `text`. */
    method InsertBytes(pos: int, text: string)
      requires StorageOk() && 0 <= pos <= mLength && 0 <= mPreferredGapSize
      modifies this`mBuf, this`mGapStart, this`mGapEnd, this`mLength, mBuf
      ensures StorageOk() && mLength == old(mLength) + |text| && mGapStart == pos + |text|
      ensures Text() == old(Text())[..pos] + text + old(Text())[pos..]
    {
      ghost var t := Text();
      OpenGap(pos, |text|);
      FillGap(mBuf, mGapStart, mGapEnd, text);
      ghost var filled := mBuf[..];
      assert Logical(filled, pos + |text|, mGapEnd) == t[..pos] + text + t[pos..];
      mGapStart := mGapStart + |text|;
      mLength := mLength + |text|;
      assert mBuf[..] == filled;
    }

    /** Inserts `text` at `pos` without notifying anyone and moves the selections
        past it. Returns the number of bytes inserted; an empty text changes nothing. */
    method Insert_(pos: int, text: string) returns (n: int)
      requires Valid() && 0 <= pos <= mLength
      modifies this`mBuf, this`mGapStart, this`mGapEnd, this`mLength, mBuf, mPrimary, mSecondary, mHighlight
      ensures Valid() && n == |text| && mLength == old(mLength) + n
      ensures Text() == old(Text())[..pos] + text + old(Text())[pos..]
      ensures text != [] ==> mGapStart == pos + n
      ensures text != [] ==> Selections() == UpdatedAll(old(Selections()), pos, 0, n)
      ensures text == [] ==> mBuf == old(mBuf) && mGapStart == old(mGapStart) && mGapEnd == old(mGapEnd)
      ensures text == [] ==> Selections() == old(Selections())
    {
      if |text| == 0 {
        return 0;
      }
      InsertBytes(pos, text);
      UpdatedAllKeepsInBounds(Selections(), old(mLength), pos, 0, |text|);
      UpdateSelections(pos, 0, |text|);
      n := |text|;
    }

    /** Moves the gap, if needed, so that it touches the range [start, end): to
        `start` when the gap lies before the range, to `end` when it lies after it. */
    method MoveGapToRange(start: int, end: int)
      requires StorageOk() && 0 <= start <= end <= mLength
      modifies this`mGapStart, this`mGapEnd, mBuf
      ensures StorageOk() && Text() == old(Text())
      ensures start <= mGapStart <= end && mGapEnd - mGapStart == old(mGapEnd - mGapStart)
    {
      if start > mGapStart {
        MoveGap(start);
      } else if end < mGapStart {
        MoveGap(end);
      }
    }

    /** The storage half of a removal: moves the gap next to [start, end) and widens
        it over the range. */
    method RemoveBytes(start: int, end: int)
      requires StorageOk() && 0 <= start <= end <= mLength
      modifies this`mGapStart, this`mGapEnd, this`mLength, mBuf
      ensures StorageOk() && Text() == old(Text())[..start] + old(Text())[end..]
      ensures mGapStart == start && mGapEnd - mGapStart == old(mGapEnd - mGapStart) + (end - start)
    {
      MoveGapToRange(start, end);
      WidenGapRemoves(mBuf[..], mGapStart, mGapEnd, start, end);
      mGapEnd := mGapEnd + (end - mGapStart);
      mGapStart := start;
      mLength := mLength - (end - start);
    }

    /** Removes the bytes [start, end) without notifying anyone and pulls the
        selections in over the hole. */
    method Remove_(start: int, end: int)
      requires Valid() && 0 <= start <= end <= mLength
      modifies this`mGapStart, this`mGapEnd, this`mLength, mBuf, mPrimary, mSecondary, mHighlight
      ensures Valid() && Text() == old(Text())[..start] + old(Text())[end..]
      ensures mGapStart == start && mGapEnd - mGapStart == old(mGapEnd - mGapStart) + (end - start)
      ensures Selections() == UpdatedAll(old(Selections()), start, end - start, 0)
    {
      RemoveBytes(start, end);
      UpdatedAllKeepsInBounds(Selections(), old(mLength), start, end - start, 0);
      UpdateSelections(start, end - start, 0);
    }

    /** Inserts `text` at `pos`, clamped into the text. A non-empty insertion tells the
        pre-delete callbacks that nothing is deleted, leaves the cursor hint after the
        new text and tells the modify callbacks what was inserted; an empty one does
        nothing at all. */
    method Insert(pos: int, text: string) returns (notices: seq<Notice>)
      requires Valid()
      modifies this`mBuf, this`mGapStart, this`mGapEnd, this`mLength, this`mCursorPosHint, mBuf
      modifies mPrimary, mSecondary, mHighlight
      ensures Valid()
      ensures var p := Clamp(pos, |old(Text())|); Text() == old(Text())[..p] + text + old(Text())[p..]
      ensures text == [] ==>
        notices == [] && Selections() == old(Selections()) && mCursorPosHint == old(mCursorPosHint)
      ensures text != [] ==>
        var p := Clamp(pos, |old(Text())|);
        notices == [Predelete(p, 0), Modified(p, |text|, 0, 0, [])] && mCursorPosHint == p + |text| &&
        Selections() == UpdatedAll(old(Selections()), p, 0, |text|)
    {
      if text == [] {
        return [];
      }
      var p := Clamp(pos, mLength);
      var n := Insert_(p, text);
      mCursorPosHint := p + n;
      notices := [Predelete(p, 0), Modified(p, n, 0, 0, [])];
    }

    /** Appends `text` at the end of the buffer. */
    method Append(text: string) returns (notices: seq<Notice>)
      requires Valid()
      modifies this`mBuf, this`mGapStart, this`mGapEnd, this`mLength, this`mCursorPosHint, mBuf
      modifies mPrimary, mSecondary, mHighlight
      ensures Valid() && Text() == old(Text()) + text
      ensures text != [] ==> notices == [Predelete(|old(Text())|, 0), Modified(|old(Text())|, |text|, 0, 0, [])]
      ensures text == [] ==> notices == []
    {
      notices := Insert(mLength, text);
    }

    /** Deletes the bytes between two offsets given in either order, each clamped into
        the text. An empty range does nothing; otherwise the pre-delete callbacks hear
        of the range first, the cursor hint moves to its start and the modify callbacks
        receive the deleted text. */
    method Remove(start: int, end: int) returns (notices: seq<Notice>)
      requires Valid()
      modifies this`mGapStart, this`mGapEnd, this`mLength, this`mCursorPosHint, mBuf
      modifies mPrimary, mSecondary, mHighlight
      ensures Valid()
      ensures var lo := Clamp(if end < start then end else start, |old(Text())|);
        var hi := Clamp(if end < start then start else end, |old(Text())|);
        Text() == old(Text())[..lo] + old(Text())[hi..]
      ensures var lo := Clamp(if end < start then end else start, |old(Text())|);
        var hi := Clamp(if end < start then start else end, |old(Text())|);
        lo == hi ==> notices == [] && Selections() == old(Selections()) && mCursorPosHint == old(mCursorPosHint)
      ensures var lo := Clamp(if end < start then end else start, |old(Text())|);
        var hi := Clamp(if end < start then start else end, |old(Text())|);
        lo < hi ==>
          notices == [Predelete(lo, hi - lo), Modified(lo, 0, hi - lo, 0, old(Text())[lo..hi])] &&
          mCursorPosHint == lo && Selections() == UpdatedAll(old(Selections()), lo, hi - lo, 0)
    {
      var s, e := start, end;
      if s > e {
        s, e := e, s;
      }
      s := Clamp(s, mLength);
      e := Clamp(e, mLength);
      if s == e {
        return [];
      }
      var deleted := TextRange(s, e);
      Remove_(s, e);
      mCursorPosHint := s;
      notices := [Predelete(s, e - s), Modified(s, 0, e - s, 0, deleted)];
    }

    /** Replaces the bytes [start, end), with `start` raised to 0 and `end` cut to the
        text, by `text`. The callbacks hear of the deletion and the insertion together,
        and the cursor hint goes after the new text. */
    method Replace(start: int, end: int, text: string) returns (notices: seq<Notice>)
      requires Valid()
      requires start <= end && start <= mLength && 0 <= end
      modifies this`mBuf, this`mGapStart, this`mGapEnd, this`mLength, this`mCursorPosHint, mBuf
      modifies mPrimary, mSecondary, mHighlight
      ensures Valid()
      ensures var s := if start < 0 then 0 else start;
        var e := if end > |old(Text())| then |old(Text())| else end;
        Text() == old(Text())[..s] + text + old(Text())[e..] && mCursorPosHint == s + |text| &&
        notices == [Predelete(s, e - s), Modified(s, |text|, e - s, 0, old(Text())[s..e])]
      ensures var s := if start < 0 then 0 else start;
        var e := if end > |old(Text())| then |old(Text())| else end;
        Selections() == ReplacedAll(old(Selections()), s, e, |text|)
    {
      var s := if start < 0 then 0 else start;
      var e := if end > mLength then mLength else end;
      var deleted := TextRange(s, e);
      ReplaceRange(s, e, text);
      mCursorPosHint := s + |text|;
      notices := [Predelete(s, e - s), Modified(s, |text|, e - s, 0, deleted)];
    }

    /** The edit behind Replace, on a range already inside the text. */
    method ReplaceRange(s: int, e: int, text: string)
      requires Valid() && 0 <= s <= e <= mLength
      modifies this`mBuf, this`mGapStart, this`mGapEnd, this`mLength, mBuf
      modifies mPrimary, mSecondary, mHighlight
      ensures Valid() && Text() == old(Text())[..s] + text + old(Text())[e..]
      ensures Selections() == ReplacedAll(old(Selections()), s, e, |text|)
    {
      ghost var t := Text();
      Remove_(s, e);
      ghost var cut := Text();
      assert cut[..s] == t[..s] && cut[s..] == t[e..];
      var n := Insert_(s, text);
    }

    /** Replaces the whole text by `t` in a fresh block whose gap, of the preferred
        size, follows the text. Every selection is adjusted as for deleting the old
        text; the callbacks hear of the whole old text going and `t` coming in. */
    method SetText(t: string) returns (notices: seq<Notice>)
      requires Valid()
      modifies this`mBuf, this`mGapStart, this`mGapEnd, this`mLength, mPrimary, mSecondary, mHighlight
      ensures Valid() && Text() == t && fresh(mBuf)
      ensures mGapStart == |t| && mGapEnd == |t| + mPreferredGapSize
      ensures Selections() == UpdatedAll(old(Selections()), 0, |old(Text())|, 0)
      ensures notices == [Predelete(0, |old(Text())|), Modified(0, |t|, |old(Text())|, 0, old(Text()))]
    {
      var deleted := CopyText();
      var deletedLength := mLength;
      var b := NewBlock(t, mPreferredGapSize);
      mBuf := b;
      mLength := |t|;
      mGapStart := |t|;
      mGapEnd := |t| + mPreferredGapSize;
      UpdatedAllKeepsInBounds(Selections(), deletedLength, 0, deletedLength, 0);
      UpdateSelections(0, deletedLength, 0);
      notices := [Predelete(0, deletedLength), Modified(0, |t|, deletedLength, 0, deleted)];
    }

    /** Copies the bytes [fromStart, fromEnd) of `fromBuf`, which may be this buffer,
        to offset `toPos`: the gap is opened there (reallocated when too small), the
        bytes are written into it and the selections move past them. No callback is
        called and the cursor hint is left alone. */
    method Copy(fromBuf: TextBuffer, fromStart: int, fromEnd: int, toPos: int)
      requires Valid() && fromBuf.StorageOk()
      requires 0 <= fromStart <= fromEnd <= fromBuf.mLength && 0 <= toPos <= mLength
      modifies this`mBuf, this`mGapStart, this`mGapEnd, this`mLength, mBuf, mPrimary, mSecondary, mHighlight
      ensures Valid() && mGapStart == toPos + (fromEnd - fromStart)
      ensures Text() == old(Text())[..toPos] + old(fromBuf.Text())[fromStart..fromEnd] + old(Text())[toPos..]
      ensures Selections() == UpdatedAll(old(Selections()), toPos, 0, fromEnd - fromStart)
    {
      var copied := fromBuf.TextRange(fromStart, fromEnd);
      ghost var t := Text();
      InsertBytes(toPos, copied);
      UpdatedAllKeepsInBounds(Selections(), old(mLength), toPos, 0, |copied|);
      UpdateSelections(toPos, 0, |copied|);
    }

    /** Lets the undo machinery know whether changes can be undone. */
    method CanUndo(flag: bool := true)
      modifies this`mCanUndo
      ensures mCanUndo == flag
    {
      mCanUndo := flag;
    }

    /** Changes the tab distance. The callbacks hear of the whole text being
        deleted and inserted again so that every display redraws it. */
    method SetTabDistance(tabDist: int) returns (notices: seq<Notice>)
      requires Valid()
      modifies this`mTabDist
      ensures Valid() && mTabDist == tabDist
      ensures notices == [Predelete(0, |Text()|), Modified(0, |Text()|, |Text()|, 0, Text())]
    {
      var deleted := CopyText();
      mTabDist := tabDist;
      notices := [Predelete(0, mLength), Modified(0, mLength, mLength, 0, deleted)];
    }

    /** The tab distance. */
    function TabDistance(): (r: int)
      reads this
      ensures r == mTabDist
    {
      mTabDist
    }

    /** `sel` is one of the buffer's three selections. */
    ghost predicate Owns(sel: Selection)
      reads this
    {
      sel == mPrimary || sel == mSecondary || sel == mHighlight
    }

    /** Sets `sel` to the contiguous range between two offsets in either order; the
        selection is active only when the range is not empty. */
    method SelectIn(sel: Selection, start: int, end: int)
      requires Valid() && Owns(sel)
      requires start != end ==> 0 <= start <= mLength && 0 <= end <= mLength
      modifies sel
      ensures Valid()
      ensures sel.mSelected == (start != end) && !sel.mRectangular
      ensures sel.mStart == (if start <= end then start else end) && sel.mEnd == (if start <= end then end else start)
      ensures sel.mRectStart == old(sel.mRectStart) && sel.mRectEnd == old(sel.mRectEnd)
    {
      sel.Set(start, end);
    }

    /** Sets `sel` to the columns [rectStart, rectEnd) of the lines spanned by
        [start, end); it is active only when the column range is not empty. */
    method SelectRectangularIn(sel: Selection, start: int, end: int, rectStart: int, rectEnd: int)
      requires Valid() && Owns(sel)
      requires rectStart < rectEnd ==> 0 <= start <= end <= mLength
      modifies sel
      ensures Valid() && sel.State() == SelState(rectStart < rectEnd, true, start, end, rectStart, rectEnd)
    {
      sel.SetRectangular(start, end, rectStart, rectEnd);
    }

    /** Deactivates `sel`, keeping its ranges. */
    method UnselectIn(sel: Selection)
      requires Valid() && Owns(sel)
      modifies sel
      ensures Valid() && sel.State() == old(sel.State()).(selected := false)
    {
      sel.SetSelected(false);
    }

    /** The text a contiguous selection `sel` covers, or the empty string when it is
        inactive. */
    method SelectionText_(sel: Selection) returns (r: string)
      requires Valid() && Owns(sel) && !(sel.mSelected && sel.mRectangular)
      ensures !sel.mSelected ==> r == []
      ensures sel.mSelected ==> r == Text()[sel.mStart..sel.mEnd]
    {
      var p := sel.Position();
      if !p.0 {
        return [];
      }
      r := TextRange(p.1, p.2);
    }

    /** Deletes the text a contiguous active selection covers, as `Remove` does, which
        in turn unselects it; nothing happens when `sel` is inactive. */
    method RemoveSelection_(sel: Selection) returns (notices: seq<Notice>)
      requires Valid() && Owns(sel) && !(sel.mSelected && sel.mRectangular)
      modifies this`mGapStart, this`mGapEnd, this`mLength, this`mCursorPosHint, mBuf
      modifies mPrimary, mSecondary, mHighlight
      ensures Valid()
      ensures !old(sel.mSelected) ==>
        notices == [] && Text() == old(Text()) && Selections() == old(Selections()) &&
        mCursorPosHint == old(mCursorPosHint)
      ensures old(sel.mSelected) ==>
        var s, e := old(sel.mStart), old(sel.mEnd);
        Text() == old(Text())[..s] + old(Text())[e..] &&
        (s == e ==>
           notices == [] && Selections() == old(Selections()) && mCursorPosHint == old(mCursorPosHint)) &&
        (s < e ==>
           notices == [Predelete(s, e - s), Modified(s, 0, e - s, 0, old(Text())[s..e])] &&
           mCursorPosHint == s && Selections() == UpdatedAll(old(Selections()), s, e - s, 0))
    {
      var p := sel.Position();
      if !p.0 {
        return [];
      }
      notices := Remove(p.1, p.2);
    }

    /** Replaces the text a contiguous active selection covers by `text`, as `Replace`
        does, and leaves the selection inactive; nothing happens when `sel` is
        inactive. */
    method ReplaceSelection_(sel: Selection, text: string) returns (notices: seq<Notice>)
      requires Valid() && Owns(sel) && !(sel.mSelected && sel.mRectangular)
      modifies this`mBuf, this`mGapStart, this`mGapEnd, this`mLength, this`mCursorPosHint, mBuf
      modifies mPrimary, mSecondary, mHighlight
      ensures Valid()
      ensures !old(sel.mSelected) ==>
        notices == [] && Text() == old(Text()) && Selections() == old(Selections()) &&
        mCursorPosHint == old(mCursorPosHint)
      ensures old(sel.mSelected) ==>
        var s, e := old(sel.mStart), old(sel.mEnd);
        Text() == old(Text())[..s] + text + old(Text())[e..] && mCursorPosHint == s + |text| &&
        notices == [Predelete(s, e - s), Modified(s, |text|, e - s, 0, old(Text())[s..e])]
      ensures old(sel.mSelected) ==>
        var upd := ReplacedAll(old(Selections()), old(sel.mStart), old(sel.mEnd), |text|);
        mPrimary.State() == (if sel == mPrimary then upd.0.(selected := false) else upd.0) &&
        mSecondary.State() == (if sel == mSecondary then upd.1.(selected := false) else upd.1) &&
        mHighlight.State() == (if sel == mHighlight then upd.2.(selected := false) else upd.2)
    {
      var p := sel.Position();
      if !p.0 {
        return [];
      }
      notices := Replace(p.1, p.2, text);
      sel.SetSelected(false);
    }

    /** Sets the primary selection to the range between two offsets in either order. */
    method Select(start: int, end: int)
      requires Valid() && (start != end ==> 0 <= start <= mLength && 0 <= end <= mLength)
      modifies mPrimary
      ensures Valid() && mPrimary.mSelected == (start != end) && !mPrimary.mRectangular
      ensures mPrimary.mStart == (if start <= end then start else end) && mPrimary.mEnd == (if start <= end then end else start)
    {
      SelectIn(mPrimary, start, end);
    }

    /** Whether the primary selection is active. */
    function Selected(): (r: bool)
      reads mPrimary
      ensures r == mPrimary.State().selected
    {
      mPrimary.mSelected
    }

    /** Deactivates the primary selection. */
    method Unselect()
      requires Valid()
      modifies mPrimary
      ensures Valid() && mPrimary.State() == old(mPrimary.State()).(selected := false)
    {
      UnselectIn(mPrimary);
    }

    /** Sets the primary selection to a rectangle of columns. */
    method SelectRectangular(start: int, end: int, rectStart: int, rectEnd: int)
      requires Valid() && (rectStart < rectEnd ==> 0 <= start <= end <= mLength)
      modifies mPrimary
      ensures Valid() && mPrimary.State() == SelState(rectStart < rectEnd, true, start, end, rectStart, rectEnd)
    {
      SelectRectangularIn(mPrimary, start, end, rectStart, rectEnd);
    }

    /** Whether the primary selection is active and, if so, its byte range, which lies
        inside the text. */
    function SelectionPosition(): (r: (bool, int, int))
      reads this, mBuf, mPrimary, mSecondary, mHighlight
      requires Valid()
      ensures r.0 == mPrimary.mSelected
      ensures r.0 ==> r.1 == mPrimary.mStart && r.2 == mPrimary.mEnd && 0 <= r.1 <= r.2 <= |Text()|
    {
      mPrimary.Position()
    }

    /** The primary selection's range, rectangular flag and, for a rectangular one, its
        columns. */
    function RectSelectionPosition(): (r: (bool, int, int, bool, int, int))
      reads this, mBuf, mPrimary, mSecondary, mHighlight
      requires Valid()
      ensures r.0 == mPrimary.mSelected
      ensures r.0 ==> r.1 == mPrimary.mStart && r.2 == mPrimary.mEnd && r.3 == mPrimary.mRectangular
      ensures r.0 && r.3 ==> r.4 == mPrimary.mRectStart && r.5 == mPrimary.mRectEnd
    {
      mPrimary.RectPosition()
    }

    /** The text the primary selection covers, or the empty string. */
    method SelectionText() returns (r: string)
      requires Valid() && !(mPrimary.mSelected && mPrimary.mRectangular)
      ensures !mPrimary.mSelected ==> r == []
      ensures mPrimary.mSelected ==> r == Text()[mPrimary.mStart..mPrimary.mEnd]
    {
      r := SelectionText_(mPrimary);
    }

    /** Deletes the text of the primary selection when it is active. */
    method RemoveSelection() returns (notices: seq<Notice>)
      requires Valid() && !(mPrimary.mSelected && mPrimary.mRectangular)
      modifies this`mGapStart, this`mGapEnd, this`mLength, this`mCursorPosHint, mBuf
      modifies mPrimary, mSecondary, mHighlight
      ensures Valid()
      ensures !old(mPrimary.mSelected) ==>
        notices == [] && Text() == old(Text()) && Selections() == old(Selections()) &&
        mCursorPosHint == old(mCursorPosHint)
      ensures old(mPrimary.mSelected) ==>
        var s, e := old(mPrimary.mStart), old(mPrimary.mEnd);
        Text() == old(Text())[..s] + old(Text())[e..] &&
        (s == e ==>
           notices == [] && Selections() == old(Selections()) && mCursorPosHint == old(mCursorPosHint)) &&
        (s < e ==>
           notices == [Predelete(s, e - s), Modified(s, 0, e - s, 0, old(Text())[s..e])] &&
           mCursorPosHint == s && Selections() == UpdatedAll(old(Selections()), s, e - s, 0))
    {
      notices := RemoveSelection_(mPrimary);
    }

    /** Replaces the text of the primary selection by `text` when it is active, and
        deactivates it. */
    method ReplaceSelection(text: string) returns (notices: seq<Notice>)
      requires Valid() && !(mPrimary.mSelected && mPrimary.mRectangular)
      modifies this`mBuf, this`mGapStart, this`mGapEnd, this`mLength, this`mCursorPosHint, mBuf
      modifies mPrimary, mSecondary, mHighlight
      ensures Valid()
      ensures !old(mPrimary.mSelected) ==>
        notices == [] && Text() == old(Text()) && Selections() == old(Selections()) &&
        mCursorPosHint == old(mCursorPosHint)
      ensures old(mPrimary.mSelected) ==>
        var s, e := old(mPrimary.mStart), old(mPrimary.mEnd);
        Text() == old(Text())[..s] + text + old(Text())[e..] && mCursorPosHint == s + |text| &&
        notices == [Predelete(s, e - s), Modified(s, |text|, e - s, 0, old(Text())[s..e])]
      ensures old(mPrimary.mSelected) ==>
        var upd := ReplacedAll(old(Selections()), old(mPrimary.mStart), old(mPrimary.mEnd), |text|);
        mPrimary.State() == upd.0.(selected := false) &&
        mSecondary.State() == upd.1 &&
        mHighlight.State() == upd.2
    {
      notices := ReplaceSelection_(mPrimary, text);
    }

    /** Sets the secondary selection to the range between two offsets in either order. */
    method SecondarySelect(start: int, end: int)
      requires Valid() && (start != end ==> 0 <= start <= mLength && 0 <= end <= mLength)
      modifies mSecondary
      ensures Valid() && mSecondary.mSelected == (start != end) && !mSecondary.mRectangular
      ensures mSecondary.mStart == (if start <= end then start else end) && mSecondary.mEnd == (if start <= end then end else start)
    {
      SelectIn(mSecondary, start, end);
    }

    /** Whether the secondary selection is active. */
    function SecondarySelected(): (r: bool)
      reads mSecondary
      ensures r == mSecondary.State().selected
    {
      mSecondary.mSelected
    }

    /** Deactivates the secondary selection. */
    method SecondaryUnselect()
      requires Valid()
      modifies mSecondary
      ensures Valid() && mSecondary.State() == old(mSecondary.State()).(selected := false)
    {
      UnselectIn(mSecondary);
    }

    /** Sets the secondary selection to a rectangle of columns. */
    method SecondarySelectRectangular(start: int, end: int, rectStart: int, rectEnd: int)
      requires Valid() && (rectStart < rectEnd ==> 0 <= start <= end <= mLength)
      modifies mSecondary
      ensures Valid() && mSecondary.State() == SelState(rectStart < rectEnd, true, start, end, rectStart, rectEnd)
    {
      SelectRectangularIn(mSecondary, start, end, rectStart, rectEnd);
    }

    /** Whether the secondary selection is active and, if so, its byte range, which lies
        inside the text. */
    function SecondarySelectionPosition(): (r: (bool, int, int))
      reads this, mBuf, mPrimary, mSecondary, mHighlight
      requires Valid()
      ensures r.0 == mSecondary.mSelected
      ensures r.0 ==> r.1 == mSecondary.mStart && r.2 == mSecondary.mEnd && 0 <= r.1 <= r.2 <= |Text()|
    {
      mSecondary.Position()
    }

    /** The secondary selection's range, rectangular flag and, for a rectangular one, its
        columns. */
    function RectSecondarySelectionPosition(): (r: (bool, int, int, bool, int, int))
      reads this, mBuf, mPrimary, mSecondary, mHighlight
      requires Valid()
      ensures r.0 == mSecondary.mSelected
      ensures r.0 ==> r.1 == mSecondary.mStart && r.2 == mSecondary.mEnd && r.3 == mSecondary.mRectangular
      ensures r.0 && r.3 ==> r.4 == mSecondary.mRectStart && r.5 == mSecondary.mRectEnd
    {
      mSecondary.RectPosition()
    }

    /** The text the secondary selection covers, or the empty string. */
    method SecondarySelectionText() returns (r: string)
      requires Valid() && !(mSecondary.mSelected && mSecondary.mRectangular)
      ensures !mSecondary.mSelected ==> r == []
      ensures mSecondary.mSelected ==> r == Text()[mSecondary.mStart..mSecondary.mEnd]
    {
      r := SelectionText_(mSecondary);
    }

    /** Deletes the text of the secondary selection when it is active. */
    method RemoveSecondarySelection() returns (notices: seq<Notice>)
      requires Valid() && !(mSecondary.mSelected && mSecondary.mRectangular)
      modifies this`mGapStart, this`mGapEnd, this`mLength, this`mCursorPosHint, mBuf
      modifies mPrimary, mSecondary, mHighlight
      ensures Valid()
      ensures !old(mSecondary.mSelected) ==>
        notices == [] && Text() == old(Text()) && Selections() == old(Selections()) &&
        mCursorPosHint == old(mCursorPosHint)
      ensures old(mSecondary.mSelected) ==>
        var s, e := old(mSecondary.mStart), old(mSecondary.mEnd);
        Text() == old(Text())[..s] + old(Text())[e..] &&
        (s == e ==>
           notices == [] && Selections() == old(Selections()) && mCursorPosHint == old(mCursorPosHint)) &&
        (s < e ==>
           notices == [Predelete(s, e - s), Modified(s, 0, e - s, 0, old(Text())[s..e])] &&
           mCursorPosHint == s && Selections() == UpdatedAll(old(Selections()), s, e - s, 0))
    {
      notices := RemoveSelection_(mSecondary);
    }

    /** Replaces the text of the secondary selection by `text` when it is active, and
        deactivates it. */
    method ReplaceSecondarySelection(text: string) returns (notices: seq<Notice>)
      requires Valid() && !(mSecondary.mSelected && mSecondary.mRectangular)
      modifies this`mBuf, this`mGapStart, this`mGapEnd, this`mLength, this`mCursorPosHint, mBuf
      modifies mPrimary, mSecondary, mHighlight
      ensures Valid()
      ensures !old(mSecondary.mSelected) ==>
        notices == [] && Text() == old(Text()) && Selections() == old(Selections()) &&
        mCursorPosHint == old(mCursorPosHint)
      ensures old(mSecondary.mSelected) ==>
        var s, e := old(mSecondary.mStart), old(mSecondary.mEnd);
        Text() == old(Text())[..s] + text + old(Text())[e..] && mCursorPosHint == s + |text| &&
        notices == [Predelete(s, e - s), Modified(s, |text|, e - s, 0, old(Text())[s..e])]
      ensures old(mSecondary.mSelected) ==>
        var upd := ReplacedAll(old(Selections()), old(mSecondary.mStart), old(mSecondary.mEnd), |text|);
        mPrimary.State() == upd.0 &&
        mSecondary.State() == upd.1.(selected := false) &&
        mHighlight.State() == upd.2
    {
      notices := ReplaceSelection_(mSecondary, text);
    }

    /** Sets the highlight selection to the range between two offsets in either order. */
    method Highlight(start: int, end: int)
      requires Valid() && (start != end ==> 0 <= start <= mLength && 0 <= end <= mLength)
      modifies mHighlight
      ensures Valid() && mHighlight.mSelected == (start != end) && !mHighlight.mRectangular
      ensures mHighlight.mStart == (if start <= end then start else end) && mHighlight.mEnd == (if start <= end then end else start)
    {
      SelectIn(mHighlight, start, end);
    }

    /** Whether the highlight selection is active. */
    function Highlighted(): (r: bool)
      reads mHighlight
      ensures r == mHighlight.State().selected
    {
      mHighlight.mSelected
    }

    /** Deactivates the highlight selection. */
    method Unhighlight()
      requires Valid()
      modifies mHighlight
      ensures Valid() && mHighlight.State() == old(mHighlight.State()).(selected := false)
    {
      UnselectIn(mHighlight);
    }

    /** Sets the highlight selection to a rectangle of columns. */
    method HighlightRectangular(start: int, end: int, rectStart: int, rectEnd: int)
      requires Valid() && (rectStart < rectEnd ==> 0 <= start <= end <= mLength)
      modifies mHighlight
      ensures Valid() && mHighlight.State() == SelState(rectStart < rectEnd, true, start, end, rectStart, rectEnd)
    {
      SelectRectangularIn(mHighlight, start, end, rectStart, rectEnd);
    }

    /** Whether the highlight selection is active and, if so, its byte range, which lies
        inside the text. */
    function HighlightPosition(): (r: (bool, int, int))
      reads this, mBuf, mPrimary, mSecondary, mHighlight
      requires Valid()
      ensures r.0 == mHighlight.mSelected
      ensures r.0 ==> r.1 == mHighlight.mStart && r.2 == mHighlight.mEnd && 0 <= r.1 <= r.2 <= |Text()|
    {
      mHighlight.Position()
    }

    /** The highlight selection's range, rectangular flag and, for a rectangular one, its
        columns. */
    function RectHighlightPosition(): (r: (bool, int, int, bool, int, int))
      reads this, mBuf, mPrimary, mSecondary, mHighlight
      requires Valid()
      ensures r.0 == mHighlight.mSelected
      ensures r.0 ==> r.1 == mHighlight.mStart && r.2 == mHighlight.mEnd && r.3 == mHighlight.mRectangular
      ensures r.0 && r.3 ==> r.4 == mHighlight.mRectStart && r.5 == mHighlight.mRectEnd
    {
      mHighlight.RectPosition()
    }

    /** The text the highlight selection covers, or the empty string. */
    method HighlightText() returns (r: string)
      requires Valid() && !(mHighlight.mSelected && mHighlight.mRectangular)
      ensures !mHighlight.mSelected ==> r == []
      ensures mHighlight.mSelected ==> r == Text()[mHighlight.mStart..mHighlight.mEnd]
    {
      r := SelectionText_(mHighlight);
    }

    /** Registers a modify callback; the newest registration comes first. */
    method AddModifyCallback(proc: nat, arg: nat)
      modifies this`mModifyProcs
      ensures mModifyProcs == Added(old(mModifyProcs), Registration(proc, arg))
    {
      mModifyProcs := [Registration(proc, arg)] + mModifyProcs;
    }

    /** Unregisters the first modify callback registered with this procedure and
        argument. `found` is false (the source reports an error) when there is none,
        and then nothing changes. */
    method RemoveModifyCallback(proc: nat, arg: nat) returns (found: bool)
      modifies this`mModifyProcs
      ensures found == (Registration(proc, arg) in old(mModifyProcs))
      ensures mModifyProcs == RemoveFirst(old(mModifyProcs), Registration(proc, arg))
      ensures found ==> multiset(mModifyProcs) == multiset(old(mModifyProcs)) - multiset{Registration(proc, arg)}
    {
      var r := Registration(proc, arg);
      RemoveFirstSpec(mModifyProcs, r);
      var i := IndexOf(mModifyProcs, r);
      if i < 0 {
        return false;
      }
      RemoveAtFirstMatch(mModifyProcs, r, i);
      mModifyProcs := mModifyProcs[..i] + mModifyProcs[i + 1..];
      found := true;
    }

    /** Registers a pre-delete callback; the newest registration comes first. */
    method AddPredeleteCallback(proc: nat, arg: nat)
      modifies this`mPredeleteProcs
      ensures mPredeleteProcs == Added(old(mPredeleteProcs), Registration(proc, arg))
    {
      mPredeleteProcs := [Registration(proc, arg)] + mPredeleteProcs;
    }

    /** Unregisters the first pre-delete callback registered with this procedure and
        argument; `found` is false, and nothing changes, when there is none. */
    method RemovePredeleteCallback(proc: nat, arg: nat) returns (found: bool)
      modifies this`mPredeleteProcs
      ensures found == (Registration(proc, arg) in old(mPredeleteProcs))
      ensures mPredeleteProcs == RemoveFirst(old(mPredeleteProcs), Registration(proc, arg))
      ensures found ==> multiset(mPredeleteProcs) == multiset(old(mPredeleteProcs)) - multiset{Registration(proc, arg)}
    {
      var r := Registration(proc, arg);
      RemoveFirstSpec(mPredeleteProcs, r);
      var i := IndexOf(mPredeleteProcs, r);
      if i < 0 {
        return false;
      }
      RemoveAtFirstMatch(mPredeleteProcs, r, i);
      mPredeleteProcs := mPredeleteProcs[..i] + mPredeleteProcs[i + 1..];
      found := true;
    }

    /** Searches forward for `searchChar` from `startPos` (raised to 0) inclusive;
        `foundPos` is the match or, when there is none, the length of the text. */
    method FindcharForward(startPos: int, searchChar: char) returns (found: bool, foundPos: int)
      requires StorageOk()
      ensures foundPos == TextScan.FindForward(Text(), Clamp(startPos, |Text()|), [searchChar])
      ensures found == (foundPos < |Text()|)
    {
      ghost var t := Text();
      if startPos >= mLength {
        return false, mLength;
      }
      var pos := if startPos < 0 then 0 else startPos;
      while pos < mLength
        invariant Clamp(startPos, |t|) <= pos <= |t|
        invariant TextScan.FindForward(t, pos, [searchChar]) == TextScan.FindForward(t, Clamp(startPos, |t|), [searchChar])
        decreases mLength - pos
      {
        if Character(pos) == searchChar {
          return true, pos;
        }
        pos := pos + 1;
      }
      return false, mLength;
    }

    /** Searches backward for `searchChar` from the byte before `startPos` (cut to the
        text); `foundPos` is the match or 0 when there is none. */
    method FindcharBackward(startPos: int, searchChar: char) returns (found: bool, foundPos: int)
      requires StorageOk()
      ensures var r := TextScan.FindBackward(Text(), Clamp(startPos, |Text()|), [searchChar]);
        found == (r >= 0) && foundPos == (if r >= 0 then r else 0)
    {
      ghost var t := Text();
      if startPos <= 0 {
        return false, 0;
      }
      var pos := if startPos > mLength then mLength else startPos;
      while pos > 0
        invariant 0 <= pos <= Clamp(startPos, |t|)
        invariant TextScan.FindBackward(t, pos, [searchChar]) == TextScan.FindBackward(t, Clamp(startPos, |t|), [searchChar])
      {
        if Character(pos - 1) == searchChar {
          return true, pos - 1;
        }
        pos := pos - 1;
      }
      return false, 0;
    }

    /** Searches forward from `startPos` for any of `searchChars`; `foundPos` is the
        match or, when there is none, the length of the text. */
    method FindcharsForward(startPos: int, searchChars: string) returns (found: bool, foundPos: int)
      requires StorageOk() && 0 <= startPos
      ensures startPos >= |Text()| ==> !found && foundPos == |Text()|
      ensures startPos < |Text()| ==>
        foundPos == TextScan.FindForward(Text(), startPos, searchChars) && found == (foundPos < |Text()|)
    {
      ghost var t := Text();
      var pos := startPos;
      while pos < mLength
        invariant startPos <= pos
        invariant startPos < |t| ==> pos <= |t|
        invariant startPos < |t| ==>
          TextScan.FindForward(t, pos, searchChars) == TextScan.FindForward(t, startPos, searchChars)
        decreases mLength - pos
      {
        if mBuf[Address(pos)] in searchChars {
          return true, pos;
        }
        pos := pos + 1;
      }
      return false, mLength;
    }

    /** Searches backward from the byte before `startPos` for any of `searchChars`;
        `foundPos` is the match or 0 when there is none. */
    method FindcharsBackward(startPos: int, searchChars: string) returns (found: bool, foundPos: int)
      requires StorageOk() && 0 <= startPos <= mLength
      ensures var r := TextScan.FindBackward(Text(), startPos, searchChars);
        found == (r >= 0) && foundPos == (if r >= 0 then r else 0)
    {
      ghost var t := Text();
      var pos := startPos;
      while pos > 0
        invariant 0 <= pos <= startPos
        invariant TextScan.FindBackward(t, pos, searchChars) == TextScan.FindBackward(t, startPos, searchChars)
      {
        if mBuf[Address(pos - 1)] in searchChars {
          return true, pos - 1;
        }
        pos := pos - 1;
      }
      return false, 0;
    }

    /** The start of the line holding `pos`, with `pos` clamped into the text. */
    method LineStart(pos: int) returns (r: int)
      requires StorageOk()
      ensures r == TextScan.LineStart(Text(), Clamp(pos, |Text()|))
    {
      var found, startPos := FindcharBackward(pos, '\n');
      if !found {
        return 0;
      }
      r := startPos + 1;
    }

    /** The end of the line holding `pos`, with `pos` clamped into the text: the
        newline that ends the line, or the length of the text. */
    method LineEnd(pos: int) returns (r: int)
      requires StorageOk()
      ensures r == TextScan.LineEnd(Text(), Clamp(pos, |Text()|))
    {
      var found, endPos := FindcharForward(pos, '\n');
      if !found {
        endPos := mLength;
      }
      r := endPos;
    }

    /** The whole line holding `pos`, without its newline. */
    method LineText(pos: int) returns (r: string)
      requires StorageOk()
      ensures var p := Clamp(pos, |Text()|);
        r == Text()[TextScan.LineStart(Text(), p)..TextScan.LineEnd(Text(), p)]
      ensures '\n' !in r
    {
      var s := LineStart(pos);
      var e := LineEnd(pos);
      r := TextRange(s, e);
    }

    /** The number of newlines from `startPos` up to, not including, `endPos` or the
        end of the text. */
    method CountLines(startPos: int, endPos: int) returns (r: int)
      requires StorageOk() && 0 <= startPos
      ensures r == TextScan.CountLines(Text(), Clamp(startPos, |Text()|), endPos)
    {
      ghost var t := Text();
      var pos := startPos;
      var lineCount := 0;
      while pos < mLength
        invariant startPos < |t| ==> startPos <= pos <= |t|
        invariant startPos < |t| ==>
          lineCount + TextScan.CountLines(t, pos, endPos) == TextScan.CountLines(t, startPos, endPos)
        invariant startPos >= |t| ==> lineCount == 0
        decreases mLength - pos
      {
        if pos == endPos {
          return lineCount;
        }
        if Character(pos) == '\n' {
          lineCount := lineCount + 1;
        }
        pos := pos + 1;
      }
      r := lineCount;
    }

    /** The start of the line `nLines` lines after the one holding `startPos`, or the
        end of the text when there are fewer lines. */
    method SkipLines(startPos: int, nLines: int) returns (r: int)
      requires StorageOk() && 0 <= startPos && 0 <= nLines
      ensures startPos > |Text()| ==> r == startPos
      ensures startPos <= |Text()| ==> r == TextScan.SkipLines(Text(), startPos, nLines)
    {
      ghost var t := Text();
      if nLines == 0 {
        return startPos;
      }
      var pos := startPos;
      var lineCount := 0;
      while pos < mLength
        invariant startPos <= pos && 0 <= lineCount < nLines
        invariant startPos > |t| ==> pos == startPos
        invariant startPos <= |t| ==> pos <= |t|
        invariant startPos <= |t| ==>
          TextScan.SkipLines(t, pos, nLines - lineCount) == TextScan.SkipLines(t, startPos, nLines)
        decreases mLength - pos
      {
        var c := Character(pos);
        pos := pos + 1;
        if c == '\n' {
          lineCount := lineCount + 1;
          if lineCount == nLines {
            return pos;
          }
        }
      }
      r := pos;
    }

    /** The start of the line `nLines` lines before the one holding `startPos`; zero
        lines back is the start of that line. */
    method RewindLines(startPos: int, nLines: int) returns (r: int)
      requires StorageOk() && 0 <= startPos <= mLength && 0 <= nLines
      ensures r == TextScan.RewindLines(Text(), startPos, nLines)
    {
      ghost var t := Text();
      var pos := startPos;
      var lineCount := 0;
      while pos > 0
        invariant 0 <= pos <= startPos && 0 <= lineCount <= nLines
        invariant TextScan.RewindLines(t, pos, nLines - lineCount) == TextScan.RewindLines(t, startPos, nLines)
      {
        if Character(pos - 1) == '\n' {
          if lineCount >= nLines {
            return pos;
          }
          lineCount := lineCount + 1;
        }
        pos := pos - 1;
      }
      r := 0;
    }

    /** The screen form of the byte at `pos` when it is shown at column `indent`. */
    function ExpandCharacter(pos: int, indent: nat): (r: string)
      reads this, mBuf
      requires StorageOk() && mTabDist > 0
      ensures 1 <= |r| == Display.CharacterWidth(Character(pos), indent, mTabDist)
      ensures mTabDist <= Display.MaxExpCharLen ==> |r| <= Display.MaxExpCharLen
    {
      Display.WidthIsExpansionLength(Character(pos), indent, mTabDist);
      if mTabDist <= Display.MaxExpCharLen then
        Display.ExpansionIsBounded(Character(pos), indent, mTabDist);
        Display.ExpandCharacter(Character(pos), indent, mTabDist)
      else
        Display.ExpandCharacter(Character(pos), indent, mTabDist)
    }

    /** The number of display columns the bytes from `lineStartPos` up to `targetPos`
        take, tabs and control codes expanded; 0 when `targetPos` is not after
        `lineStartPos`. */
    method CountDisplayedCharacters(lineStartPos: int, targetPos: int) returns (r: int)
      requires StorageOk() && mTabDist > 0 && 0 <= lineStartPos <= mLength && targetPos <= mLength
      ensures targetPos <= lineStartPos ==> r == 0
      ensures targetPos > lineStartPos ==> r == Display.Column(Text(), lineStartPos, targetPos, mTabDist)
    {
      ghost var t := Text();
      var pos := lineStartPos;
      var charCount := 0;
      while pos < targetPos
        invariant lineStartPos <= pos <= |t| && (pos == lineStartPos || pos <= targetPos)
        invariant charCount == Display.Column(t, lineStartPos, pos, mTabDist)
      {
        charCount := charCount + Display.CharacterWidth(Character(pos), charCount, mTabDist);
        pos := pos + 1;
      }
      r := charCount;
    }

    /** The offset reached by showing `nChars` display columns from `lineStartPos`,
        stopping early at a newline or the end of the text. */
    method SkipDisplayedCharacters(lineStartPos: int, nChars: int) returns (r: int)
      requires StorageOk() && mTabDist > 0 && 0 <= lineStartPos <= mLength
      ensures r == Display.SkipDisplayedCharacters(Text(), lineStartPos, nChars, mTabDist)
    {
      ghost var t := Text();
      var pos := lineStartPos;
      var charCount: nat := 0;
      while charCount < nChars && pos < mLength
        invariant lineStartPos <= pos <= |t|
        invariant Display.SkipDisplayedFrom(t, pos, charCount, nChars, mTabDist)
          == Display.SkipDisplayedCharacters(t, lineStartPos, nChars, mTabDist)
        decreases mLength - pos
      {
        var c := Character(pos);
        if c == '\n' {
          return pos;
        }
        charCount := charCount + Display.CharacterWidth(c, charCount, mTabDist);
        pos := pos + 1;
      }
      r := pos;
    }

    /** The byte range of the line starting at `lineStartPos` that the display columns
        [rectStart, rectEnd) cover. */
    method RectangularSelectionBoundaries(lineStartPos: int, rectStart: int, rectEnd: int)
      returns (selStart: int, selEnd: int)
      requires StorageOk() && mTabDist > 0 && 0 <= lineStartPos <= mLength
      ensures (selStart, selEnd) == Display.RectangularSelectionBoundaries(Text(), lineStartPos, rectStart, rectEnd, mTabDist)
    {
      ghost var t := Text();
      var pos := lineStartPos;
      var indent: nat := 0;
      while pos < mLength
        invariant lineStartPos <= pos <= |t|
        invariant Display.SelStartFrom(t, pos, indent, rectStart, mTabDist)
          == Display.SelStartFrom(t, lineStartPos, 0, rectStart, mTabDist)
        decreases mLength - pos
      {
        var c := Character(pos);
        if c == '\n' {
          break;
        }
        var width := Display.CharacterWidth(c, indent, mTabDist);
        if indent + width > rectStart {
          if indent != rectStart && c != '\t' {
            pos := pos + 1;
            indent := indent + width;
          }
          break;
        }
        indent := indent + width;
        pos := pos + 1;
      }
      selStart := pos;
      ghost var startIndent := indent;
      while pos < mLength
        invariant selStart <= pos <= |t|
        invariant Display.SelEndFrom(t, pos, indent, rectEnd, mTabDist)
          == Display.SelEndFrom(t, selStart, startIndent, rectEnd, mTabDist)
        decreases mLength - pos
      {
        var c := Character(pos);
        if c == '\n' {
          break;
        }
        var width := Display.CharacterWidth(c, indent, mTabDist);
        indent := indent + width;
        if indent > rectEnd {
          if indent - width != rectEnd && c != '\t' {
            pos := pos + 1;
          }
          break;
        }
        pos := pos + 1;
      }
      selEnd := pos;
    }

    /** The start of the word holding `pos`: the offset after the last non-word byte
        before it. When the byte at `pos` is not a word byte (which includes every
        offset outside the text, where the byte reads as NUL) the scan does not move
        and the result is the offset after it, so at the end of the text the result
        is one past the end. */
    method WordStart(pos: int) returns (r: int)
      requires StorageOk()
      ensures !(0 <= pos < |Text()| && TextScan.IsWordChar(Text()[pos])) ==> r == pos + 1
      ensures 0 <= pos < |Text()| && TextScan.IsWordChar(Text()[pos]) ==>
        0 <= r <= pos && (r == 0 || !TextScan.IsWordChar(Text()[r - 1])) &&
        forall i :: r <= i <= pos ==> TextScan.IsWordChar(Text()[i])
    {
      ghost var t := Text();
      var p := pos;
      while p > 0 && TextScan.IsWordChar(Character(p))
        invariant p <= pos
        invariant p < pos ==> 0 <= p && pos < |t| && forall i :: p < i <= pos ==> TextScan.IsWordChar(t[i])
      {
        p := p - 1;
      }
      if !TextScan.IsWordChar(Character(p)) {
        p := p + 1;
      }
      r := p;
    }

    /** The end of the word holding `pos`: the first offset at or after it that is not
        a word byte, or the end of the text. An offset outside the text is returned
        unchanged. */
    method WordEnd(pos: int) returns (r: int)
      requires StorageOk()
      ensures !(0 <= pos <= |Text()|) ==> r == pos
      ensures 0 <= pos <= |Text()| ==>
        pos <= r <= |Text()| && (r == |Text()| || !TextScan.IsWordChar(Text()[r])) &&
        forall i :: pos <= i < r ==> TextScan.IsWordChar(Text()[i])
    {
      r := pos;
      while r < mLength && TextScan.IsWordChar(Character(r))
        invariant pos <= r
        invariant r > pos ==> 0 <= pos && r <= mLength
        invariant 0 <= pos <= mLength ==> r <= mLength
        invariant forall i :: pos <= i < r ==> 0 <= i < |Text()| && TextScan.IsWordChar(Text()[i])
      {
        r := r + 1;
      }
    }
  }
}
