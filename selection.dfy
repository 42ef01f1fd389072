/** A text selection of the buffer engine: a selected flag, a rectangular flag,
    a byte range [start, end) and, for rectangular selections, a display-column
    range [rectStart, rectEnd). The buffer owns three of them and adjusts each
    after every edit. */
module TextSelection {

  /** The value of a selection's fields at one moment. */
  datatype SelState = SelState(
    selected: bool,
    rectangular: bool,
    start: int,
    end: int,
    rectStart: int,
    rectEnd: int)

  /** A selection that is active lies inside a text of `length` bytes. */
  predicate InBounds(s: SelState, length: int) {
    s.selected ==> 0 <= s.start <= s.end <= length
  }

  /** The text after an edit at `pos` that deletes `nDeleted` bytes and inserts `ins`. */
  function Edited(t: seq<char>, pos: int, nDeleted: int, ins: seq<char>): (r: seq<char>)
    requires 0 <= pos && 0 <= nDeleted && pos + nDeleted <= |t|
    ensures |r| == |t| - nDeleted + |ins|
  {
    t[..pos] + ins + t[pos + nDeleted..]
  }

  /** How a selection is adjusted after `nDeleted` bytes at `pos` were replaced by
      `nInserted` bytes (the NEdit rule): an edit at or after the end leaves it alone,
      an edit wholly before it shifts it, an edit that swallows it unselects it,
      and an edit that starts inside it moves only its end. */
  function Updated(s: SelState, pos: int, nDeleted: int, nInserted: int): (r: SelState)
    ensures !s.selected ==> r == s
    ensures r.selected ==> s.selected
    ensures r.rectangular == s.rectangular && r.rectStart == s.rectStart && r.rectEnd == s.rectEnd
  {
    if !s.selected || pos > s.end then s
    else if pos + nDeleted <= s.start then
      s.(start := s.start + nInserted - nDeleted, end := s.end + nInserted - nDeleted)
    else if pos <= s.start && pos + nDeleted >= s.end then
      s.(start := pos, end := pos, selected := false)
    else if pos <= s.start then
      s.(start := pos, end := nInserted + s.end - nDeleted)
    else if pos < s.end then
      var e := s.end + nInserted - nDeleted;
      s.(end := e, selected := e > s.start)
    else s
  }

  /** An edit at or after the end of a (non-empty) selection does not move it. */
  lemma UpdateAfterSelection(s: SelState, pos: int, nDeleted: int, nInserted: int)
    requires s.start < s.end && pos >= s.end && nDeleted >= 0
    ensures Updated(s, pos, nDeleted, nInserted) == s
  {
  }

  /** An edit that ends at or before the start of a selection shifts both bounds by
      the change in length and keeps the selection active. */
  lemma UpdateBeforeSelection(s: SelState, pos: int, nDeleted: int, nInserted: int)
    requires s.selected && s.start <= s.end && 0 <= nDeleted && pos + nDeleted <= s.start
    ensures var r := Updated(s, pos, nDeleted, nInserted);
      r.selected && r.start == s.start + nInserted - nDeleted && r.end == s.end + nInserted - nDeleted
      && r.rectangular == s.rectangular && r.rectStart == s.rectStart && r.rectEnd == s.rectEnd
  {
  }

  /** A deletion that covers the whole selection (and reaches into it) unselects it,
      collapsing both bounds to the edit position. */
  lemma UpdateSwallowsSelection(s: SelState, pos: int, nDeleted: int, nInserted: int)
    requires s.selected && s.start <= s.end
    requires pos <= s.start && s.start < pos + nDeleted && s.end <= pos + nDeleted
    ensures var r := Updated(s, pos, nDeleted, nInserted);
      !r.selected && r.start == pos && r.end == pos
  {
  }

  /** An active selection stays inside the text through any edit of that text. */
  lemma UpdateKeepsInBounds(s: SelState, length: int, pos: int, nDeleted: int, nInserted: int)
    requires InBounds(s, length)
    requires 0 <= pos && 0 <= nDeleted && 0 <= nInserted && pos + nDeleted <= length
    ensures InBounds(Updated(s, pos, nDeleted, nInserted), length - nDeleted + nInserted)
  {
  }

  /** Deleting the whole text unselects every non-empty selection inside it. */
  lemma DeletingAllUnselects(s: SelState, length: int)
    requires InBounds(s, length) && (s.selected ==> s.start < s.end)
    ensures var r := Updated(s, 0, length, 0); !r.selected && (s.selected ==> r.start == 0 && r.end == 0)
  {
  }

  /** An active selection covers the same characters after an edit made wholly before
      it or at or after its end, and it covers the edited characters when the edit
      falls strictly inside it. */
  lemma UpdateTracksSelectedText(s: SelState, t: seq<char>, pos: int, nDeleted: int, ins: seq<char>)
    requires InBounds(s, |t|) && s.selected
    requires 0 <= pos && 0 <= nDeleted && pos + nDeleted <= |t|
    requires pos + nDeleted <= s.start || pos >= s.end || (s.start < pos && pos + nDeleted <= s.end)
    ensures var r := Updated(s, pos, nDeleted, |ins|);
      var t' := Edited(t, pos, nDeleted, ins);
      InBounds(r, |t'|) &&
      if s.start < pos < s.end then
        r.start == s.start && t'[r.start..r.end] == t[s.start..pos] + ins + t[pos + nDeleted..s.end]
      else
        t'[r.start..r.end] == t[s.start..s.end]
  {
    var r := Updated(s, pos, nDeleted, |ins|);
    var t' := Edited(t, pos, nDeleted, ins);
    var d := |ins| - nDeleted;
    if pos + nDeleted <= s.start && !(s.start < pos < s.end) {
      assert t'[r.start..r.end] == t[s.start..s.end] by {
        assert t'[pos + |ins|..] == t[pos + nDeleted..];
        assert r.start == s.start + d && r.end == s.end + d;
        forall k | 0 <= k < s.end - s.start
          ensures t'[r.start..r.end][k] == t[s.start..s.end][k]
        {
          assert t'[r.start + k] == t'[pos + |ins|..][r.start + k - pos - |ins|];
        }
      }
    } else if pos >= s.end {
      assert r.start == s.start && r.end == s.end;
      assert t'[..pos] == t[..pos];
      assert t'[s.start..s.end] == t'[..pos][s.start..s.end];
    } else {
      assert s.start < pos < s.end;
      assert r.start == s.start && r.end == s.end + d;
      calc {
        t'[r.start..r.end];
        (t[..pos] + ins + t[pos + nDeleted..])[s.start..s.end + d];
        { assert |t[..pos] + ins| == pos + |ins|; }
        t[s.start..pos] + ins + t[pos + nDeleted..s.end];
      }
    }
  }

  /** One text selection, updated in place by the buffer that owns it. */
  class Selection {
    var mSelected: bool
    var mRectangular: bool
    var mStart: int
    var mEnd: int
    var mRectStart: int
    var mRectEnd: int

    /** The current value of all fields. */
    function State(): SelState
      reads this
    {
      SelState(mSelected, mRectangular, mStart, mEnd, mRectStart, mRectEnd)
    }

    /** A selection starts out unselected, contiguous and empty at offset 0. */
    constructor ()
      ensures State() == SelState(false, false, 0, 0, 0, 0)
    {
      mSelected, mRectangular := false, false;
      mStart, mEnd := 0, 0;
      mRectStart, mRectEnd := 0, 0;
    }

    /** Selects the contiguous range between the two offsets, in either order;
        an empty range leaves the selection inactive. */
    method Set(startPos: int, endPos: int)
      modifies this
      ensures mSelected == (startPos != endPos) && !mRectangular
      ensures mStart == if startPos <= endPos then startPos else endPos
      ensures mEnd == if startPos <= endPos then endPos else startPos
      ensures mRectStart == old(mRectStart) && mRectEnd == old(mRectEnd)
    {
      mSelected := startPos != endPos;
      mRectangular := false;
      if startPos <= endPos {
        mStart, mEnd := startPos, endPos;
      } else {
        mStart, mEnd := endPos, startPos;
      }
    }

    /** Selects the columns [rectStart, rectEnd) of the lines spanned by
        [startPos, endPos); an empty column range leaves it inactive. */
    method SetRectangular(startPos: int, endPos: int, rectStart: int, rectEnd: int)
      modifies this
      ensures State() == SelState(rectStart < rectEnd, true, startPos, endPos, rectStart, rectEnd)
    {
      mSelected := rectStart < rectEnd;
      mRectangular := true;
      mStart, mEnd := startPos, endPos;
      mRectStart, mRectEnd := rectStart, rectEnd;
    }

    /** Changes only the selected flag. */
    method SetSelected(b: bool)
      modifies this
      ensures State() == old(State()).(selected := b)
    {
      mSelected := b;
    }

    /** Adjusts the selection after the text changed at `pos`. */
    method Update(pos: int, nDeleted: int, nInserted: int)
      modifies this
      ensures State() == Updated(old(State()), pos, nDeleted, nInserted)
    {
      if !mSelected || pos > mEnd {
        return;
      }
      if pos + nDeleted <= mStart {
        mStart := mStart + nInserted - nDeleted;
        mEnd := mEnd + nInserted - nDeleted;
      } else if pos <= mStart && pos + nDeleted >= mEnd {
        mStart := pos;
        mEnd := pos;
        mSelected := false;
      } else if pos <= mStart && pos + nDeleted < mEnd {
        mStart := pos;
        mEnd := nInserted + mEnd - nDeleted;
      } else if pos < mEnd {
        mEnd := mEnd + nInserted - nDeleted;
        if mEnd <= mStart {
          mSelected := false;
        }
      }
    }

    /** Whether the character at `pos`, on the line starting at `lineStartPos` and
        shown at display column `dispIndex`, is selected: by byte range for a
        contiguous selection, by line range and column range for a rectangular one. */
    function Includes(pos: int, lineStartPos: int, dispIndex: int): (r: bool)
      reads this
      ensures r ==> mSelected
      ensures !mRectangular ==> (r <==> mSelected && mStart <= pos < mEnd)
      ensures mRectangular ==> (r <==> mSelected && mStart <= pos && lineStartPos <= mEnd && mRectStart <= dispIndex < mRectEnd)
    {
      mSelected &&
      ((!mRectangular && mStart <= pos < mEnd) ||
       (mRectangular && pos >= mStart && lineStartPos <= mEnd &&
        mRectStart <= dispIndex < mRectEnd))
    }

    /** The byte range of an active selection, or (false, _, _) when inactive. */
    function Position(): (r: (bool, int, int))
      reads this
      ensures r.0 == mSelected
      ensures r.0 ==> r.1 == mStart && r.2 == mEnd
    {
      if mSelected then (true, mStart, mEnd) else (false, 0, 0)
    }

    /** The byte range, rectangular flag and column range of an active selection;
        the columns are reported only for a rectangular one. */
    function RectPosition(): (r: (bool, int, int, bool, int, int))
      reads this
      ensures r.0 == mSelected
      ensures r.0 ==> r.1 == mStart && r.2 == mEnd && r.3 == mRectangular
      ensures r.0 && r.3 ==> r.4 == mRectStart && r.5 == mRectEnd
    {
      if !mSelected then (false, 0, 0, false, 0, 0)
      else if mRectangular then (true, mStart, mEnd, true, mRectStart, mRectEnd)
      else (true, mStart, mEnd, false, 0, 0)
    }
  }
}
