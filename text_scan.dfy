/** Read-only scans over the logical text of the buffer: character searches,
    line boundaries, line counting and substring search. The text is a sequence
    of bytes; offsets are byte offsets into it. */
module TextScan {

  /** The number of newline characters in `s`. */
  function NewlineCount(s: seq<char>): nat {
    multiset(s)['\n']
  }

  /** The first offset at or after `start` holding one of `chars`, or `|t|`
      when there is none. */
  function FindForward(t: seq<char>, start: int, chars: seq<char>): (r: int)
    requires 0 <= start <= |t|
    ensures start <= r <= |t|
    ensures r < |t| ==> t[r] in chars
    ensures forall i :: start <= i < r ==> t[i] !in chars
    decreases |t| - start
  {
    if start == |t| then |t|
    else if t[start] in chars then start
    else FindForward(t, start + 1, chars)
  }

  /** The last offset before `start` holding one of `chars`, or -1 when there is none. */
  function FindBackward(t: seq<char>, start: int, chars: seq<char>): (r: int)
    requires 0 <= start <= |t|
    ensures -1 <= r < start
    ensures r >= 0 ==> t[r] in chars
    ensures forall i :: r < i < start ==> t[i] !in chars
    decreases start
  {
    if start == 0 then -1
    else if t[start - 1] in chars then start - 1
    else FindBackward(t, start - 1, chars)
  }

  /** The start of the line holding `pos`: just after the closest newline before it. */
  function LineStart(t: seq<char>, pos: int): (r: int)
    requires 0 <= pos <= |t|
    ensures 0 <= r <= pos
    ensures r == 0 || t[r - 1] == '\n'
    ensures forall i :: r <= i < pos ==> t[i] != '\n'
  {
    FindBackward(t, pos, ['\n']) + 1
  }

  /** The end of the line holding `pos`: the newline that ends it, or `|t|`. */
  function LineEnd(t: seq<char>, pos: int): (r: int)
    requires 0 <= pos <= |t|
    ensures pos <= r <= |t|
    ensures r == |t| || t[r] == '\n'
    ensures forall i :: pos <= i < r ==> t[i] != '\n'
  {
    FindForward(t, pos, ['\n'])
  }

  /** Newlines met scanning from `pos` until `endPos` (excluded) or the end of the
      text, whichever comes first. */
  function CountLines(t: seq<char>, pos: int, endPos: int): (r: nat)
    requires 0 <= pos <= |t|
    ensures r <= |t| - pos
    decreases |t| - pos
  {
    if pos == |t| || pos == endPos then 0
    else (if t[pos] == '\n' then 1 else 0) + CountLines(t, pos + 1, endPos)
  }

  /** The position after the `nLines`-th newline at or after `pos`, or the end of
      the text when there are fewer. */
  function SkipLines(t: seq<char>, pos: int, nLines: nat): (r: int)
    requires 0 <= pos <= |t|
    ensures pos <= r <= |t|
    decreases |t| - pos
  {
    if nLines == 0 || pos == |t| then pos
    else if t[pos] == '\n' then SkipLines(t, pos + 1, nLines - 1)
    else SkipLines(t, pos + 1, nLines)
  }

  /** The start of the line `nLines` lines back from the one holding `startPos`,
      scanning from the character before `startPos`. */
  function RewindLines(t: seq<char>, startPos: int, nLines: nat): (r: int)
    requires 0 <= startPos <= |t|
    ensures 0 <= r <= startPos && (r == 0 || t[r - 1] == '\n')
    decreases startPos
  {
    if startPos == 0 then 0
    else if t[startPos - 1] == '\n' then
      if nLines == 0 then startPos else RewindLines(t, startPos - 1, nLines - 1)
    else RewindLines(t, startPos - 1, nLines)
  }

  /** `s` occurs in `t` starting at offset `p`. */
  predicate MatchAt(t: seq<char>, p: int, s: seq<char>) {
    0 <= p && p + |s| <= |t| && t[p..p + |s|] == s
  }

  /** The first offset `p` with `start <= p < |t|` where `s` occurs, or -1. */
  function SearchForward(t: seq<char>, start: int, s: seq<char>): (r: int)
    requires 0 <= start <= |t|
    ensures r == -1 || (start <= r < |t| && MatchAt(t, r, s))
    ensures forall p :: start <= p < (if r == -1 then |t| else r) ==> !MatchAt(t, p, s)
    decreases |t| - start
  {
    if start == |t| then -1
    else if MatchAt(t, start, s) then start
    else SearchForward(t, start + 1, s)
  }

  /** `s` occurs in `t` ending just before offset `e`. */
  predicate MatchEndsAt(t: seq<char>, e: int, s: seq<char>) {
    MatchAt(t, e - |s|, s)
  }

  /** The occurrence of `s` ending closest before `start`: the offset where it
      begins, its end `e` satisfying `0 < e <= start`, or -1 when there is none. */
  function SearchBackward(t: seq<char>, start: int, s: seq<char>): (r: int)
    requires 0 <= start <= |t|
    ensures r == -1 || (0 < r + |s| <= start && MatchAt(t, r, s))
    ensures forall e :: (if r == -1 then 0 else r + |s|) < e <= start ==> !MatchEndsAt(t, e, s)
    decreases start
  {
    if start == 0 then -1
    else if MatchAt(t, start - |s|, s) then start - |s|
    else SearchBackward(t, start - 1, s)
  }

  /** A byte that belongs to a word: an ASCII letter, digit or underscore. */
  predicate IsWordChar(c: char) {
    'a' <= c <= 'z' || 'A' <= c <= 'Z' || '0' <= c <= '9' || c == '_'
  }

  /** `CountLines` counts exactly the newlines of `t[pos..endPos]` when the range
      lies inside the text (the character at `endPos` is not counted). */
  lemma {:induction false} CountLinesCountsNewlines(t: seq<char>, pos: int, endPos: int)
    requires 0 <= pos <= endPos <= |t|
    ensures CountLines(t, pos, endPos) == NewlineCount(t[pos..endPos])
    decreases endPos - pos
  {
    if pos < endPos {
      CountLinesCountsNewlines(t, pos + 1, endPos);
      assert t[pos..endPos] == [t[pos]] + t[pos + 1..endPos];
    }
  }

  /** `SkipLines` moves forward and stops at the start of a line; when it stops
      before the end of the text it has passed exactly `nLines` newlines. */
  lemma {:induction false} SkipLinesReachesLineStart(t: seq<char>, pos: int, nLines: nat)
    requires 0 <= pos <= |t|
    ensures var r := SkipLines(t, pos, nLines);
      (nLines > 0 && r < |t| ==> r > pos && t[r - 1] == '\n') &&
      NewlineCount(t[pos..r]) <= nLines &&
      (r < |t| ==> NewlineCount(t[pos..r]) == nLines)
    decreases |t| - pos
  {
    if nLines != 0 && pos != |t| {
      var n' := if t[pos] == '\n' then nLines - 1 else nLines;
      SkipLinesReachesLineStart(t, pos + 1, n');
      var r := SkipLines(t, pos, nLines);
      assert t[pos..r] == [t[pos]] + t[pos + 1..r];
    }
  }

  /** `SkipLines` stops no later than just past the `nLines`-th newline: the text it
      passes, its last byte left out, holds fewer than `nLines` newlines. Together
      with `SkipLinesReachesLineStart` this pins the result down. */
  lemma {:induction false} SkipLinesStopsAtFirst(t: seq<char>, pos: int, nLines: nat)
    requires 0 <= pos <= |t|
    ensures var r := SkipLines(t, pos, nLines);
      r > pos ==> NewlineCount(t[pos..r - 1]) < nLines
    decreases |t| - pos
  {
    if nLines != 0 && pos != |t| {
      var n' := if t[pos] == '\n' then nLines - 1 else nLines;
      SkipLinesStopsAtFirst(t, pos + 1, n');
      var r := SkipLines(t, pos, nLines);
      if r - 1 > pos {
        assert t[pos..r - 1] == [t[pos]] + t[pos + 1..r - 1];
      }
    }
  }

  /** `RewindLines` moves back to the start of a line; the lines between it and
      `startPos` (the character at `startPos` excluded) hold exactly `nLines`
      newlines unless the scan ran into the start of the text. */
  lemma {:induction false} RewindLinesReachesLineStart(t: seq<char>, startPos: int, nLines: nat)
    requires 0 <= startPos <= |t|
    ensures var r := RewindLines(t, startPos, nLines);
      0 <= r <= startPos &&
      (r == 0 || t[r - 1] == '\n') &&
      NewlineCount(t[r..startPos]) <= nLines &&
      (r > 0 ==> NewlineCount(t[r..startPos]) == nLines)
    decreases startPos
  {
    if startPos > 0 {
      var r := RewindLines(t, startPos, nLines);
      if t[startPos - 1] == '\n' && nLines == 0 {
        assert t[r..startPos] == [];
      } else {
        var n' := if t[startPos - 1] == '\n' then nLines - 1 else nLines;
        RewindLinesReachesLineStart(t, startPos - 1, n');
        assert t[r..startPos] == t[r..startPos - 1] + [t[startPos - 1]];
      }
    }
  }

  /** Rewinding zero lines finds the start of the current line. */
  lemma {:induction false} RewindZeroIsLineStart(t: seq<char>, pos: int)
    requires 0 <= pos <= |t|
    ensures RewindLines(t, pos, 0) == LineStart(t, pos)
    decreases pos
  {
    if pos > 0 && t[pos - 1] != '\n' {
      RewindZeroIsLineStart(t, pos - 1);
    }
  }

  /** Skipping zero lines stays put, and skipping one line from any offset of a line
      lands just past that line's end. */
  lemma {:induction false} SkipOneLineIsPastLineEnd(t: seq<char>, pos: int)
    requires 0 <= pos <= |t|
    ensures SkipLines(t, pos, 0) == pos
    ensures SkipLines(t, pos, 1) == if LineEnd(t, pos) == |t| then |t| else LineEnd(t, pos) + 1
    decreases |t| - pos
  {
    if pos < |t| && t[pos] != '\n' {
      SkipOneLineIsPastLineEnd(t, pos + 1);
    }
  }
}
