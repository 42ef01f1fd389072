/** How buffer bytes are shown: tab expansion to the next tab stop, control codes
    as `<name>`, DEL as `<del>`, and the display-column arithmetic built on that
    (counting and skipping displayed characters, rectangular selection edges). */
module Display {
  import TextScan

  /** The longest expansion of a single buffer character. */
  const MaxExpCharLen := 20

  /** Printable names of the control codes 0 to 31. */
  const ControlCodeTable: seq<string> := [
    "nul", "soh", "stx", "etx", "eot", "enq", "ack", "bel",
    "bs", "ht", "nl", "vt", "np", "cr", "so", "si",
    "dle", "dc1", "dc2", "dc3", "dc4", "nak", "syn", "etb",
    "can", "em", "sub", "esc", "fs", "gs", "rs", "us"]

  lemma ControlNamesAreShort()
    ensures |ControlCodeTable| == 32
    ensures forall i :: 0 <= i < 32 ==> 2 <= |ControlCodeTable[i]| <= 3
  {
  }

  /** `n` spaces. */
  function Spaces(n: nat): (r: string)
    ensures |r| == n && forall i :: 0 <= i < n ==> r[i] == ' '
  {
    if n == 0 then [] else Spaces(n - 1) + [' ']
  }

  /** The columns from `indent` to the next tab stop: at least one and at most a
      full tab. */
  function TabWidth(indent: nat, tabDist: int): (r: nat)
    requires tabDist > 0
    ensures 1 <= r <= tabDist
  {
    tabDist - indent % tabDist
  }

  /** A tab ends exactly on the next multiple of `tabDist` after `indent`. */
  lemma TabReachesNextStop(indent: nat, tabDist: int)
    requires tabDist > 0
    ensures indent + TabWidth(indent, tabDist) == (indent / tabDist + 1) * tabDist
  {
    var q := indent / tabDist;
    assert (q + 1) * tabDist == q * tabDist + tabDist;
  }

  /** The `<name>` form of a control code. */
  function ControlExpansion(code: int): (r: string)
    requires 0 <= code < 32
    ensures 4 <= |r| <= 5 && r[0] == '<' && r[|r| - 1] == '>'
  {
    ControlNamesAreShort();
    "<" + ControlCodeTable[code] + ">"
  }

  /** The width of `<name>` for control code `code`: the two-letter names are those
      of codes 8 to 15, 25 and 28 to 31. */
  function ControlWidth(code: int): (r: nat)
    requires 0 <= code < 32
    ensures 4 <= r <= 5
  {
    if 8 <= code <= 15 || code == 25 || 28 <= code then 4 else 5
  }

  /** The widths above agree with the name table. */
  lemma ControlWidthsMatchNames()
    ensures forall i :: 0 <= i < 32 ==>
      |ControlCodeTable[i]| + 2 == if 8 <= i <= 15 || i == 25 || 28 <= i then 4 else 5
  {
  }

  /** The screen form of `c` when it is shown `indent` columns from the start of
      its line with tab stops every `tabDist` columns. */
  function ExpandCharacter(c: char, indent: nat, tabDist: int): (r: string)
    requires tabDist > 0
    ensures 1 <= |r|
    ensures c == '\t' ==> |r| == TabWidth(indent, tabDist)
    ensures c == '\t' ==> forall i :: 0 <= i < |r| ==> r[i] == ' '
    ensures c != '\t' ==> |r| <= 5
    ensures c != '\t' && 32 <= c as int && c as int != 127 ==> r == [c]
  {
    if c == '\t' then Spaces(TabWidth(indent, tabDist))
    else if c as int <= 31 then ControlExpansion(c as int)
    else if c as int == 127 then "<del>"
    else [c]
  }

  /** The number of columns `c` takes on screen, computed without building it. */
  function CharacterWidth(c: char, indent: nat, tabDist: int): (r: nat)
    requires tabDist > 0
    ensures 1 <= r
  {
    if c == '\t' then TabWidth(indent, tabDist)
    else if c as int <= 31 then ControlWidth(c as int)
    else if c as int == 127 then 5
    else 1
  }

  /** The width is the length of the expansion. */
  lemma WidthIsExpansionLength(c: char, indent: nat, tabDist: int)
    requires tabDist > 0
    ensures CharacterWidth(c, indent, tabDist) == |ExpandCharacter(c, indent, tabDist)|
  {
    ControlWidthsMatchNames();
  }

  /** No single character expands past `MaxExpCharLen` columns as long as tab
      stops are no wider than that. */
  lemma ExpansionIsBounded(c: char, indent: nat, tabDist: int)
    requires 0 < tabDist <= MaxExpCharLen
    ensures 1 <= CharacterWidth(c, indent, tabDist) <= MaxExpCharLen
  {
  }

  /** The display column reached after showing `t[lineStart..pos]` from column 0. */
  function Column(t: seq<char>, lineStart: int, pos: int, tabDist: int): nat
    requires 0 <= lineStart <= pos <= |t| && tabDist > 0
    decreases pos - lineStart
  {
    if pos == lineStart then 0
    else
      var c := Column(t, lineStart, pos - 1, tabDist);
      c + CharacterWidth(t[pos - 1], c, tabDist)
  }

  /** Every character takes at least one column, so columns grow strictly with
      the offset. */
  lemma {:induction false} ColumnGrows(t: seq<char>, lineStart: int, p: int, q: int, tabDist: int)
    requires 0 <= lineStart <= p <= q <= |t| && tabDist > 0
    ensures Column(t, lineStart, q, tabDist) >= Column(t, lineStart, p, tabDist) + (q - p)
    decreases q - p
  {
    if p < q {
      ColumnGrows(t, lineStart, p, q - 1, tabDist);
    }
  }

  /** On a stretch without tabs or control codes the column is the byte count. */
  lemma {:induction false} PlainTextColumn(t: seq<char>, lineStart: int, pos: int, tabDist: int)
    requires 0 <= lineStart <= pos <= |t| && tabDist > 0
    requires forall i :: lineStart <= i < pos ==> 32 <= t[i] as int && t[i] as int != 127
    ensures Column(t, lineStart, pos, tabDist) == pos - lineStart
    decreases pos - lineStart
  {
    if pos > lineStart {
      PlainTextColumn(t, lineStart, pos - 1, tabDist);
    }
  }

  /** Scans forward from `pos` (at column `count`) until `nChars` columns are
      filled, a newline is met or the text ends. */
  function SkipDisplayedFrom(t: seq<char>, pos: int, count: nat, nChars: int, tabDist: int): (r: int)
    requires 0 <= pos <= |t| && tabDist > 0
    ensures pos <= r <= |t|
    decreases |t| - pos
  {
    if count >= nChars || pos == |t| then pos
    else if t[pos] == '\n' then pos
    else SkipDisplayedFrom(t, pos + 1, count + CharacterWidth(t[pos], count, tabDist), nChars, tabDist)
  }

  /** The offset reached by showing `nChars` columns from the line start `lineStartPos`. */
  function SkipDisplayedCharacters(t: seq<char>, lineStartPos: int, nChars: int, tabDist: int): (r: int)
    requires 0 <= lineStartPos <= |t| && tabDist > 0
    ensures lineStartPos <= r <= |t|
  {
    SkipDisplayedFrom(t, lineStartPos, 0, nChars, tabDist)
  }

  /** One more character advances the column by that character's width. */
  lemma ColumnStep(t: seq<char>, lineStart: int, p: int, tabDist: int)
    requires 0 <= lineStart <= p < |t| && tabDist > 0
    ensures Column(t, lineStart, p + 1, tabDist)
      == Column(t, lineStart, p, tabDist) + CharacterWidth(t[p], Column(t, lineStart, p, tabDist), tabDist)
    ensures Column(t, lineStart, p + 1, tabDist) > Column(t, lineStart, p, tabDist)
  {
  }

  /** The forward display scan does not cross a newline. */
  lemma {:induction false} SkipDisplayedFromOnLine(t: seq<char>, pos: int, count: nat, nChars: int, tabDist: int)
    requires 0 <= pos <= |t| && tabDist > 0
    ensures forall i :: pos <= i < SkipDisplayedFrom(t, pos, count, nChars, tabDist) ==> t[i] != '\n'
    decreases |t| - pos
  {
    if !(count >= nChars || pos == |t| || t[pos] == '\n') {
      SkipDisplayedFromOnLine(t, pos + 1, count + CharacterWidth(t[pos], count, tabDist), nChars, tabDist);
    }
  }

  /** Started at the column of `pos`, the forward display scan stops at the first
      offset whose column reaches `nChars`, at a newline or at the end of the text. */
  lemma {:induction false} SkipDisplayedFromSpec(t: seq<char>, lineStart: int, pos: int, nChars: int, tabDist: int)
    requires 0 <= lineStart <= pos <= |t| && tabDist > 0
    requires pos > lineStart ==> Column(t, lineStart, pos - 1, tabDist) < nChars
    ensures var r := SkipDisplayedFrom(t, pos, Column(t, lineStart, pos, tabDist), nChars, tabDist);
      (r > lineStart ==> Column(t, lineStart, r - 1, tabDist) < nChars) &&
      (r == |t| || t[r] == '\n' || Column(t, lineStart, r, tabDist) >= nChars)
    decreases |t| - pos
  {
    var count := Column(t, lineStart, pos, tabDist);
    if !(count >= nChars || pos == |t| || t[pos] == '\n') {
      ColumnStep(t, lineStart, pos, tabDist);
      SkipDisplayedFromSpec(t, lineStart, pos + 1, nChars, tabDist);
    }
  }

  /** `skip_displayed_characters` stops at the first offset of the line whose column
      reaches `nChars`, or at the end of the line. */
  lemma SkipDisplayedIsFirstReaching(t: seq<char>, lineStart: int, nChars: int, tabDist: int)
    requires 0 <= lineStart <= |t| && tabDist > 0
    ensures var r := SkipDisplayedCharacters(t, lineStart, nChars, tabDist);
      lineStart <= r <= TextScan.LineEnd(t, lineStart) &&
      (forall p :: lineStart <= p < r ==> Column(t, lineStart, p, tabDist) < nChars) &&
      (r == TextScan.LineEnd(t, lineStart) || Column(t, lineStart, r, tabDist) >= nChars)
  {
    SkipDisplayedFromSpec(t, lineStart, lineStart, nChars, tabDist);
    SkipDisplayedFromOnLine(t, lineStart, 0, nChars, tabDist);
    var r := SkipDisplayedCharacters(t, lineStart, nChars, tabDist);
    assert forall i :: lineStart <= i < r ==> t[i] != '\n';
    forall p | lineStart <= p < r
      ensures Column(t, lineStart, p, tabDist) < nChars
    {
      ColumnGrows(t, lineStart, p, r - 1, tabDist);
    }
  }

  /** The left edge scan: returns the first selected offset and its column. */
  function SelStartFrom(t: seq<char>, pos: int, indent: nat, rectStart: int, tabDist: int): (r: (int, nat))
    requires 0 <= pos <= |t| && tabDist > 0
    ensures pos <= r.0 <= |t|
    decreases |t| - pos
  {
    if pos == |t| || t[pos] == '\n' then (pos, indent)
    else
      var width := CharacterWidth(t[pos], indent, tabDist);
      if indent + width > rectStart then
        if indent != rectStart && t[pos] != '\t' then (pos + 1, indent + width) else (pos, indent)
      else SelStartFrom(t, pos + 1, indent + width, rectStart, tabDist)
  }

  /** The right edge scan: returns the offset just past the last selected character. */
  function SelEndFrom(t: seq<char>, pos: int, indent: nat, rectEnd: int, tabDist: int): (r: int)
    requires 0 <= pos <= |t| && tabDist > 0
    ensures pos <= r <= |t|
    decreases |t| - pos
  {
    if pos == |t| || t[pos] == '\n' then pos
    else
      var width := CharacterWidth(t[pos], indent, tabDist);
      if indent + width > rectEnd then
        if indent != rectEnd && t[pos] != '\t' then pos + 1 else pos
      else SelEndFrom(t, pos + 1, indent + width, rectEnd, tabDist)
  }

  /** The byte range of the line starting at `lineStartPos` that a rectangular
      selection of columns [rectStart, rectEnd) covers. */
  function RectangularSelectionBoundaries(t: seq<char>, lineStartPos: int, rectStart: int, rectEnd: int,
                                          tabDist: int): (r: (int, int))
    requires 0 <= lineStartPos <= |t| && tabDist > 0
    ensures lineStartPos <= r.0 <= r.1 <= |t|
  {
    var (selStart, indent) := SelStartFrom(t, lineStartPos, 0, rectStart, tabDist);
    (selStart, SelEndFrom(t, selStart, indent, rectEnd, tabDist))
  }

  /** The left edge scan does not cross a newline. */
  lemma {:induction false} SelStartFromOnLine(t: seq<char>, pos: int, indent: nat, rectStart: int, tabDist: int)
    requires 0 <= pos <= |t| && tabDist > 0
    ensures forall i :: pos <= i < SelStartFrom(t, pos, indent, rectStart, tabDist).0 ==> t[i] != '\n'
    decreases |t| - pos
  {
    if pos < |t| && t[pos] != '\n' && indent + CharacterWidth(t[pos], indent, tabDist) <= rectStart {
      SelStartFromOnLine(t, pos + 1, indent + CharacterWidth(t[pos], indent, tabDist), rectStart, tabDist);
    }
  }

  /** The right edge scan does not cross a newline. */
  lemma {:induction false} SelEndFromOnLine(t: seq<char>, pos: int, indent: nat, rectEnd: int, tabDist: int)
    requires 0 <= pos <= |t| && tabDist > 0
    ensures forall i :: pos <= i < SelEndFrom(t, pos, indent, rectEnd, tabDist) ==> t[i] != '\n'
    decreases |t| - pos
  {
    if pos < |t| && t[pos] != '\n' && indent + CharacterWidth(t[pos], indent, tabDist) <= rectEnd {
      SelEndFromOnLine(t, pos + 1, indent + CharacterWidth(t[pos], indent, tabDist), rectEnd, tabDist);
    }
  }

  /** Started at the column of `pos`, the left edge scan passes only characters
      that begin left of `rectStart`, and passes a tab only when that tab ends by
      `rectStart`; the column it reports is the column where it stops. */
  lemma {:induction false} SelStartFromSpec(t: seq<char>, lineStart: int, pos: int, rectStart: int, tabDist: int)
    requires 0 <= lineStart <= pos <= |t| && tabDist > 0
    requires Column(t, lineStart, pos, tabDist) <= rectStart
    ensures var r := SelStartFrom(t, pos, Column(t, lineStart, pos, tabDist), rectStart, tabDist);
      var s := r.0;
      r.1 == Column(t, lineStart, s, tabDist) &&
      (s > lineStart ==> Column(t, lineStart, s - 1, tabDist) < rectStart) &&
      (s > lineStart && t[s - 1] == '\t' ==> Column(t, lineStart, s, tabDist) <= rectStart)
    decreases |t| - pos
  {
    var indent := Column(t, lineStart, pos, tabDist);
    if pos > lineStart {
      ColumnStep(t, lineStart, pos - 1, tabDist);
    }
    if pos < |t| && t[pos] != '\n' {
      ColumnStep(t, lineStart, pos, tabDist);
      var width := CharacterWidth(t[pos], indent, tabDist);
      if indent + width > rectStart {
        if indent != rectStart && t[pos] != '\t' {
          if pos + 1 < |t| && t[pos + 1] != '\n' {
            ColumnStep(t, lineStart, pos + 1, tabDist);
          }
        }
      } else {
        SelStartFromSpec(t, lineStart, pos + 1, rectStart, tabDist);
      }
    }
  }

  /** Started at the column of `pos`, the left edge scan stops at a character that
      reaches `rectStart` or is a tab, and that ends past `rectStart`: it moves past
      a control code that straddles `rectStart` but not past a tab. */
  lemma {:induction false} SelStartFromStops(t: seq<char>, lineStart: int, pos: int, rectStart: int, tabDist: int)
    requires 0 <= lineStart <= pos <= |t| && tabDist > 0
    requires Column(t, lineStart, pos, tabDist) <= rectStart
    ensures var s := SelStartFrom(t, pos, Column(t, lineStart, pos, tabDist), rectStart, tabDist).0;
      s < |t| && t[s] != '\n' ==>
        (Column(t, lineStart, s, tabDist) >= rectStart || t[s] == '\t') &&
        Column(t, lineStart, s + 1, tabDist) > rectStart
    decreases |t| - pos
  {
    var indent := Column(t, lineStart, pos, tabDist);
    if pos > lineStart {
      ColumnStep(t, lineStart, pos - 1, tabDist);
    }
    if pos < |t| && t[pos] != '\n' {
      ColumnStep(t, lineStart, pos, tabDist);
      var width := CharacterWidth(t[pos], indent, tabDist);
      if indent + width > rectStart {
        if indent != rectStart && t[pos] != '\t' {
          if pos + 1 < |t| && t[pos + 1] != '\n' {
            ColumnStep(t, lineStart, pos + 1, tabDist);
          }
        }
      } else {
        SelStartFromStops(t, lineStart, pos + 1, rectStart, tabDist);
      }
    }
  }

  /** Started at the column of `pos` (with every character from `from` to `pos`
      ending by `rectEnd`), the right edge scan keeps only characters that begin by
      `rectEnd`, never keeps one that begins exactly at `rectEnd`, and keeps a tab
      only when it ends by `rectEnd`. */
  lemma {:induction false} SelEndFromSpec(t: seq<char>, lineStart: int, from: int, pos: int, rectEnd: int, tabDist: int)
    requires 0 <= lineStart <= from <= pos <= |t| && tabDist > 0
    requires pos > from ==> Column(t, lineStart, pos, tabDist) <= rectEnd
    ensures var e := SelEndFrom(t, pos, Column(t, lineStart, pos, tabDist), rectEnd, tabDist);
      (e - 1 > from ==> Column(t, lineStart, e - 1, tabDist) <= rectEnd) &&
      (e > from ==> Column(t, lineStart, e - 1, tabDist) != rectEnd) &&
      (e > from && t[e - 1] == '\t' ==> Column(t, lineStart, e, tabDist) <= rectEnd)
    decreases |t| - pos
  {
    var indent := Column(t, lineStart, pos, tabDist);
    if pos > lineStart {
      ColumnStep(t, lineStart, pos - 1, tabDist);
    }
    if pos < |t| && t[pos] != '\n' {
      ColumnStep(t, lineStart, pos, tabDist);
      var width := CharacterWidth(t[pos], indent, tabDist);
      if indent + width > rectEnd {
        if indent != rectEnd && t[pos] != '\t' {
          if pos + 1 < |t| && t[pos + 1] != '\n' {
            ColumnStep(t, lineStart, pos + 1, tabDist);
          }
        }
      } else {
        SelEndFromSpec(t, lineStart, from, pos + 1, rectEnd, tabDist);
      }
    }
  }

  /** Started at the column of `pos`, the right edge scan stops before a character
      that ends past `rectEnd`, and only before a tab, a character beginning exactly
      at `rectEnd`, or (after keeping at least one character) one beginning past it:
      a control code that straddles `rectEnd` is kept. */
  lemma {:induction false} SelEndFromStops(t: seq<char>, lineStart: int, from: int, pos: int, rectEnd: int, tabDist: int)
    requires 0 <= lineStart <= from <= pos <= |t| && tabDist > 0
    requires pos > from ==> Column(t, lineStart, pos, tabDist) <= rectEnd
    ensures var e := SelEndFrom(t, pos, Column(t, lineStart, pos, tabDist), rectEnd, tabDist);
      e < |t| && t[e] != '\n' ==>
        (t[e] == '\t' || Column(t, lineStart, e, tabDist) == rectEnd ||
         (e > from && Column(t, lineStart, e, tabDist) > rectEnd)) &&
        Column(t, lineStart, e + 1, tabDist) > rectEnd
    decreases |t| - pos
  {
    var indent := Column(t, lineStart, pos, tabDist);
    if pos > lineStart {
      ColumnStep(t, lineStart, pos - 1, tabDist);
    }
    if pos < |t| && t[pos] != '\n' {
      ColumnStep(t, lineStart, pos, tabDist);
      var width := CharacterWidth(t[pos], indent, tabDist);
      if indent + width > rectEnd {
        if indent != rectEnd && t[pos] != '\t' {
          if pos + 1 < |t| && t[pos + 1] != '\n' {
            ColumnStep(t, lineStart, pos + 1, tabDist);
          }
        }
      } else {
        SelEndFromStops(t, lineStart, from, pos + 1, rectEnd, tabDist);
      }
    }
  }

  /** The covered range lies inside the line and runs forward. */
  lemma RectangularBoundariesOnLine(t: seq<char>, lineStart: int, rectStart: int, rectEnd: int, tabDist: int)
    requires 0 <= lineStart <= |t| && tabDist > 0
    ensures var r := RectangularSelectionBoundaries(t, lineStart, rectStart, rectEnd, tabDist);
      lineStart <= r.0 <= r.1 <= TextScan.LineEnd(t, lineStart)
  {
    SelStartFromOnLine(t, lineStart, 0, rectStart, tabDist);
    var st := SelStartFrom(t, lineStart, 0, rectStart, tabDist);
    SelEndFromOnLine(t, st.0, st.1, rectEnd, tabDist);
    var e := SelEndFrom(t, st.0, st.1, rectEnd, tabDist);
    var lineEnd := TextScan.LineEnd(t, lineStart);
    assert forall i :: lineStart <= i < e ==> t[i] != '\n';
  }

  /** `s` is the left edge of a rectangular selection starting at column `rectStart`
      on the line [lineStart, lineEnd): every character before it begins left of
      rectStart, a tab just before it ends by rectStart, and the character at it
      ends past rectStart and either reaches rectStart or is a tab. So a tab that
      crosses rectStart is included and a control code that crosses it is not. */
  predicate IsLeftEdge(t: seq<char>, lineStart: int, lineEnd: int, s: int, rectStart: int, tabDist: int)
    requires 0 <= lineStart <= s <= |t| && lineEnd <= |t| && tabDist > 0
  {
    (forall p :: lineStart <= p < s ==> Column(t, lineStart, p, tabDist) < rectStart) &&
    (s > lineStart && t[s - 1] == '\t' ==> Column(t, lineStart, s, tabDist) <= rectStart) &&
    (s < lineEnd ==>
      (Column(t, lineStart, s, tabDist) >= rectStart || t[s] == '\t') &&
      Column(t, lineStart, s + 1, tabDist) > rectStart)
  }

  /** `e` is the right edge, for the left edge `s`, of a rectangular selection ending
      at column `rectEnd` on the line [lineStart, lineEnd): every kept character
      after the first begins by rectEnd, the last kept one does not begin exactly at
      rectEnd, a kept tab ends by rectEnd, and the first character left off ends past
      rectEnd and is a tab, begins at rectEnd, or begins past it after something was
      kept. So a tab that crosses rectEnd is left off and a control code that
      crosses it is kept. */
  predicate IsRightEdge(t: seq<char>, lineStart: int, lineEnd: int, s: int, e: int, rectEnd: int, tabDist: int)
    requires 0 <= lineStart <= s <= e <= |t| && lineEnd <= |t| && tabDist > 0
  {
    (forall q :: s < q < e ==> Column(t, lineStart, q, tabDist) <= rectEnd) &&
    (e > s ==> Column(t, lineStart, e - 1, tabDist) != rectEnd) &&
    (e > s && t[e - 1] == '\t' ==> Column(t, lineStart, e, tabDist) <= rectEnd) &&
    (e < lineEnd ==>
      (t[e] == '\t' || Column(t, lineStart, e, tabDist) == rectEnd ||
       (e > s && Column(t, lineStart, e, tabDist) > rectEnd)) &&
      Column(t, lineStart, e + 1, tabDist) > rectEnd)
  }

  /** The left edge computed for a line is a left edge in the sense of `IsLeftEdge`. */
  lemma RectangularBoundariesLeft(t: seq<char>, lineStart: int, rectStart: int, rectEnd: int, tabDist: int)
    requires 0 <= lineStart <= |t| && tabDist > 0 && 0 <= rectStart
    ensures var s := RectangularSelectionBoundaries(t, lineStart, rectStart, rectEnd, tabDist).0;
      IsLeftEdge(t, lineStart, TextScan.LineEnd(t, lineStart), s, rectStart, tabDist)
  {
    SelStartFromSpec(t, lineStart, lineStart, rectStart, tabDist);
    SelStartFromStops(t, lineStart, lineStart, rectStart, tabDist);
    var s := SelStartFrom(t, lineStart, 0, rectStart, tabDist).0;
    var lineEnd := TextScan.LineEnd(t, lineStart);
    forall p | lineStart <= p < s
      ensures Column(t, lineStart, p, tabDist) < rectStart
    {
      ColumnGrows(t, lineStart, p, s - 1, tabDist);
    }
    assert s < lineEnd ==> t[s] != '\n';
  }

  /** The right edge computed for a line is a right edge in the sense of `IsRightEdge`. */
  lemma RectangularBoundariesRight(t: seq<char>, lineStart: int, rectStart: int, rectEnd: int, tabDist: int)
    requires 0 <= lineStart <= |t| && tabDist > 0 && 0 <= rectStart
    ensures var r := RectangularSelectionBoundaries(t, lineStart, rectStart, rectEnd, tabDist);
      IsRightEdge(t, lineStart, TextScan.LineEnd(t, lineStart), r.0, r.1, rectEnd, tabDist)
  {
    SelStartFromSpec(t, lineStart, lineStart, rectStart, tabDist);
    var st := SelStartFrom(t, lineStart, 0, rectStart, tabDist);
    var s := st.0;
    SelEndFromSpec(t, lineStart, s, s, rectEnd, tabDist);
    SelEndFromStops(t, lineStart, s, s, rectEnd, tabDist);
    var e := SelEndFrom(t, s, st.1, rectEnd, tabDist);
    var lineEnd := TextScan.LineEnd(t, lineStart);
    forall q | s < q < e
      ensures Column(t, lineStart, q, tabDist) <= rectEnd
    {
      ColumnGrows(t, lineStart, q, e - 1, tabDist);
    }
    assert e < lineEnd ==> t[e] != '\n';
  }

  /** The covered range lies inside the line and its two ends are the left and right
      edges of the column range [rectStart, rectEnd). */
  lemma RectangularBoundariesSpec(t: seq<char>, lineStart: int, rectStart: int, rectEnd: int, tabDist: int)
    requires 0 <= lineStart <= |t| && tabDist > 0 && 0 <= rectStart
    ensures var r := RectangularSelectionBoundaries(t, lineStart, rectStart, rectEnd, tabDist);
      var lineEnd := TextScan.LineEnd(t, lineStart);
      lineStart <= r.0 <= r.1 <= lineEnd &&
      IsLeftEdge(t, lineStart, lineEnd, r.0, rectStart, tabDist) &&
      IsRightEdge(t, lineStart, lineEnd, r.0, r.1, rectEnd, tabDist)
  {
    RectangularBoundariesOnLine(t, lineStart, rectStart, rectEnd, tabDist);
    RectangularBoundariesLeft(t, lineStart, rectStart, rectEnd, tabDist);
    RectangularBoundariesRight(t, lineStart, rectStart, rectEnd, tabDist);
  }

  /** A line has at most one left edge for a given rectStart. */
  lemma LeftEdgeIsUnique(t: seq<char>, lineStart: int, lineEnd: int, s1: int, s2: int, rectStart: int, tabDist: int)
    requires 0 <= lineStart <= s1 <= lineEnd && lineStart <= s2 <= lineEnd && lineEnd <= |t| && tabDist > 0
    requires IsLeftEdge(t, lineStart, lineEnd, s1, rectStart, tabDist)
    requires IsLeftEdge(t, lineStart, lineEnd, s2, rectStart, tabDist)
    ensures s1 == s2
  {
  }

  /** For a given left edge, a line has at most one right edge for a given rectEnd. */
  lemma RightEdgeIsUnique(t: seq<char>, lineStart: int, lineEnd: int, s: int, e1: int, e2: int, rectEnd: int,
                          tabDist: int)
    requires 0 <= lineStart <= s <= e1 <= lineEnd && s <= e2 <= lineEnd && lineEnd <= |t| && tabDist > 0
    requires IsRightEdge(t, lineStart, lineEnd, s, e1, rectEnd, tabDist)
    requires IsRightEdge(t, lineStart, lineEnd, s, e2, rectEnd, tabDist)
    ensures e1 == e2
  {
  }

  /** The converse of `RectangularBoundariesSpec`: a range of the line whose ends are
      a left and a right edge is the range the boundaries computation returns. */
  lemma RectangularBoundariesAreTheEdges(t: seq<char>, lineStart: int, rectStart: int, rectEnd: int, tabDist: int,
                                         s: int, e: int)
    requires 0 <= lineStart <= |t| && tabDist > 0 && 0 <= rectStart
    requires lineStart <= s <= e <= TextScan.LineEnd(t, lineStart)
    requires IsLeftEdge(t, lineStart, TextScan.LineEnd(t, lineStart), s, rectStart, tabDist)
    requires IsRightEdge(t, lineStart, TextScan.LineEnd(t, lineStart), s, e, rectEnd, tabDist)
    ensures RectangularSelectionBoundaries(t, lineStart, rectStart, rectEnd, tabDist) == (s, e)
  {
    var lineEnd := TextScan.LineEnd(t, lineStart);
    RectangularBoundariesSpec(t, lineStart, rectStart, rectEnd, tabDist);
    var r := RectangularSelectionBoundaries(t, lineStart, rectStart, rectEnd, tabDist);
    LeftEdgeIsUnique(t, lineStart, lineEnd, r.0, s, rectStart, tabDist);
    RightEdgeIsUnique(t, lineStart, lineEnd, s, r.1, e, rectEnd, tabDist);
  }
}
