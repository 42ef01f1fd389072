# Fl_Text_Buffer, modelled and verified in Dafny

This project models the text-buffer engine of the FLTK text widgets, which is derived from the NEdit editor. The engine is declared in `Fl_Text_Buffer.H`.

**Storage.** A `TextBuffer` keeps its text in a gap buffer. This is a block of bytes (`mBuf`) with an unused gap `[mGapStart, mGapEnd)`. The text is the bytes before the gap followed by the bytes after it. Edits work as follows:
- the gap is slid to the edit point (`move_gap`), or the block is reallocated with a bigger gap (`reallocate_with_gap`);
- an insertion fills the gap;
- a removal widens the gap.

**Selections.** The buffer owns three selections: primary, secondary and highlight. After every edit each one is adjusted by the NEdit update rule.

**Callbacks.** Two registries record the modify and pre-delete callbacks.

**Queries.** Read-only queries cover:
- line boundaries and line counting;
- character, character-set and string searches;
- word boundaries;
- tab and control-code expansion;
- display-column arithmetic, including rectangular selection edges.

## Modules

| file | module | what it holds |
|---|---|---|
| `gap_storage.dfy` | `GapStorage` | the gap layout. `Logical` is the text a block holds. It also holds the byte-moving methods over an `array<char>` (memmove, memcpy, slide the gap, fill the gap, reallocate), each proved to keep or edit the logical text as intended. |
| `selection.dfy` | `TextSelection` | the `Selection` class, the value `SelState` of its fields, the update rule `Updated`, and lemmas about the rule |
| `callbacks.dfy` | `Callbacks` | registries as ordered sequences of `Registration(proc, arg)`, with insertion at the front and removal of the first exact match |
| `text_scan.dfy` | `TextScan` | specification functions for searching and line scanning over the text, with lemmas |
| `display.dfy` | `Display` | character expansion, widths and display columns, with lemmas |
| `text_buffer.dfy` | `TextBuffers` | the `TextBuffer` class |

The `TextBuffer` class:
- holds `mBuf` as an array and the gap and length as fields;
- keeps the invariant `Valid()`: the gap lies in the block, the block is the gap plus the text, and every active selection lies inside the text;
- proves each method against `Text()`, `Selections()` and the specification functions.

Mutators that call callbacks in the source do not call anything here. They return the ordered list of calls they would make, as `Notice` values: `Predelete(pos, nDeleted)` and `Modified(pos, nInserted, nDeleted, nRestyled, deletedText)`.

`Fl_Text_Buffer.H` defines only a few members inline. The bodies of the others follow the NEdit algorithm that the header documents:
- the gap moves and the reallocation layout;
- insertion and removal through the gap;
- the four-way selection update;
- the clamping done by `insert`, `remove`, `replace`, `text_range` and the `findchar` searches;
- the scans' loop structure.

Where a doc comment states the result, the contract follows the doc comment.

## Model

| member | source | states |
|---|---|---|
| GapStorage.Logical | maxgui.mod/fltkmaxgui.mod/FL/Fl_Text_Buffer.H:953-958 | the text is the bytes before the gap followed by the bytes after it, so its length is the block size minus the gap size |
| GapStorage.PhysicalIsOutsideGap | maxgui.mod/fltkmaxgui.mod/FL/Fl_Text_Buffer.H:251-261 | `address` maps an offset below the gap start to itself and any other offset past the gap; an offset inside the text never lands in the gap, and the byte found there is that offset's character |
| GapStorage.MoveGapUpKeepsText | maxgui.mod/fltkmaxgui.mod/FL/Fl_Text_Buffer.H:898-902 | sliding the gap up by moving the bytes after it down keeps the text, with the gap now starting at the new position and the same size |
| GapStorage.MoveGapDownKeepsText | maxgui.mod/fltkmaxgui.mod/FL/Fl_Text_Buffer.H:898-902 | sliding the gap down by moving the bytes before it up keeps the text |
| GapStorage.MoveBytesDown | maxgui.mod/fltkmaxgui.mod/FL/Fl_Text_Buffer.H:898-902 | copying n bytes to a lower offset, front to back, leaves the destination holding the old source bytes and every other byte unchanged, however the ranges overlap |
| GapStorage.MoveBytesUp | maxgui.mod/fltkmaxgui.mod/FL/Fl_Text_Buffer.H:898-902 | copying n bytes to a higher offset, back to front, leaves the destination holding the old source bytes and every other byte unchanged, however the ranges overlap |
| GapStorage.CopyBytes | maxgui.mod/fltkmaxgui.mod/FL/Fl_Text_Buffer.H:904-909 | copying between two distinct blocks (memcpy) leaves the destination range holding the source bytes and the rest of the destination unchanged |
| GapStorage.WriteBytes | maxgui.mod/fltkmaxgui.mod/FL/Fl_Text_Buffer.H:836-844 | writing a string at an offset leaves the block equal to the old one with that stretch overwritten |
| GapStorage.MoveBytes | maxgui.mod/fltkmaxgui.mod/FL/Fl_Text_Buffer.H:898-902 | the overlapping byte move (memmove) leaves the block equal to the moved-block function of the old block, whichever way the ranges overlap |
| GapStorage.MovedAt | maxgui.mod/fltkmaxgui.mod/FL/Fl_Text_Buffer.H:898-902 | after a memmove each byte of the destination range is the corresponding old source byte, and every other byte is unchanged |
| GapStorage.SlideGap | maxgui.mod/fltkmaxgui.mod/FL/Fl_Text_Buffer.H:898-902 | after relocating the gap to `pos` the block holds the same text with the gap at `pos` |
| GapStorage.FillGapInserts | maxgui.mod/fltkmaxgui.mod/FL/Fl_Text_Buffer.H:836-844 | writing bytes at the gap start and advancing the gap start inserts exactly those bytes at the gap position |
| GapStorage.FillGap | maxgui.mod/fltkmaxgui.mod/FL/Fl_Text_Buffer.H:836-844 | filling the gap with the inserted bytes yields the old text with them inserted at the gap start |
| GapStorage.WidenGapRemoves | maxgui.mod/fltkmaxgui.mod/FL/Fl_Text_Buffer.H:846-852 | widening the gap over [start, end) when the gap lies inside that range removes exactly those bytes |
| GapStorage.LogicalSlice | maxgui.mod/fltkmaxgui.mod/FL/Fl_Text_Buffer.H:231-241 | a text range is read from before the gap, from after it, or from both sides, depending on where it lies relative to the gap |
| GapStorage.NewBlock | maxgui.mod/fltkmaxgui.mod/FL/Fl_Text_Buffer.H:225-229 | a fresh block holds exactly the given text with the whole gap after it |
| GapStorage.Regap | maxgui.mod/fltkmaxgui.mod/FL/Fl_Text_Buffer.H:904-909 | the reallocated block holds the same text, with a gap of the requested size at the requested offset |
| TextSelection.UpdateAfterSelection | maxgui.mod/fltkmaxgui.mod/FL/Fl_Text_Buffer.H:91-98 | an edit at or after the end of a non-empty selection leaves it unchanged |
| TextSelection.UpdateBeforeSelection | maxgui.mod/fltkmaxgui.mod/FL/Fl_Text_Buffer.H:91-98 | an edit wholly before a selection shifts both ends by the change in length and keeps it active |
| TextSelection.UpdateSwallowsSelection | maxgui.mod/fltkmaxgui.mod/FL/Fl_Text_Buffer.H:91-98 | a deletion covering the whole selection unselects it and collapses it to the edit position |
| TextSelection.UpdateKeepsInBounds | maxgui.mod/fltkmaxgui.mod/FL/Fl_Text_Buffer.H:91-98 | for any edit of a text, an active selection inside the text stays inside the edited text |
| TextSelection.UpdateTracksSelectedText | maxgui.mod/fltkmaxgui.mod/FL/Fl_Text_Buffer.H:91-98 | after an edit outside a selection it still covers the same characters; after an edit strictly inside it, it covers the edited characters |
| TextSelection.DeletingAllUnselects | maxgui.mod/fltkmaxgui.mod/FL/Fl_Text_Buffer.H:225-229 | deleting the whole text (as replacing it does) unselects every non-empty selection |
| TextSelection.Updated | maxgui.mod/fltkmaxgui.mod/FL/Fl_Text_Buffer.H:91-98 | the update rule leaves an inactive selection alone, never activates one, and never changes the rectangular flag or the column range |
| TextSelection.Selection.constructor | maxgui.mod/fltkmaxgui.mod/FL/Fl_Text_Buffer.H:170-175 | a new selection is inactive, contiguous and empty at offset 0 |
| TextSelection.Selection.Set | maxgui.mod/fltkmaxgui.mod/FL/Fl_Text_Buffer.H:74-80 | the selection becomes the contiguous range between the two offsets in either order, active exactly when it is non-empty; the column range is kept |
| TextSelection.Selection.SetRectangular | maxgui.mod/fltkmaxgui.mod/FL/Fl_Text_Buffer.H:82-89 | the selection becomes rectangular with the given byte and column ranges, active exactly when the column range is non-empty |
| TextSelection.Selection.SetSelected | maxgui.mod/fltkmaxgui.mod/FL/Fl_Text_Buffer.H:135-141 | only the selected flag changes |
| TextSelection.Selection.Update | maxgui.mod/fltkmaxgui.mod/FL/Fl_Text_Buffer.H:91-98 | the fields become the NEdit update rule applied to the old ones |
| TextSelection.Selection.Includes | maxgui.mod/fltkmaxgui.mod/FL/Fl_Text_Buffer.H:143-147 | a position is included exactly when the selection is active and the position lies in it: in the byte range when contiguous, in the line range and the column range when rectangular |
| TextSelection.Selection.Position | maxgui.mod/fltkmaxgui.mod/FL/Fl_Text_Buffer.H:149-155 | reports whether the selection is active and, if so, its byte range |
| TextSelection.Selection.RectPosition | maxgui.mod/fltkmaxgui.mod/FL/Fl_Text_Buffer.H:157-166 | reports the active flag, the byte range, the rectangular flag and, for a rectangular selection, the column range |
| Callbacks.Added | maxgui.mod/fltkmaxgui.mod/FL/Fl_Text_Buffer.H:577-588 | the new registration is first and the older ones follow, in order |
| Callbacks.IndexOf | maxgui.mod/fltkmaxgui.mod/FL/Fl_Text_Buffer.H:590-594 | finds the first registration equal to the given one, or reports that there is none |
| Callbacks.RemoveFirst | maxgui.mod/fltkmaxgui.mod/FL/Fl_Text_Buffer.H:590-594 | removing a registration shortens the registry by one when it is present and keeps its length otherwise |
| Callbacks.RemoveFirstSpec | maxgui.mod/fltkmaxgui.mod/FL/Fl_Text_Buffer.H:590-594 | removing a present registration takes exactly one copy of it out; removing an absent one changes nothing |
| Callbacks.RemoveAtFirstMatch | maxgui.mod/fltkmaxgui.mod/FL/Fl_Text_Buffer.H:590-594 | cutting out the first match by index keeps the order of all other registrations |
| Callbacks.AddThenRemove | maxgui.mod/fltkmaxgui.mod/FL/Fl_Text_Buffer.H:577-594 | removing a registration right after adding it restores the registry |
| TextScan.FindForward | maxgui.mod/fltkmaxgui.mod/FL/Fl_Text_Buffer.H:740-750 | the first offset at or after the start holding one of the characters, or the text length; nothing in between matches |
| TextScan.FindBackward | maxgui.mod/fltkmaxgui.mod/FL/Fl_Text_Buffer.H:752-761 | the last offset before the start holding one of the characters, or -1; nothing in between matches |
| TextScan.LineStart | maxgui.mod/fltkmaxgui.mod/FL/Fl_Text_Buffer.H:632-636 | the start of the line holding `pos`: the text start or just after a newline, with no newline between it and `pos` |
| TextScan.LineEnd | maxgui.mod/fltkmaxgui.mod/FL/Fl_Text_Buffer.H:638-644 | the newline ending the line holding `pos`, or the text length, with no newline before it |
| TextScan.CountLinesCountsNewlines | maxgui.mod/fltkmaxgui.mod/FL/Fl_Text_Buffer.H:719-723 | count_lines counts exactly the newlines in [startPos, endPos), not the character at endPos |
| TextScan.CountLines | maxgui.mod/fltkmaxgui.mod/FL/Fl_Text_Buffer.H:719-723 | no more newlines are counted than there are bytes from the start to the end of the text |
| TextScan.SkipLinesReachesLineStart | maxgui.mod/fltkmaxgui.mod/FL/Fl_Text_Buffer.H:725-730 | skip_lines lands at a line start after passing exactly nLines newlines, or at the end of the text after passing at most nLines |
| TextScan.SkipLinesStopsAtFirst | maxgui.mod/fltkmaxgui.mod/FL/Fl_Text_Buffer.H:725-730 | skip_lines stops right after the nLines-th newline: the stretch before its last character holds fewer than nLines newlines |
| TextScan.SkipLines | maxgui.mod/fltkmaxgui.mod/FL/Fl_Text_Buffer.H:725-730 | the result never lies before the start and never past the text |
| TextScan.RewindLines | maxgui.mod/fltkmaxgui.mod/FL/Fl_Text_Buffer.H:732-738 | the result lies between the text start and startPos and is a line start |
| TextScan.RewindLinesReachesLineStart | maxgui.mod/fltkmaxgui.mod/FL/Fl_Text_Buffer.H:732-738 | rewind_lines lands at a line start with exactly nLines newlines before startPos, or at the text start after fewer |
| TextScan.RewindZeroIsLineStart | maxgui.mod/fltkmaxgui.mod/FL/Fl_Text_Buffer.H:732-738 | rewinding zero lines gives the start of the line holding startPos |
| TextScan.SkipOneLineIsPastLineEnd | maxgui.mod/fltkmaxgui.mod/FL/Fl_Text_Buffer.H:725-730 | skipping zero lines stays put; skipping one line lands just past the end of the current line |
| TextScan.SearchForward | maxgui.mod/fltkmaxgui.mod/FL/Fl_Text_Buffer.H:781-788 | the first offset at or after the start where the string occurs, or -1; no earlier offset matches |
| TextScan.SearchBackward | maxgui.mod/fltkmaxgui.mod/FL/Fl_Text_Buffer.H:790-797 | the occurrence ending closest at or before the start, or -1; no occurrence ends in between |
| Display.ControlNamesAreShort | maxgui.mod/fltkmaxgui.mod/FL/Fl_Text_Buffer.H:57-59 | every control-code name is two or three letters, so its expansion fits the expansion limit |
| Display.Spaces | maxgui.mod/fltkmaxgui.mod/FL/Fl_Text_Buffer.H:658-669 | a run of `n` spaces, the expansion of a tab |
| Display.TabWidth | maxgui.mod/fltkmaxgui.mod/FL/Fl_Text_Buffer.H:658-669 | a tab takes between 1 and tabDist columns |
| Display.TabReachesNextStop | maxgui.mod/fltkmaxgui.mod/FL/Fl_Text_Buffer.H:658-669 | a tab expands to exactly the next multiple of the tab distance |
| Display.ControlExpansion | maxgui.mod/fltkmaxgui.mod/FL/Fl_Text_Buffer.H:658-669 | a control code shows as its name in angle brackets, 4 or 5 characters |
| Display.ControlWidth | maxgui.mod/fltkmaxgui.mod/FL/Fl_Text_Buffer.H:658-669 | a control code takes 4 or 5 columns |
| Display.ControlWidthsMatchNames | maxgui.mod/fltkmaxgui.mod/FL/Fl_Text_Buffer.H:658-669 | the width of every control code is the length of its bracketed name |
| Display.ExpandCharacter | maxgui.mod/fltkmaxgui.mod/FL/Fl_Text_Buffer.H:671-685 | every character shows as at least one character; a tab as spaces up to the next tab stop; any other character as at most 5; a printable one as itself |
| Display.CharacterWidth | maxgui.mod/fltkmaxgui.mod/FL/Fl_Text_Buffer.H:687-696 | every character takes at least one column |
| Display.WidthIsExpansionLength | maxgui.mod/fltkmaxgui.mod/FL/Fl_Text_Buffer.H:687-696 | the width of a character is the length of its expansion |
| Display.ExpansionIsBounded | maxgui.mod/fltkmaxgui.mod/FL/Fl_Text_Buffer.H:57-59 | with a tab distance within the limit, no single character expands to more than FL_TEXT_MAX_EXP_CHAR_LEN (20) characters |
| Display.ColumnGrows | maxgui.mod/fltkmaxgui.mod/FL/Fl_Text_Buffer.H:698-705 | the displayed column grows by at least one for every character |
| Display.PlainTextColumn | maxgui.mod/fltkmaxgui.mod/FL/Fl_Text_Buffer.H:698-705 | on a stretch without tabs or control codes the displayed column is the byte count |
| Display.ColumnStep | maxgui.mod/fltkmaxgui.mod/FL/Fl_Text_Buffer.H:698-705 | each character advances the displayed column by exactly its width |
| Display.SkipDisplayedFromSpec | maxgui.mod/fltkmaxgui.mod/FL/Fl_Text_Buffer.H:707-716 | started at the column of `pos`, the forward display scan stops at a newline, at the end of the text, or at the first offset whose column reaches nChars, every earlier character beginning left of nChars |
| Display.SkipDisplayedFromOnLine | maxgui.mod/fltkmaxgui.mod/FL/Fl_Text_Buffer.H:707-716 | the forward display scan never passes a newline |
| Display.SkipDisplayedFrom | maxgui.mod/fltkmaxgui.mod/FL/Fl_Text_Buffer.H:707-716 | the loop of skip_displayed_characters as a recursion: the scan never moves backwards and stays in the text |
| Display.SkipDisplayedIsFirstReaching | maxgui.mod/fltkmaxgui.mod/FL/Fl_Text_Buffer.H:707-716 | skip_displayed_characters returns the first offset of the line whose column reaches nChars, or the end of the line |
| Display.SkipDisplayedCharacters | maxgui.mod/fltkmaxgui.mod/FL/Fl_Text_Buffer.H:707-716 | the result lies between the line start and the text length |
| Display.SelStartFrom | maxgui.mod/fltkmaxgui.mod/FL/Fl_Text_Buffer.H:925-942 | the left-edge scan never moves backwards and stays in the text |
| Display.SelStartFromSpec | maxgui.mod/fltkmaxgui.mod/FL/Fl_Text_Buffer.H:925-942 | started left of rectStart, the left-edge scan reports the column of the offset it stops at; the character just before that offset begins left of rectStart, and if it is a tab it ends at or before rectStart |
| Display.SelStartFromStops | maxgui.mod/fltkmaxgui.mod/FL/Fl_Text_Buffer.H:925-942 | the scan stops at a character that begins at or after rectStart, or is a tab, and ends past rectStart: a tab crossing rectStart is included, a control code crossing it is not |
| Display.SelEndFromSpec | maxgui.mod/fltkmaxgui.mod/FL/Fl_Text_Buffer.H:925-942 | the last character the right-edge scan keeps, unless it is the first, begins at or before rectEnd; it never begins exactly at rectEnd; and if it is a tab it ends at or before rectEnd |
| Display.SelEndFromStops | maxgui.mod/fltkmaxgui.mod/FL/Fl_Text_Buffer.H:925-942 | the scan stops at a character that is a tab, begins exactly at rectEnd, or begins past it, and ends past rectEnd: a tab crossing rectEnd is left off |
| Display.SelStartFromOnLine | maxgui.mod/fltkmaxgui.mod/FL/Fl_Text_Buffer.H:925-942 | the left-edge scan never passes a newline |
| Display.SelEndFromOnLine | maxgui.mod/fltkmaxgui.mod/FL/Fl_Text_Buffer.H:925-942 | the right-edge scan never passes a newline |
| Display.RectangularBoundariesOnLine | maxgui.mod/fltkmaxgui.mod/FL/Fl_Text_Buffer.H:925-942 | the covered range starts at or after the line start and ends at or before the line end, start before end |
| Display.RectangularBoundariesLeft | maxgui.mod/fltkmaxgui.mod/FL/Fl_Text_Buffer.H:925-942 | the start is the left edge of the rectangle on its line: every character before it begins left of rectStart, a tab just before it ends by rectStart, and the character at it begins at or after rectStart or is a tab, and ends past rectStart |
| Display.RectangularBoundariesRight | maxgui.mod/fltkmaxgui.mod/FL/Fl_Text_Buffer.H:925-942 | the end is the right edge: every covered character after the start begins by rectEnd, the last covered one does not begin at rectEnd, a covered tab ends by rectEnd, and the first uncovered character of the line is a tab or begins at or past rectEnd, and ends past rectEnd |
| Display.RectangularBoundariesSpec | maxgui.mod/fltkmaxgui.mod/FL/Fl_Text_Buffer.H:925-942 | the boundaries lie on the line in order, and they are the left edge and the right edge of the rectangle as the two lemmas above state them |
| Display.LeftEdgeIsUnique | maxgui.mod/fltkmaxgui.mod/FL/Fl_Text_Buffer.H:925-942 | a line has only one offset that meets the left-edge conditions |
| Display.RightEdgeIsUnique | maxgui.mod/fltkmaxgui.mod/FL/Fl_Text_Buffer.H:925-942 | from a given start, a line has only one offset that meets the right-edge conditions |
| Display.RectangularBoundariesAreTheEdges | maxgui.mod/fltkmaxgui.mod/FL/Fl_Text_Buffer.H:925-942 | conversely, any pair of offsets on the line meeting the left-edge and right-edge conditions is exactly what rectangular_selection_boundaries returns |
| Display.SelEndFrom | maxgui.mod/fltkmaxgui.mod/FL/Fl_Text_Buffer.H:925-942 | the right-edge scan never moves backwards and stays in the text |
| Display.RectangularSelectionBoundaries | maxgui.mod/fltkmaxgui.mod/FL/Fl_Text_Buffer.H:925-942 | the two boundaries are in order, from the line start to at most the text length |
| TextBuffers.Clamp | maxgui.mod/fltkmaxgui.mod/FL/Fl_Text_Buffer.H:283-288 | an offset is clamped into [0, length] and left alone when already inside |
| TextBuffers.UpdatedAllKeepsInBounds | maxgui.mod/fltkmaxgui.mod/FL/Fl_Text_Buffer.H:944-948 | updating the three selections for an edit keeps every active one inside the edited text |
| TextBuffers.RemoveUndoesInsert | maxgui.mod/fltkmaxgui.mod/FL/Fl_Text_Buffer.H:270-288 | removing the inserted range after an insertion restores the text |
| TextBuffers.DeletedTextUndoesRemove | maxgui.mod/fltkmaxgui.mod/FL/Fl_Text_Buffer.H:283-288 | inserting the deleted text a removal reports, where it was removed, restores the text |
| TextBuffers.ReplaceIsRemoveThenInsert | maxgui.mod/fltkmaxgui.mod/FL/Fl_Text_Buffer.H:290-296 | a replacement is the removal of the range followed by the insertion at its start |
| TextBuffers.TextBuffer.constructor | maxgui.mod/fltkmaxgui.mod/FL/Fl_Text_Buffer.H:194-204 | a new buffer is empty and its whole block is a gap of preferredGapSize bytes; tabs every 8 columns, no selection, no callback, undo enabled, cursor hint 0; requestedSize defaults to 0 and preferredGapSize to 1024 |
| TextBuffers.TextBuffer.Length | maxgui.mod/fltkmaxgui.mod/FL/Fl_Text_Buffer.H:210-215 | the length is the number of bytes of text |
| TextBuffers.TextBuffer.Address | maxgui.mod/fltkmaxgui.mod/FL/Fl_Text_Buffer.H:251-261 | the storage index of an offset in the text is outside the gap and holds that offset's byte |
| TextBuffers.TextBuffer.Character | maxgui.mod/fltkmaxgui.mod/FL/Fl_Text_Buffer.H:243-249 | the byte at an offset in the text, NUL outside it |
| TextBuffers.TextBuffer.CopyText | maxgui.mod/fltkmaxgui.mod/FL/Fl_Text_Buffer.H:217-223 | a copy of the whole text |
| TextBuffers.TextBuffer.TextRange | maxgui.mod/fltkmaxgui.mod/FL/Fl_Text_Buffer.H:231-241 | the bytes between two offsets given in either order with the end cut to the text; empty when the start is outside the text |
| TextBuffers.TextBuffer.MoveGap | maxgui.mod/fltkmaxgui.mod/FL/Fl_Text_Buffer.H:898-902 | the text and the gap size are kept and the gap now starts at `pos` |
| TextBuffers.TextBuffer.ReallocateWithGap | maxgui.mod/fltkmaxgui.mod/FL/Fl_Text_Buffer.H:904-909 | a fresh block with the same text and a gap of newGapLen bytes at newGapStart |
| TextBuffers.TextBuffer.MoveGapToRange | maxgui.mod/fltkmaxgui.mod/FL/Fl_Text_Buffer.H:846-852 | the text and gap size are kept and the gap now touches [start, end) |
| TextBuffers.TextBuffer.OpenGap | maxgui.mod/fltkmaxgui.mod/FL/Fl_Text_Buffer.H:836-844 | the text is kept, the gap starts at `pos` and holds at least `n` bytes |
| TextBuffers.TextBuffer.InsertBytes | maxgui.mod/fltkmaxgui.mod/FL/Fl_Text_Buffer.H:836-844 | the text becomes the old text with the bytes inserted at `pos`, and the gap follows them |
| TextBuffers.TextBuffer.RemoveBytes | maxgui.mod/fltkmaxgui.mod/FL/Fl_Text_Buffer.H:846-852 | the text loses exactly [start, end) and the gap starts at `start`, widened by the range |
| TextBuffers.TextBuffer.UpdateSelections | maxgui.mod/fltkmaxgui.mod/FL/Fl_Text_Buffer.H:944-948 | each of the three selections is adjusted by the NEdit update rule |
| TextBuffers.TextBuffer.Insert_ | maxgui.mod/fltkmaxgui.mod/FL/Fl_Text_Buffer.H:836-844 | inserts the text at `pos`, returns its length, grows the length by it, leaves the gap after it and updates the selections; an empty text changes nothing |
| TextBuffers.TextBuffer.Remove_ | maxgui.mod/fltkmaxgui.mod/FL/Fl_Text_Buffer.H:846-852 | removes exactly [start, end), leaves the gap at start widened by the range, and updates the selections |
| TextBuffers.TextBuffer.Insert | maxgui.mod/fltkmaxgui.mod/FL/Fl_Text_Buffer.H:270-275 | inserts at the clamped position; a non-empty insertion reports a pre-delete of 0 bytes and a modify notice for the inserted bytes and leaves the cursor hint after them; an empty one does nothing |
| TextBuffers.TextBuffer.Append | maxgui.mod/fltkmaxgui.mod/FL/Fl_Text_Buffer.H:277-281 | the text becomes the old text followed by the appended bytes, as an insertion at the length |
| TextBuffers.TextBuffer.Remove | maxgui.mod/fltkmaxgui.mod/FL/Fl_Text_Buffer.H:283-288 | removes exactly the clamped range given in either order; the notices carry the deleted text and the cursor hint goes to the range start; an empty range does nothing |
| TextBuffers.TextBuffer.Replace | maxgui.mod/fltkmaxgui.mod/FL/Fl_Text_Buffer.H:290-296 | replaces [start, end), clamped, by the text; one pre-delete and one modify notice with the deleted text; the selections see the removal then the insertion; cursor hint after the new text |
| TextBuffers.TextBuffer.ReplaceRange | maxgui.mod/fltkmaxgui.mod/FL/Fl_Text_Buffer.H:290-296 | on a range inside the text: the bytes are replaced and the selections follow the removal then the insertion |
| TextBuffers.TextBuffer.SetText | maxgui.mod/fltkmaxgui.mod/FL/Fl_Text_Buffer.H:225-229 | the text becomes exactly the new string in a fresh block with the gap at its end; the selections are adjusted as for deleting the old text; the notices carry the old text |
| TextBuffers.TextBuffer.Copy | maxgui.mod/fltkmaxgui.mod/FL/Fl_Text_Buffer.H:298-303 | the bytes [fromStart, fromEnd) of the source buffer, which may be this one, are inserted at toPos; the gap ends up after them; no notice |
| TextBuffers.TextBuffer.CanUndo | maxgui.mod/fltkmaxgui.mod/FL/Fl_Text_Buffer.H:312-315 | records whether undo is allowed; the flag defaults to on |
| TextBuffers.TextBuffer.TabDistance | maxgui.mod/fltkmaxgui.mod/FL/Fl_Text_Buffer.H:407-411 | returns the tab distance |
| TextBuffers.TextBuffer.SetTabDistance | maxgui.mod/fltkmaxgui.mod/FL/Fl_Text_Buffer.H:413-418 | sets the tab distance and reports the whole text as deleted and reinserted so that displays redraw |
| TextBuffers.TextBuffer.SelectIn | maxgui.mod/fltkmaxgui.mod/FL/Fl_Text_Buffer.H:420-424 | the selection becomes the range between the two offsets in either order, active exactly when non-empty, and the buffer invariant holds |
| TextBuffers.TextBuffer.SelectRectangularIn | maxgui.mod/fltkmaxgui.mod/FL/Fl_Text_Buffer.H:437-441 | the selection becomes rectangular with the given ranges |
| TextBuffers.TextBuffer.UnselectIn | maxgui.mod/fltkmaxgui.mod/FL/Fl_Text_Buffer.H:431-435 | only the selected flag is cleared |
| TextBuffers.TextBuffer.SelectionText_ | maxgui.mod/fltkmaxgui.mod/FL/Fl_Text_Buffer.H:911 | for an inactive or contiguous selection: the text the selection covers, or empty when it is inactive |
| TextBuffers.TextBuffer.RemoveSelection_ | maxgui.mod/fltkmaxgui.mod/FL/Fl_Text_Buffer.H:913-917 | for an inactive or contiguous selection: nothing changes when it is inactive or empty; otherwise the selected bytes are cut out, the callbacks hear of the deletion with the deleted text, the cursor hint goes to the range start and the three selections follow the update rule |
| TextBuffers.TextBuffer.ReplaceSelection_ | maxgui.mod/fltkmaxgui.mod/FL/Fl_Text_Buffer.H:919-923 | for an inactive or contiguous selection: nothing changes when it is inactive; otherwise the selected bytes are replaced as replace does, with its notices and cursor hint, the three selections follow the removal then the insertion, and the replaced selection ends inactive |
| TextBuffers.TextBuffer.Select | maxgui.mod/fltkmaxgui.mod/FL/Fl_Text_Buffer.H:420-424 | sets the primary selection |
| TextBuffers.TextBuffer.Selected | maxgui.mod/fltkmaxgui.mod/FL/Fl_Text_Buffer.H:426-429 | reports the primary selection's flag |
| TextBuffers.TextBuffer.Unselect | maxgui.mod/fltkmaxgui.mod/FL/Fl_Text_Buffer.H:431-435 | deactivates the primary selection, keeping its ranges |
| TextBuffers.TextBuffer.SelectRectangular | maxgui.mod/fltkmaxgui.mod/FL/Fl_Text_Buffer.H:437-441 | sets the primary selection to a rectangle |
| TextBuffers.TextBuffer.SelectionPosition | maxgui.mod/fltkmaxgui.mod/FL/Fl_Text_Buffer.H:443-447 | the primary selection's flag and byte range, which lies inside the text |
| TextBuffers.TextBuffer.RectSelectionPosition | maxgui.mod/fltkmaxgui.mod/FL/Fl_Text_Buffer.H:449-454 | the primary selection's flag, range, rectangular flag and columns |
| TextBuffers.TextBuffer.SelectionText | maxgui.mod/fltkmaxgui.mod/FL/Fl_Text_Buffer.H:456-461 | the primary selection's text, or empty, when it is not an active rectangle |
| TextBuffers.TextBuffer.RemoveSelection | maxgui.mod/fltkmaxgui.mod/FL/Fl_Text_Buffer.H:463-467 | remove_selection_ on the primary selection: its bytes are cut out with the notices, cursor hint and selection updates of a removal; nothing changes when it is inactive or empty |
| TextBuffers.TextBuffer.ReplaceSelection | maxgui.mod/fltkmaxgui.mod/FL/Fl_Text_Buffer.H:469-473 | replace_selection_ on the primary selection: its bytes are replaced with the notices and cursor hint of a replacement, the selections follow the removal then the insertion, and the primary one ends inactive |
| TextBuffers.TextBuffer.SecondarySelect | maxgui.mod/fltkmaxgui.mod/FL/Fl_Text_Buffer.H:475-479 | sets the secondary selection |
| TextBuffers.TextBuffer.SecondarySelected | maxgui.mod/fltkmaxgui.mod/FL/Fl_Text_Buffer.H:481-485 | reports the secondary selection's flag |
| TextBuffers.TextBuffer.SecondaryUnselect | maxgui.mod/fltkmaxgui.mod/FL/Fl_Text_Buffer.H:487-491 | deactivates the secondary selection |
| TextBuffers.TextBuffer.SecondarySelectRectangular | maxgui.mod/fltkmaxgui.mod/FL/Fl_Text_Buffer.H:493-498 | sets the secondary selection to a rectangle |
| TextBuffers.TextBuffer.SecondarySelectionPosition | maxgui.mod/fltkmaxgui.mod/FL/Fl_Text_Buffer.H:500-504 | the secondary selection's flag and byte range, inside the text |
| TextBuffers.TextBuffer.RectSecondarySelectionPosition | maxgui.mod/fltkmaxgui.mod/FL/Fl_Text_Buffer.H:506-511 | the secondary selection's flag, range, rectangular flag and columns |
| TextBuffers.TextBuffer.SecondarySelectionText | maxgui.mod/fltkmaxgui.mod/FL/Fl_Text_Buffer.H:513-518 | the secondary selection's text, or empty, when it is not an active rectangle |
| TextBuffers.TextBuffer.RemoveSecondarySelection | maxgui.mod/fltkmaxgui.mod/FL/Fl_Text_Buffer.H:520-524 | remove_selection_ on the secondary selection, with the same notices, cursor hint and selection updates |
| TextBuffers.TextBuffer.ReplaceSecondarySelection | maxgui.mod/fltkmaxgui.mod/FL/Fl_Text_Buffer.H:526-531 | replace_selection_ on the secondary selection, with the same notices, cursor hint and selection updates, the secondary one ending inactive |
| TextBuffers.TextBuffer.Highlight | maxgui.mod/fltkmaxgui.mod/FL/Fl_Text_Buffer.H:533-537 | sets the highlight selection |
| TextBuffers.TextBuffer.Highlighted | maxgui.mod/fltkmaxgui.mod/FL/Fl_Text_Buffer.H:539-543 | reports the highlight selection's flag |
| TextBuffers.TextBuffer.Unhighlight | maxgui.mod/fltkmaxgui.mod/FL/Fl_Text_Buffer.H:545-549 | deactivates the highlight selection |
| TextBuffers.TextBuffer.HighlightRectangular | maxgui.mod/fltkmaxgui.mod/FL/Fl_Text_Buffer.H:551-555 | sets the highlight selection to a rectangle |
| TextBuffers.TextBuffer.HighlightPosition | maxgui.mod/fltkmaxgui.mod/FL/Fl_Text_Buffer.H:557-561 | the highlight selection's flag and byte range, inside the text |
| TextBuffers.TextBuffer.RectHighlightPosition | maxgui.mod/fltkmaxgui.mod/FL/Fl_Text_Buffer.H:563-568 | the highlight selection's flag, range, rectangular flag and columns |
| TextBuffers.TextBuffer.HighlightText | maxgui.mod/fltkmaxgui.mod/FL/Fl_Text_Buffer.H:570-575 | the highlighted text, or empty, when the highlight is not an active rectangle |
| TextBuffers.TextBuffer.AddModifyCallback | maxgui.mod/fltkmaxgui.mod/FL/Fl_Text_Buffer.H:577-588 | the registration is added in front of the modify registry |
| TextBuffers.TextBuffer.RemoveModifyCallback | maxgui.mod/fltkmaxgui.mod/FL/Fl_Text_Buffer.H:590-594 | removes the first matching modify registration; reports failure and changes nothing when there is none |
| TextBuffers.TextBuffer.AddPredeleteCallback | maxgui.mod/fltkmaxgui.mod/FL/Fl_Text_Buffer.H:604-608 | the registration is added in front of the pre-delete registry |
| TextBuffers.TextBuffer.RemovePredeleteCallback | maxgui.mod/fltkmaxgui.mod/FL/Fl_Text_Buffer.H:610-615 | removes the first matching pre-delete registration; reports failure and changes nothing when there is none |
| TextBuffers.TextBuffer.FindcharForward | maxgui.mod/fltkmaxgui.mod/FL/Fl_Text_Buffer.H:740-750 | searches from startPos inclusive; the match, or not found with foundPos at the length |
| TextBuffers.TextBuffer.FindcharBackward | maxgui.mod/fltkmaxgui.mod/FL/Fl_Text_Buffer.H:752-761 | searches from the byte before startPos; the match, or not found with foundPos 0 |
| TextBuffers.TextBuffer.FindcharsForward | maxgui.mod/fltkmaxgui.mod/FL/Fl_Text_Buffer.H:763-770 | the first byte at or after startPos in the set, or not found with foundPos at the length |
| TextBuffers.TextBuffer.FindcharsBackward | maxgui.mod/fltkmaxgui.mod/FL/Fl_Text_Buffer.H:772-779 | the last byte before startPos in the set, or not found with foundPos 0 |
| TextBuffers.TextBuffer.LineStart | maxgui.mod/fltkmaxgui.mod/FL/Fl_Text_Buffer.H:632-636 | the start of the line holding the clamped position |
| TextBuffers.TextBuffer.LineEnd | maxgui.mod/fltkmaxgui.mod/FL/Fl_Text_Buffer.H:638-644 | the newline ending the line holding the clamped position, or the length |
| TextBuffers.TextBuffer.LineText | maxgui.mod/fltkmaxgui.mod/FL/Fl_Text_Buffer.H:624-630 | the whole line holding the position, without newline |
| TextBuffers.TextBuffer.CountLines | maxgui.mod/fltkmaxgui.mod/FL/Fl_Text_Buffer.H:719-723 | the newlines from startPos up to, not including, endPos |
| TextBuffers.TextBuffer.SkipLines | maxgui.mod/fltkmaxgui.mod/FL/Fl_Text_Buffer.H:725-730 | the start of the line nLines forward, or the end of the text |
| TextBuffers.TextBuffer.RewindLines | maxgui.mod/fltkmaxgui.mod/FL/Fl_Text_Buffer.H:732-738 | the start of the line nLines back; zero lines back is the start of the current line |
| TextBuffers.TextBuffer.WordStart | maxgui.mod/fltkmaxgui.mod/FL/Fl_Text_Buffer.H:646-650 | when the byte at pos is a word byte: the start of its word, every byte from it to pos a word byte and the byte before it not; otherwise, including every offset outside the text (whose byte reads as NUL), pos + 1 |
| TextBuffers.TextBuffer.WordEnd | maxgui.mod/fltkmaxgui.mod/FL/Fl_Text_Buffer.H:652-656 | for an offset in [0, length]: the first non-word byte at or after pos, or the length, every byte in between a word byte; any other offset is returned unchanged |
| TextBuffers.TextBuffer.ExpandCharacter | maxgui.mod/fltkmaxgui.mod/FL/Fl_Text_Buffer.H:658-669 | the expansion of the byte at pos: as long as its width and, with a tab distance within the limit, at most 20 characters |
| TextBuffers.TextBuffer.CountDisplayedCharacters | maxgui.mod/fltkmaxgui.mod/FL/Fl_Text_Buffer.H:698-705 | the displayed column of targetPos counted from lineStartPos, tabs and control codes expanded |
| TextBuffers.TextBuffer.SkipDisplayedCharacters | maxgui.mod/fltkmaxgui.mod/FL/Fl_Text_Buffer.H:707-716 | the offset reached after nChars displayed columns, stopping at a newline or the end |
| TextBuffers.TextBuffer.RectangularSelectionBoundaries | maxgui.mod/fltkmaxgui.mod/FL/Fl_Text_Buffer.H:925-942 | the byte range of the line that the column range covers: the left and right edges of RectangularBoundariesSpec, and the only such pair by RectangularBoundariesAreTheEdges |

## Left out

- File I/O (`insertfile`, `appendfile`, `loadfile`, `outputfile`, `savefile`): these are operating-system file handles and error reporting.
- Undo (`undo`): its state is not among the buffer's declared fields; only the `mCanUndo` flag is modelled.
- Invoking callbacks (`call_modify_callbacks`, `call_predelete_callbacks`) and `redisplay_selection`: callbacks are foreign function pointers. Mutators instead return the notices they would deliver, and registrations are identified by number.
- UTF-8: bytes are Dafny `char`s. There is no UTF-8 decoding in `character` and no character-boundary checks.
- Case-insensitive matching in `search_forward` / `search_backward`: only `matchCase` matching is modelled, as the functions `TextScan.SearchForward` and `TextScan.SearchBackward` over the text rather than as loops over the storage.
- `text_in_rectangle` and the rectangular editing operations (`insert_column`, `overlay_rectangular`, `replace_rectangular`, `remove_rectangular`, `clear_rectangular` and their `_` forms): they rewrite lines with tab and space padding. Their algorithm is not described by the header beyond one line each. `rectangular_selection_boundaries`, which they build on, is modelled.
- `SelectionText_`, `SelectionText`, `SecondarySelectionText`, `HighlightText`: these require that an active selection is not rectangular. For an active rectangle the source returns `text_in_rectangle`, which is left out above.
- `RemoveSelection_`, `ReplaceSelection_` and their public forms: these require that an active selection is not rectangular. For an active rectangle the source goes through `remove_rectangular` and `replace_rectangular`, which are left out above.
- `Select`, `SecondarySelect`, `Highlight` and the rectangular forms: these require an active result to lie inside the text. The source does not check this, but later selection edits index the text with those offsets.
- `Replace`: requires `start <= end`, `start <= length()` and `end >= 0`. The source clamps only the lower end of `start` and the upper end of `end`, so it assumes the rest.
- `FindcharsForward`, `FindcharsBackward`, `CountLines`, `SkipLines`, `RewindLines`: these require a start offset the source can index without reading outside the block. `SkipLines` and `RewindLines` also require `nLines >= 0`.
- `RewindLines`: follows the header's description (zero lines back is the start of the current line) for every start offset. The NEdit engine instead returns 0 at once when startPos <= 1. So rewinding zero lines from offset 1 after a leading newline gives 0 there and 1 here.
- `CountDisplayedCharacters`, `SkipDisplayedCharacters`, `RectangularSelectionBoundaries`, `ExpandCharacter`: these require a positive tab distance. A zero distance would divide by zero in the tab expansion.
- `TextRange`: requires a non-negative end whenever the start lies in the text. The source then swaps the two offsets and would copy from before the start of the block.
- `CountDisplayedCharacters`: requires `lineStartPos` in the text and `targetPos` at most the length. The source reads each byte in between without a range check, so other offsets read outside the text.
- `SkipDisplayedCharacters`, `RectangularSelectionBoundaries`: require `lineStartPos` in the text, for the same reason.
- `Display.ExpansionIsBounded`: proves the FL_TEXT_MAX_EXP_CHAR_LEN bound only for tab distances up to 20. A wider tab expands to more characters.
- `TextBuffer.constructor`: does not model the `requestedSize` preallocation. The source reserves that much extra room past the gap, which the text layout never uses until the block is reallocated. Here the block is exactly the initial gap of preferredGapSize bytes.
- `Copy`: reads the source range before opening the gap. The source reads it after moving the gap, which gives the same bytes because the gap never holds text.
- `primary_selection`, `secondary_selection`, `highlight_selection`: these return the selection objects themselves; the model reads their fields directly.
- malloc/free of returned strings and blocks: results are sequences and fresh arrays.
- `mUseTabs`: kept as a field. It only matters to the rectangular editing operations left out above.
- Fl_Cairo.H, Fl_Sys_Menu_Bar.H, Fl_Multiline_Output.H: platform wrappers with no buffer logic.
- `AddModifyCallback`, `AddPredeleteCallback`: the header does not say where a new registration goes. It goes first, as in the NEdit engine the buffer derives from.
