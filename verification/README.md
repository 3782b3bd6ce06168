# A model of the text editor, the growable array and the renderer of this ImGui base

The repository bundles a source-code text editor on top of Dear ImGui. This project models that
editor as a class over lines of coloured bytes, and proves its methods against functions on the flat
text: the lines joined by newlines. Two smaller parts go with it: `ImVector`, the growable array of the
library, and the buffer merge of the DirectX 9 renderer.

How the modules build on each other:

- `Utf8`, `Columns`, `Documents`, `Positions`: bytes and code sequences, tab-aware columns, lines and
  flat text, line/column coordinates and the offsets they denote.
- `Editing`: what every edit, undo and redo means for the flat text, the cursor and the undo buffer.
- `EditEffects`: what each edit makes of the text and where it leaves cursor and selection.
- `Records`, `ExactEdits`, `Pasting`, `Indenting`: exactly when the undo record of an edit describes it
  fully. `Inverses`: insertion and deletion undo each other. `Caret`: moving character by character.
- `History`: runs of edits, undo and redo walk along a history of texts and states. `Reachable`: what every run keeps.
  `Applicable`: which runs never get stuck. `LineMoves`, `Recolouring`: how edits, Undo and Redo renumber lines, and
  which lines then wait for recolouring.
  `Witnesses`: concrete editors on which a property fails whose exact condition is proved elsewhere.
- `Glyphs`, `Words`, `Buffer`, `EditSteps`: the line buffer and its relation to the flat text.
- `Tokenizers`, `Coloring`, `Comments`, `CommentMeaning`, `ColorRange`: the C and C++ tokenizers, the
  colouring scan, the comment pass and the range of lines waiting for it.
- `Editor`: the class `TextEditor`, with the loops and in-place updates of the source.
- `Vectors`: `ImVector`. `Renderer`: the DirectX 9 buffer merge.

The text is a sequence of bytes. A line never holds a newline, a carriage return or a NUL, and is a
concatenation of complete code sequences as in section 3 of RFC 3629, including the 5- and 6-byte forms
of section 2 of RFC 2279 that UTF8CharLength accepts. A coordinate is aligned when its column starts a
character or ends the line; a column inside a tab is legal but not aligned.

Some things the code does differently from what one would expect; the model follows the code, and
`Witnesses` has inputs for the failures among edits, runs and passes:

- InsertTextAt counts a tab as one column, so the coordinate it leaves behind may lie before the end of
  what it inserted (`Pasting.CountedResolves`, `Inverses.DeleteUndoesInsert`).
- Backspace records a tab as one column wide, so undoing it goes wrong for wider tabs
  (`ExactEdits.BackspaceExact`).
- A line break records only the newline, not the indentation it copies (`ExactEdits.EnterNewlineExact`).
- Typing an unencodable character over a selection deletes the selection without a record, and overwriting
  right behind a deleted selection records the end of the removed text after the deletion, where it is right
  only for a tab that swallows the whole selection (`ExactEdits.EnterPrintableExact`).
- When that selection spans lines, later records may name lines that are gone; but for the next item this is
  the only way for a run of edits, Undo and Redo to get stuck (`Applicable.RunNeverStuck`,
  `Witnesses.LostLinesGetStuck`).
- With the cursor inside a tab that ends its line, Delete reads behind the end of the line
  (`Reachable.ReadsPastEndIff`).
- The comment pass writes behind the end of a line that ends, in a string, with a backslash
  (`CommentMeaning.OverrunsIff`), and two slashes or a quotation mark inside a comment count as such.
- The range of lines to recolour is not shifted when lines move, so a waiting line may move beyond it
  (`LineMoves.OneMoveWaits`, `Recolouring.RunWaits`), also in the course of Undo(n).
- Redo asks for one line less than Undo: the last line of an insertion, the line of a deletion within one line,
  and the line of a replacement within one line are not asked for (`Recolouring.RedoRecolours`). Indenting asks
  for nothing, and Undo misses lines when the recorded end is wrong (`Recolouring.UndoRecolours`).
- MoveRight keeps the index of the line it leaves, so that several moves at once may go too far
  (`Caret.RightInStep`).
- Word mode may end before the place asked for: behind the blanks that begin a line, and among blanks of another
  colour than the word before them (`Words.WordCovers`, `Words.WordBehindBlank`).
- The rest of a line may overtake a selection that starts beyond its line end (`EditEffects.SelectionGoes`).
- SetText keeps the selection, which may end below the new text (`Applicable.ClearedTracked`).
- A frame of the renderer that cannot lock a buffer does not release the backup of the device state.
- Assigning an `ImVector` to itself empties it (`Vectors.ImVector.Assign`).
- A comment end closes a comment also behind a single-line comment marker
  (`CommentMeaning.InCommentMeans`).

Some proofs withhold definitions they do not need from the solver with `hide`; this only keeps them short
and quick.

## Model

| member | source | states |
|---|---|---|
| Utf8.MasksAreRanges | ImGui-Internal-Base/imgui/TextEditor.cpp:117-130 | for every byte, the length and continuation ranges of the model are the bit masks of UTF8CharLength and IsUTFSequence |
| Utf8.FramedIsConcatenation | ImGui-Internal-Base/imgui/TextEditor.cpp:116-130 | a string is framed if and only if it is a concatenation of complete code sequences |
| Utf8.NextBoundary | ImGui-Internal-Base/imgui/TextEditor.cpp:117-130 | stepping by UTF8CharLength from a character boundary reaches the next boundary, with none between |
| Utf8.PreviousOfNext | ImGui-Internal-Base/imgui/TextEditor.cpp:1387-1399 | stepping back over continuation bytes finds the character whose step forward leads back |
| Utf8.NextOfPrevious | ImGui-Internal-Base/imgui/TextEditor.cpp:1387-1399 | and a step forward followed by a step back is the identity on boundaries |
| Utf8.EncodingRoundTrip | ImGui-Internal-Base/imgui/TextEditor.cpp:132-165 | typed characters become exactly one complete code sequence carrying the character; only trailing surrogates are refused |
| Columns.NextStopFormula | ImGui-Internal-Base/imgui/TextEditor.cpp:429-443 | the next tab stop is the smallest multiple of the tab size beyond the column, as the source computes it |
| Columns.IndexIsFirstBoundary | ImGui-Internal-Base/imgui/TextEditor.cpp:429-443 | GetCharacterIndex returns a boundary if and only if it is the first whose column is at least the requested one, or the line end |
| Columns.IndexOfColumn | ImGui-Internal-Base/imgui/TextEditor.cpp:429-460 | index to column to index is the identity on character boundaries |
| Columns.ColumnOfIndex | ImGui-Internal-Base/imgui/TextEditor.cpp:429-460 | column to index to column rounds up inside a tab to its stop, clips at the line end, and is the identity exactly on columns of boundaries |
| Columns.IndexMonotone | ImGui-Internal-Base/imgui/TextEditor.cpp:429-443 | a larger column never resolves to a smaller index |
| Columns.IndexOfMaxColumn | ImGui-Internal-Base/imgui/TextEditor.cpp:472-486 | every column from GetLineMaxColumn on denotes the line end |
| Columns.InsideLastTab | ImGui-Internal-Base/imgui/TextEditor.cpp:429-443 | a column left of the line end resolves to the line end if and only if it lies inside a tab that ends the line |
| Columns.ColumnMonotone | ImGui-Internal-Base/imgui/TextEditor.cpp:445-460 | later characters have larger columns |
| Editor.TextEditor.GetCharacterIndex | ImGui-Internal-Base/imgui/TextEditor.cpp:429-443 | the loop finds that boundary, and answers -1 below the last line |
| Editor.TextEditor.GetCharacterColumn | ImGui-Internal-Base/imgui/TextEditor.cpp:445-460 | the loop computes the column function |
| Editor.TextEditor.GetLineMaxColumn | ImGui-Internal-Base/imgui/TextEditor.cpp:472-486 | it is the column of the line end |
| Documents.FlatLines | ImGui-Internal-Base/imgui/TextEditor.cpp:1027-1048 | splitting a text at its newlines and joining the lines again is the identity |
| Documents.LinesFlat | ImGui-Internal-Base/imgui/TextEditor.cpp:1850-1867 | and so is joining lines without newlines and splitting |
| Documents.FlatBetween | ImGui-Internal-Base/imgui/TextEditor.cpp:58-89 | the flat text between two positions is the slices of the lines joined by newlines |
| Documents.CharAt | ImGui-Internal-Base/imgui/TextEditor.cpp:58-89 | what a read of the flat text meets at a position: a character, the newline of the line, or the end |
| Positions.DenotesAt | ImGui-Internal-Base/imgui/TextEditor.cpp:429-460 | the coordinate of the end of a prefix resolves to the length of that prefix, whatever follows |
| Positions.AlignedDenotes | ImGui-Internal-Base/imgui/TextEditor.cpp:429-460 | every aligned coordinate is the coordinate of the prefix it resolves to |
| Positions.AtMonotone | ImGui-Internal-Base/imgui/TextEditor.h:79-103 | ordered coordinates resolve to ordered offsets |
| Positions.DenotesOrder | ImGui-Internal-Base/imgui/TextEditor.h:72-103 | on aligned coordinates the comparison operators are those of the offsets |
| Positions.SanitizeAligned | ImGui-Internal-Base/imgui/TextEditor.cpp:95-109 | sanitizing keeps aligned coordinates, and whatever it changes becomes aligned |
| Positions.SanitizeIsLast | ImGui-Internal-Base/imgui/TextEditor.cpp:95-109 | sanitizing finds the last place of the document that is not beyond the coordinate |
| Editor.TextEditor.SanitizeCoordinates | ImGui-Internal-Base/imgui/TextEditor.cpp:95-109 | clips to the last line and to the line end |
| Editor.TextEditor.GetText | ImGui-Internal-Base/imgui/TextEditor.cpp:58-89 | the slice of the flat text between the offsets of both coordinates; one more newline for an end below the last line; nothing from a start below it or backwards within a line; and from a start below the end, what lies up to the first line that reaches the index of the end |
| Editor.TextEditor.GetAllText | ImGui-Internal-Base/imgui/TextEditor.cpp:1846-1848 | the text followed by one newline |
| Editor.TextEditor.GetTextLines | ImGui-Internal-Base/imgui/TextEditor.cpp:1850-1867 | exactly the lines of the document |
| Editor.TextEditor.GetSelectedText | ImGui-Internal-Base/imgui/TextEditor.cpp:1869-1871 | the flat text between the selection ends, with one more newline for an end below the last line |
| Editor.TextEditor.SetText | ImGui-Internal-Base/imgui/TextEditor.cpp:1027-1048 | the lines become those of the argument without carriage returns, the history is empty and every line waits for recolouring; the invariant holds for every argument of complete code sequences |
| Editor.TextEditor.SetTextLines | ImGui-Internal-Base/imgui/TextEditor.cpp:1050-1075 | the lines become the given ones, or one empty line, the history is empty and every line waits for recolouring |
| Inverses.TextBetweenIsSlices | ImGui-Internal-Base/imgui/TextEditor.cpp:58-89 | what is read between two coordinates is the slices of the lines joined by newlines |
| Inverses.TextBetweenAdds | ImGui-Internal-Base/imgui/TextEditor.cpp:58-89 | neighbouring reads concatenate |
| Editor.TextEditor.InsertLine | ImGui-Internal-Base/imgui/TextEditor.cpp:558-574 | the flat text gets one newline, at the offset where the line starts, or at the end; no glyph of another line changes |
| Editor.TextEditor.RemoveLine | ImGui-Internal-Base/imgui/TextEditor.cpp:531-556 | the flat text loses what lies between the start of the line and the start of the next, or the end of the text with the newline before it |
| Editor.TextEditor.RemoveLines | ImGui-Internal-Base/imgui/TextEditor.cpp:503-529 | the flat text loses the slice from the first line of the range to the line behind it, and nothing else |
| Documents.LineInserted | ImGui-Internal-Base/imgui/TextEditor.cpp:558-574 | inserting an empty line into a list of lines is inserting one newline into the joined text |
| Documents.LinesRemoved | ImGui-Internal-Base/imgui/TextEditor.cpp:503-556 | removing lines is cutting a slice out of the joined text, at the end together with the newline before it |
| Editor.TextEditor.DeleteRange | ImGui-Internal-Base/imgui/TextEditor.cpp:184-219 | within a line and across lines, the flat text loses exactly what lies between the two offsets, and the invariant stays |
| Editor.TextEditor.InsertTextAt | ImGui-Internal-Base/imgui/TextEditor.cpp:221-261 | the flat text gets the argument without carriage returns at the offset of the coordinate; the result counts its newlines; the coordinate ends at the counted end |
| Pasting.CountedIsEnd | ImGui-Internal-Base/imgui/TextEditor.cpp:221-261 | the counted coordinate is on the line of the true end and never beyond it, and equals it if and only if no tab after the last newline is more than one column wide |
| Pasting.CountedResolves | ImGui-Internal-Base/imgui/TextEditor.cpp:221-261 | it resolves to the end of the insertion if and only if no such tab is followed by another character; otherwise to an earlier place |
| Pasting.CountedStrip | ImGui-Internal-Base/imgui/TextEditor.cpp:228-237 | carriage returns do not move the coordinate |
| Inverses.InsertedEnd | ImGui-Internal-Base/imgui/TextEditor.cpp:221-261 | from an aligned start the coordinate left behind denotes the end of the insertion if and only if the tabs after the last newline are narrow |
| Inverses.NoTabsNarrow | ImGui-Internal-Base/imgui/TextEditor.cpp:221-261 | which holds for every text without a tab after its last newline |
| Inverses.DeleteUndoesInsert | ImGui-Internal-Base/imgui/TextEditor.cpp:184-261 | deleting what was just inserted restores the document if and only if no wide inner tab follows the last inserted newline |
| Inverses.InsertUndoesDelete | ImGui-Internal-Base/imgui/TextEditor.cpp:58-261 | inserting what GetText read before DeleteRange restores the document if and only if a start column beyond its line end is not overtaken by the rest of the last line |
| Words.WordStartMonotone | ImGui-Internal-Base/imgui/TextEditor.cpp:324-353 | the start of a word is monotone in the position, for lines whose characters each have one colour |
| Words.MixedColoursBreakOrder | ImGui-Internal-Base/imgui/TextEditor.cpp:324-353 | a concrete line with a character of two colours on which it is not |
| Words.FindWordStartLeft | ImGui-Internal-Base/imgui/TextEditor.cpp:324-353 | FindWordStart never moves right and stays aligned |
| Words.FindWordEndRight | ImGui-Internal-Base/imgui/TextEditor.cpp:355-383 | FindWordEnd never moves left and stays aligned |
| Words.FindWordStartMonotone | ImGui-Internal-Base/imgui/TextEditor.cpp:324-353 | FindWordStart is monotone in coordinates, across lines |
| Words.WordStartFinds | ImGui-Internal-Base/imgui/TextEditor.cpp:324-353 | the start found is where the run of one colour begins that holds the first character left of the spaces |
| Words.WordEndFinds | ImGui-Internal-Base/imgui/TextEditor.cpp:355-383 | the end found is where the colour or the kind, space or not, changes; where spaces of the same colour follow, it is the first character behind the spaces |
| Words.FindWordFinds | ImGui-Internal-Base/imgui/TextEditor.cpp:324-383 | as coordinates: both searches answer these two places of the line |
| Words.BoundaryMeans | ImGui-Internal-Base/imgui/TextEditor.cpp:488-501 | inside a line the character that ends at a place is compared with the one that starts there, by colour or by being a space |
| Words.SelectionOrdered | ImGui-Internal-Base/imgui/TextEditor.cpp:1258-1287 | in Normal, Word and Line mode the selection is ordered, aligned and inside the document |
| Words.LineModeSelects | ImGui-Internal-Base/imgui/TextEditor.cpp:1275-1281 | line mode selects exactly the places of the lines from that of the first to that of the second argument |
| Words.WordModeStarts | ImGui-Internal-Base/imgui/TextEditor.cpp:1269-1274 | word mode starts where the run around the first argument starts |
| Words.WordModeEnds | ImGui-Internal-Base/imgui/TextEditor.cpp:1269-1274 | it ends at the second argument on a word boundary, and otherwise at the end of the word that starts around it |
| Words.WordCovers | ImGui-Internal-Base/imgui/TextEditor.cpp:1269-1274 | when that end reaches the place asked for, as an iff: with a space at the start found, only spaces of one colour may lie before it; otherwise it is in or right behind the word, or the space behind the word has the colour of the word |
| Words.WordBehindBlank | ImGui-Internal-Base/imgui/TextEditor.cpp:1269-1274 | a blank and a word of one colour: around the end of the word lies the blank alone |
| Editor.TextEditor.FindWordStart | ImGui-Internal-Base/imgui/TextEditor.cpp:324-353 | the two loops find the start of the word |
| Editor.TextEditor.FindWordEnd | ImGui-Internal-Base/imgui/TextEditor.cpp:355-383 | the loop computes the end whose meaning WordEndFinds states |
| Editor.TextEditor.IsOnWordBoundary | ImGui-Internal-Base/imgui/TextEditor.cpp:488-501 | colours or spaces differ across the position |
| Editor.TextEditor.SetSelection | ImGui-Internal-Base/imgui/TextEditor.cpp:1258-1287 | both orders of arguments give the same selection; for aligned arguments it is ordered and inside the document in every mode |
| Editor.TextEditor.DeleteSelection | ImGui-Internal-Base/imgui/TextEditor.cpp:1312-1323 | the selected text goes, cursor and selection collapse to its start, and its line is asked for |
| History.AddUndoKeepsHistory | ImGui-Internal-Base/imgui/TextEditor.cpp:263-275 | adding the record of an edit keeps the history up to the edit and replaces its redo tail by the new text; Redo then has nothing to do and Undo leads back |
| Editor.TextEditor.Copy | ImGui-Internal-Base/imgui/TextEditor.cpp:1683-1696 | the clipboard gets the selected text, or the line of the cursor |
| Editor.TextEditor.Cut | ImGui-Internal-Base/imgui/TextEditor.cpp:1698-1717 | the edit whose effect and record SelectionGoes and UndoGivesBack state, and the clipboard; a read-only editor only copies; and the lines that it moves and asks to recolour |
| Editor.TextEditor.Delete | ImGui-Internal-Base/imgui/TextEditor.cpp:1545-1596 | the edit Delete on the flat text, with its record, wherever the cursor is but inside a tab that ends its line; and the lines that it moves and asks to recolour |
| Editor.TextEditor.Backspace | ImGui-Internal-Base/imgui/TextEditor.cpp:1598-1668 | the edit Backspace on the flat text, with its record; and the lines that it moves and asks to recolour |
| Editor.TextEditor.Paste | ImGui-Internal-Base/imgui/TextEditor.cpp:1719-1744 | the edit Paste on the flat text, with its record; and the lines that it moves and asks to recolour |
| Editor.TextEditor.InsertText | ImGui-Internal-Base/imgui/TextEditor.cpp:1297-1310 | insertion at the cursor; cursor and selection go to the counted end; and the lines that it moves and asks to recolour |
| Editor.TextEditor.EnterCharacter | ImGui-Internal-Base/imgui/TextEditor.cpp:1077-1228 | typing, overwriting, line breaks with copied indentation, and indenting lines, each with its record, with the effects that EnterPutsCharacter, EnterBreaksLine and TabIndentsLines state; and the lines that it moves and asks to recolour |
| Editor.TextEditor.IndentSelection | ImGui-Internal-Base/imgui/TextEditor.cpp:1084-1159 | the loops over the selected lines, as far as they exist, change them as IndentedLineIs states, with one record of the whole block |
| Editor.TextEditor.Undo | ImGui-Internal-Base/imgui/TextEditor.cpp:1754-1757 | the walk back along the undo buffer, with the lines that its steps move and ask to recolour |
| Editor.TextEditor.Redo | ImGui-Internal-Base/imgui/TextEditor.cpp:1759-1762 | the walk forward, with the lines that its steps move and ask to recolour |
| Editor.TextEditor.Swap | ImGui-Internal-Base/imgui/TextEditor.cpp:2175-2205 | one record in one direction: delete one text, insert the other, and ask for the lines of both |
| Recolouring.SwapAsks | ImGui-Internal-Base/imgui/TextEditor.cpp:2175-2205 | a line that one direction of any record rewrites waits afterwards if and only if it lies below the old end of the range, or below the end that one of the two halves asks for |
| Recolouring.UndoRecolours | ImGui-Internal-Base/imgui/TextEditor.cpp:2175-2189 | undoing one record leaves every line it rewrites waiting, if the recorded end of the removed text lies on its last line and the added text does not start below it |
| Recolouring.UndoAsks | ImGui-Internal-Base/imgui/TextEditor.cpp:2175-2189 | undoing a record, a rewritten line waits if and only if the range reached beyond it or it lies not below the recorded end of one of the texts |
| Recolouring.SwapAsksBelow | ImGui-Internal-Base/imgui/TextEditor.cpp:2175-2205 | and nothing above the line over the place of the record starts to wait |
| Recolouring.RedoRecolours | ImGui-Internal-Base/imgui/TextEditor.cpp:2191-2205 | redoing one record, whatever it holds: a rewritten line waits if and only if the range reached beyond it, or it lies above the recorded end of the text that comes or of the text that goes |
| Recolouring.RedoDeletion | ImGui-Internal-Base/imgui/TextEditor.cpp:2191-2205 | Redo of a deletion leaves the line of its start waiting if and only if a line break went or the range reached beyond it |
| Recolouring.RedoInsertion | ImGui-Internal-Base/imgui/TextEditor.cpp:2191-2205 | Redo of an insertion leaves all its lines waiting but the last, which waits if and only if the range reached beyond it |
| Recolouring.EditAsks | ImGui-Internal-Base/imgui/TextEditor.cpp:1077-1228 | every edit leaves the lines it rewrites waiting, at their places after the edit; after indenting, a line waits if and only if it did before |
| Recolouring.EditAsksOnly | ImGui-Internal-Base/imgui/TextEditor.cpp:1172-1228 | an edit asks for no more than the line left where text goes, and where text comes for the lines from the one above, or above the selection start for a paste, to at most one below |
| LineMoves.OneMoveWaits | ImGui-Internal-Base/imgui/TextEditor.cpp:1881-1888 | a waiting line goes on waiting under a step that joins lines; under one that breaks a line above it, if and only if its new number is below the end of the range |
| LineMoves.ImageWaits | ImGui-Internal-Base/imgui/TextEditor.cpp:1881-1888 | over any steps that renumber lines: a line not above the range, and not joined into others, waits in the end if and only if its new number is below the highest end the range or a request had |
| LineMoves.RewrittenWaits | ImGui-Internal-Base/imgui/TextEditor.cpp:1881-1888 | and so does a line that one of the steps rewrites |
| LineMoves.WithoutBreaks | ImGui-Internal-Base/imgui/TextEditor.cpp:1881-1888 | steps that insert no line lose no waiting line |
| Recolouring.RunMoved | ImGui-Internal-Base/imgui/TextEditor.cpp:1077-1228 | over any permitted run the steps of its operations lead from the first lines to the last: lines that no step rewrites are the old lines, at their new numbers |
| Recolouring.RunWaits | ImGui-Internal-Base/imgui/TextEditor.cpp:1881-1888 | a line that survives a permitted run waits after it if and only if its new number is below the end of the range or of a request |
| Recolouring.RewrittenInRun | ImGui-Internal-Base/imgui/TextEditor.cpp:1881-1888 | and so does a line that some step of the run rewrites |
| Recolouring.RewrittenByUndo | ImGui-Internal-Base/imgui/TextEditor.cpp:1754-1757 | a line rewritten in the course of Undo(n) waits in the end if and only if the later steps do not move it beyond the range |
| Witnesses.UndoneLineMovesAway | ImGui-Internal-Base/imgui/TextEditor.cpp:1754-1757 | a run after which Undo(2) moves a line it rewrote beyond the range |
| Witnesses.UndoneOverwriteStaysPlain | ImGui-Internal-Base/imgui/TextEditor.cpp:2175-2189 | a record with a wrong end, for which Undo does not ask for the second line it restores |
| Witnesses.RedoneDeletionStaysPlain | ImGui-Internal-Base/imgui/TextEditor.cpp:2191-2205 | a deleted letter on which Redo does not ask for its line |
| Witnesses.RedoneLetterStaysPlain | ImGui-Internal-Base/imgui/TextEditor.cpp:2191-2205 | a typed letter on which Redo does not ask for its line |
| Records.CutRestores | ImGui-Internal-Base/imgui/TextEditor.cpp:1698-1717 | the record of Cut restores the text in both directions |
| ExactEdits.DeleteRestores | ImGui-Internal-Base/imgui/TextEditor.cpp:1545-1596 | so does that of Delete, also for a tab or a newline |
| ExactEdits.BackspaceExact | ImGui-Internal-Base/imgui/TextEditor.cpp:1598-1668 | that of Backspace does if and only if it does not take away a tab wider than one column |
| ExactEdits.EnterNewlineExact | ImGui-Internal-Base/imgui/TextEditor.cpp:1172-1187 | a line break can always be undone, and redone if and only if no indentation was copied |
| ExactEdits.EnterPrintableExact | ImGui-Internal-Base/imgui/TextEditor.cpp:1189-1228 | typing an encodable character can always be undone; the record is exact without a selection, and over one if and only if the character is encodable and nothing is overwritten behind the selection but a tab that swallows all of it |
| EditEffects.SelectionGoes | ImGui-Internal-Base/imgui/TextEditor.cpp:1312-1323 | Cut, Delete and Backspace take exactly the selected text away and collapse selection and cursor, which resolve to where it began if and only if a start beyond its line end is not overtaken by the rest of the last line |
| EditEffects.DeleteTakes | ImGui-Internal-Base/imgui/TextEditor.cpp:1545-1596 | the character at the cursor goes, a newline too, and nothing else; the cursor stays in front of what follows |
| EditEffects.BackspaceTakes | ImGui-Internal-Base/imgui/TextEditor.cpp:1598-1668 | the character before the cursor goes, a newline too, and nothing else; the cursor is where it began if and only if it was a newline or one column wide |
| EditEffects.EnterBreaksLine | ImGui-Internal-Base/imgui/TextEditor.cpp:1172-1187 | the selection becomes a newline and, with auto-indentation, all blanks that the line split there starts with; the cursor goes behind them |
| EditEffects.EnterPutsCharacter | ImGui-Internal-Base/imgui/TextEditor.cpp:1189-1228 | the selection, and when overwriting the character behind it unless that is a line break, becomes the encoding of the character; the cursor goes behind it |
| EditEffects.UnencodableDeletes | ImGui-Internal-Base/imgui/TextEditor.cpp:1189-1219 | an unencodable character only deletes the selection, and leaves no record |
| EditEffects.TabIndentsLines | ImGui-Internal-Base/imgui/TextEditor.cpp:1084-1159 | a tab over a selection that spans lines puts one tab before each selected line, or with Shift takes one tab or the leading spaces away, and changes no other line |
| EditEffects.PastePutsText | ImGui-Internal-Base/imgui/TextEditor.cpp:1719-1744 | the selection becomes the clipboard without its carriage returns, and an empty selection is left at the cursor |
| EditEffects.PasteMovesCursor | ImGui-Internal-Base/imgui/TextEditor.cpp:1297-1310 | from an aligned selection and cursor, the cursor resolves to the end of the pasted text if and only if no tab after its last newline, but a final one, is wide, and is its coordinate if and only if none is |
| EditEffects.TypingPutsText | ImGui-Internal-Base/imgui/TextEditor.cpp:1077-1228 | typing any characters, line breaks too, splices their encodings in order in the place of the selection, leaves the cursor behind them and records each |
| Pasting.PasteExact | ImGui-Internal-Base/imgui/TextEditor.cpp:1719-1744 | the record of Paste is exact if and only if no pasted tab after the last newline, other than a final one, is wider than one column |
| Indenting.IndentRestores | ImGui-Internal-Base/imgui/TextEditor.cpp:1084-1159 | the record of a multi-line Tab or Shift+Tab restores the text in both directions, also for a selection ending at column 0 |
| Indenting.IndentedLineIs | ImGui-Internal-Base/imgui/TextEditor.cpp:1109-1128 | Tab prepends one tab to every selected line, empty ones too; Shift+Tab takes away one leading tab, or the leading spaces up to the tab size; every other line stays |
| Indenting.IndentedSelection | ImGui-Internal-Base/imgui/TextEditor.cpp:1130-1151 | a changed block is selected from the start of its first line, to the end of its last line or to column 0 as before; the cursor stays |
| Indenting.ShiftTabUndoesTab | ImGui-Internal-Base/imgui/TextEditor.cpp:1084-1159 | Tab and then Shift+Tab acts on the same lines and restores the text |
| History.ExactIff | ImGui-Internal-Base/imgui/TextEditor.cpp:1077-1228 | every edit is exact if and only if its guard, checkable before it, holds |
| History.HistoryStep | ImGui-Internal-Base/imgui/TextEditor.cpp:263-275 | one edit, Undo or Redo keeps a history whose entry at the undo index is the text; an edit drops exactly the redo tail |
| History.RunHistory | ImGui-Internal-Base/imgui/TextEditor.cpp:263-275 | for every run of exact edits, Undo, Redo and cursor moves there is such a history |
| History.UndoWalksBack | ImGui-Internal-Base/imgui/TextEditor.cpp:1754-1757 | Undo(n) goes to the entry n before, stopping at the start |
| History.RedoWalksForward | ImGui-Internal-Base/imgui/TextEditor.cpp:1759-1762 | Redo(n) goes to the entry n behind, stopping at the end |
| History.UndoThenRedo | ImGui-Internal-Base/imgui/TextEditor.cpp:1746-1762 | Undo(n) and then Redo(n) restores text and undo index for every n up to the undo index |
| History.UndoEverything | ImGui-Internal-Base/imgui/TextEditor.cpp:1746-1762 | after any such run from a fresh text, undoing everything brings it back, and redoing everything brings the end of the run back |
| History.RecordsStates | ImGui-Internal-Base/imgui/TextEditor.cpp:1077-1744 | every edit leaves the undo buffer alone or appends one record, with the states before and after the edit; for a multi-line Tab both are the state before |
| History.UndoGivesBack | ImGui-Internal-Base/imgui/TextEditor.cpp:2175-2205 | Undo right after a recorded exact edit gives back the whole editor from before it: text, cursor, selection and undo index; Redo what the edit made of them |
| History.UndoGivesBackTyping | ImGui-Internal-Base/imgui/TextEditor.cpp:2175-2189 | Undo gives back the same after every typed character and line break, exact or not |
| History.UndoAfterRun | ImGui-Internal-Base/imgui/TextEditor.cpp:1754-1762 | after every run of exact edits, Undo, Redo and moves, Undo(n) and Redo(n) give the text and the state that stood before the n-th last recorded edit, and after the n-th next, as listed while the run went on |
| History.HistoryUsable | ImGui-Internal-Base/imgui/TextEditor.cpp:1754-1762 | with a history, Undo and Redo of any number of steps meet only records that can be applied |
| Applicable.SwapApplies | ImGui-Internal-Base/imgui/TextEditor.cpp:2175-2205 | a record can be applied in one direction if and only if its coordinates are in order and its lines lie in the text, counting what its first half removes; the number of lines changes by the newlines cut and put |
| Applicable.StepApplicable | ImGui-Internal-Base/imgui/TextEditor.cpp:1754-1762 | Undo(1) and Redo(1) meet an applicable record if and only if its line numbers fit the number of lines of the text |
| Applicable.UndoNeverStuck | ImGui-Internal-Base/imgui/TextEditor.cpp:1754-1757 | with line counts tracked along the undo buffer, Undo(n) meets only applicable records, and keeps them tracked |
| Applicable.RedoNeverStuck | ImGui-Internal-Base/imgui/TextEditor.cpp:1759-1762 | and so does Redo(n) |
| Applicable.StepNeverStuck | ImGui-Internal-Base/imgui/TextEditor.cpp:1077-1228 | every edit, exact or not, Undo, Redo and every cursor move inside the text keeps them tracked, except Delete past a line end and an unencodable character over a selection of several lines |
| Applicable.RunNeverStuck | ImGui-Internal-Base/imgui/TextEditor.cpp:1077-1228 | no run of such operations gets stuck: selections lie in the text and Undo and Redo can always be carried out |
| Applicable.ClearedTracked | ImGui-Internal-Base/imgui/TextEditor.cpp:1027-1048 | with the history cleared, as by SetText, an editor can start such runs if and only if its selection ends inside the text |
| Applicable.FreshNeverStuck | ImGui-Internal-Base/imgui/TextEditor.cpp:1077-1228 | from such an editor no permitted run gets stuck |
| Witnesses.SelectionOutlivesText | ImGui-Internal-Base/imgui/TextEditor.cpp:1027-1048 | SetText keeps the selection: one of three lines over a text of one, with which Delete accesses lines that are gone |
| Witnesses.LostLinesGetStuck | ImGui-Internal-Base/imgui/TextEditor.cpp:1189-1228 | the other runs can: two line breaks, and an unencodable character over all of it; Undo then deletes lines that are gone |
| Reachable.StepKeepsClean | ImGui-Internal-Base/imgui/TextEditor.cpp:1077-1228 | every operation that stays inside the lines, exact or not and with the cursor anywhere, also inside a tab, keeps the text and all records free of broken characters, carriage returns and NUL |
| Reachable.RunKeepsClean | ImGui-Internal-Base/imgui/TextEditor.cpp:1077-1228 | over any such run the document keeps at least one line, and each line is complete code sequences without separators |
| Reachable.ReadsPastEndIff | ImGui-Internal-Base/imgui/TextEditor.cpp:1563-1587 | Delete reads behind the end of a line if and only if nothing is selected and the cursor is inside a tab that ends the line |
| Witnesses.DeleteInsideTab | ImGui-Internal-Base/imgui/TextEditor.cpp:1563-1587 | a cursor inside a tab at which it does |
| Witnesses.BackspaceOverTab | ImGui-Internal-Base/imgui/TextEditor.cpp:1598-1668 | a tab whose removal cannot be undone |
| Witnesses.BreakBehindBlank | ImGui-Internal-Base/imgui/TextEditor.cpp:1172-1187 | a line break with copied indentation that cannot be redone |
| Witnesses.PasteInnerTab | ImGui-Internal-Base/imgui/TextEditor.cpp:1719-1744 | a paste that cannot be undone |
| Witnesses.UnencodableOverSelection | ImGui-Internal-Base/imgui/TextEditor.cpp:1189-1228 | an unencodable character that deletes a selection without a record |
| Witnesses.OverwriteBehindSelection | ImGui-Internal-Base/imgui/TextEditor.cpp:1189-1228 | overwriting behind a selection, with a record that is wrong |
| Witnesses.OverwriteSwallowingTab | ImGui-Internal-Base/imgui/TextEditor.cpp:1189-1228 | and with one that is right because a tab swallows the selection |
| Witnesses.DeleteMissesInsertion | ImGui-Internal-Base/imgui/TextEditor.cpp:184-261 | an insertion that deleting up to the coordinate it left does not undo |
| Witnesses.InsertMissesDeletion | ImGui-Internal-Base/imgui/TextEditor.cpp:58-261 | a deletion that inserting what was read does not undo |
| Caret.MovesAligned | ImGui-Internal-Base/imgui/TextEditor.cpp:1375-1473 | moving left and right leads from characters to characters: the n-th before, the next one |
| Caret.LeftUndoesRight | ImGui-Internal-Base/imgui/TextEditor.cpp:1375-1473 | right and then left is the identity from everywhere but the end of the text |
| Caret.RightUndoesLeft | ImGui-Internal-Base/imgui/TextEditor.cpp:1375-1473 | left and then right is the identity from everywhere but its start |
| Caret.OneMoreBack | ImGui-Internal-Base/imgui/TextEditor.cpp:1385-1409 | n + 1 characters to the left is one more than n |
| Editor.TextEditor.MoveLeft | ImGui-Internal-Base/imgui/TextEditor.cpp:1375-1429 | the loop takes n characters to the left over tabs, multi-byte characters and line ends, stopping at the start; the interactive selection follows |
| Editor.TextEditor.MoveRight | ImGui-Internal-Base/imgui/TextEditor.cpp:1431-1473 | the loop over any number of characters, with the index it keeps beside the cursor; at the end of the text it ends the call without touching the selection; the interactive selection follows otherwise |
| Caret.FollowKeepsOtherEnd | ImGui-Internal-Base/imgui/TextEditor.cpp:1413-1424 | an extending move from one end of the interactive selection keeps the other end, from elsewhere it starts a new selection, and any other move collapses it |
| Caret.FollowReverses | ImGui-Internal-Base/imgui/TextEditor.cpp:1413-1470 | moving back while extending restores both ends |
| Caret.RightInStep | ImGui-Internal-Base/imgui/TextEditor.cpp:1438-1456 | the index of the loop belongs to the cursor in all n passes if and only if none of the first n - 1 single moves leaves a line with characters; then MoveRight(n) goes where n single moves go |
| Witnesses.MoveRightGoesTooFar | ImGui-Internal-Base/imgui/TextEditor.cpp:1438-1456 | a line end behind which two moves at once go one character too far |
| ColorRange.Request | ImGui-Internal-Base/imgui/TextEditor.cpp:1881-1888 | a request loses no pending line, adds every line asked for, and adds nothing beyond both |
| ColorRange.EveryPendingLineOnce | ImGui-Internal-Base/imgui/TextEditor.cpp:2090-2101 | ticks hand every pending line, and no other, to the colouring exactly once, and reach the sentinel after the needed number of ticks and not before |
| ColorRange.TicksNeededRoundsUp | ImGui-Internal-Base/imgui/TextEditor.cpp:2090-2101 | that number is the number of lines divided by the increment, rounded up |
| Editor.TextEditor.Colorize | ImGui-Internal-Base/imgui/TextEditor.cpp:1881-1888 | the four assignments widen the range by the request and ask for the comment pass |
| Editor.TextEditor.ColorizeInternal | ImGui-Internal-Base/imgui/TextEditor.cpp:1982-2102 | one tick: the comment pass if asked for, then exactly the lines of the tick are coloured; characters stay |
| Coloring.PendingLinesColored | ImGui-Internal-Base/imgui/TextEditor.cpp:2090-2101 | the needed number of ticks colours exactly the lines that waited, and leaves every other line as it was |
| Tokenizers.TokenizeCStyleNumber | ImGui-Internal-Base/imgui/TextEditor.cpp:2273-2365 | accepts exactly if some prefix is a number and no exponent marker without digits follows the mantissa, and returns the longest such prefix |
| Tokenizers.NumberIsLongest | ImGui-Internal-Base/imgui/TextEditor.cpp:2273-2365 | an accepted end is the longest prefix in the grammar |
| Tokenizers.NumberRejected | ImGui-Internal-Base/imgui/TextEditor.cpp:2273-2365 | rejection happens if and only if no prefix is in the grammar or the exponent dangles |
| Tokenizers.ScanNumber | ImGui-Internal-Base/imgui/TextEditor.cpp:2273-2365 | the flags and loops of the scan compute that end |
| Tokenizers.StringEndFrom | ImGui-Internal-Base/imgui/TextEditor.cpp:2207-2230 | the first quotation mark without a backslash right before it, or nothing if there is none |
| Tokenizers.TokenizeCStyleString | ImGui-Internal-Base/imgui/TextEditor.cpp:2207-2230 | the loop finds that quotation mark |
| Tokenizers.TokenizeCStyleCharacterLiteral | ImGui-Internal-Base/imgui/TextEditor.cpp:2232-2254 | an apostrophe, an optional backslash, one byte and an apostrophe, and nothing else |
| Tokenizers.TokenizeCStyleIdentifier | ImGui-Internal-Base/imgui/TextEditor.cpp:2256-2271 | the whole run of identifier characters behind a letter |
| Tokenizers.TokenizeFrom | ImGui-Internal-Base/imgui/TextEditor.cpp:2427-2450 | blanks are skipped, the kinds are tried in order, and the token ends behind the start |
| Tokenizers.TokenMeans | ImGui-Internal-Base/imgui/TextEditor.cpp:2207-2450 | each of the five colours is given exactly to the text of its form: strings, character literals, identifiers, longest numbers, and punctuation that starts no number |
| Tokenizers.BlanksSkipped | ImGui-Internal-Base/imgui/TextEditor.cpp:2430-2437 | the token is the one at the first byte that is no space and no tab; at the end of the line there is an empty one |
| Coloring.TokensOrdered | ImGui-Internal-Base/imgui/TextEditor.cpp:1905-1977 | the tokens of a line follow each other without overlap inside the line |
| Coloring.TokensFound | ImGui-Internal-Base/imgui/TextEditor.cpp:1890-1980 | every token of a line is the one the tokenizer finds where it begins |
| Coloring.NoTokenMissed | ImGui-Internal-Base/imgui/TextEditor.cpp:1890-1980 | and where none covers a byte that is no blank, the tokenizer finds none |
| Coloring.OneTokenCovers | ImGui-Internal-Base/imgui/TextEditor.cpp:1973-1974 | at most one token covers a glyph; its colour is the colour there, and Default without one |
| Coloring.TokenBoundaries | ImGui-Internal-Base/imgui/TextEditor.cpp:2207-2450 | tokens start and end between characters |
| Coloring.ColoredGood | ImGui-Internal-Base/imgui/TextEditor.cpp:1890-1980 | colouring changes no character and gives each character one colour |
| Coloring.GlyphColor | ImGui-Internal-Base/imgui/TextEditor.cpp:1890-1980 | every glyph ends with the colour of the token that covers it, or Default, and keeps its character |
| Coloring.ColorizeLine | ImGui-Internal-Base/imgui/TextEditor.cpp:1905-1977 | the scan over a line terminates and computes those colours |
| Coloring.WordColors | ImGui-Internal-Base/imgui/TextEditor.cpp:1952-1971 | outside a preprocessor line a token has the colour of keywords, known identifiers or preprocessor identifiers if and only if it starts with a letter and is on that list and on none before it; in one, only preprocessor identifiers stand out |
| Editor.TextEditor.ColorizeRange | ImGui-Internal-Base/imgui/TextEditor.cpp:1890-1980 | exactly the lines of the range are coloured |
| CommentMeaning.InCommentMeans | ImGui-Internal-Base/imgui/TextEditor.cpp:1996-2078 | the reference scanner is in a comment if and only if a comment start outside strings, not hidden by a single-line comment, precedes and no comment end outside strings has followed it |
| CommentMeaning.SingleLineMeans | ImGui-Internal-Base/imgui/TextEditor.cpp:1999-2059 | it is in a single-line comment if and only if two slashes outside strings precede in the same line, lines being joined by final backslashes that are not escaped |
| CommentMeaning.DirectiveMeans | ImGui-Internal-Base/imgui/TextEditor.cpp:1999-2038 | it is in a preprocessor line if and only if a preprocessor character outside strings, with only blanks before it, precedes in the same line |
| CommentMeaning.InStringMeans | ImGui-Internal-Base/imgui/TextEditor.cpp:2021-2046 | it is in a string if and only if an opening quotation mark precedes and no quotation mark that is neither escaped nor doubled has followed it; strings run over line ends |
| CommentMeaning.LooksMeans | ImGui-Internal-Base/imgui/TextEditor.cpp:2021-2076 | a byte is passed over if and only if it belongs to the character before, or a backslash or a doubled quotation mark in a string takes it along |
| CommentMeaning.OverrunsIff | ImGui-Internal-Base/imgui/TextEditor.cpp:2033-2075 | the pass writes behind the end of a line if and only if the line ends, in a string, with a backslash that is not taken along itself |
| Comments.StaysInside | ImGui-Internal-Base/imgui/TextEditor.cpp:2008-2080 | no line is such if and only if every step of the pass ends inside its line |
| CommentMeaning.SafeTexts | ImGui-Internal-Base/imgui/TextEditor.cpp:2033-2075 | which does not happen in texts without quotation marks or without backslashes at line ends |
| Witnesses.StringRunsOver | ImGui-Internal-Base/imgui/TextEditor.cpp:2033-2075 | a line on which it does |
| CommentMeaning.FlagsMean | ImGui-Internal-Base/imgui/TextEditor.cpp:1986-2088 | the three flags that every byte of a text gets, read off the document, and which flags stay as they were in strings |
| Comments.FlaggedGood | ImGui-Internal-Base/imgui/TextEditor.cpp:1986-2088 | the pass changes no character and no colour |
| Editor.TextEditor.FlagCharacter | ImGui-Internal-Base/imgui/TextEditor.cpp:2008-2080 | one step of the pass, in strings and outside, with a position for the comment start, does what the scanner with a Boolean does |
| Editor.TextEditor.FlagComments | ImGui-Internal-Base/imgui/TextEditor.cpp:1986-2088 | the pass terminates and gives every byte exactly the flags of the reference scanner, unless it runs over the end of a line |
| Vectors.GrowCapacity | ImGui-Internal-Base/imgui/imgui.h:1800 | at least what is needed; otherwise half more than the capacity, rounded down, and 8 from nothing |
| Vectors.PushesCopyLittle | ImGui-Internal-Base/imgui/imgui.h:1800-1808 | from an empty vector, n pushes copy at most 4n elements, for every n |
| Vectors.PushKeepsPaid | ImGui-Internal-Base/imgui/imgui.h:1800-1808 | one push keeps the copies below three times the capacity minus 24 and below four times the size |
| Vectors.UnsortedRemovesOne | ImGui-Internal-Base/imgui/imgui.h:1813 | the element at the index goes as one occurrence, and no other element but the last changes its place |
| Vectors.EraseUndoesInsert | ImGui-Internal-Base/imgui/imgui.h:1811-1814 | erase undoes insert, and insert undoes erase |
| Vectors.IndexOf | ImGui-Internal-Base/imgui/imgui.h:1816 | find returns the first match, or the end |
| Vectors.ImVector.Reserve | ImGui-Internal-Base/imgui/imgui.h:1804 | the elements are the same in a larger array |
| Vectors.ImVector.Resize | ImGui-Internal-Base/imgui/imgui.h:1801 | elements up to the smaller size stay |
| Vectors.ImVector.ResizeWith | ImGui-Internal-Base/imgui/imgui.h:1802 | the elements are cut, or continued by the value |
| Vectors.ImVector.PushBack | ImGui-Internal-Base/imgui/imgui.h:1808 | appends the element, with the growth accounted for |
| Vectors.ImVector.Insert | ImGui-Internal-Base/imgui/imgui.h:1814 | the tail moves up in place and the element is at its index |
| Vectors.ImVector.PushFront | ImGui-Internal-Base/imgui/imgui.h:1810 | prepends the element |
| Vectors.ImVector.Erase | ImGui-Internal-Base/imgui/imgui.h:1811 | the tail moves down in place |
| Vectors.ImVector.EraseRange | ImGui-Internal-Base/imgui/imgui.h:1812 | exactly the range goes |
| Vectors.ImVector.EraseUnsorted | ImGui-Internal-Base/imgui/imgui.h:1813 | the last element takes the place |
| Vectors.ImVector.Contains | ImGui-Internal-Base/imgui/imgui.h:1815 | whether the element occurs |
| Vectors.ImVector.Find | ImGui-Internal-Base/imgui/imgui.h:1816-1817 | the index of the first match, or the size |
| Vectors.ImVector.FindErase | ImGui-Internal-Base/imgui/imgui.h:1818 | the first match goes, if there is one |
| Vectors.ImVector.FindEraseUnsorted | ImGui-Internal-Base/imgui/imgui.h:1819 | one occurrence goes, if there is one |
| Vectors.ImVector.Swap | ImGui-Internal-Base/imgui/imgui.h:1798 | the contents change places |
| Vectors.ImVector.Assign | ImGui-Internal-Base/imgui/imgui.h:1775 | the elements are copied; assignment to itself empties the vector |
| Vectors.ImVector.Clear | ImGui-Internal-Base/imgui/imgui.h:1778 | no elements and no memory |
| Vectors.ImVector.ReserveDiscard | ImGui-Internal-Base/imgui/imgui.h:1805 | more room without keeping the elements, and nothing changes if there is room |
| Vectors.ImVector.Shrink | ImGui-Internal-Base/imgui/imgui.h:1803 | the first elements stay |
| Vectors.ImVector.PopBack | ImGui-Internal-Base/imgui/imgui.h:1809 | the last element goes |
| Renderer.SwizzleInvolution | ImGui-Internal-Base/imgui/imgui_impl_dx9.cpp:158 | the swizzle is its own inverse, exchanges red and blue, and keeps green and alpha |
| Renderer.Truncate | ImGui-Internal-Base/imgui/imgui_impl_dx9.cpp:198 | conversion of a clip coordinate drops the fraction, towards zero on both sides |
| Renderer.FetchesOwnVertices | ImGui-Internal-Base/imgui/imgui_impl_dx9.cpp:181-203 | one draw call fetches converted copies of the vertices its command selects in its own list |
| Renderer.MergeDrawsTheSame | ImGui-Internal-Base/imgui/imgui_impl_dx9.cpp:149-207 | the calls of a frame fetch from the merged buffers, in order, what all lists show from their own buffers, and no fetch leaves the buffers |
| Renderer.FrameDraws | ImGui-Internal-Base/imgui/imgui_impl_dx9.cpp:106-207 | so do the calls of a whole frame, from buffers whose first part is the merged data, which is what they have to show (AllShow) |
| Renderer.ShownMeans | ImGui-Internal-Base/imgui/imgui_impl_dx9.cpp:149-207 | what a command shows, field by field: its texture, each scissor edge the clip edge relative to the display without its fraction, and the vertices its whole triangles name with place, texture coordinates and swapped colour bytes |
| Renderer.FrameMeans | ImGui-Internal-Base/imgui/imgui_impl_dx9.cpp:149-207 | and so for every command of a frame, in order |
| Renderer.ScissorPixels | ImGui-Internal-Base/imgui/imgui_impl_dx9.cpp:198-198 | for whole coordinates a pixel lies in the scissor if and only if its place on the display lies in the clip rectangle |
| Renderer.FillBuffers | ImGui-Internal-Base/imgui/imgui_impl_dx9.cpp:149-166 | the loops fill the buffers with the converted vertices and the indices of all lists, within their sizes |
| Renderer.DX9Renderer.RenderLists | ImGui-Internal-Base/imgui/imgui_impl_dx9.cpp:178-207 | the loop over the commands keeps the offsets of the merged buffers; what the calls fetch is what the commands have to show (AllShow) |
| Renderer.DX9Renderer.GrowVertices | ImGui-Internal-Base/imgui/imgui_impl_dx9.cpp:113-119 | a missing or too small buffer is replaced by one with room for 5000 more; a failure leaves none |
| Renderer.DX9Renderer.GrowIndices | ImGui-Internal-Base/imgui/imgui_impl_dx9.cpp:120-126 | the same with 10000 |
| Renderer.DX9Renderer.RenderDrawData | ImGui-Internal-Base/imgui/imgui_impl_dx9.cpp:106-207 | over any sequence of frames the buffers are as long as recorded; a frame either draws everything, fetching from its buffers what all lists show from their own, or nothing; the device state is the old one afterwards; the backup of the state is released unless a buffer cannot be locked; what a rendered frame fetches is what its lists have to show (AllShow) |
| Renderer.DX9Renderer.InvalidateDeviceObjects | ImGui-Internal-Base/imgui/imgui_impl_dx9.cpp:271-278 | both buffers and the font texture go, with its identifier, and the sizes stay consistent; nothing happens without a device |
| Renderer.DX9Renderer.CreateFontsTexture | ImGui-Internal-Base/imgui/imgui_impl_dx9.cpp:237-259 | the identifier is stored only for a texture that was filled |
| Renderer.DX9Renderer.NewFrame | ImGui-Internal-Base/imgui/imgui_impl_dx9.cpp:280-284 | the font is uploaded only while there is no texture, so an upload that failed after the texture was created is not repeated |

## Left out

- Rendering, mouse and keyboard dispatch, palettes and keyword tables: they depend on fonts, ImGui state or
  constant data; word lists are a parameter of the colouring.
- Error markers, breakpoints, scrolling and the flags that tell the host of changed text and cursor.
- The clipboard is a parameter of Paste and a result of Copy and Cut; no clipboard text is the empty one.
- SetTabSize also admits 0, for which the column formula divides by zero; the model has tab sizes 1 to 32.
- Malformed UTF-8: the source assumes lead bytes where it measures a character (TextEditor.cpp:114-116);
  texts are framed.
- ImWchar is 16 bits wide; the 32-bit configuration is not modelled.
- Characters other than newline, tab and those from 32 on do not reach EnterCharacter (TextEditor.cpp:675-685).
- Editor.TextEditor.GetText: not with an end more than one line below the document and below the start, where
  the source counts lines that do not exist; the same holds for GetSelectedText and, for a selection that ends
  in column 0 two or more lines below the document, for IndentSelection.
- Editor.TextEditor.GetSelectedText: selections in order, as SetSelection makes them.
- Editor.TextEditor.Delete: not with the cursor inside a tab that ends its line, where the source reads behind
  the end of the line.
- Word-wise moves, MoveUp, MoveDown, MoveHome, MoveEnd, MoveTop and MoveBottom; in runs a cursor move may lead
  anywhere.
- Caret.RightInStep: whether the wrong places that MoveRight(n) may pass lead to the right one in the end is not
  characterised.
- Editor.TextEditor.FlagComments: requires that no line ends, in a string, with a backslash that the pass looks
  at; there the source writes behind the end of the line (`CommentMeaning.OverrunsIff`).
- EditEffects.EnterPutsCharacter: not over a selection whose start lies beyond its line end and is overtaken by the
  rest of the last line; what is entered then goes where that start resolves to (`EditEffects.SelectionGoes`). The
  same holds for EnterBreaksLine, PastePutsText and TypingPutsText.
- EditEffects.PasteMovesCursor: aligned selections and cursors only.
- Editor.TextEditor.Undo: requires that the records met on the way can be applied, as they can in every
  permitted run (`Applicable.RunNeverStuck`); elsewhere the source accesses lines that do not exist. The same
  holds for Redo.
- Editor.TextEditor.ColorizeRange: languages with a tokenizer callback only; the regular expressions of the
  other languages are not part of this model, nor is the increment of 10 lines that they use. The languages
  with a callback distinguish case, so upper-casing identifiers is left out.
- Glyph colours in round trips: text that is re-inserted gets the default colour, so only characters are
  compared.
- Integer overflow: sizes, columns and offsets are unbounded, also in ImVector and the renderer.
- Vectors.ImVector.Resize: says nothing about the contents of new elements, which the source leaves
  uninitialized; clear_delete, clear_destruct and the byte-size queries are not modelled.
- Direct3D: locks and creations are answers of a device given per frame; the projection matrix, the single render
  states and the pixels of the font are not part of this model. Coordinates are reals, without rounding.
- Renderer.DX9Renderer.RenderDrawData: the totals of a frame are the sums over its lists, as the library
  promises (imgui.h:2631-2632). What the calls do to the device state is a parameter.
