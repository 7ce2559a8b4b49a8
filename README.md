# Chonker9.1 core: spatial text buffer and readable-text reconstruction

Chonker9.1 is a PDF viewer/editor. It turns ALTO word boxes (a word's
content plus its HPOS, VPOS, width and height on the page) into text in
two ways:

- **The spatial text buffer** lays the words out into one editable rope.
  It keeps one *element range* per word: the stretch of the rope the word
  owns, its bounds on the page, and `modified`/`overflow` flags. A uniform
  50-unit grid (the *spatial index*) maps a point on the page back to a
  word. Inserting and deleting text keeps the ranges in step with the rope.
  A cursor tracks a rope position and its anchor on the page.
- **The readable-text view** sorts the words by VPOS and groups them into
  lines 8 units tall. It sorts each line by HPOS and writes the lines out
  with spaces that grow with horizontal gaps and blank lines for large
  vertical gaps. The hybrid renderer first splits off short numeric words
  (table cells), draws them at their own positions and reconstructs the
  rest as readable text. A small formatter re-indents the raw ALTO XML.

The model is split into Dafny modules that follow the program's structure:

| module | file | what it holds |
|---|---|---|
| `Basics` | basics.dfy | `Option`, `Min`/`Max`/`Abs`, sequence helper lemmas |
| `Geometry` | geometry.dfy | points, rectangles, ALTO word boxes |
| `Text` | text.dfy | UTF-8 byte length, `str::trim`, `str::lines`, whitespace-separated words |
| `Sorting` | sorting.dfy | the stable `sort_by` |
| `SpatialIndex` | spatial_index.dfy | `SpatialIndex::rebuild` and `find_element_at_position` |
| `ElementRanges` | element_ranges.dfy | range bookkeeping of `from_alto_elements`, `insert_text`, `delete_range` and the screen/rope mappings, as functions on values |
| `SpatialText` | spatial_text.dfy | the `SpatialTextBuffer` and `SpatialCursor` classes and the loops of their methods |
| `Reconstruct` | reconstruct.dfy | `generate_readable_text` and `generate_readable_text_from_elements` |
| `TableSplit` | table_split.dfy | the table/paragraph split and drawing of `render_hybrid_smart` |
| `FormatXml` | format_xml.dfy | `format_xml` |

Each loop of the source that builds or updates state is a `method` with a
`while` loop. Its `ensures` ties the result to a specification function (`Rebuild` to `BuiltFrom`,
`GenerateReadableText` to `ReadableText`, `FormatXmlText` to `Formatted`,
`InsertText` to `InsertedRanges`, and so on). The lemmas prove what the
program promises about those functions. The two searches, the loop over a
grid cell in `find_element_at_position` (src/spatial_text.rs:136) and the
`iter().find` over the element ranges (src/spatial_text.rs:379), are
functions (`SpatialIndex.FindElementAt`, `ElementRanges.FindContaining`).

Modelling conventions:

- Coordinates are integers; the source uses `f32`.
- Each float-to-`usize` cast of a quotient is an explicit floor of a
  non-negative value, saturating at 0 (`CellOf`).
- `str::len` is the exact UTF-8 byte count (`Utf8Len`).
- `str::trim` drops the Unicode White_Space characters.
- `str::lines` splits at `\n` and drops the `\r` of a `\r\n`; an unterminated last line keeps a final `\r`.
- The source sorts with `partial_cmp(..).unwrap()`. It is modelled as a
  stable sort on integer keys (`SortBy`), an insertion sort proved to be a
  permutation, sorted and stable.

Where the code does something one might not expect, the model follows the
code:

- Element ranges include the separators the layout loop writes. These are
  the line break before a word that opens a new line and the space after a
  word that is followed by one on the same line. So the ranges of a freshly
  built buffer tile the rope exactly (`LayoutTiles`).
- A lookup in the spatial index does not always return the word whose box
  holds the point. It returns the lowest-numbered word registered in the
  point's grid cell. Because registration goes by cell, that word's box
  need not contain the point (`FindIsScan`). On the far right or bottom
  edge of the document bounds, the lookup can find nothing even though the
  point lies inside a word (`FarEdgeMisses`).
- No blank lines are written after a line at VPOS 0 (or above), however
  large the gap below it, because the gap test runs only when `last_vpos > 0`
  (`NoGapAfterTopLine`).
- Which VPOS decides the gap before a line: after the HPOS sort,
  `line[0]` is the leftmost word, not the word that opened the line.
- A word whose content is blank counts as a table cell, because every
  character of its empty trimmed content is numeric (`BlankIsTable`).

## Model

| member | source | states |
|---|---|---|
| Text.Utf8Len | src/spatial_text.rs:384 | the byte length of a string is between its character count and four times that |
| Text.Utf8LenAscii | src/spatial_text.rs:384 | over ASCII text the byte length is the character count |
| Text.Utf8LenAppend | src/spatial_text.rs:384 | the UTF-8 byte length of two texts in a row is the sum of their byte lengths |
| Text.Trim | src/main.rs:383 | the result is the slice of the line left after dropping its leading whitespace run and then its trailing one: it neither starts nor ends with whitespace, and everything dropped on either side is whitespace |
| Text.TrimBlank | src/main.rs:383-386 | a line trims to nothing exactly when it is all whitespace |
| Text.TrimIndented | src/main.rs:383 | trimming indentation followed by already-trimmed text gives back that text |
| Text.Lines | src/main.rs:380 | no line produced by `lines()` contains a line break, and there are no lines exactly when the text is empty |
| Text.LinesOfJoinLines | src/main.rs:380 | splitting newline-terminated lines that hold no `\n` and end in no `\r` gives those lines back |
| Text.JoinLinesOfLines | src/main.rs:380 | text with no `\r\n` is its lines written back one per line break, with a final line break added when it had none |
| Sorting.SortBy | src/main.rs:168 | the sorted sequence is a permutation of the input, in ascending key order |
| Sorting.SortByIsStable | src/main.rs:168 | sorting keeps elements with equal keys in their input order |
| Sorting.SortByPair | src/main.rs:189 | two elements come out in key order, in input order on a tie |
| SpatialIndex.Hull | src/spatial_text.rs:74-91 | the document bounds exist exactly when there are elements, and enclose every element's box |
| SpatialIndex.HullIsLeast | src/spatial_text.rs:74-91 | every box enclosing all element boxes encloses the document bounds |
| SpatialIndex.GridCols | src/spatial_text.rs:94 | the grid has at least one column |
| SpatialIndex.GridRows | src/spatial_text.rs:95 | the grid has at least one row |
| SpatialIndex.CellMembers | src/spatial_text.rs:99-115 | a cell lists only elements whose clamped cell span covers it, in strictly increasing order |
| SpatialIndex.CellMembersComplete | src/spatial_text.rs:99-115 | every element whose span covers a cell is listed in it |
| SpatialIndex.Rebuild | src/spatial_text.rs:71-116 | the bounds loop and the registration loops produce the index built from the boxes: hull bounds, rows by columns, each cell its covering elements in order |
| SpatialIndex.Register | src/spatial_text.rs:100-114 | registering element `i` appends `i` to exactly the cells it covers and keeps the grid's shape |
| SpatialIndex.BuiltFromUnique | src/spatial_text.rs:71-116 | the boxes determine the built index completely |
| SpatialIndex.BuiltCellsSorted | src/spatial_text.rs:99-115 | every cell of a built index lists valid element numbers in strictly increasing order |
| SpatialIndex.FindElementAt | src/spatial_text.rs:118-142 | a hit lies inside the document bounds and names an element listed in the point's cell |
| SpatialIndex.FindOffGrid | src/spatial_text.rs:122-133 | a point outside the bounds or past the last row or column finds nothing |
| SpatialIndex.FirstCovering | src/spatial_text.rs:136-139 | the linear scan returns an element that covers the point's cell |
| SpatialIndex.FirstCoveringIsLowest | src/spatial_text.rs:136-139 | the scan finds nothing exactly when no element covers the cell, and what it finds is the lowest-numbered one that does |
| SpatialIndex.CellHeadIsFirst | src/spatial_text.rs:112-138 | the head of a cell is what the linear scan finds for it |
| SpatialIndex.FindIsScan | src/spatial_text.rs:118-142 | on a built index the grid lookup equals a linear scan for the lowest element covering the point's cell |
| SpatialIndex.FoundIsIndexed | src/spatial_text.rs:136-139 | a hit names one of the indexed elements |
| SpatialIndex.CoversPoint | src/spatial_text.rs:104-112 | an element is registered in the cell of every on-grid point its box contains |
| SpatialIndex.HitWithinBox | src/spatial_text.rs:118-142 | a point inside element `i`'s box whose cell is on the grid hits some element numbered at most `i` |
| SpatialIndex.InteriorIsOnGrid | src/spatial_text.rs:94-133 | a point inside the bounds and strictly before their far edges falls on the grid |
| SpatialIndex.FarEdgeMisses | src/spatial_text.rs:122-133 | a point on the far edge of a 100-unit-wide element lies in its box yet the lookup finds nothing |
| ElementRanges.FindContaining | src/spatial_text.rs:378-380 | the search finds nothing exactly when no range holds the position, otherwise a range holding it |
| ElementRanges.ContainingIsUnique | src/spatial_text.rs:378-380 | between valid ranges, the one holding a position is the one found |
| ElementRanges.RopeToScreen | src/spatial_text.rs:274-295 | an anchor exists exactly when some range holds the position; it lies on that range's top edge, between 5 units right of its left edge and 5 units right of its right edge |
| ElementRanges.ProportionalOffset | src/spatial_text.rs:257-265 | the offset into a word never exceeds its length |
| ElementRanges.ProportionalOffsetEdges | src/spatial_text.rs:259-262 | a click on the left edge gives offset 0, on the right edge the full length, and the offset never decreases to the right |
| ElementRanges.ScreenToRope | src/spatial_text.rs:245-271 | a click maps to a rope position exactly when the index finds an element there, and the position lies within that element's range |
| ElementRanges.InsertAt | src/spatial_text.rs:311 | the rope grows by the inserted length |
| ElementRanges.InsertStepEffect | src/spatial_text.rs:314-325 | the first pass moves each endpoint past the insertion point, marks the range holding the point modified and flagged, and changes nothing else |
| ElementRanges.OverflowChecks | src/spatial_text.rs:328-334 | every collected check names a range among those scanned |
| ElementRanges.ExceedsAscii | src/spatial_text.rs:382-386 | `text_exceeds_bounds` (`Exceeds`): for ASCII text, the text overflows its box exactly when 8 units per character exceed the box width |
| ElementRanges.ExceedsGrows | src/spatial_text.rs:382-386 | text that overflows its box still overflows with more text after it, because the estimate counts 8 units per UTF-8 byte and bytes add up |
| ElementRanges.ChecksRecheck | src/spatial_text.rs:327-339 | collecting then applying the checks re-measures exactly the modified, flagged ranges against their original width and leaves the rest alone |
| ElementRanges.InsertedRanges | src/spatial_text.rs:307-339 | `insert_text` keeps one range per element |
| ElementRanges.InsertKeepsValid | src/spatial_text.rs:307-339 | after an insertion the ranges stay in order inside the longer rope; each keeps its id and bounds, moves by the shift rule, and is modified exactly when it was or held the point |
| ElementRanges.InsertKeepsText | src/spatial_text.rs:311-325 | after an insertion every range reads what it read before, plus the inserted text for the range holding the point |
| ElementRanges.InsertOverflowSound | src/spatial_text.rs:320-339 | after an insertion a range is flagged overflowing only if it is modified and its text is too wide; the range holding the point is flagged exactly when its text is too wide |
| ElementRanges.InsertAtRangeStartGrows | src/spatial_text.rs:315-320 | inserting at a range's start grows that range |
| ElementRanges.InsertAtRangeEndGoesToNext | src/spatial_text.rs:315-332 | inserting at the boundary of two ranges grows the second and leaves the first untouched |
| ElementRanges.RemoveRange | src/spatial_text.rs:352 | the rope shrinks by the deleted length |
| ElementRanges.DeleteStepEffect | src/spatial_text.rs:355-371 | endpoints inside the deleted span collapse to its start, later ones move back, touched ranges are marked modified, nothing else changes |
| ElementRanges.DeleteKeepsValid | src/spatial_text.rs:348-372 | after a deletion the ranges stay in order inside the shorter rope, keep their ids and bounds, and are modified exactly when they were or touch the span |
| ElementRanges.DeleteKeepsText | src/spatial_text.rs:352-371 | after a deletion every range reads what it read before minus the deleted characters |
| ElementRanges.DeleteWholeRange | src/spatial_text.rs:356-371 | deleting a range's whole text leaves it empty at the deletion point, marked modified |
| ElementRanges.DeleteMarksFollowingRange | src/spatial_text.rs:356-371 | a range starting exactly where the deleted span ends keeps its text but is marked modified |
| ElementRanges.RangesOver | src/spatial_text.rs:190-234 | the layout ranges follow one another without gaps from the start to the end of the rope, range `i` belongs to element `i` with its box as both bounds, unflagged |
| ElementRanges.RangesOverValid | src/spatial_text.rs:190-234 | ranges laid over any pieces lie in order inside their text |
| ElementRanges.LayoutValid | src/spatial_text.rs:182-235 | a fresh layout's ranges lie in order inside the rope, range `i` belongs to element `i` and none is flagged |
| ElementRanges.LayoutTiles | src/spatial_text.rs:190-234 | in a fresh layout range `i` reads exactly element `i`'s line break, content and trailing space |
| ElementRanges.LayoutExample | src/spatial_text.rs:190-234 | words at VPOS 0, 3 and 20 lay out as "A B\nC" with ranges [0,2), [2,3) and [3,5) |
| SpatialText.BuildBuffer | src/spatial_text.rs:182-242 | the rope and ranges are the layout of the elements and, with the index built over them, satisfy the buffer invariant |
| SpatialText.SpatialTextBuffer.FromAltoElements | src/spatial_text.rs:182-242 | a new buffer holds the layout of the elements and satisfies the buffer invariant |
| SpatialText.SpatialTextBuffer.InsertText | src/spatial_text.rs:307-345 | the rope takes the text at the position, the ranges become the result of the three passes, the index is unchanged, and the invariant is kept |
| SpatialText.SpatialTextBuffer.DeleteRange | src/spatial_text.rs:348-376 | the rope loses the span, the ranges collapse or move back, the rebuilt index equals the old one, and the invariant is kept |
| SpatialText.SpatialTextBuffer.RopeToScreenPosition | src/spatial_text.rs:274-295 | the scan returns the anchor of the position in the first range holding it |
| SpatialText.BuildRope | src/spatial_text.rs:184-235 | the layout loop produces the layout text and ranges |
| SpatialText.PlaceElement | src/spatial_text.rs:191-234 | one round appends element `i`'s piece and records its range and the current line VPOS |
| SpatialText.ShiftRanges | src/spatial_text.rs:314-325 | the first pass of `insert_text` computes the shifted ranges |
| SpatialText.CollectOverflowChecks | src/spatial_text.rs:328-334 | the second pass collects exactly the specified checks |
| SpatialText.ApplyOverflowChecks | src/spatial_text.rs:337-339 | the third pass stores each check in order |
| SpatialText.CollapseRanges | src/spatial_text.rs:355-372 | the loop of `delete_range` computes the collapsed ranges |
| SpatialText.SpatialCursor.constructor | src/spatial_text.rs:399-406 | a new cursor sits at position 0 with no anchor |
| SpatialText.SpatialCursor.UpdatePosition | src/spatial_text.rs:408-409 | the anchor is recomputed from the position, which does not change |
| SpatialText.SpatialCursor.MoveToRopePosition | src/spatial_text.rs:429-432 | the position is clamped to the rope's length and the anchor recomputed |
| SpatialText.SpatialCursor.MoveToScreenPosition | src/spatial_text.rs:434-439 | a click on an element moves the cursor to the mapped position with the click as anchor; elsewhere the cursor stays; a position inside the rope stays inside |
| Reconstruct.FirstJoined | src/main.rs:172-178 | the search picks the first line whose first word is less than 8 away in VPOS, or none |
| Reconstruct.FirstJoinedIs | src/main.rs:172-178 | the line the search stops at is the first one joined |
| Reconstruct.AddKeepsCoherent | src/main.rs:171-185 | adding a word keeps every line non-empty, within 8 of its first word, and lines' first words 8 or more apart |
| Reconstruct.GroupLinesCoherent | src/main.rs:170-185 | grouping yields coherent lines |
| Reconstruct.GroupLinesPartition | src/main.rs:170-185 | every word lands in exactly one line and no line gains anything else |
| Reconstruct.HeadsAbove | src/main.rs:168-185 | over words sorted by VPOS, every line grouped so far starts at or above the next word |
| Reconstruct.AddKeepsAscending | src/main.rs:171-185 | adding a word at or below every line's start keeps the lines' first words ascending and 8 or more apart |
| Reconstruct.GroupLinesAscending | src/main.rs:166-185 | over words sorted by VPOS the lines come out in ascending VPOS order, each first word at least 8 below the previous |
| Reconstruct.SortLinesFlatten | src/main.rs:188-190 | sorting each line keeps the words of all lines |
| Reconstruct.LayoutPartition | src/main.rs:164-190 | the written lines hold every word exactly once |
| Reconstruct.SeparatorWidth | src/main.rs:213-221 | the number of spaces for every gap: 1 for a gap below 16, the whole number of 8-unit steps in the gap from 16 to 87, and 10 from 88 on |
| Reconstruct.ExtraNewlines | src/main.rs:200-207 | at most 3 blank lines, some exactly when the previous line's VPOS is positive and the gap exceeds 15, one per whole 12 units of gap |
| Reconstruct.LineWords | src/main.rs:209-226 | a line of single-word elements reads back as exactly those words, never run together |
| Reconstruct.RenderWords | src/main.rs:193-232 | the written text reads back as the words of the lines in order and ends with a line break |
| Reconstruct.BlockWords | src/main.rs:197-231 | writing one more line adds exactly that line's words |
| Reconstruct.ReadableWords | src/main.rs:162-235 | when every element holds one word, the readable text holds exactly the words of the elements, each once, line by line |
| Reconstruct.GenerateReadableText | src/main.rs:162-235 | the method returns the readable text of the elements |
| Reconstruct.GroupIntoLines | src/main.rs:171-185 | the grouping loop produces the grouped lines |
| Reconstruct.SortEachLine | src/main.rs:188-190 | every line is sorted by HPOS |
| Reconstruct.WriteLines | src/main.rs:193-234 | the writing loop produces the rendered text |
| Reconstruct.WriteBlock | src/main.rs:197-231 | one line is written after its blank lines and records its VPOS |
| Reconstruct.WriteLine | src/main.rs:209-226 | the loop over a line's words produces the line's text |
| Reconstruct.EmptyText | src/main.rs:162-235 | no words give no text |
| Reconstruct.GroupPair | src/main.rs:171-185 | two words form one line when less than 8 apart in VPOS, otherwise two |
| Reconstruct.NoGapAfterTopLine | src/main.rs:200-207 | a line after one at VPOS 0 gets no blank lines, even 30 units below |
| Reconstruct.SectionGap | src/main.rs:200-207 | a gap of 30 below a line at VPOS 10 puts two blank lines in between |
| Reconstruct.TwoLines | src/main.rs:162-235 | two words 8 or more apart in VPOS are written as two lines with the gap's blank lines between |
| Reconstruct.LayoutTwoLines | src/main.rs:166-190 | two words 8 or more apart in VPOS form two lines |
| Reconstruct.RenderTwo | src/main.rs:193-232 | two one-word lines are written with the gap's blank lines between |
| Reconstruct.OneLine | src/main.rs:162-235 | two words less than 8 apart in VPOS share a line, ordered by HPOS |
| Reconstruct.LayoutOneLine | src/main.rs:166-190 | two words less than 8 apart in VPOS form one line in HPOS order |
| Reconstruct.LineTextPair | src/main.rs:209-226 | two words of a line are separated by the spaces their gap calls for |
| Reconstruct.RenderOne | src/main.rs:193-232 | a single line is written without blank lines before it |
| Reconstruct.SameLineSpacing | src/main.rs:213-218 | a gap of 32 units becomes four spaces |
| TableSplit.Partition | src/main.rs:261-275 | the first list holds only table elements and the second only the others |
| TableSplit.PartitionAppend | src/main.rs:261-275 | the split works element by element, keeping input order in both lists |
| TableSplit.PartitionPermutes | src/main.rs:261-275 | every element lands in one of the two lists, as often as it occurs |
| TableSplit.SplitOne | src/main.rs:262-274 | one element goes to the table list exactly when its trimmed content passes the table test |
| TableSplit.LongIsParagraph | src/main.rs:265 | content longer than 8 bytes after trimming is never a table cell |
| TableSplit.SplitTableElements | src/main.rs:261-275 | the loop fills the two lists of the split |
| TableSplit.DrawTable | src/main.rs:278-291 | every table element is drawn at its page position, in order |
| TableSplit.RenderHybridSmart | src/main.rs:245-303 | the table elements are drawn at their positions, then the readable text of the rest at (50, 50) |
| TableSplit.HybridCoversAll | src/main.rs:257-302 | every element is either drawn alone or written in the readable text, exactly once |
| TableSplit.HybridWords | src/main.rs:293-302 | when every content is one word, the paragraph text holds exactly the paragraph words |
| TableSplit.TrimmedContent | src/main.rs:262-265 | ASCII content that is already trimmed is judged as it stands, its byte length its character count |
| TableSplit.CurrencyIsTable | src/main.rs:265-266 | "$5" is a table cell |
| TableSplit.PercentIsTable | src/main.rs:265-267 | "12.5%" is a table cell |
| TableSplit.NotApplicableIsTable | src/main.rs:265-268 | "N/A" is a table cell |
| TableSplit.BlankIsTable | src/main.rs:262-267 | blank content is a table cell |
| TableSplit.WordIsParagraph | src/main.rs:265-273 | "Revenue" is paragraph text |
| TableSplit.LongNumberIsParagraph | src/main.rs:265 | a nine-digit number is too long for a table cell |
| FormatXml.IndentFor | src/main.rs:389-391 | a line is written at the current level or one level out, and one level out exactly when it is a closing tag and the level is above 0 |
| FormatXml.Kept | src/main.rs:382-387 | the kept lines are trimmed and not blank, there are no more of them than input lines, and there are none exactly when every input line is whitespace only |
| FormatXml.KeptOne | src/main.rs:383-387 | a single line is dropped when it trims to nothing and otherwise kept as its trimmed text |
| FormatXml.KeptAppend | src/main.rs:382-387 | lines are judged one at a time and in order: the kept lines of two texts in a row are those of the first followed by those of the second |
| FormatXml.Indented | src/main.rs:393-396 | one output line per kept line |
| FormatXml.IndentedAt | src/main.rs:388-401 | output line `i` is kept line `i` behind two spaces per level it is written at |
| FormatXml.KeptIndented | src/main.rs:383-396 | trimming the output lines gives back the kept lines |
| FormatXml.LinesOfFormatted | src/main.rs:376-405 | splitting the output into lines gives back the indented lines |
| FormatXml.FormattedIdempotent | src/main.rs:376-405 | formatting formatted output changes nothing |
| FormatXml.FormatXmlText | src/main.rs:376-405 | the loop produces the formatted document |
| FormatXml.FormatLine | src/main.rs:383-401 | one round skips a blank line, or writes the trimmed line at its level and updates the level |
| FormatXml.CloseAtTopSaturates | src/main.rs:389-391 | a closing tag at level 0 stays at level 0 |
| FormatXml.NestedElement | src/main.rs:388-401 | an element's child sits two spaces in and its closing tag back out, ending at level 0 |
| FormatXml.TagKinds | src/main.rs:389-399 | an opening tag opens, a self-closing tag neither opens nor closes, a closing tag closes |

## Left out

- Floating point: every coordinate, width and quotient is an integer, and every float-to-integer cast is an explicit floor. Float rounding, NaN and infinities are not modelled, except that a zero width in `ProportionalOffset` follows the cast of an infinity or NaN.
- The zoom/pan coordinate transform (`CoordinateTransform`, `screen_to_document_pos`, `document_to_screen_pos`) and the `zoom`, `pan`, `cursor_pos` and `selection` fields: clicks and anchors are in document coordinates.
- `SpatialIndex::new` and `SpatialTextBuffer::new`: `new` sets the grid cell size to 50.0 and nothing changes it afterwards; the model keeps that value as the constant 50 in the cell arithmetic of `SpatialIndex` (`CellOf`, `CellsSpanned`, `FindElementAt` and `FirstCovering`). Their other placeholder values (the empty grid, the default document bounds, the empty buffer fields) are always overwritten, by `rebuild` and by `from_alto_elements`.
- `mark_dirty_region`, `clear_dirty_regions` and the `dirty_regions` list: they record repaint areas that no modelled operation reads.
- The cursor's blink timer and `render`: clocks and painting.
- SpatialText.SpatialTextBuffer.InsertText, SpatialText.SpatialTextBuffer.DeleteRange, ElementRanges.InsertAt and ElementRanges.RemoveRange: the source panics when a position lies past the end of the rope (`rope.insert` at src/spatial_text.rs:311, `rope.remove` at src/spatial_text.rs:352) or when `end < start` underflows `end - start` (src/spatial_text.rs:349). The model does not describe these panics; it states them as preconditions instead (`pos <= |rope|` and `start <= end <= |rope|`).
- ElementRanges.RopeToScreen: fractions of the per-character width are rounded down instead of kept as floats.
- The rope is a `string` of characters; ropey's internal tree is not modelled.
- TableSplit.IsNumeric: `char::is_numeric` is modelled on the ASCII digits only, not the other Unicode numeric characters.
- The painter's fonts and colours in `render_hybrid_smart`, the canvas allocation, and the scale factors, which are all 1.
- `load_pdf` and `parse_spatial_elements`, which run an external tool and parse its XML, `build_rope_from_elements`, `TerminalMetrics`, and the egui `update` loop: I/O and UI outside the modelled core.
