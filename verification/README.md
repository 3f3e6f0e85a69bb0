# notula editor core, modelled in Dafny

This project models the editing core of notula. notula is a small desktop note editor written in Rust on egui. It has two editor generations, and both are modelled here.

**The structured editor (`EditorCore`).** A document is a sequence of `DocumentLine`s. Each line is a sequence of elements: text runs and embedded images. The editor keeps a cursor (line, column) and two optional selection anchors. The model covers:

- its edits: typing, Enter, Backspace, forward Delete and deleting a selection;
- cursor movement and Shift-selection;
- Ctrl+A;
- the event dispatcher that folds one frame's input events;
- the renderer's per-line selection span;
- the status bar's statistics;
- pasting an image;
- saving and loading a document as text, with images as `[img_load("<id>")]` placeholders and a side-car metadata file.

**The flat-string editor (`TextEditor`).** This is a widget over one `String` that reads lines with `str::lines()`. The model covers:

- `CursorPosition` and its moves, including the "phantom" line after a final line feed;
- the cursor-to-byte-offset conversion and the edits at that offset;
- the widget's keyboard handler;
- the line count of its number gutter;
- the `[image(<id>)]` tag parser and the line height it implies.

## Modelling choices

- **Text and offsets.** Strings are `seq<char>`. A character's UTF-8 width is a function of its code point (`Chars.Utf8Len`), so byte offsets and character offsets are kept apart. This is where the flat editor's Backspace finding comes from.
- **Single-byte text in the structured editor.** The structured editor indexes Rust `String`s by byte but counts columns in `text_content().len()` units. Its invariant `CoreState.Inv` therefore includes single-byte text, and the event dispatcher takes ASCII input.
- **Panics.** A panic in the source is a `requires` when the caller can always avoid it, for example `Vec::insert` past the end. A panic that input the caller does not control can cause is an error result instead: `FlatEditor.Step` returns None where `insert_str` would panic, and `FileIo.ParseLines` ends with the error `IdSlicePanic` on the one line whose id slice would panic. One exception: the as-written dispatcher `CoreInput.HandleEventAsWritten` requires valid anchors for an edit on a selection. Key presses alone can make the anchors stale (`CoreInput.StaleAnchorsAfterBackspace`), and the source then panics in the selection drain at src/editor/core.rs:398. The corrected dispatcher clears the anchors, so it never meets that case.
- **Outside effects as parameters.** File I/O, JSON, base64, the image decoder and UUID generation are outside the model:
  - the file system is a map from names to contents;
  - a save is the list of writes it performs;
  - decoders, encoders and fresh ids are function parameters.

## Model

| member | source | states |
|---|---|---|
| Document.NewLineIsEmpty | src/models/document.rs:13-17 | A fresh line is one empty text run: it is empty, has no text and no image. |
| Document.TextOfAppend | src/models/document.rs:19-28 | `text_content` of concatenated elements is the concatenation of their texts, and image counts add up. |
| Document.TextOfSingle | src/models/document.rs:19-28 | A text element contributes exactly its text. An image contributes no text and counts as one image. |
| Document.ImageOnlyHasNoText | src/models/document.rs:19-28 | A run of images has empty `text_content` and counts one image per element. |
| Document.IsEmptyIff | src/models/document.rs:30-35 | `is_empty` holds exactly when the line has no text and no image. |
| Document.WithFirstText | src/editor/core.rs:395-400 | Editing the first text run yields that text and leaves every later element unchanged. |
| Document.SimpleTextContent | src/models/document.rs:19-28 | On a line whose elements after the first are images, `text_content` is the first run's text. |
| CoreState.ClearSelection | src/editor/core.rs:355-358 | Both anchors are unset, so no selection is active, and the cursor stays. |
| CoreState.StartSelection | src/editor/core.rs:360-363 | Both anchors sit at the cursor, so no selection is active yet. |
| CoreState.UpdateSelection | src/editor/core.rs:365-369 | Without a start anchor nothing changes. Otherwise the end anchor moves to the cursor, and the start anchor and the cursor stay. |
| CoreState.Ordered | src/editor/core.rs:385-391 | The two anchors are returned as a set in reading order. |
| CoreState.OrderedSymmetric | src/editor/core.rs:385-391 | The ordered span does not depend on which anchor was set first. |
| CoreState.ReplaceFirstText | src/editor/core.rs:395-400 | Replacing the first text run of a well-formed line keeps it well-formed, and its text becomes the new run. |
| CoreEdit.EnsureLine | src/editor/core.rs:30-32 | A cursor one line past the end gets a fresh line appended; otherwise the document is unchanged. |
| CoreEdit.InsertChar | src/editor/core.rs:29-48 | The character goes in at the cursor column of the first text run, or in a new text run in front of an image. The cursor advances one column, the selection is cleared and other lines are untouched. |
| CoreEdit.HandleEnter | src/editor/core.rs:50-74 | The line splits at the cursor: the two halves concatenate to the old text. Otherwise a fresh line opens below the image line. The cursor goes to the start of the next line. |
| CoreEdit.HandleBackspace | src/editor/core.rs:76-101 | Past column 0 the character before the cursor is removed. At column 0 the line joins the previous one, with the cursor at the old end of that line. At the origin nothing changes. |
| CoreEdit.DeleteForwardAsWritten | src/editor/core.rs:207-248 | The character after the cursor is removed. At the end of a line the next line is merged in, but modified is only reported when that line starts with text. |
| CoreEdit.DeleteForward | src/editor/core.rs:207-248 | Same document as the source's delete. It reports modified exactly when the document changed. |
| CoreEdit.DeleteDropsImageLine | src/editor/core.rs:230-244 | Merging an image line removes it while the source reports no modification. The corrected delete reports it. |
| CoreMove.MoveLeft | src/editor/core.rs:103-111 | One column back, or the end of the previous line at column 0, or no move at the origin. A valid cursor stays valid. |
| CoreMove.MoveRight | src/editor/core.rs:113-126 | One column on, or the start of the next line at a line's end, or no move at the end of the last line. A valid cursor stays valid. |
| CoreMove.MoveUp | src/editor/core.rs:128-135 | The line above, with the column clamped to that line's length. No move on line 0. |
| CoreMove.MoveDown | src/editor/core.rs:137-144 | The line below, with the column clamped. No move on the last line. |
| CoreSelection.AnchorsValidSafe | src/editor/core.rs:377-440 | Anchors on valid positions of a well-formed document never make `delete_selection` panic. |
| CoreSelection.DeleteSelectionAsWritten | src/editor/core.rs:377-440 | Without a selection nothing happens. With one, the deletion reports modified and clears both anchors. |
| CoreSelection.DeleteSelection | src/editor/core.rs:377-440 | As in the source, but the cursor always moves to the start of the selection. |
| CoreSelection.AsWrittenAgrees | src/editor/core.rs:393-436 | When the first selected line starts with text, the source's deletion equals the corrected one. |
| CoreSelection.ImageStartStrandsCursor | src/editor/core.rs:422-430 | A selection from an image line into the next line leaves the source's cursor on a line that no longer exists. The corrected cursor lies at the start of the selection. |
| CoreSelection.DeleteSelectionSingleLine | src/editor/core.rs:393-401 | A one-line selection removes exactly the characters between its columns, and nothing else changes. |
| CoreSelection.DeleteSelectionMultiLine | src/editor/core.rs:402-436 | The first line keeps its head, gains the last line's tail, and every line in between is dropped. |
| CoreSelection.DeleteLines | src/editor/core.rs:403-436 | A multi-line deletion keeps every line before the selection's first line. The lines after its last line follow that line directly. When the selection ends on an existing line, the document is shorter by the number of lines the selection spans. |
| CoreSelection.DeleteLinesKeepsInv | src/editor/core.rs:403-436 | The lines left by a multi-line deletion are well-formed, and the selection's start is still a valid position in them. |
| CoreSelection.DeleteSelectionSymmetric | src/editor/core.rs:385-391 | The deletion does not depend on which anchor was set first. |
| CoreSelection.DeleteSelectionExample | src/editor/core.rs:402-436 | Deleting from (0,1) to (1,2) of "hello"/"world" leaves "hrld" with the cursor at (0,1). |
| CoreSelection.DeleteSelectionKeepsInv | src/editor/core.rs:377-440 | Deleting a selection keeps the document well-formed, with the cursor and anchors valid. |
| CoreSelection.SelectAll | src/editor/core.rs:301-308 | The anchors span from (0,0) to the end of the last line, with the cursor unmoved. On an empty document only the start anchor is set. |
| CoreSelection.SelectAllThenDelete | src/editor/core.rs:301-308 | Select-all followed by a deletion leaves one line with no text. |
| CoreLaws.InvEnablesEdits | src/editor/core.rs:29-101 | Under the invariant, no edit's indexing panics and the cursor line's text is single-byte. |
| CoreLaws.InsertCharKeepsInv | src/editor/core.rs:29-48 | Typing keeps the invariant, inserts the character into the line's text at the cursor, and advances the cursor. |
| CoreLaws.HandleEnterKeepsInv | src/editor/core.rs:50-74 | Enter keeps the invariant, adds one line, and the two resulting lines' texts concatenate to the old line's text. |
| CoreLaws.HandleBackspaceKeepsInv | src/editor/core.rs:76-101 | Backspace keeps the invariant. |
| CoreLaws.DeleteForwardKeepsInv | src/editor/core.rs:207-248 | Delete keeps the invariant and does not move the cursor. |
| CoreLaws.InsertThenBackspace | src/editor/core.rs:29-101 | Backspace undoes a typed character: the same text on every line, the cursor back, and the same document when the line starts with text. |
| CoreLaws.EnterThenBackspace | src/editor/core.rs:50-101 | Backspace right after Enter restores the document and the cursor exactly. |
| CoreLaws.DeleteIsBackspaceAfterRight | src/editor/core.rs:76-126 | Inside a line, Delete does what Right followed by Backspace does. |
| CoreLaws.InsertCharExample | src/editor/core.rs:29-48 | Typing 'X' at (0,2) of "abc" gives "abXc" with the cursor at (0,3). |
| CoreLaws.BackspaceJoinExample | src/editor/core.rs:86-99 | Backspace at the start of "def" below "abc" gives "abcdef" with the cursor at (0,3). |
| CoreLaws.DeleteJoinExample | src/editor/core.rs:224-244 | Delete at the end of "ab" above "cd" gives "abcd" with the cursor unmoved. |
| CoreInput.Printable | src/editor/core.rs:169-172 | No control character is kept, and every other character of the text is. Text without control characters is unchanged. |
| CoreInput.PrintableSingle | src/editor/core.rs:169-172 | One character is kept exactly when it is not a control character. |
| CoreInput.PrintableAppend | src/editor/core.rs:169-172 | Filtering a concatenation filters each part and concatenates the results, so the kept characters keep their order. |
| CoreInput.InsertChars | src/editor/core.rs:169-176 | Typed text goes in at the cursor as its printable characters, the cursor advances by their number, and other lines are untouched. |
| CoreInput.Move | src/editor/core.rs:249-300 | Arrow keys move the cursor to a valid position and leave the anchors alone. |
| CoreInput.Navigate | src/editor/core.rs:249-300 | A plain arrow clears the selection. With Shift, the start anchor is kept or set at the old cursor, and the end anchor follows the new cursor. |
| CoreInput.HandleEvent | src/editor/core.rs:146-316 | Corrected (editing keys clear the anchors, a selection delete leaves the cursor at its start, and Delete reports every change): one event keeps the invariant and valid anchors. Non-edits leave the document. Enter, Backspace and Delete end with no selection, and an edit on a selection always reports modified. |
| CoreInput.TypeText | src/editor/core.rs:161-178 | Corrected (a selection delete leaves the cursor at its start): a text event keeps the invariant and valid anchors. Replacing an active selection always counts as a change, and an unreported change never alters the document. |
| CoreInput.PressKey | src/editor/core.rs:179-310 | Corrected (editing keys clear the anchors, a selection delete leaves the cursor at its start, and Delete reports every change): a pressed key keeps the invariant and valid anchors. Only Enter, Backspace and Delete touch the document. Arrows navigate and Ctrl+A selects everything. |
| CoreInput.PressEditKey | src/editor/core.rs:186-248 | Corrected (editing keys clear the anchors, a selection delete leaves the cursor at its start, and Delete reports every change): Enter, Backspace and Delete end with no selection, and count as a change whenever a selection was active. |
| CoreInput.EditKey | src/editor/core.rs:186-248 | Corrected (Delete reports every change): Enter always adds one line. Backspace and Delete on a selection only delete the selection. |
| CoreInput.EditKeyAsWritten | src/editor/core.rs:186-248 | The source's Enter, Backspace and Delete give the corrected document and cursor, but may under-report modified. |
| CoreInput.HandleInput | src/editor/core.rs:146-329 | The corrected `handle_input`, where editing keys clear the anchors: a frame's events keep the invariant and valid anchors. No events changes nothing, and an unmodified result means an unchanged document. |
| CoreInput.NavigationLeavesDocument | src/editor/core.rs:249-308 | Frames of navigation and selection events never change the document or report a modification. |
| CoreInput.HandleInputAppend | src/editor/core.rs:158-315 | Handling two batches of events in turn is handling their concatenation, with modified as the disjunction. |
| CoreInput.TypingInserts | src/editor/core.rs:161-178 | A typed printable character goes in at the cursor and the cursor advances. |
| CoreInput.HandleEventAsWritten | src/editor/core.rs:146-316 | The source's dispatcher keeps the document well-formed and the cursor valid, and non-edits leave the document. This holds when an edit on a selection has valid anchors and does not start on an image line; see Left out. |
| CoreInput.AsWrittenDiffersOnlyInAnchors | src/editor/core.rs:186-248 | Where an edit on a selection does not start on an image line, the source and the corrected dispatcher give the same document and cursor. They differ only in the anchors left after an editing key and in an under-reported modified. |
| CoreInput.StaleAnchorsAfterBackspace | src/editor/core.rs:197-206 | Shift+Right at a line end, two Backspaces, then Shift+Left leave a selection whose anchor lies past the line's end. |
| Renderer.LineSpan | src/editor/renderer.rs:19-44 | A line has a span exactly when a selection is active and the line lies between its first and last lines. |
| Renderer.InteriorLineSpan | src/editor/renderer.rs:31-38 | Lines strictly inside the selection are highlighted from column 0 to the line's end. |
| Renderer.SingleLineSpan | src/editor/renderer.rs:31-38 | A one-line selection spans exactly its two columns. |
| Renderer.LineSpanSymmetric | src/editor/renderer.rs:24-29 | The span does not depend on which anchor was set first. |
| Renderer.HighlightedIff | src/editor/renderer.rs:56-73 | A character is drawn highlighted exactly when its position is at or after the first anchor and before the second, in reading order. |
| Renderer.DeletionRemovesHighlighted | src/editor/renderer.rs:56-73 | On a one-line selection, the deletion removes exactly the highlighted characters and keeps the rest in order. |
| Status.GetStats | src/ui/status.rs:16-32 | The first statistic is the number of lines, and an empty document counts (0, 0). |
| Status.StatsAppend | src/ui/status.rs:16-32 | Both statistics add up over a concatenation of documents. |
| Status.SingleLineStats | src/ui/status.rs:16-32 | A one-line document counts its characters plus one per image. |
| Status.NewLineStats | src/ui/status.rs:16-32 | A fresh line counts as one line without characters. |
| Status.ImageLineStats | src/ui/status.rs:16-32 | A line holding one image counts as one line of one character. |
| Status.StatsUpdate | src/ui/status.rs:16-32 | Replacing a line changes the character count by the difference of the two lines' counts. |
| ImageHandler.ProcessImageBytes | src/image/handler.rs:49-96 | A failed decode changes nothing. Otherwise the image line and a fresh line go in after the cursor line, the cursor moves to the fresh line, and the bytes and metadata are stored under the new id. |
| ImageHandler.ProcessImageKeepsInv | src/image/handler.rs:49-96 | Pasting keeps the editor's invariant, and the status bar shows two more lines and one more character. |
| FileIo.RenderLines | src/file_ops/io.rs:7-22 | One saved line per document line, in order. |
| FileIo.ContentToTextAppend | src/file_ops/io.rs:7-22 | Saving a concatenation of documents joins their texts with a line feed. |
| FileIo.JoinAppend | src/file_ops/io.rs:20-21 | Joining with line feeds distributes over concatenation. |
| FileIo.OverlappingIsOnlyOne | src/file_ops/io.rs:32-36 | Exactly one placeholder-shaped line, `[img_load(")]`, makes the id slice panic. |
| FileIo.PlaceholderParses | src/file_ops/io.rs:15 | The placeholder written for an id is recognised and yields that id back. |
| FileIo.LineOf | src/file_ops/io.rs:31-67 | A saved line becomes one image element exactly when it is a placeholder whose id the metadata lists, with the metadata's size. Otherwise it becomes its text. |
| FileIo.CacheImage | src/file_ops/io.rs:50-54 | An image line whose id is not cached gets its decoded data cached. The step fails exactly when that decode fails. Other lines leave the cache unchanged. |
| FileIo.ParseLines | src/file_ops/io.rs:31-68 | A success yields `LineOf` of each saved line, and none of them panics. The loop succeeds whenever no line panics and every listed image decodes. A failure is a decode failure or the id-slice panic. The image cache only gains decoded images. |
| FileIo.ParseFailureCause | src/file_ops/io.rs:31-68 | A failed parse names a line that refers to a listed image whose data does not decode, or a line of the text whose id slice panics. |
| FileIo.ParseCachesImages | src/file_ops/io.rs:38-54 | After a successful parse, every image that a line refers to is in the cache. |
| FileIo.TextToContent | src/file_ops/io.rs:24-75 | The result is never an empty document: empty text gives one fresh line. Otherwise there is one line per text line. It succeeds when no line panics and every image decodes. A failure names its cause, as in `ParseFailureCause`. A success caches every referenced image. |
| FileIo.RenderSingle | src/file_ops/io.rs:11-18 | A one-element line saves as that element's text or placeholder. |
| FileIo.LineRoundTrip | src/file_ops/io.rs:7-67 | A line without line breaks that does not look like a placeholder, or a listed image, loads back to itself. |
| FileIo.ParseRendered | src/file_ops/io.rs:7-68 | The saved lines of a round-tripping document parse back to the document. |
| FileIo.TextRoundTrip | src/file_ops/io.rs:7-75 | `text_to_content` after `content_to_text` is the identity on round-tripping documents. |
| FileIo.EmptyLastLine | src/file_ops/io.rs:70-72 | A round-tripping document can end in an empty text line only when that is its only line. |
| FileIo.SaveAsWritten | src/file_ops/io.rs:77-114 | The text is written first. The metadata follows only when an image is listed: as `<ext>.meta` for md and txt, as `txt.meta` otherwise. |
| FileIo.Save | src/file_ops/io.rs:77-114 | As the source for md and txt. The side-car always goes under the name the loader reads. |
| FileIo.ReadMetadata | src/file_ops/io.rs:129-143 | A missing side-car means no images. A side-car whose JSON does not decode is the error `BadMetadata`. Otherwise the result is its decoding. |
| FileIo.Load | src/file_ops/io.rs:116-151 | A missing file is the error `NotFound`, and unreadable metadata is `BadMetadata`. Otherwise the load succeeds exactly when `text_to_content` of the file with that metadata and an empty cache does. It then returns those lines, that metadata and that cache; on failure it returns that error. A success is never empty and caches every referenced image. |
| FileIo.LoadFailureCause | src/file_ops/io.rs:116-151 | A failed load is a missing file, a side-car that does not decode, or a parse failure with its named cause. |
| FileIo.SidecarDistinct | src/file_ops/io.rs:130-134 | The side-car never overwrites the document itself. |
| FileIo.SaveThenLoad | src/file_ops/io.rs:77-151 | With the corrected side-car name, saving and loading again gives back the same document and metadata. This needs four conditions: every line round-trips (`RoundTrips`), every listed image decodes, the JSON encoding round-trips, and no side-car is left on disk when the save writes none. |
| FileIo.SidecarNameMismatch | src/file_ops/io.rs:102-110 | Saving an image document as `x.rtf` and loading it gives the bare placeholder text and no images. |
| FlatCursor.NewlineCountAppend | src/components/text_editor/cursor_position.rs:85-92 | Line-feed counts add over concatenation. |
| FlatCursor.LinesCount | src/components/text_editor/cursor_position.rs:85-92 | `lines()` yields one line per line feed, plus one for an unterminated last line. |
| FlatCursor.MaxLineIndex | src/components/text_editor/cursor_position.rs:85-92 | The last reachable line is the number of line feeds. It is a line `lines()` yields exactly when the text is non-empty and unterminated. |
| FlatCursor.ClampColumn | src/components/text_editor/cursor_position.rs:94-99 | The column is capped at its line's length, and left alone on the phantom line. A reachable line gives a valid cursor. |
| FlatCursor.MoveUp | src/components/text_editor/cursor_position.rs:22-27 | No move on line 0. Otherwise the line above with the column clamped, which is a line `lines()` yields. Validity is kept. |
| FlatCursor.MoveDown | src/components/text_editor/cursor_position.rs:29-33 | The next line, capped at the last reachable one, with the column clamped. The result is always valid. |
| FlatCursor.MoveToLineEnd | src/components/text_editor/cursor_position.rs:74-79 | The column after the line's last character. No move on the phantom line. |
| FlatCursor.MoveToLineStart | src/components/text_editor/cursor_position.rs:81-83 | Column 0 on the same line. |
| FlatCursor.MoveRightBy | src/components/text_editor/cursor_position.rs:59-61 | The column grows by the amount without clamping. |
| FlatCursor.MoveLeft | src/components/text_editor/cursor_position.rs:35-42 | One column back, or the end of the previous line at column 0, or no move at the start. Validity is kept. |
| FlatCursor.MoveRight | src/components/text_editor/cursor_position.rs:44-57 | One column on, or the start of the next line at a line's end, or the line's end on the last line. Validity is kept. |
| FlatCursor.MoveToLineAndColumn | src/components/text_editor/cursor_position.rs:63-72 | Line and column are capped at the last reachable line and its length. The result is always valid. |
| FlatCursor.LeftThenRight | src/components/text_editor/cursor_position.rs:35-57 | Right undoes Left everywhere except at the start of the text. |
| FlatCursor.RightThenLeft | src/components/text_editor/cursor_position.rs:35-57 | Left undoes Right everywhere except at the end of the last line. |
| FlatCursor.DownThenUp | src/components/text_editor/cursor_position.rs:22-33 | Up after Down returns to the line, and to the same cursor when the column fits the line below. |
| TextOps.GetBytePosition | src/components/text_editor/text_ops.rs:19-35 | The loop computes the byte offset of the cursor: the lines before it with their line feeds, then the bytes of the characters before the column. editor.rs:333-349 repeats the same loop. |
| TextOps.TakeBytes | src/components/text_editor/text_ops.rs:25-29 | The byte length of the first n characters of a line. |
| TextOps.CursorBoundary | src/components/text_editor/text_ops.rs:19-35 | For a reachable cursor in a text without carriage returns, the byte offset is the character boundary at the cursor's character offset. |
| TextOps.InsertText | src/components/text_editor/text_ops.rs:7-10 | The insertion adds the text's characters, bytes and line feeds. For a reachable cursor it lands at the cursor's character offset. |
| TextOps.InsertNewline | src/components/text_editor/text_ops.rs:3-5 | Inserting a line feed makes one more line reachable and lands at the cursor. |
| TextOps.DeleteCharAtPosition | src/components/text_editor/text_ops.rs:12-17 | The byte offset minus one is used as a character index: a character goes exactly when that index exists. |
| TextOps.DeleteCharBefore | src/components/text_editor/text_ops.rs:12-17 | Corrected (a character index, not the byte offset): the character just before the cursor goes. Nothing changes at the start of the text. |
| TextOps.AsciiBytePosition | src/components/text_editor/text_ops.rs:19-35 | On single-byte text the byte offset is the character offset. |
| TextOps.AsciiDeleteAgrees | src/components/text_editor/text_ops.rs:12-17 | On single-byte text the source's deletion agrees with the intended one, except at offset 0, where it removes the first character. |
| TextOps.InsertThenDelete | src/components/text_editor/text_ops.rs:7-17 | Deleting before the cursor after inserting a character there restores the text. |
| TextOps.InsertedOffset | src/components/text_editor/text_ops.rs:7-10 | Typing text without line breaks keeps the widget's state valid, and the new cursor's offset is the old one plus the text's length. |
| TextOps.DeletedOffset | src/components/text_editor/text_ops.rs:12-17 | Deleting before a cursor past column 0 keeps the state valid, and the cursor one column back sits at the removed character's offset. |
| TextOps.EnteredOffset | src/components/text_editor/text_ops.rs:3-5 | After a line feed is inserted, the start of the next line is valid and sits one character after the old cursor. |
| FlatEditor.ArrowLeftKey | src/components/text_editor/editor.rs:247-258 | The widget's ArrowLeft is `CursorPosition::move_left`. |
| FlatEditor.ArrowRightKey | src/components/text_editor/editor.rs:259-277 | On a valid cursor the widget's ArrowRight is `move_right`. Past a line's end it still goes to the next line's start. |
| FlatEditor.ArrowUpKey | src/components/text_editor/editor.rs:278-287 | The widget's ArrowUp is `move_up`. |
| FlatEditor.ArrowDownKey | src/components/text_editor/editor.rs:288-307 | ArrowDown is `move_down`, except that the phantom line gets column 0. No move on the last reachable line. |
| FlatEditor.BackspaceKey | src/components/text_editor/editor.rs:320-331 | At column 0 nothing happens. Otherwise the cursor steps one column back. |
| FlatEditor.BackspaceAsWritten | src/components/text_editor/editor.rs:320-331 | Past column 0 the source removes the character at index (byte offset - 1) and steps back. At column 0 nothing happens. |
| FlatEditor.Step | src/components/text_editor/editor.rs:227-311 | Corrected (Backspace removes the character before the cursor): an event panics exactly when it inserts at a non-boundary offset. The response is marked changed exactly for text, Backspace and Enter. Non-edits keep the text, and typing moves the cursor by the typed length. |
| FlatEditor.StepAsWritten | src/components/text_editor/editor.rs:227-311 | The source's handler differs from the corrected one only on Backspace. |
| FlatEditor.Run | src/components/text_editor/editor.rs:226-312 | Corrected (Backspace removes the character before the cursor): the response is changed exactly when some event edits, and a frame without edits keeps the text. |
| FlatEditor.HandleKeyboardInput | src/components/text_editor/editor.rs:209-313 | Corrected (Backspace removes the character before the cursor): without focus nothing happens. With focus, in a valid state, events of typed text without line breaks never panic and keep the state valid. |
| FlatEditor.StepKeeps | src/components/text_editor/editor.rs:227-311 | Corrected (Backspace removes the character before the cursor): every event keeps the widget's state valid, and typing and Enter do not panic there. |
| FlatEditor.RunKeeps | src/components/text_editor/editor.rs:226-312 | Corrected (Backspace removes the character before the cursor): a frame of such events keeps the state valid and never panics. |
| FlatEditor.TypeAtCursor | src/components/text_editor/editor.rs:229-233 | Typed text goes in at the cursor's character offset, and the cursor moves past it. |
| FlatEditor.BackspaceDeletesBefore | src/components/text_editor/editor.rs:237-240 | The corrected Backspace removes the character before the cursor and keeps the state valid. |
| FlatEditor.EnterAtCursor | src/components/text_editor/editor.rs:241-246 | Enter inserts a line feed at the cursor and puts the cursor at the start of the next line. |
| FlatEditor.TypeThenBackspace | src/components/text_editor/editor.rs:229-240 | Corrected (Backspace removes the character before the cursor): typing a character and pressing Backspace restores the widget. |
| FlatEditor.EnterThenBackspace | src/components/text_editor/editor.rs:320-331 | Backspace after Enter leaves the line break: lines are not joined. |
| FlatEditor.StepAgreesOnAscii | src/components/text_editor/editor.rs:320-331 | On single-byte text in a valid state, the source's handler equals the corrected one for every event: Backspace past column 0 never sits at offset 0. |
| FlatEditor.BackspaceSkipsWideChar | src/components/text_editor/editor.rs:320-331 | On "éa" at (0,1) the source removes 'a'; the intended Backspace removes 'é'. |
| FlatEditor.GutterLineCount | src/components/text_editor/editor.rs:96-105 | The gutter numbers one line more than the last reachable index, which is one more than the number of line feeds. |
| ImageTag.ToDecimal | src/components/text_editor/util.rs:3-11 | A number's decimal digits: non-empty, and without a leading zero. |
| ImageTag.ParseUsize | src/components/text_editor/util.rs:6-7 | `usize` parsing: empty, a bare '+', a sign '-' and values above `usize::MAX` fail. A string of digits parses exactly when its value fits. |
| ImageTag.DecimalValue | src/components/text_editor/util.rs:6-7 | A number's decimal digits read back as the number. |
| ImageTag.ParseDecimal | src/components/text_editor/util.rs:6-7 | The decimal form of n parses to n exactly when n fits a `usize`, with or without '+'. |
| ImageTag.ExtractImageId | src/components/text_editor/util.rs:3-11 | A line without "[image(" has no id, and every id fits a `usize`. |
| ImageTag.FirstTagDecides | src/components/text_editor/util.rs:3-11 | For any prefix without "[image(" and any id text without ")]", the id is the parse of the text between the first "[image(" and the first ")]" after it, whatever follows. |
| ImageTag.TagYieldsId | src/components/text_editor/util.rs:3-11 | After any prefix without "[image(", a tag around the decimal form of n yields n when n fits a `usize`. |
| ImageTag.CheckboxBeforeTag | src/components/text_editor/util.rs:3-11 | A line with text before its tag, such as a check box, still yields the tag's id. |
| ImageTag.LaterTagIgnored | src/components/text_editor/util.rs:3-11 | A malformed first tag hides a well-formed later one. |
| ImageTag.EmptyTagHasNoId | src/components/text_editor/util.rs:3-11 | `[image()]` yields no id. |
| ImageTag.LineHeight | src/components/text_editor/util.rs:13-27 | The base height, or the base plus the texture's height and padding above and below when the tag names a known texture. |
| ImageTag.TaggedLineHeight | src/components/text_editor/util.rs:13-27 | A line whose first tag, after any prefix without "[image(", names a known texture is taller by its height plus twice the padding. |
| ImageTag.LineHeightAtLeastBase | src/components/text_editor/util.rs:13-27 | With non-negative texture heights, no line is shorter than the base height. |

## Left out

- Painting and layout: egui drawing, fonts, colours, the line-number column and image scaling (src/editor/renderer.rs:46-206), the widget's `show` layout, click-to-position and mouse handling (src/components/text_editor/editor.rs), the status bar's labels. Only the logic that decides what is drawn is modelled.
- The blink timer, `reset_cursor_blink`, `update_cursor_blink` and the scroll offset (src/editor/core.rs:317-353). They are display state driven by the clock. `reset` and `Default` are `CoreState.Initial` without further contract.
- The renderer draws a second caret on an empty cursor line (src/editor/renderer.rs:95-102). That is pure drawing.
- Image decoding, UUID generation and base64. These are function parameters: `ImageHandler.ProcessImageBytes` takes the decoder's answer, the fresh id and the encoded text. `FileIo` takes `decode`, `toJson` and `fromJson`.
- `create_sample_image` and `get_image_from_clipboard` (src/image/handler.rs:7-47). They are pixel generation and clipboard I/O.
- The file system's own failures (permissions, partial writes, invalid UTF-8) and JSON syntax. A read is a map lookup and a JSON failure is `BadMetadata`.
- `usize` overflow of the cursor and selection counters. Counters are unbounded `nat`s; only the `usize` parse in `ImageTag` bounds values by `usize::MAX`.
- Multi-byte text in the structured editor. Its byte-indexed `String` operations and character-counted columns agree only on single-byte text, so its invariant and its dispatcher require ASCII.
- Carriage returns in the flat editor. `str::lines()` strips a `\r` before `\n`, but the byte offset adds `line.len() + 1` per line. The flat editor's lemmas therefore assume text without `\r` (`NoCR`).
- `calculate_line_height` computes in `f32`. `ImageTag.LineHeight` uses `real`, so rounding is not modelled; texture heights are a map from id to height.
- FlatEditor.HandleKeyboardInput: the guarantee that the state stays valid is stated for frames whose typed text contains no line feed or carriage return, because typed line breaks move the text under the cursor without moving the cursor.
- CoreInput.HandleEventAsWritten: the invariant is stated only for events where an edit on a selection has valid anchors and does not start on an image line. Stale anchors, which key presses alone can produce (`CoreInput.StaleAnchorsAfterBackspace`), make the source panic in the drain at src/editor/core.rs:398; the model requires them away instead of returning an error. On an image line the source's selection delete leaves the cursor stranded below the document (`CoreSelection.ImageStartStrandsCursor`), and the edit that follows then indexes past the end.
- CoreInput.AsWrittenDiffersOnlyInAnchors: the comparison has the same restriction as `HandleEventAsWritten`. Where the selection starts on an image line, the source strands the cursor and the corrected dispatcher does not, so the two differ in more than the anchors.
- The id-slice panic in `text_to_content` (src/file_ops/io.rs:32-36) aborts the thread. `FileIo` reports it as the error `IdSlicePanic` instead, so a load that would panic ends with that error.
- FileIo.SaveThenLoad: the round trip is not promised when a side-car is already on disk and the document being saved has no images. `save_to_path` writes no side-car then (src/file_ops/io.rs:96, :105), and does not remove the old one, which `load_from_path` reads back (io.rs:136-138). It is also not promised for a text line that reads as a placeholder for a listed image (it loads back as that image), or for images whose data does not decode.
- The superseded single-file widget (src/components/text_editor.rs), the commented-out flat renderer, the window frame, menus, the app shell, icons and assets are not part of this model.

## Findings

| source | as written | input that shows it | evidently intended | confidence | as-written member | corrected member |
|---|---|---|---|---|---|---|
| src/editor/core.rs:377-440 | When the first selected line starts with an image, the later lines are still removed but the cursor is not moved. | Lines [image], ["ab"], selection (0,0)-(1,2), cursor (1,2): one line is left and the cursor is on line 1. | The cursor goes to the start of the selection. | high, not executed | CoreSelection.DeleteSelectionAsWritten, CoreSelection.ImageStartStrandsCursor | CoreSelection.DeleteSelection, CoreSelection.DeleteSelectionKeepsInv |
| src/editor/core.rs:186-248 | Enter, and Backspace and Delete without an active selection, keep stale equal anchors. A later Shift+arrow reuses the old start anchor. | "abc" at (0,3): Shift+Right, Backspace, Backspace, Shift+Left gives a selection from (0,3) on a one-character line. A following Backspace then panics in the drain at core.rs:398. | Editing clears the anchors, as typed text does. | medium, not executed | CoreInput.HandleEventAsWritten, CoreInput.StaleAnchorsAfterBackspace | CoreInput.HandleEvent, CoreInput.HandleInput, CoreInput.AsWrittenDiffersOnlyInAnchors |
| src/editor/core.rs:230-244 | Delete at the end of a line removes the next line even when it starts with an image, but reports no modification. | ["ab"], [image], cursor (0,2): the image line is gone and modified is false. | A change to the document is reported as modified. | high, not executed | CoreEdit.DeleteForwardAsWritten, CoreEdit.DeleteDropsImageLine | CoreEdit.DeleteForward, CoreLaws.DeleteForwardKeepsInv |
| src/components/text_editor/editor.rs:320-331 | The byte offset minus one is used as a character index (`char_indices().nth`). | "éa" with the cursor at (0,1): the byte offset is 2, so 'a' is removed instead of 'é'. | Remove the character before the cursor. | high, not executed | FlatEditor.BackspaceAsWritten, FlatEditor.BackspaceSkipsWideChar | FlatEditor.BackspaceKey, FlatEditor.BackspaceDeletesBefore |
| src/file_ops/io.rs:102-110 | For extensions other than md and txt, the side-car is written as `<stem>.txt.meta`, but `load_from_path` (io.rs:130-134) reads `<stem>.<ext>.meta`. | Save an image document as x.rtf, then load x.rtf: the image comes back as the text `[img_load("p")]`. | Save and load use the same side-car name. | high, not executed | FileIo.SaveAsWritten, FileIo.SidecarNameMismatch | FileIo.Save, FileIo.SaveThenLoad |
