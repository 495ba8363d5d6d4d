# A model of the fan controller's algorithms, with proofs

The fan controller is firmware for a small board that drives two fans and serves a shell over serial, SSH and
HTTP. Most of it is driver and network glue. This project models the algorithms inside it and proves what they
keep.

* **The kilo text editor** (`KiloView`, `KiloText`, `KiloCursor`, `KiloFlat`, `KiloRender`, `KiloSyntax`, `KiloRows`,
  `KiloColour`, `KiloComments`, `KiloLexemes`, `KiloLexing`, `KiloEdits`, `KiloMending`, `KiloSplitting`, `KiloJoining`,
  `KiloKeyColours`, `KiloFile`, `KiloLanguages`, `KiloEditor`). Rows with a cached rendering and cached colours, a scrolled
  cursor, chunked loading and saving. `KiloEditor.EditorConfig` is the editor as the code has it: methods that change rows,
  cursor and offsets in place, with loops over buffers. They are proved against the functions of the other modules; those
  refine a flat editor that knows only a text and one position, and their scan of a row is a lexer of words, numbers,
  string literals and comments.
* **The settings store** (`JsonText`, `JsonStrings`, `JsonEntries`, `NtpJson`, `NtpAccepted`, `AppJson`, `AppAccepted`,
  `SettingsStore`). JSON is printed by hand into bounded buffers and read back by searching the raw text for keys. The
  round trips are stated as equivalences, so they also say which configurations are misread; and texts that the store did
  not print, with fields in any order or missing, are read as their fields say.
* **The HTTP buffer pool** (`HttpPool`, `HttpBuffers`). `HttpPool` is a state machine over the steps of any number of
  threads: take the semaphore, scan under the lock, clear under the lock, give the semaphore. `HttpBuffers` has the
  functions themselves.
* **The byte ring between shell and editor** (`KiloRing`), likewise as protocol and as code.
* **Paths and words** (`PathSpec`, `PathResolver`, `Tokens`): path resolution with its stack of sixteen names, `cd`, and
  the splitting of a command line in place.
* **The line editor** (`LineText`, `LineRoom`, `LineEditor`) and **the SSH command line** (`SshLine`, `SshKeys`,
  `SshConsole`, `SshHistory`): bounded buffers edited in place.
* **Curves and the control step** (`Curves`, `FanControl`): integer piecewise-linear maps, their inverse, and the way
  from a queued command or an ADC reading to a pulse.

`CString`, `CBuffer` and `Errno` hold what the C library contributes.

## How to read the contracts

A C string is a string without its terminator. Buffers are arrays with the terminator in them; what a C string in a
buffer holds is said by equations on slices. Where the code returns an error number the methods do too.

Methods state their whole effect by a function of the old state; the properties are lemmas about those functions, and
`ensures` clauses of the methods where one call is concerned. Several properties that one would expect of the code hold
only under a condition. In those cases the statement is an equivalence with the exact condition, nearly always
beside a lemma with an input, or a family of them, on which it fails:

* Left at column 0 of the top screen row runs off the screen when the view is scrolled down (`KiloCursor.LeftGoesBack`;
  `LeftLosesCursor`).
* Page Down can leave the cursor behind the document (`KiloCursor.PageDownValid`; `PageDownLosesCursor`).
* There, Left in the first column reads a row outside the row array (`KiloCursor.LeftReadsInArray`,
  `KiloCursor.KeyKeepsLeftInArray`; `EmptyDocumentLeftOutside`). `KiloCursor.PagedRunIsInArray` has the runs that do not.
* A re-colouring pass stops at a line comment without clearing the row's flag (`KiloRows.RecolourRestores`,
  `KiloColour.EditKeepsColours`; `KiloComments.LineCommentLeavesStaleColours`).
* Inserting or deleting a whole row does not always colour the rows below again (`KiloColour.InsertKeepsColours`,
  `KiloColour.DeleteKeepsColours`; `KiloComments.EmptyRowLeavesStaleColours`, `DeletedRowLeavesStaleColours`). The same
  holds of the keys that are made of these (`KiloSplitting.SplitKeepsColours`, `KiloJoining.JoinKeepsColours`,
  `KiloKeyColours.KeyKeepsColours`) and of runs of keys (`KiloKeyColours.RunKeepsColours`).
* The colours are not always those of one scan that carries its state from row to row (`KiloComments.RowsStartAsCarried`,
  `KiloComments.ColoursAreCarried`; `EmptyRowHides`, `OpenedSlashHides`, `LineCommentHides`).
* With horizontal scrolling the cursor column is computed as if the scrolled-out part were not there
  (`KiloRender.ScrolledColumnIsShown`; `TabMisplacesCursor`).
* A file whose path does not fit the editor's buffer is saved under another path (`KiloEditor.SavedWhereOpened`).
* A time server that ends in a backslash, or equals or ends in a quoted key, changes what is read back
  (`JsonStrings.ArrayRoundTrip`, `NtpJson.NtpRoundTrip`, `NtpJson.StoreKeepsAccepted`; `NtpAccepted.BackslashIsNotKept`,
  `KeyNameIsNotKept`).
* A field that the first fan lacks is taken from the second (`AppAccepted.EntriesAreRead`; `FirstFanBorrows`).
* A file whose name has its ending at an earlier place too is not shown as C (`KiloLanguages.SyntaxByEnding`).
* Inserting at the line behind a last newline reports success and stores nothing (`LineText.InsertStoresNothing`;
  `NothingStored`).
* The draft of an SSH line is saved only once (`SshLine.DraftComesBack`; `SecondExcursion`).
* A line too long for a history row is kept again each time it is repeated (`SshHistory.LongLine`).
* A history row that fills the line is run by the Up that recalls it (`SshLine.UpsThenDowns`; `UpTakesFullRow`,
  `FullLineIsTaken`).
* A target speed below the first curve point is exceeded (`FanControl.TargetRpmBelowCurve`; `TargetRpmExceeded`).
* A curve is computed without overflow exactly when its steps fit the integers (`Curves.WidthIsEnough`).

The conditions `PassFallsShort`, `InsertFallsShort`, `SplitFallsShort` and `JoinFallsShort` follow the rows that a pass
visits: each of them is scanned and compared with its stored flag, so they can be computed before the call.

## Model

| member | source | states |
|---|---|---|
| `KiloText.PosSplits` | app/fan_controller/src/cli/kilo_editor.cpp:849-870 | the flat position cuts the saved text into what is in front of the cursor and what is behind it |
| `KiloText.InsertCharIsSplice` | app/fan_controller/src/cli/kilo_editor.cpp:1131-1146 | typing inside the document puts exactly one character into the flat text at the cursor and moves the cursor by one |
| `KiloText.InsertCharAfterText` | app/fan_controller/src/cli/kilo_editor.cpp:1131-1146 | typing behind the last row appends the character and a newline |
| `KiloText.InsertNewlineIsSplice` | app/fan_controller/src/cli/kilo_editor.cpp:1148-1181 | Enter puts exactly one newline into the flat text at the cursor, wherever the cursor is |
| `KiloText.DeleteCharIsSplice` | app/fan_controller/src/cli/kilo_editor.cpp:1183-1217 | Backspace takes exactly the character in front of the cursor out of the flat text; at the start of a row that is the newline |
| `KiloText.DeleteCharNothing` | app/fan_controller/src/cli/kilo_editor.cpp:1183-1217 | Backspace changes nothing at all exactly at the start of the text and behind its last row |
| `KiloCursor.ScrollKeepsCursorOnScreen` | app/fan_controller/src/cli/kilo_editor.cpp:904-928 | Scroll does nothing exactly when the cursor is on the screen |
| `KiloCursor.PosDeterminesCursor` | app/fan_controller/src/cli/kilo_editor.cpp:904-928 | two views of the same rows with the same flat position have the cursor in the same place, however they are scrolled |
| `KiloCursor.LeftGoesBack` | app/fan_controller/src/cli/kilo_editor.cpp:1056-1129 | Left moves the flat position back by one and keeps the cursor valid exactly when it does not run off the top of the screen |
| `KiloCursor.LeftOffScreenLands` | app/fan_controller/src/cli/kilo_editor.cpp:1056-1129 | where the cursor lands when Left does run off the top: in the same row at the column of the end of the row above, and when that is a valid cursor |
| `KiloCursor.LeftLosesCursor` | app/fan_controller/src/cli/kilo_editor.cpp:1063-1073 | on a screen of any height: scrolled down by one row, with a first row longer than the second, Left leaves the cursor behind the end of its row |
| `KiloCursor.DownByScreen` | app/fan_controller/src/cli/kilo_editor.cpp:1105-1113 | from the start of a text that fills the screen, that many Downs scroll it by one row |
| `KiloCursor.UpByScreen` | app/fan_controller/src/cli/kilo_editor.cpp:1096-1104 | and one Up less brings the cursor to the top of the screen |
| `KiloCursor.RightGoesForward` | app/fan_controller/src/cli/kilo_editor.cpp:1056-1129 | Right moves the flat position forward by one, stopping at the end of the text |
| `KiloCursor.RightThenLeft` | app/fan_controller/src/cli/kilo_editor.cpp:1056-1129 | Left undoes Right |
| `KiloCursor.KeyScrollsLeast` | app/fan_controller/src/cli/kilo_editor.cpp:1056-1217 | the arrows, Home, Enter, Backspace and typed characters scroll no further, in either direction, than it takes to show the new place of the cursor; Left only when it does not run off the screen |
| `KiloCursor.EndScrolls` | app/fan_controller/src/cli/kilo_editor.cpp:1376-1388 | End shows as much of the row in front of its end as fits |
| `KiloCursor.VerticalKeys` | app/fan_controller/src/cli/kilo_editor.cpp:1056-1129 | Up and Down move by one row within the document and clamp the column to the new row |
| `KiloCursor.RowEndKeys` | app/fan_controller/src/cli/kilo_editor.cpp:1372-1388 | Home and End go to the two ends of the row |
| `KiloCursor.PageUpScrollsOnePage` | app/fan_controller/src/cli/kilo_editor.cpp:1361-1371 | Page Up scrolls up by a screen, the cursor in its top row, and keeps the cursor valid |
| `KiloCursor.PageDownValid` | app/fan_controller/src/cli/kilo_editor.cpp:1361-1371 | Page Down moves down by a screen from the bottom row of the screen and leaves the cursor in that row of it, and keeps it valid exactly when the bottom screen row is inside the document or right behind it |
| `KiloCursor.PageDownLosesCursor` | app/fan_controller/src/cli/kilo_editor.cpp:1361-1371 | the empty document the editor starts with is one where Page Down leaves an invalid cursor |
| `KiloCursor.DeleteKey` | app/fan_controller/src/cli/kilo_editor.cpp:1353-1360 | the Delete key removes the character at the cursor; before the last newline it only moves |
| `KiloCursor.KeyKeepsCursor` | app/fan_controller/src/cli/kilo_editor.cpp:1321-1405 | for every key, the exact condition under which the next refresh finds a valid cursor |
| `KiloCursor.SafeRunKeepsCursor` | app/fan_controller/src/cli/kilo_editor.cpp:1440-1443 | over any run of keys that meet their conditions the cursor stays valid, and no key reads outside the row array |
| `KiloCursor.LeftReadsInArray` | app/fan_controller/src/cli/kilo_editor.cpp:1056-1073 | the row whose length Left reads is in the row array exactly when the cursor is not in the first column, or not further down than the row behind the text |
| `KiloCursor.KeyKeepsLeftInArray` | app/fan_controller/src/cli/kilo_editor.cpp:1321-1405 | from a valid cursor one key leads to where Left would read outside the array exactly when it is Page Down and the screen reaches further down than the row behind the text |
| `KiloCursor.EmptyDocumentLeftOutside` | app/fan_controller/src/cli/kilo_editor.cpp:1361-1371 | two keys from the start: Page Down in the empty document, and then Left |
| `KiloCursor.PagedRunIsInArray` | app/fan_controller/src/cli/kilo_editor.cpp:1440-1443 | a run reads inside the array, and stays in the document, when every Page Down of it is pressed with the bottom of the screen in the text |
| `KiloCursor.PressStaysSane` | app/fan_controller/src/cli/kilo_editor.cpp:1321-1405 | from any cursor, valid or not, a key that reads inside the row array and the refresh leave no negative coordinate |
| `KiloFlat.PressRefinesFlat` | app/fan_controller/src/cli/kilo_editor.cpp:1321-1405 | each editing or left/right key does to rows, cursor and scrolling what the flat editor does to a text and one position |
| `KiloFlat.RunRefinesFlat` | app/fan_controller/src/cli/kilo_editor.cpp:1440-1443 | the same for whole runs of keys |
| `KiloFlat.EditorRunIsRun` | app/fan_controller/src/cli/kilo_editor.cpp:1440-1443 | such a run is what the loop of the editor does |
| `KiloFlat.TypingInserts` | app/fan_controller/src/cli/kilo_editor.cpp:1131-1181 | typing a text inserts that text at the position |
| `KiloFlat.ErasingRemoves` | app/fan_controller/src/cli/kilo_editor.cpp:1183-1217 | n Backspaces remove the n characters in front of the position |
| `KiloFlat.TypeThenErase` | app/fan_controller/src/cli/kilo_editor.cpp:1131-1217 | typing any text and pressing as many Backspaces brings back text and cursor |
| `KiloRender.ExpandFits` | app/fan_controller/src/cli/kilo_editor.cpp:565-594 | the tab expansion never exceeds the buffer that UpdateRow allocates for it |
| `KiloRender.ExpandHasNoTabs` | app/fan_controller/src/cli/kilo_editor.cpp:565-594 | the rendering has no tabs, and equals the characters exactly when they have none |
| `KiloRender.ExpandIsColumns` | app/fan_controller/src/cli/kilo_editor.cpp:1036-1046 | the arithmetic column count of RefreshScreen is the length of the tab expansion |
| `KiloRender.ColumnsShift` | app/fan_controller/src/cli/kilo_editor.cpp:1036-1046 | starting a multiple of eight further right moves the column by just that |
| `KiloRender.UnscrolledColumnIsShown` | app/fan_controller/src/cli/kilo_editor.cpp:1036-1046 | without horizontal scrolling the computed cursor column is the shown one, for every row and cursor |
| `KiloRender.ScrolledColumnIsShown` | app/fan_controller/src/cli/kilo_editor.cpp:1036-1046 | with horizontal scrolling the two agree exactly when the first tab stop behind the screen edge is the same counted either way |
| `KiloRender.TabMisplacesCursor` | app/fan_controller/src/cli/kilo_editor.cpp:1036-1046 | a tab and a word as wide as the screen: after End the computed column is not the shown one |
| `KiloSyntax.FindKeyword` | app/fan_controller/src/cli/kilo_editor.cpp:530-547 | the first keyword of the table that stands at a place, and that none before it does |
| `KiloSyntax.ScanKeepsPrefix` | app/fan_controller/src/cli/kilo_editor.cpp:450-556 | the scan never changes colours it has passed |
| `KiloSyntax.LineCommentIsClosed` | app/fan_controller/src/cli/kilo_editor.cpp:409-417 | a row in which a line comment was found never looks like one with an open block comment |
| `KiloLexemes.ScanToQuote` | app/fan_controller/src/cli/kilo_editor.cpp:482-509 | from inside a string literal everything up to the first quote of its kind that no backslash stands in front of is coloured as string, that quote included, and there the literal is over |
| `KiloLexemes.ScanToBlockEnd` | app/fan_controller/src/cli/kilo_editor.cpp:456-470 | from inside a block comment everything up to the first star and slash is coloured as comment, and there the comment is over |
| `KiloLexemes.ScanCommented` | app/fan_controller/src/cli/kilo_editor.cpp:456-480 | a block comment inside a string literal is coloured as one too, and the literal goes on behind it |
| `KiloLexemes.FoundWord` | app/fan_controller/src/cli/kilo_editor.cpp:530-548 | for a whole word in front of a separator the search of the table comes to the colour of its first entry that is the word, or the word and the mark of a type; for any other word to none |
| `KiloLexemes.RowOfLexemes` | app/fan_controller/src/cli/kilo_editor.cpp:440-556 | a row put together from separators, words, numbers, string literals, block comments and unprintable characters, and at its end perhaps a literal or comment that is left open or a line comment, is coloured piece by piece: words behind a separator by the table, numbers behind a separator as numbers, and so on |
| `KiloLexemes.RowOutOfBlock` | app/fan_controller/src/cli/kilo_editor.cpp:434-556 | a row below an open comment: comment up to the first star and slash, and such pieces behind it |
| `KiloLexemes.RowInBlock` | app/fan_controller/src/cli/kilo_editor.cpp:434-470 | or comment to its end |
| `KiloLexing.RowIsLexed` | app/fan_controller/src/cli/kilo_editor.cpp:440-556 | every row in which no block comment starts is put together from such pieces, and so has their colours |
| `KiloRows.SetCharsKeepsCaches` | app/fan_controller/src/cli/kilo_editor.cpp:565-706 | an edit of a row leaves every row numbered by its place and rendered from its characters |
| `KiloRows.StoppedAtLineComment` | app/fan_controller/src/cli/kilo_editor.cpp:450-454 | a pass stopped by a line comment leaves the document right exactly when the stored flag of that row was already clear |
| `KiloRows.RecolourRestores` | app/fan_controller/src/cli/kilo_editor.cpp:419-563 | the early-stopping recursion restores colours and flags of all rows below exactly when it does not fall short, that is, is not stopped on a stale flag |
| `KiloRows.FlagsDoNotColour` | app/fan_controller/src/cli/kilo_editor.cpp:409-417 | a stored flag alone changes no colour |
| `KiloColour.FullPassColours` | app/fan_controller/src/cli/kilo_editor.cpp:720-722 | after the pass over all rows each row has the colours of a scan started as the row above ends |
| `KiloColour.FullPassIsRight` | app/fan_controller/src/cli/kilo_editor.cpp:720-722 | from freshly loaded rows the pass leaves all colours and all stored flags right |
| `KiloColour.RecolourAdvances` | app/fan_controller/src/cli/kilo_editor.cpp:419-563 | on unscanned rows each call leaves a longer prefix of the document right |
| `KiloColour.EditKeepsColours` | app/fan_controller/src/cli/kilo_editor.cpp:664-706 | an edit inside a row of a rightly coloured document keeps all of it right exactly when its pass does not fall short |
| `KiloColour.InsertKeepsColours` | app/fan_controller/src/cli/kilo_editor.cpp:598-636 | an inserted row keeps the document right exactly when its pass is not stopped on a stale flag below, and, where it does not look below, the new row ends as the one above or the row below scans alike |
| `KiloColour.DeleteKeepsColours` | app/fan_controller/src/cli/kilo_editor.cpp:648-662 | a deleted row, after which nothing is coloured again, leaves the document right exactly when it was the last, or ended in a comment just if the row above does, or the row below scans alike inside and outside one |
| `KiloComments.FlagAgreesWithScan` | app/fan_controller/src/cli/kilo_editor.cpp:409-417 | the open-comment test on colours and last characters agrees with the state the scan ended in, apart from a row that ends in an opening slash-star-slash, one of only blanks, and one with a NUL in it |
| `KiloComments.RowsStartAsCarried` | app/fan_controller/src/cli/kilo_editor.cpp:436-438 | in a rightly coloured document the rows start as one scan that carries its state from row to row comes to them, exactly when no row above hides a comment: one of these three, or a row that starts a line comment inside the block comment |
| `KiloComments.ColoursAreCarried` | app/fan_controller/src/cli/kilo_editor.cpp:419-563 | its colours are those of the one scan exactly when every row that starts otherwise looks the same either way |
| `KiloComments.FullPassIsCarried` | app/fan_controller/src/cli/kilo_editor.cpp:720-722 | after loading they are, when no row but the last hides a comment |
| `KiloComments.FirstHiddenShows` | app/fan_controller/src/cli/kilo_editor.cpp:409-417 | the first row that hides a comment shows in the row below, unless that looks the same either way |
| `KiloComments.EmptyRowHides` | app/fan_controller/src/cli/kilo_editor.cpp:409-417 | an empty row below an open comment hides it |
| `KiloComments.OpenedSlashHides` | app/fan_controller/src/cli/kilo_editor.cpp:409-417 | a row of an opening slash-star and one more slash hides it |
| `KiloComments.LineCommentHides` | app/fan_controller/src/cli/kilo_editor.cpp:450-454 | a row that starts with two slashes below an open comment hides it |
| `KiloComments.LineCommentLeavesStaleColours` | app/fan_controller/src/cli/kilo_editor.cpp:450-454 | a two-row document and an edit after which the row below keeps comment colours although no comment is open |
| `KiloComments.EmptyRowLeavesStaleColours` | app/fan_controller/src/cli/kilo_editor.cpp:598-636 | Enter in front of the second of two rows, where the row below keeps comment colours |
| `KiloComments.DeletedRowLeavesStaleColours` | app/fan_controller/src/cli/kilo_editor.cpp:648-662 | the first of two rows deleted, where the other keeps comment colours |
| `KiloEdits.RowsAfterKey` | app/fan_controller/src/cli/kilo_editor.cpp:1321-1405 | the row array after any key, renderings, numbers and colours included, holds the characters of the view after it |
| `KiloEdits.KeyStaysPlain` | app/fan_controller/src/cli/kilo_editor.cpp:419-433 | without a syntax no key colours anything or marks a row as open |
| `KiloMending.RecolourMends` | app/fan_controller/src/cli/kilo_editor.cpp:419-563 | over a document that is wrong below the row it starts at, when the pass leaves everything right |
| `KiloMending.WayBack` | app/fan_controller/src/cli/kilo_editor.cpp:419-563 | a pass from the old start undoes one that fell short exactly when no row it goes through ends in a line comment that stops it |
| `KiloSplitting.TwoPasses` | app/fan_controller/src/cli/kilo_editor.cpp:1165-1170 | after both passes of a broken row the document is right exactly when the first did not fall short and the second does not either, or the second gets below the new row and undoes the first |
| `KiloSplitting.SplitKeepsColours` | app/fan_controller/src/cli/kilo_editor.cpp:1165-1170 | Enter inside a row keeps a rightly coloured document right exactly then |
| `KiloJoining.JoinKeepsColours` | app/fan_controller/src/cli/kilo_editor.cpp:1193-1197 | Backspace at the start of a row, whose pass may run through the row that is then deleted and below it, keeps a rightly coloured document right exactly when that pass is not stopped on a stale flag and the row below starts as it was last scanned, or scans alike |
| `KiloKeyColours.TypingKeepsColours` | app/fan_controller/src/cli/kilo_editor.cpp:1131-1146 | a typed character keeps the document right exactly when its pass does not fall short; behind the text it always does |
| `KiloKeyColours.KeyKeepsColours` | app/fan_controller/src/cli/kilo_editor.cpp:1321-1405 | for every key, exactly when it keeps a rightly coloured document right |
| `KiloKeyColours.RunKeepsColours` | app/fan_controller/src/cli/kilo_editor.cpp:1440-1443 | over any run of keys every document shown is right exactly when no key of the run falls short |
| `KiloLanguages.CSyntaxIsRegular` | app/fan_controller/src/cli/kilo_editor.cpp:208-258 | the syntax table has the comment marks of C, and every keyword is a word, without separators and quotes, and not just its type mark |
| `KiloLanguages.SyntaxByEnding` | app/fan_controller/src/cli/kilo_editor.cpp:708-729 | a file is shown as C exactly when its name ends in one of the five endings and has that ending nowhere before; any other file has no syntax |
| `KiloFile.LinesOfFlatten` | app/fan_controller/src/cli/kilo_editor.cpp:849-870 | the rows read back from a saved text are the saved ones without a final carriage return |
| `KiloFile.FirstRow` | app/fan_controller/src/cli/kilo_editor.cpp:783-789 | a line is a row of its own without its newline and without one carriage return in front of that |
| `KiloFile.LinesWithTail` | app/fan_controller/src/cli/kilo_editor.cpp:808-810 | the unfinished last line of a file is its last row, as it stands |
| `KiloFile.OpenAfterSave` | app/fan_controller/src/cli/kilo_editor.cpp:761-870 | opening what was saved gives the same rows exactly when no row holds a newline or ends in a carriage return |
| `KiloFile.SaveAfterOpen` | app/fan_controller/src/cli/kilo_editor.cpp:761-870 | saving what was opened gives the same bytes exactly when the file ends in a newline, or is empty, and has no carriage return in front of a newline |
| `KiloEditor.EditorConfig.constructor` | app/fan_controller/src/cli/kilo_editor.cpp:1408-1416 | the screen size with its fallbacks, and an empty document whose cursor is valid |
| `KiloEditor.EditorConfig.PaintKeyword` | app/fan_controller/src/cli/kilo_editor.cpp:530-547 | paints the first keyword found, by its own length and colour, and nothing otherwise |
| `KiloEditor.EditorConfig.ScanRound` | app/fan_controller/src/cli/kilo_editor.cpp:456-556 | one round of the scan writes the colours of the scan step, always inside the row |
| `KiloEditor.EditorConfig.ScanColours` | app/fan_controller/src/cli/kilo_editor.cpp:425-556 | the scan loop on the colour buffer computes the row scan and reports a line comment |
| `KiloEditor.EditorConfig.PaintRow` | app/fan_controller/src/cli/kilo_editor.cpp:419-556 | only the colours of the row change, to those of the scan begun as the row above ends |
| `KiloEditor.EditorConfig.UpdateSyntax` | app/fan_controller/src/cli/kilo_editor.cpp:419-563 | the recursion, which ends, leaves the rows as the specified pass does |
| `KiloEditor.EditorConfig.PassOn` | app/fan_controller/src/cli/kilo_editor.cpp:558-562 | the row below follows exactly when the flag changes and there is one by the row count |
| `KiloEditor.EditorConfig.RenderTab` | app/fan_controller/src/cli/kilo_editor.cpp:582-591 | a tab becomes the spaces up to the next stop, which the loop finds where the column arithmetic says |
| `KiloEditor.EditorConfig.RenderRow` | app/fan_controller/src/cli/kilo_editor.cpp:565-594 | the rendering loop writes the tab expansion, inside the size allocated |
| `KiloEditor.EditorConfig.UpdateRow` | app/fan_controller/src/cli/kilo_editor.cpp:565-596 | rendering and colours follow the characters |
| `KiloEditor.EditorConfig.InsertRow` | app/fan_controller/src/cli/kilo_editor.cpp:598-636 | one row more, all rows numbered, rendered and coloured as specified; nothing for a place outside the document |
| `KiloEditor.EditorConfig.DeleteRow` | app/fan_controller/src/cli/kilo_editor.cpp:648-662 | one row less, the rows behind it renumbered and otherwise as they were; nothing for a place outside the document |
| `KiloEditor.EditorConfig.ChangeRow` | app/fan_controller/src/cli/kilo_editor.cpp:664-706 | the characters of one row change, and rendering, colours and flags follow as specified |
| `KiloEditor.EditorConfig.RowInsertChar` | app/fan_controller/src/cli/kilo_editor.cpp:664-680 | one character more, at most at the end of the row |
| `KiloEditor.EditorConfig.RowAppendString` | app/fan_controller/src/cli/kilo_editor.cpp:682-695 | the string is appended to the row |
| `KiloEditor.EditorConfig.RowDeleteChar` | app/fan_controller/src/cli/kilo_editor.cpp:697-706 | one character less; nothing for a place outside the row |
| `KiloEditor.EditorConfig.ScrollScreen` | app/fan_controller/src/cli/kilo_editor.cpp:904-928 | the cursor and the offsets after scrolling |
| `KiloEditor.EditorConfig.MoveCursor` | app/fan_controller/src/cli/kilo_editor.cpp:1056-1129 | the cursor after an arrow key, with the column clamped to the row it reaches |
| `KiloEditor.EditorConfig.InsertChar` | app/fan_controller/src/cli/kilo_editor.cpp:1131-1146 | rows, colours and view after a typed character, also behind the text; the document is marked as changed |
| `KiloEditor.EditorConfig.InsertNewline` | app/fan_controller/src/cli/kilo_editor.cpp:1148-1181 | rows, colours and view after Enter, and marked as changed exactly when the characters changed |
| `KiloEditor.EditorConfig.BreakRow` | app/fan_controller/src/cli/kilo_editor.cpp:1154-1172 | the rows after Enter with their colours: one row broken in two, or an empty one added |
| `KiloEditor.EditorConfig.SplitRow` | app/fan_controller/src/cli/kilo_editor.cpp:1165-1170 | the row keeps its characters in front of the cursor and a new one gets the rest, with the colours that both passes leave |
| `KiloEditor.EditorConfig.JoinRow` | app/fan_controller/src/cli/kilo_editor.cpp:1194-1197 | the row is appended to the one above and removed, with the colours that its pass leaves |
| `KiloEditor.EditorConfig.JoinUp` | app/fan_controller/src/cli/kilo_editor.cpp:1193-1208 | Backspace at the start of a row: the joined rows with their colours, and the cursor where they were joined |
| `KiloEditor.EditorConfig.DeleteChar` | app/fan_controller/src/cli/kilo_editor.cpp:1183-1217 | rows, colours and view after Backspace, and marked as changed exactly when the characters changed |
| `KiloEditor.EditorConfig.EndOfLine` | app/fan_controller/src/cli/kilo_editor.cpp:1376-1388 | the cursor at the end of its row |
| `KiloEditor.EditorConfig.Page` | app/fan_controller/src/cli/kilo_editor.cpp:1361-1371 | the view after Page Up or Page Down, by repeated single moves |
| `KiloEditor.EditorConfig.ProcessKeypress` | app/fan_controller/src/cli/kilo_editor.cpp:1321-1405 | every key leaves rows, colours, flags and view as specified, and marks a change exactly when the characters changed |
| `KiloEditor.EditorConfig.RunKeys` | app/fan_controller/src/cli/kilo_editor.cpp:1440-1443 | any run of keys with the refreshes in between leaves rows, colours and view as specified; a rightly coloured document stays so when no key falls short |
| `KiloEditor.EditorConfig.CursorColumn` | app/fan_controller/src/cli/kilo_editor.cpp:1036-1046 | the column loop of RefreshScreen computes the specified column, also with the cursor behind its row |
| `KiloEditor.EditorConfig.SelectSyntaxHighlight` | app/fan_controller/src/cli/kilo_editor.cpp:708-728 | the syntax is chosen by the file name, and then every row is rightly coloured |
| `KiloEditor.EditorConfig.ColourAllRows` | app/fan_controller/src/cli/kilo_editor.cpp:720-722 | the loop over the rows leaves colours and flags of the whole document right |
| `KiloEditor.EditorConfig.ClearEditor` | app/fan_controller/src/cli/kilo_editor.cpp:191-206 | no rows and the cursor at the start |
| `KiloEditor.EditorConfig.Open` | app/fan_controller/src/cli/kilo_editor.cpp:738-823 | every error code, and on success rows that depend only on the bytes, not on the read chunks, and are rightly coloured; otherwise there are none |
| `KiloEditor.EditorConfig.ReadChunk` | app/fan_controller/src/cli/kilo_editor.cpp:778-808 | the line splitter adds the rows of one chunk and keeps the unfinished line, which always fits its buffer |
| `KiloEditor.EditorConfig.GrownBuffer` | app/fan_controller/src/cli/kilo_editor.cpp:792-801 | the line buffer doubles and keeps what it holds |
| `KiloEditor.EditorConfig.Save` | app/fan_controller/src/cli/kilo_editor.cpp:825-881 | every error code; success writes exactly the flat text and clears the changed mark, any failure leaves the mark and a prefix of the text |
| `KiloEditor.SavedWhereOpened` | app/fan_controller/src/cli/kilo_editor.cpp:738-829 | a file is saved under the path it was opened by exactly when that path has fewer than 128 characters |
| `JsonText.IntRoundTrip` | app/fan_controller/src/services/storage/settings_store.cpp:215-229 | a printed number reads back, whatever follows it that is not a digit |
| `JsonText.SignedRoundTrip` | app/fan_controller/src/services/storage/settings_store.cpp:215-229 | a number behind a sign reads with that sign, and one past 32 bits as the nearest that fits |
| `JsonText.BlanksBefore` | app/fan_controller/src/services/storage/settings_store.cpp:215-229 | and white space in front of it does not matter |
| `JsonText.BoolReads` | app/fan_controller/src/services/storage/settings_store.cpp:196-213 | exactly the texts that start with true or false read as a truth value |
| `JsonText.SkipField` | app/fan_controller/src/services/storage/settings_store.cpp:126-145 | searching for a key passes over a field of another name whose value has no quotes |
| `JsonText.FieldFound` | app/fan_controller/src/services/storage/settings_store.cpp:126-145 | the key search finds the value of its own field |
| `JsonText.ReadsPrintedInt` | app/fan_controller/src/services/storage/settings_store.cpp:126-229 | a printed numeric field reads back under its key |
| `JsonText.ReadsPrintedBool` | app/fan_controller/src/services/storage/settings_store.cpp:126-213 | a printed flag reads back under its key |
| `JsonEntries.FindsEntry` | app/fan_controller/src/services/storage/settings_store.cpp:126-145 | in any list of fields with truth values, numbers and sections the search finds the value of the first field of its name |
| `JsonStrings.EscapeFits` | app/fan_controller/src/services/storage/settings_store.cpp:285-319 | a buffer of more than twice the text never cuts the escaped text |
| `JsonStrings.EscapeSpells` | app/fan_controller/src/services/storage/settings_store.cpp:285-319 | what is printed for a character is one of the spellings of it, or an underscore |
| `JsonStrings.ParseSpelled` | app/fan_controller/src/services/storage/settings_store.cpp:147-194 | any spelling of a text, in the six escapes or plain, is read as that text when it fits the buffer and refused when it does not |
| `JsonStrings.ParseMisspelled` | app/fan_controller/src/services/storage/settings_store.cpp:147-194 | any other escape and a string without its closing quote are refused |
| `JsonStrings.ParseEscaped` | app/fan_controller/src/services/storage/settings_store.cpp:147-194 | the string parser undoes escaping, save that dropped control characters are lost |
| `JsonStrings.SkipEscaped` | app/fan_controller/src/services/storage/settings_store.cpp:262-269 | the closing quote is found behind an escaped text unless the text ends in a backslash |
| `JsonStrings.ArrayRoundTrip` | app/fan_controller/src/services/storage/settings_store.cpp:231-283 | the array parser gives back a printed list exactly when every text survives escaping and none ends in a backslash |
| `NtpJson.KeyInElements` | app/fan_controller/src/services/storage/settings_store.cpp:126-145 | what the raw-text search for a key finds inside a printed server list |
| `NtpJson.KeyReads` | app/fan_controller/src/services/storage/settings_store.cpp:215-229 | which number is then read |
| `NtpJson.NtpRoundTrip` | app/fan_controller/src/services/storage/settings_store.cpp:445-702 | a valid configuration survives printing and parsing exactly when its servers survive and the two keys, as found in the raw text, read their own numbers |
| `NtpJson.NoHitsRoundTrip` | app/fan_controller/src/services/storage/settings_store.cpp:445-702 | in particular when no server ends in a backslash, is lossy, or equals or ends in a quoted key |
| `NtpJson.ParsedIsValid` | app/fan_controller/src/services/storage/settings_store.cpp:654-702 | whatever text is accepted, the configuration is in range |
| `NtpJson.StoreKeepsAccepted` | app/fan_controller/src/services/storage/settings_store.cpp:1147-1168 | the stored form of an accepted text parses to the same configuration exactly under that condition |
| `NtpJson.NtpTextHasNoNul` | app/fan_controller/src/services/storage/settings_store.cpp:445-484 | the printed text holds no NUL, whatever the servers |
| `NtpAccepted.ServerAccepted` | app/fan_controller/src/services/storage/settings_store.cpp:654-702 | every configuration with one printable server that does not look like the name of the list is what some text parses to |
| `NtpAccepted.KeyNameIsNotKept` | app/fan_controller/src/services/storage/settings_store.cpp:1147-1168 | an accepted server with the name of the second key: what is stored reads the port as the interval |
| `NtpAccepted.BackslashIsNotKept` | app/fan_controller/src/services/storage/settings_store.cpp:1147-1168 | an accepted server that ends in a backslash: what is stored does not read back |
| `NtpAccepted.NotAllIsKept` | app/fan_controller/src/services/storage/settings_store.cpp:1147-1168 | so some accepted text loses its configuration when it is stored |
| `NtpAccepted.ServerlessIsRead` | app/fan_controller/src/services/storage/settings_store.cpp:654-702 | a text of truth values and numbers in any order is accepted exactly when it has the flag and both numbers in range, with the four default servers, and with DHCP on when it does not say |
| `AppJson.ParseApp` | app/fan_controller/src/services/storage/settings_store.cpp:535-595 | an accepted configuration is in range |
| `AppJson.AppRoundTrip` | app/fan_controller/src/services/storage/settings_store.cpp:372-595 | every configuration reads back when it is in range and is refused when it is not, timeouts past 31 bits included |
| `AppJson.StoredTextIsFixed` | app/fan_controller/src/services/storage/settings_store.cpp:996-1017 | storing the stored text again leaves it as it is |
| `AppJson.AppTextHasNoNul` | app/fan_controller/src/services/storage/settings_store.cpp:372-407 | the printed text holds no NUL |
| `AppAccepted.EntriesAreRead` | app/fan_controller/src/services/storage/settings_store.cpp:535-595 | a text of truth values, numbers and sections in any order, with any of them missing, is accepted exactly when its fields are what is asked for, and read as they say, with the defaults for a missing host section and ADC mode |
| `AppAccepted.WithoutHost` | app/fan_controller/src/services/storage/settings_store.cpp:550-561 | a printed configuration without its host section is the same one with the check off and five seconds |
| `AppAccepted.FirstFanBorrows` | app/fan_controller/src/services/storage/settings_store.cpp:563-595 | a field that the first fan lacks is taken from the second |
| `CBuffer.TextOfBytes` | app/fan_controller/src/services/storage/settings_store.cpp:1007-1011 | copying counted bytes and terminating them gives the C string in front of their first NUL |
| `SettingsStore.FindText` | app/fan_controller/src/services/storage/settings_store.cpp:130-135 | the text search finds the first occurrence |
| `SettingsStore.FindKey` | app/fan_controller/src/services/storage/settings_store.cpp:126-145 | the key search: quoted key, colon, value |
| `SettingsStore.ParseJsonStringAt` | app/fan_controller/src/services/storage/settings_store.cpp:147-194 | the loop accepts exactly the strings of the specification and leaves the unescaped text, terminated |
| `SettingsStore.SkipString` | app/fan_controller/src/services/storage/settings_store.cpp:262-269 | the second scan of an array element stops where the specification says |
| `SettingsStore.ParseJsonStringArrayAt` | app/fan_controller/src/services/storage/settings_store.cpp:231-283 | the element loop accepts exactly the arrays of the specification, in order |
| `SettingsStore.EscapeJsonString` | app/fan_controller/src/services/storage/settings_store.cpp:285-319 | the escaped text, cut to the buffer between characters and always terminated |
| `SettingsStore.NtpTextParts` | app/fan_controller/src/services/storage/settings_store.cpp:445-484 | the printed pieces put together are the whole text |
| `SettingsStore.BuildNtpJson` | app/fan_controller/src/services/storage/settings_store.cpp:445-484 | success exactly when the text fits, which it then is |
| `SettingsStore.ParseNtpJson` | app/fan_controller/src/services/storage/settings_store.cpp:654-702 | success exactly for the texts that parse; otherwise the configuration is untouched |
| `SettingsStore.ParseJson` | app/fan_controller/src/services/storage/settings_store.cpp:535-595 | success exactly for the texts that parse; otherwise the configuration is untouched |
| `SettingsStore.BuildJson` | app/fan_controller/src/services/storage/settings_store.cpp:372-407 | success exactly when the text fits, which it then is |
| `SettingsStore.AppTextFits` | app/fan_controller/src/services/storage/settings_store.cpp:979-989 | every configuration in range fits the buffer of SaveConfig |
| `SettingsStore.WriteOutcome` | app/fan_controller/src/services/storage/settings_store.cpp:902-989 | a write is reported as done exactly when all of the text is written; otherwise the file is as it was or holds a proper part of the text |
| `SettingsStore.Store.SaveConfig` | app/fan_controller/src/services/storage/settings_store.cpp:979-989 | no room for the text, or the status of writing it and what the file then holds |
| `SettingsStore.Store.SaveNtpConfig` | app/fan_controller/src/services/storage/settings_store.cpp:902-911 | likewise |
| `SettingsStore.Store.WriteConfigJson` | app/fan_controller/src/services/storage/settings_store.cpp:996-1017 | accepts exactly the bodies that fit and parse up to their first NUL, if the file is written; what is stored holds no NUL and parses to the accepted configuration; what the file holds after every failure |
| `SettingsStore.Store.WriteNtpConfigJson` | app/fan_controller/src/services/storage/settings_store.cpp:1147-1168 | accepts exactly the bodies that fit and parse up to their first NUL and whose configuration prints, if the file is written; what is stored loads as accepted exactly when storable; what the file holds after every failure |
| `HttpPool.TokenMeansFreeSlot` | app/fan_controller/src/core/memory_domains.cpp:50-85 | a thread that took the semaphore always finds a free slot |
| `HttpPool.StepKeepsInv` | app/fan_controller/src/core/memory_domains.cpp:50-115 | every step of every thread keeps: tokens and active threads add up to the slots, holders hold different used slots, used slots lie below the peak |
| `HttpPool.RunIsSafe` | app/fan_controller/src/core/memory_domains.cpp:50-115 | over every interleaving no two holders share a slot, tokens plus active threads make N, and the fallback branch is never taken |
| `HttpPool.PeakIsTrueMaximum` | app/fan_controller/src/core/memory_domains.cpp:62-79 | the high-water mark, counted only up to the first free slot, is the true maximum of slots in use over the run |
| `HttpPool.FullPoolScan` | app/fan_controller/src/core/memory_domains.cpp:62-79 | in a pool whose slots are all in use the scan only notes how many there are |
| `HttpPool.TokensStayLimited` | app/fan_controller/src/core/memory_domains.cpp:101-115 | a given token never takes the semaphore past its limit |
| `HttpPool.RequestIsRun` | app/fan_controller/src/core/memory_domains.cpp:50-115 | acquire and release of one thread among others, which move in front of each of its steps: a run in which it takes, scans, clears and gives once each, or nothing at all |
| `HttpPool.AloneRestores` | app/fan_controller/src/core/memory_domains.cpp:50-115 | when nobody else moves, tokens and slots are as before |
| `HttpBuffers.BufferPool.LockedScan` | app/fan_controller/src/core/memory_domains.cpp:58-79 | the scan under the lock is the scanning step: it takes the first free slot and raises the mark |
| `HttpBuffers.BufferPool.Claim` | app/fan_controller/src/core/memory_domains.cpp:58-85 | in any pool, the scan and the token given back when it finds no free slot |
| `HttpBuffers.BufferPool.Acquire` | app/fan_controller/src/core/memory_domains.cpp:50-99 | with the other workers moving in front of its steps: fails exactly for want of a token, and a token comes with a slot that was free; slots and high-water mark as in the step machine |
| `HttpBuffers.BufferPool.Release` | app/fan_controller/src/core/memory_domains.cpp:101-115 | the slot is cleared and, after the others have moved, the token given back |
| `HttpBuffers.HandleClient` | app/fan_controller/src/services/network/http/http_server.cpp:89-193 | with the other workers moving in front of each step, every path is a run in which the worker takes, scans, clears and gives exactly once, and a busy answer, for want of a token only, one without any step of it |
| `KiloRing.FifoWithoutLostWakeUp` | app/fan_controller/src/cli/shell_commands.cpp:118-210 | over every run the bytes returned are, in order, the first of the bytes accepted, the rest being in the ring until the session ends; a reader that waits with bytes pending finds a token and then the oldest byte |
| `KiloRing.NothingLost` | app/fan_controller/src/cli/shell_commands.cpp:118-138 | all delivered bytes are accepted exactly when no batch met a full ring |
| `KiloRing.TokensAreBytes` | app/fan_controller/src/cli/shell_commands.cpp:118-138 | every accepted byte gives one token and every wake-up takes one |
| `KiloRing.ShellKiloSession.constructor` | app/fan_controller/src/cli/shell_commands.cpp:572-584 | an open session with an empty ring and no tokens, the start of the protocol |
| `KiloRing.ShellKiloSession.Deliver` | app/fan_controller/src/cli/shell_commands.cpp:118-138 | the delivery step of the protocol: a batch is appended up to the free room, one token for each byte up to the limit |
| `KiloRing.ShellKiloSession.PutByte` | app/fan_controller/src/cli/shell_commands.cpp:124-133 | the byte becomes the newest of the ring |
| `KiloRing.ShellKiloSession.TryRead` | app/fan_controller/src/cli/shell_commands.cpp:140-165 | the reading step of the protocol: the oldest byte leaves the ring, or the reader must wait, or the session is over |
| `KiloRing.ShellKiloSession.TakeToken` | app/fan_controller/src/cli/shell_commands.cpp:163-164 | the wake-up step of the protocol |
| `KiloRing.ShellKiloSession.KiloReadChar` | app/fan_controller/src/cli/shell_commands.cpp:140-165 | with batches arriving in front of any of its steps, the reading loop returns the oldest byte, or ends with the session, and sleeps for good only when the ring is empty and nothing more arrives |
| `KiloRing.ShellKiloSession.EndSession` | app/fan_controller/src/cli/shell_commands.cpp:203-210 | the closing step of the protocol: what is left in the ring is dropped |
| `KiloRing.ShellKiloSession.Peek` | app/fan_controller/src/cli/shell_commands.cpp:167-183 | a peeked byte is the next one read and stays in the ring |
| `PathSpec.ResolvedIsCanonical` | app/fan_controller/src/cli/cli_runtime.cpp:138-202 | a resolved path is absolute and has no empty, dot or dot-dot segment |
| `PathSpec.ResolveIsIdempotent` | app/fan_controller/src/cli/cli_runtime.cpp:138-202 | resolving a resolved path again gives it back, from any directory |
| `PathSpec.ResolveInSteps` | app/fan_controller/src/cli/cli_runtime.cpp:138-202 | resolving one path and then a relative one is resolving the two joined, as long as nothing is cut |
| `PathSpec.ResolveUp` | app/fan_controller/src/cli/cli_runtime.cpp:177-182 | two dots lead to the directory above |
| `PathSpec.ResolveUpFromRoot` | app/fan_controller/src/cli/cli_runtime.cpp:177-182 | and from the root to the root |
| `PathSpec.ResolveHere` | app/fan_controller/src/cli/cli_runtime.cpp:174-176 | a dot leads nowhere |
| `PathSpec.ResolveDown` | app/fan_controller/src/cli/cli_runtime.cpp:183-199 | a name leads into the directory of that name, and is refused when it would be the seventeenth or the path would not fit |
| `PathSpec.ResolveAbsolute` | app/fan_controller/src/cli/cli_runtime.cpp:144-151 | a path from the root means the same everywhere, and no path the working directory |
| `PathSpec.ResolveHome` | app/fan_controller/src/cli/cli_runtime.cpp:152-156 | a tilde is the home directory, by itself or in front of a slash |
| `PathSpec.ResolveOtherHome` | app/fan_controller/src/cli/cli_runtime.cpp:157-159 | and in front of anything else an error |
| `PathSpec.ResolveCut` | app/fan_controller/src/cli/cli_runtime.cpp:149-167 | of a longer path only the first 191 characters count |
| `PathSpec.ManagedResolved` | app/fan_controller/src/services/storage/storage.cpp:545-571 | a resolved path is refused exactly when one of its names holds two dots in a row or a backslash, or when it does not fit; otherwise it is kept below the mount point as it is |
| `PathSpec.ManagedFromRoot` | app/fan_controller/src/services/storage/storage.cpp:545-571 | a path that does not start with a slash is kept as one from the root |
| `PathSpec.ManagedRoot` | app/fan_controller/src/services/storage/storage.cpp:545-571 | and no path is the mount point |
| `PathResolver.Combine` | app/fan_controller/src/cli/cli_runtime.cpp:138-166 | the text that is split, cut to its buffer, and the refused tilde form |
| `PathResolver.NextToken` | app/fan_controller/src/cli/cli_runtime.cpp:168-172 | the next non-empty piece between slashes |
| `PathResolver.WalkSegments` | app/fan_controller/src/cli/cli_runtime.cpp:168-187 | the fixed stack of sixteen names after all pieces, or no room |
| `PathResolver.WriteOut` | app/fan_controller/src/cli/cli_runtime.cpp:189-199 | the rendered path when it fits |
| `PathResolver.ResolvePath` | app/fan_controller/src/cli/cli_runtime.cpp:138-202 | success exactly when the specification resolves; the output is that canonical path |
| `PathResolver.Shell.HandleCd` | app/fan_controller/src/cli/cli_runtime.cpp:555-582 | the working directory stays canonical; it changes only on success, to the resolved path |
| `Tokens.WordsOfJoin` | app/fan_controller/src/cli/command_session.cpp:130-176 | splitting a joined line gives the words back exactly when each is non-empty, has no white space and starts with no quote |
| `Tokens.WordsCost` | app/fan_controller/src/cli/command_session.cpp:130-176 | a line is at least as long as its words joined, and longer when one of them was quoted |
| `Tokens.QuotedThenWords` | app/fan_controller/src/cli/command_session.cpp:151-165 | a quoted word keeps its blanks and loses its quotes, and the next word may follow at once |
| `Tokens.UnclosedWord` | app/fan_controller/src/cli/command_session.cpp:151-165 | without its second quote it runs to the end of the line |
| `Tokens.TypedWords` | app/fan_controller/src/cli/command_session.cpp:130-176 | any list of arguments, each bare or in either kind of quotes, is split into these arguments |
| `Tokens.WordEnds` | app/fan_controller/src/cli/command_session.cpp:153-171 | a word without a quote goes up to the first white space, a quoted one to the next quote of its kind, whatever is in between |
| `Tokens.JoinTokens` | app/fan_controller/src/cli/cli_runtime.cpp:204-222 | the joined line when it fits and its first word is not empty; otherwise an error |
| `Tokens.SkipBlanks` | app/fan_controller/src/cli/command_session.cpp:139-141 | stops at the first character that is not white space |
| `Tokens.CutWord` | app/fan_controller/src/cli/command_session.cpp:154-171 | one byte is overwritten, the one that ends the word |
| `Tokens.TakeWord` | app/fan_controller/src/cli/command_session.cpp:149-171 | the word starts behind its quote and is terminated where it stands |
| `Tokens.Tokenize` | app/fan_controller/src/cli/command_session.cpp:130-176 | one pointer for each word, words apart from each other, and only separators and closing quotes overwritten; too many words are refused |
| `LineText.SegmentsOfText` | app/fan_controller/src/cli/line_editor.cpp:173-221 | the segments of a text put together are the text, and only the last can lack its newline |
| `LineText.SegmentsOfConcat` | app/fan_controller/src/cli/line_editor.cpp:173-221 | segments written one behind the other are read as the same segments |
| `LineText.ReplaceReplaces` | app/fan_controller/src/cli/line_editor.cpp:254-257 | a successful ReplaceLine replaces exactly one segment and keeps its terminator |
| `LineText.DeleteRemoves` | app/fan_controller/src/cli/line_editor.cpp:339-342 | a successful DeleteLine removes exactly one segment |
| `LineText.InsertAdds` | app/fan_controller/src/cli/line_editor.cpp:259-312 | a successful InsertLine adds exactly one segment in front of a stored one |
| `LineText.InsertThenDelete` | app/fan_controller/src/cli/line_editor.cpp:259-342 | DeleteLine undoes a successful InsertLine, with room enough, exactly for lines without a newline |
| `LineRoom.WhenChanged` | app/fan_controller/src/cli/line_editor.cpp:173-257 | in a text that the editor holds, when exactly replacing and removing a line succeed, by the length of the new text, and the error otherwise |
| `LineRoom.WhenInserted` | app/fan_controller/src/cli/line_editor.cpp:259-312 | when exactly inserting does |
| `LineRoom.WhenAppended` | app/fan_controller/src/cli/line_editor.cpp:314-337 | when exactly appending does, and that it adds one segment, behind a newline |
| `LineText.InsertStoresNothing` | app/fan_controller/src/cli/line_editor.cpp:259-312 | exactly when a reported insertion stored nothing |
| `LineText.NothingStored` | app/fan_controller/src/cli/line_editor.cpp:259-312 | an insertion behind a last newline that is reported as done and stores nothing |
| `LineText.LinesAreNewlines` | app/fan_controller/src/cli/line_editor.cpp:77-91 | the line count is one more than the newlines of a non-empty text |
| `LineText.LineAtIsLineOf` | app/fan_controller/src/cli/line_editor.cpp:93-112 | finding a line by counting newlines finds that segment, without its newline |
| `LineEditor.LineEditor.constructor` | app/fan_controller/src/cli/line_editor.cpp:15-19 | closed, clean and empty |
| `LineEditor.LineEditor.Open` | app/fan_controller/src/cli/line_editor.cpp:21-46 | every error code; a missing file opens empty, another one as the text in front of its first NUL; an error changes nothing |
| `LineEditor.LineEditor.CopySegment` | app/fan_controller/src/cli/line_editor.cpp:182-235 | one round of the copying loop: room or not, and what is written |
| `LineEditor.LineEditor.Rewrite` | app/fan_controller/src/cli/line_editor.cpp:173-252 | the whole outcome of a replacement or removal, error cases included; a failing call leaves text and dirty mark |
| `LineEditor.LineEditor.ReplaceLine` | app/fan_controller/src/cli/line_editor.cpp:254-257 | the outcome of a replacement |
| `LineEditor.LineEditor.DeleteLine` | app/fan_controller/src/cli/line_editor.cpp:339-342 | the outcome of a removal |
| `LineEditor.LineEditor.InsertLine` | app/fan_controller/src/cli/line_editor.cpp:259-312 | the outcome of an insertion, the empty buffer and the line behind the last newline included |
| `LineEditor.LineEditor.AppendLine` | app/fan_controller/src/cli/line_editor.cpp:314-337 | the text with the line behind it, or no room |
| `LineEditor.LineEditor.GetLineCount` | app/fan_controller/src/cli/line_editor.cpp:77-91 | one more than the newlines of a non-empty text |
| `LineEditor.LineEditor.CopyLineRange` | app/fan_controller/src/cli/line_editor.cpp:93-127 | the line cut to the buffer, terminated, or an error that leaves the buffer alone |
| `SshLine.NextKeyOfBytes` | app/fan_controller/src/services/ssh/ssh_server.cpp:241-350 | the escape parser reads back the encoding of every key |
| `SshKeys.SingleBytes` | app/fan_controller/src/services/ssh/ssh_server.cpp:248-256 | the key of every byte but the escape |
| `SshKeys.ThreeBytes` | app/fan_controller/src/services/ssh/ssh_server.cpp:292-343 | the key of every sequence of three bytes |
| `SshKeys.FourBytes` | app/fan_controller/src/services/ssh/ssh_server.cpp:268-290 | and of four |
| `SshKeys.LostBytes` | app/fan_controller/src/services/ssh/ssh_server.cpp:257-272 | an escape in front of anything but a bracket takes one byte with it, and a sequence that is cut off is lost |
| `SshLine.StartIsValid` | app/fan_controller/src/services/ssh/ssh_server.cpp:234-240 | the empty line that reading starts with meets the invariant |
| `SshLine.PressKeepsValid` | app/fan_controller/src/services/ssh/ssh_server.cpp:226-395 | cursor within the line, line within the buffer, history index in range and the draft saved whenever it is inside |
| `SshLine.ReadIsRun` | app/fan_controller/src/services/ssh/ssh_server.cpp:226-395 | reading the bytes of keys is pressing the keys |
| `SshLine.PressOnGap` | app/fan_controller/src/services/ssh/ssh_server.cpp:268-390 | every editing key acts on the text in front of the cursor and behind it as on two strings |
| `SshKeys.TabCompletes` | app/fan_controller/src/services/ssh/ssh_server.cpp:359-375 | Tab puts the completion in front of the cursor when one more character would fit behind it, and nothing otherwise |
| `SshLine.RunOnGap` | app/fan_controller/src/services/ssh/ssh_server.cpp:226-395 | the same for runs of keys |
| `SshLine.Typing` | app/fan_controller/src/services/ssh/ssh_server.cpp:378-390 | typed words go in front of the cursor |
| `SshLine.TypeThenErase` | app/fan_controller/src/services/ssh/ssh_server.cpp:348-390 | as many Backspaces bring back line and cursor |
| `SshLine.Ups` | app/fan_controller/src/services/ssh/ssh_server.cpp:293-306 | any number of Ups: the line, index and draft they lead to, exactly when no row passed fills the line |
| `SshLine.Downs` | app/fan_controller/src/services/ssh/ssh_server.cpp:307-320 | any number of Downs: likewise |
| `SshKeys.UpsShow` | app/fan_controller/src/services/ssh/ssh_server.cpp:293-306 | n Ups show the n-th last row with the cursor at its end, and keep the text typed, cut to 511 characters, as the draft |
| `SshKeys.UpAtOldest` | app/fan_controller/src/services/ssh/ssh_server.cpp:293-306 | at the oldest row Up leaves line and cursor |
| `SshKeys.DownsShow` | app/fan_controller/src/services/ssh/ssh_server.cpp:307-320 | n Downs show the row as many further on, and behind the last one the draft |
| `SshKeys.DownAtNewest` | app/fan_controller/src/services/ssh/ssh_server.cpp:307-320 | below the history Down does nothing |
| `SshLine.UpsThenDowns` | app/fan_controller/src/services/ssh/ssh_server.cpp:293-320 | n Ups and n Downs end below the history with the draft of the first excursion, exactly when no row on the way fills the line |
| `SshLine.DraftComesBack` | app/fan_controller/src/services/ssh/ssh_server.cpp:293-320 | the excursion ends exactly then, and with the text typed before exactly when no other draft was saved before |
| `SshLine.FirstExcursion` | app/fan_controller/src/services/ssh/ssh_server.cpp:226-395 | from the empty line, a typed text comes back from the first excursion into the history, with the cursor at its end, exactly when no row on the way fills the line |
| `SshLine.FirstExcursionIsRead` | app/fan_controller/src/services/ssh/ssh_server.cpp:226-395 | the same in the bytes of a session: Enter then returns the typed text exactly in that case |
| `SshLine.SecondExcursion` | app/fan_controller/src/services/ssh/ssh_server.cpp:226-395 | what is typed between two excursions is lost with the second |
| `SshLine.UpTakesFullRow` | app/fan_controller/src/services/ssh/ssh_server.cpp:293-306 | a row that fills the line is taken as the command by the Up that recalls it |
| `SshLine.FullLineIsTaken` | app/fan_controller/src/services/ssh/ssh_server.cpp:240-242 | such rows come about: a typed line that fills the buffer is taken whole, without Enter |
| `SshHistory.TableIsNewest` | app/fan_controller/src/services/ssh/ssh_server.cpp:171-196 | after any lines the table holds the newest sixteen entries of the whole log |
| `SshHistory.LogIsDistinct` | app/fan_controller/src/services/ssh/ssh_server.cpp:171-196 | the log is the non-empty lines without adjacent repetitions |
| `SshHistory.LongLine` | app/fan_controller/src/services/ssh/ssh_server.cpp:171-196 | a line too long for a row is kept cut, and kept again when it is repeated |
| `SshHistory.HistoryOfLines` | app/fan_controller/src/services/ssh/ssh_server.cpp:171-196 | the two together, from an empty history |
| `SshHistory.ConnectionHistory.AddHistory` | app/fan_controller/src/services/ssh/ssh_server.cpp:171-196 | the table after one more line, shifted when full |
| `SshConsole.CommandLine.constructor` | app/fan_controller/src/services/ssh/ssh_server.cpp:234-240 | the terminated empty buffer is the valid starting line |
| `SshConsole.CommandLine.Splice` | app/fan_controller/src/services/ssh/ssh_server.cpp:381-385 | memmove and store put a word at the cursor |
| `SshConsole.CommandLine.RemoveAt` | app/fan_controller/src/services/ssh/ssh_server.cpp:348-357 | memmove closes the gap of one character |
| `SshConsole.CommandLine.Show` | app/fan_controller/src/services/ssh/ssh_server.cpp:298-305 | a recalled line replaces the text, cut to the buffer |
| `SshConsole.CommandLine.Complete` | app/fan_controller/src/services/ssh/ssh_server.cpp:359-375 | a completion is put at the cursor when it leaves room |
| `SshConsole.CommandLine.Up` | app/fan_controller/src/services/ssh/ssh_server.cpp:293-306 | the draft is saved once, then the older line shown |
| `SshConsole.CommandLine.Down` | app/fan_controller/src/services/ssh/ssh_server.cpp:307-320 | the newer line, or the draft below the newest |
| `SshConsole.CommandLine.HandleKey` | app/fan_controller/src/services/ssh/ssh_server.cpp:255-390 | each key changes buffer, cursor, history index and draft as specified |
| `SshConsole.CommandLine.ReadKeys` | app/fan_controller/src/services/ssh/ssh_server.cpp:242-395 | the line that Enter or the last free byte ends, terminated in the buffer; the status of the stream when its bytes run out first |
| `SshConsole.ReadCommandLine` | app/fan_controller/src/services/ssh/ssh_server.cpp:226-395 | the same from the empty line on the buffer of the caller, one too small being refused |
| `Curves.InterpolatedBetween` | app/fan_controller/src/services/fan/curve_profiles.cpp:178-204 | a value inside a segment lies between its ends, and the guard against equal xs never decides |
| `Curves.EvalBetween` | app/fan_controller/src/services/fan/curve_profiles.cpp:178-204 | every value lies between the least and the greatest y, whatever the curve |
| `Curves.EvalOutside` | app/fan_controller/src/services/fan/curve_profiles.cpp:180-203 | outside its points a curve goes on level, and without any it is zero |
| `Curves.EvalOnLine` | app/fan_controller/src/services/fan/curve_profiles.cpp:188-201 | between two points it is the straight line through them, its rise rounded toward zero, whatever the curve |
| `Curves.EvalMonotone` | app/fan_controller/src/services/fan/curve_profiles.cpp:178-204 | rising ys make a rising curve, whatever the xs |
| `Curves.EvalAtPoint` | app/fan_controller/src/services/fan/curve_profiles.cpp:178-204 | a strictly rising curve passes through its points |
| `Curves.ThereAndBack` | app/fan_controller/src/services/fan/curve_profiles.cpp:178-232 | inside a segment the way back never overshoots and loses less than one step plus one |
| `Curves.EvalOfInverse` | app/fan_controller/src/services/fan/curve_profiles.cpp:178-232 | the value at the inverse is at most the output asked for, and short of it by less than one step of the segment plus one |
| `Curves.InverseOfEval` | app/fan_controller/src/services/fan/curve_profiles.cpp:178-232 | the inverse of a value is at most the input, by the same bound; on steep curves it is the input or one less |
| `Curves.WidthIsEnough` | app/fan_controller/src/services/fan/curve_profiles.cpp:178-204 | for a curve of 32-bit points, all 32-bit inputs are computed without overflow exactly when every step up to a point that is reached has its two differences in 32 bits |
| `Curves.StaysInWidth` | app/fan_controller/src/services/fan/curve_profiles.cpp:178-232 | in particular coordinates of half the 32-bit range are enough, and the values stay within it |
| `Curves.EvaluateCurve` | app/fan_controller/src/services/fan/curve_profiles.cpp:178-204 | the loop computes the specified value |
| `Curves.EvaluateCurveInverse` | app/fan_controller/src/services/fan/curve_profiles.cpp:206-232 | the loop computes the value of the curve with its coordinates exchanged |
| `FanControl.PulseWithinPeriod` | app/fan_controller/src/services/fan/fan_controller.cpp:422-426 | the pulse of a running fan is its percentage of the period, rounded down, at most the period, and all of it at 100 percent; a stopped one has none |
| `FanControl.PulseMonotone` | app/fan_controller/src/services/fan/fan_controller.cpp:422-426 | a higher percentage never gives a shorter pulse |
| `FanControl.AdcPulseMonotone` | app/fan_controller/src/services/fan/fan_controller.cpp:394-426 | in ADC mode a higher reading never gives a shorter pulse in a turn of the loop when the ys of the three curves never fall |
| `FanControl.FixedPulseMonotone` | app/fan_controller/src/services/fan/fan_controller.cpp:394-426 | in fixed mode neither does a higher percentage |
| `FanControl.FixedIgnoresReading` | app/fan_controller/src/services/fan/fan_controller.cpp:404-408 | a fan in fixed mode runs at the percentage set, whatever the reading |
| `FanControl.AdcIgnoresPercent` | app/fan_controller/src/services/fan/fan_controller.cpp:404-408 | in ADC mode the percentage set does not matter |
| `FanControl.AdcThroughPoints` | app/fan_controller/src/services/fan/fan_controller.cpp:399-408 | in ADC mode a reading on the first curve whose voltage is on the second gives the percentage there, cut to 0 to 100 |
| `FanControl.PwmThroughPoints` | app/fan_controller/src/services/fan/fan_controller.cpp:410-411 | in both modes an effective percentage on the third curve gives the output there, cut likewise |
| `FanControl.DeriveKeepsSettings` | app/fan_controller/src/services/fan/fan_controller.cpp:394-415 | the settings themselves stay |
| `FanControl.TargetRpmNotExceeded` | app/fan_controller/src/services/fan/fan_controller.cpp:519-528 | the speed that the chosen percentage stands for never exceeds a target at or above the first point |
| `FanControl.TargetRpmReached` | app/fan_controller/src/services/fan/fan_controller.cpp:519-528 | for a target on the curve it falls short by less than one step of the segment and one more |
| `FanControl.TargetRpmAboveCurve` | app/fan_controller/src/services/fan/fan_controller.cpp:519-528 | for one above the curve it is the last percentage |
| `FanControl.TargetRpmBelowCurve` | app/fan_controller/src/services/fan/fan_controller.cpp:519-528 | it exceeds the target exactly when the target is below the first point |
| `FanControl.TargetRpmExceeded` | app/fan_controller/src/services/fan/fan_controller.cpp:519-528 | a curve and a target below its first point |
| `FanControl.ThenOn` | app/fan_controller/src/services/fan/fan_controller.cpp:266-293 | commands behind others are obeyed, and saved, after them |
| `FanControl.LastSetFanWins` | app/fan_controller/src/services/fan/fan_controller.cpp:266-293 | the last command of its kind that names the fan decides percentage and enabling |
| `FanControl.LastSetAdcWins` | app/fan_controller/src/services/fan/fan_controller.cpp:266-293 | likewise for the ADC mode |
| `FanControl.Configured` | app/fan_controller/src/services/fan/fan_controller.cpp:463-517 | a configured fan ends up as asked for, its percentage cut to 100, whatever is queued in front; the other fan is left alone; both commands are saved or neither |
| `FanControl.FanController.constructor` | app/fan_controller/src/services/fan/fan_controller.cpp:54-68 | both fans enabled at 40 percent, without ADC target, and nothing queued |
| `FanControl.FanController.Put` | app/fan_controller/src/services/fan/fan_controller.cpp:463-478 | a command joins the queue of sixteen, at once or when the control loop has made room, or the wait runs out; in the end it is obeyed last, however many others the loop has obeyed meanwhile |
| `FanControl.FanController.ObeyFirst` | app/fan_controller/src/services/fan/fan_controller.cpp:266-293 | one turn of the draining: the first command is obeyed and what waits joins the queue, which changes nothing in the end |
| `FanControl.FanController.SetFan` | app/fan_controller/src/services/fan/fan_controller.cpp:463-478 | the command put, persist flag included, its percentage cut to 100, and when |
| `FanControl.FanController.SetAdcTargetMode` | app/fan_controller/src/services/fan/fan_controller.cpp:480-495 | the command put, persist flag included, and when |
| `FanControl.FanController.ConfigureFan` | app/fan_controller/src/services/fan/fan_controller.cpp:497-517 | both commands or the first alone get in, on failure too, whatever the control loop drains in between, and which of that counts as success |
| `FanControl.FanController.ConfigureFanTargetRpm` | app/fan_controller/src/services/fan/fan_controller.cpp:519-528 | what gets in, in every case; the percentage queued stands for no more than the target exactly when the target is on the curve |
| `FanControl.FanController.ProcessCommands` | app/fan_controller/src/services/fan/fan_controller.cpp:266-293 | the queue is drained, each fan has the settings of its own commands, and those to be kept are saved in order |
| `FanControl.FanController.ObeyCommand` | app/fan_controller/src/services/fan/fan_controller.cpp:266-293 | one command: its fan, and whether it is saved |
| `FanControl.FanController.UpdateDerivedState` | app/fan_controller/src/services/fan/fan_controller.cpp:394-415 | effective and output percentage of one fan, in range |
| `FanControl.FanController.ApplyPwm` | app/fan_controller/src/services/fan/fan_controller.cpp:417-442 | the pulse of one fan, at most its period and none when disabled; the first error of switch or driver, which leaves the pulse |
| `FanControl.FanController.UpdateChannel` | app/fan_controller/src/services/fan/fan_controller.cpp:295-324 | one fan: the last good reading, derived percentages and pulse |
| `FanControl.FanController.ControlStep` | app/fan_controller/src/services/fan/fan_controller.cpp:295-324 | one turn of the loop: settings, readings, derived percentages and pulses of both fans, with every kind of failure |

## Left out

- Drivers, GPIO, ADC and PWM calls, sockets, wolfSSH, Wi-Fi, NTP, the file system and threads: foreign code. Readings, key
  bytes, read chunks, file contents, the room left on the medium and the status of foreign calls are parameters.
- Escape sequences, screen painting, status lines, PrintLines and redrawing: no property beyond the text printed.
- Decoding of key bytes in the kilo editor: its methods take keys. The SSH line does decode its keys.
- Find (Ctrl-F), quitting and the warning counter in front of it, status messages.
- Allocation failure in the kilo editor.
- KiloEditor.EditorConfig.MoveCursor: a precondition excludes just the Left that reads a row outside the row array, here and in
  MoveLeft, ProcessKeypress and RunKeys, and in the lemmas about keys and runs; what the code reads there is not defined.
- KiloEditor.EditorConfig.Open: the answers of the file system for the resolved path are a parameter.
- KiloEditor.EditorConfig.Save: the medium takes a given number of bytes and then cuts a write short or fails it.
- PathResolver.ResolvePath: an output buffer of one byte, which the code would overrun and no caller passes, is excluded.
- PathSpec.ResolveInSteps: only where neither text is cut to the 192-byte buffer; what a cut path means is covered by the other rows.
- HttpBuffers.BufferPool.Acquire: only the call without a wait, which is how the workers make it, and without
  g_http_peak_allocated_bytes, which is updated outside the lock; the lazy initialisation of the pool.
- HttpBuffers.HandleClient: the handler between acquire and release is a list of outcomes; parsing and dispatch are not modelled.
- LineEditor.LineEditor.Open: what looking up and reading the file return is one parameter; a failing read is taken to leave the
  buffer alone.
- LineEditor.LineEditor.Rewrite: the private function has a third mode, inserting, that nothing in the repository calls.
- SshConsole.CommandLine.Complete: what CommandSession::Complete proposes is a parameter, any function of the line.
- SshConsole.CommandLine.ReadKeys: a read that fails inside an escape sequence is taken to be the last one, as further reads would
  fail too.
- The wifi and SSH configuration texts: printed and parsed in the same way as the two that are modelled.
- ParsePointPairs and loading of curves: curves are given as sequences of points; a loaded curve has at least two.
- Curves.EvaluateCurve: values are unbounded integers, here and in EvaluateCurveInverse; Curves.WidthIsEnough says exactly for which
  curves 32 and 64 bits give the same.
- The files behind saved fan commands, RPM measurement, the host watchdog and the status LED.
- Cross-field consistency of FanSharedStateReadAll and the overrun test of the control loop.
- Completion in CommandSession, HTTP dispatch and the Wi-Fi reconnect logic.
