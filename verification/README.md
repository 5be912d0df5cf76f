# ConsoleNG's text engine, verified

ConsoleNG keeps the text of a console as a list of rows, each a run of cells that is hard or goes on in the next row.
Everything a user does with that text afterwards works on these rows: searching them for a literal or a regular
expression in slices of bounded work, repacking them to a new width, copying a selection, moving a cursor, underlining
web addresses, inserting and deleting lines and cells, and keeping count of who holds a hyperlink. Beside the rows, the
console holds output back for synchronized updates, queues reads and pastes, and answers clipboard requests. This
project models that engine in Dafny and proves what it promises.

## How the model is laid out

Shared ground: `Common` (small definitions), `Rows` (cells and rows), `Streams` (the token stream over rows, in both
directions).

- **Regular expressions.** `RegexSyntax` says what an expression matches, as a relation on positions of a text.
  `RegexWriting` says how an expression is written, without reading anything: concrete forms, the text of each and what
  it means. `RegexGrammar` reads a query into an expression and prices it; `RegexReading` and `RegexRewriting` show that
  reading undoes writing, in both directions. `RegexGraph` and `RegexFragments` say what a program
  graph recognises and how fragments with open edges compose. `RegexCompiler` is the one-pass compiler over its fixed
  arrays. `RegexRun`, `RegexMachine` and `RegexExecutor` are the executor: its theory, its state machine with the
  invariant, and the class that updates fields and pools in place. `RegexResults` says what a search has to report,
  `RegexLines` what that is where each hard line is a text of its own, and `RegexSearch` puts everything together.
- **Literal search.** `LiteralText` is the theory of the failure function, `LiteralSearch` the resumable scanner,
  `LiteralSelect` and `LiteralOrigin` the choice of one match among all.
- **Rows.** `StreamText` says what of a row is text. `Reflow` repacks rows to a width: `ReflowText` is about the text,
  `ReflowEnds` about how rows and lines end, `ReflowAnchors` about the anchors carried along, `ReflowStorage` about the
  storage it takes. `CopyText` and `CopyEncode` are the two copiers, `CopyLines` says what they copy. `WideCells` edits one row, `LineEdit` the rows of a region. `Urls` finds addresses
  in text. `NavGrid`, `NavGoals` and `Navigation` move the cursor and expand selections.
- **Links.** `Hyperlinks` is the pool of counted records, `LinkRows` one row's storage, and `LinkStore` everything that
  holds links, with the invariant that joins them.
- **Output, input, clipboard.** `SyncOutput`, `ReadQueue`, `Base64`.

Code that changes fields, arrays or lists in place is modelled by classes and methods; each is proved against functions
and predicates whose own properties are the lemmas below. Budgets, allocation results, Unicode tables, the parser behind
synchronized output and the timer are parameters, so every statement holds for all of them.

## Model

| member | source | states |
|---|---|---|
| RegexSearch.FindAll | devs/consoleng/search_regex.c:768-1009 | A query in the core language is accepted exactly when it is a way of writing some expression whose cost fits the pools. Run with any schedule of positive budgets, forwards or backwards, the search ends and has reported the spans of exactly the leftmost-longest matches of whatever expression the query writes, in order; with line boundaries these are the matches of each hard line as a text of its own. |
| RegexSearch.Drain | devs/consoleng/search_regex.c:888-1009 | Calls with any positive budgets reach the end of a search, and the spans told are those of the matches found. |
| RegexCompiler.Compiler.Compile | devs/consoleng/search_regex.c:768-793 | For core queries the compiler succeeds exactly when the query writes an expression whose cost fits nodes, ranges and work; the program it leaves, run in its direction, then matches just the pieces that every expression so written matches. Any program it accepts is completely wired. |
| RegexRewriting.ReadIsWritten | devs/consoleng/search_regex.c:455-765 | A query is read as an expression exactly when it is one of the ways of writing that expression: the relation between texts and expressions is defined by the concrete forms, bars binding weaker than juxtaposition and that weaker than `*`, `+`, `?` and counts, greedy or lazy. |
| RegexRewriting.WritesOne | devs/consoleng/search_regex.c:455-765 | A query writes one expression at most: the language is not ambiguous. |
| RegexReading.WrittenIsRead | devs/consoleng/search_regex.c:455-765 | The text of every concrete form that may stand there, nested within the limit, is read as just what the form means. |
| RegexCompiler.Compiler.Counted | devs/consoleng/search_regex.c:668-711 | A counted repetition, compiled by parsing its atom again for every copy, is a fragment for the repetition, or is refused exactly when the copies do not fit. |
| RegexCompiler.Compiler.ReadExpr | devs/consoleng/search_regex.c:712-765 | Alternatives are compiled into one fragment that spells their alternation, with their open edges in one chain, or are refused for the same queries as the grammar refuses. |
| RegexGrammar.ReadIsCore | devs/consoleng/search_regex.c:455-765 | Whatever the reference grammar reads lies in the core of the language, so outside the core the project claims nothing. |
| RegexFragments.JoinFragments | devs/consoleng/search_regex.c:78-90 | Leading the open edges of one fragment to the start of the next makes a fragment for the concatenation. |
| RegexFragments.LoopFragment | devs/consoleng/search_regex.c:634-649 | A body whose open edges return to a split is a fragment for `*` or `+`, greedy or lazy. |
| RegexFragments.OptionFragment | devs/consoleng/search_regex.c:634-649 | A split that can pass the body by makes a fragment for `?`. |
| RegexFragments.ForkFragment | devs/consoleng/search_regex.c:753-765 | A split over two fragments is a fragment for their alternation. |
| RegexGraph.LeavesFrame | devs/consoleng/search_regex.c:53-90 | What a closed region of the graph recognises does not depend on the nodes around it. |
| RegexSyntax.RepeatsAdd | devs/consoleng/search_regex.c:668-711 | Consecutive repetitions of one body match what one repetition with the bounds added matches. |
| RegexSyntax.ClassOfOne | devs/consoleng/search_regex.c:823-857 | A class of a single scalar accepts what the scalar itself does, folded or not. |
| RegexSyntax.ClassOfParts | devs/consoleng/search_regex.c:823-857 | A class accepts what one of its parts does. |
| RegexSyntax.MirrorMatches | devs/consoleng/search_regex.c:78-90 | The mirrored expression, read over the reversed text, matches exactly the mirrored pieces: compiling for a backward search is sound and complete. |
| RegexRun.BestIsFinal | devs/consoleng/search_regex.c:981-994 | When no surviving thread began at or before the kept match, that match is the leftmost-longest one. |
| RegexMachine.UnitKeeps | devs/consoleng/search_regex.c:888-1009 | Every unit of work keeps the executor's invariant; what it reports is the next match of the run, with its span, or that there is none. |
| RegexMachine.UnitNearer | devs/consoleng/search_regex.c:888-1009 | Every unit that does not end the search brings its end nearer in a well-founded order. |
| RegexMachine.PoolsSuffice | devs/consoleng/search_regex.c:794-797 | Threads, leaves and the stack never need more entries than the program has nodes, so the fixed pools cannot overflow. |
| RegexMachine.StoredNewline | devs/consoleng/search_regex.c:912-946 | With line boundaries a newline stored inside a row does not end a text, yet `\A` holds behind it: why line-by-line results need rows without stored newlines. |
| RegexExecutor.Executor.UnitStep | devs/consoleng/search_regex.c:888-1009 | One iteration of the loop, on fields and arrays in place, is one unit of the machine, and stays inside the arrays. |
| RegexExecutor.Executor.Step | devs/consoleng/search_regex.c:888-1009 | A call with a budget does that many units, or stops at the first result. |
| RegexExecutor.SpendSplit | devs/consoleng/search_regex.c:888-1009 | One call with a large budget does what two calls with its parts do: results do not depend on the slicing. |
| RegexExecutor.SpendEnds | devs/consoleng/search_regex.c:888-1009 | From every reachable state a finite budget reaches the next result. |
| RegexResults.Quest.ResultsCover | devs/consoleng/search_regex.c:981-1000 | No match is passed over: each begins where a reported one does or inside one. |
| RegexResults.Quest.ResultsApart | devs/consoleng/search_regex.c:981-1000 | Reported matches are matches, follow one another and do not overlap; after an empty one the search goes on a token later. |
| RegexLines.ResultsLinewise | devs/consoleng/search_regex.c:909-922 | Where newlines separate texts, the results in the whole text are those of its lines, each searched alone, in the order of the scan. |
| RegexLines.NoneCrosses | devs/consoleng/search_regex.c:909-922 | No match crosses a line break there. |
| Streams.BackwardIsReversed | devs/consoleng/search.c:48-188 | Stepped to its end, a backward stream yields the tokens of the forward one in the opposite order, and both take a number of steps linear in rows and cells. |
| Streams.StepYields | devs/consoleng/search.c:64-188 | Every step yields the next token of the text or works towards it. |
| StreamText.BackgroundUnread | devs/consoleng/search.c:86-99 | Erased cells without a link at the end of a hard row change nothing in the tokens. |
| StreamText.SpacerUnread | devs/consoleng/search.c:76-84 | A wrapped row with the spacer of a glyph that did not fit gives the tokens that it gives without it. |
| LiteralSearch.Searcher.Start | devs/consoleng/search.c:20-46 | A search starts just for queries of one to 256 scalars, with the failure table of the folded query. |
| LiteralSearch.Searcher.Step | devs/consoleng/search.c:190-217 | What is reported are the occurrences in the text, overlapping ones included, each once and in order; the end is reported only when the whole text has been read; every call with a budget has less work left. |
| LiteralText.OccursMeans | devs/consoleng/search.c:10-13 | An occurrence is the query scalar by scalar; folding identifies the two forms of an ASCII letter and nothing else. |
| LiteralText.ExtendsLongest | devs/consoleng/search.c:190-217 | The failure loop finds the longest beginning of the query that ends the text read so far. |
| LiteralSelect.HitsAreOccurrences | devs/consoleng/search.c:190-217 | The list of matches has the span of every occurrence and no other. |
| LiteralSelect.HitsIncrease | devs/consoleng/search.c:245-286 | Over ascending tokens the matches are listed in strictly increasing order. |
| LiteralSelect.Selector.Step | devs/consoleng/search.c:225-286 | The match chosen is the neighbour of the anchor in the cyclic list of all matches, or the first or last one; that there is none is reported only when there is none. |
| LiteralOrigin.Origin.Step | devs/consoleng/search_origin.h:12-76 | The match found is the nearest one to the cursor in the direction of the search, wrapping around; each unit of work is one scan step, one row or one decision, and none is wasted. |
| Reflow.Repack | devs/consoleng/charmap_reflow.c:14-168 | Repacking keeps every logical line's glyphs with their renditions up to trailing background, fills no row beyond the width, leaves a column free only before a wide glyph and parts none that fits; a line whose end was trimmed is filled up to the width in the colours it ended with, and nothing else is added to it; every anchor on a codepoint is at the same glyph of the same line afterwards, anchors past the text land where the distance they keep puts them, and all stay in order. It succeeds whenever width and anchors are in range and a stated amount of storage is there; the storage used is what the rows hold, and nothing changes on failure. |
| Reflow.TwiceKeepsText | devs/consoleng/charmap_reflow.c:61-168 | Repacked again, to whatever width, the text is still that of the first rows. |
| ReflowText.EmitLines | devs/consoleng/charmap_reflow.c:25-41 | Packing a glyph adds just that glyph to the last line, wherever the rows wrap. |
| ReflowAnchors.CarriedAll | devs/consoleng/charmap_reflow.c:43-55 | Once all rows are packed each anchor on a row stands at the glyph it stood at, and anchors that stood in order still do. |
| ReflowEnds.EmitSnug | devs/consoleng/charmap_reflow.c:123-139 | Packing a glyph leaves a column free at the end of a row only when the next row begins with a wide glyph. |
| CopyText.BatchSize | devs/consoleng/charmapconclass.c:3341-3375 | The size computed for a selection is the number of its bytes. |
| CopyText.BatchCopy | devs/consoleng/charmapconclass.c:3376-3399 | The one-pass copier writes exactly the selection's bytes into a buffer of that size. |
| CopyLines.WholeRowsAreLines | devs/consoleng/charmapconclass.c:3341-3399 | A selection from the beginning of a row past the end of another copies the text of the logical lines between them with one line end between two: hard rows have one, wrapped rows none. |
| CopyLines.SelectionsMeet | devs/consoleng/charmapconclass.c:3341-3399 | Cut in two at any place, an exact selection copies in its parts what it does as a whole. |
| CopyLines.OneRow | devs/consoleng/charmapconclass.c:3341-3353 | Within a row the cells between the two columns are copied, whichever is given first. |
| CopyLines.NothingLost | devs/consoleng/charmapconclass.c:3332-3339 | All that is left out of a row are erased cells at its end and the spacer of a wrap. |
| CopyLines.BlockTakes | devs/consoleng/charmapconclass.c:3354-3358 | A block takes of each row the glyphs with a half between its columns, whole, and no white space behind them. |
| CopyLines.BlockIsLines | devs/consoleng/charmapconclass.c:3376-3399 | The rows of a block have a line end between two of them, wrapped or not. |
| CopyEncode.CopyInPieces | devs/consoleng/copy_encode.h:18-86 | Measured and then written under any budgets, a selection is copied exactly when its last row is reached and its size is allowed, and the bytes are the selection's. |
| CopyEncode.BothCopy | devs/consoleng/copy_encode.h:42-86 | The copier that works in pieces and the one-pass copier produce the same bytes. |
| Base64.Deliver | devs/consoleng/read_clipboard.c:71-97 | The reply is header, encoding and terminator, in a buffer of just that size. |
| Base64.AlphabetIs | devs/consoleng/read_clipboard.c:80-80 | The letters come in the order that RFC 4648 gives them. |
| Base64.DecodePayload | devs/consoleng/osc_clipboard.c:49-100 | Decoding in place accepts a payload exactly when it names a selection and its text is the encoding of some bytes within the limit, and leaves those bytes. |
| Base64.DecodeInverse | devs/consoleng/osc_clipboard.c:62-100 | A text decodes to some bytes exactly when it is their encoding: padding and spare bits included. |
| Base64.AcceptedOnce | devs/consoleng/osc_clipboard.c:62-100 | A payload is accepted in one way only. |
| Base64.ReplyDecodes | devs/consoleng/read_clipboard.c:71-97 | What a reply carries is a payload that decodes to the bytes that were read. |
| SyncOutput.Unit.Write | devs/consoleng/sync_output.c:149-173 | Bytes taken from writers are parsed or held back in order, whatever allocations fail and wherever markers and buffer ends fall. Bytes are left over only when it fails or when a parser call of this write took nothing; a parser that takes what it is given gets everything, and while an update is active bytes without an end marker are held, all of them, as long as there is room and storage. |
| SyncOutput.Unit.Feed | devs/consoleng/sync_output.c:115-148 | While holding back, nothing is parsed before an end marker, a full buffer or a failed allocation, and no byte behind the first end marker is taken; then what is held goes to the parser. |
| SyncOutput.Unit.Flush | devs/consoleng/sync_output.c:44-61 | A flush hands the parser what is held, in pieces as it takes them, and keeps, in order, what it does not take; holding back is over exactly when all was taken. |
| SyncOutput.Unit.Set | devs/consoleng/sync_output.c:62-89 | Beginning an update holds back from then on exactly when there is storage; ending one flushes, and leaves nothing unparsed unless it is still active. |
| SyncOutput.Unit.Poll | devs/consoleng/sync_output.c:102-114 | An expired timer ends the update, any other poll changes nothing. |
| ReadQueue.Device.Submit | devs/consoleng/console.c:1687-1697 | A submitted read joins the port; every read stays in just one place: at the port, on hold or replied to. |
| ReadQueue.Device.Serve | devs/consoleng/consoletask.c:859-892 | The task takes the first read from the port. Reads on hold for its unit are filled first, then it: with the first bytes at hand, as many as it asks for, or it is put on hold behind the others when there are none. Only reads that were to be aborted are ever replied to as aborted, what each unit's readers got followed by its buffer is what entered it, and every read is in just one place. |
| ReadQueue.FirstComeFirstServed | devs/consoleng/consoletask.c:170-186 | Reads on hold are filled in the order in which they came, with the bytes at hand in order, until no read or no byte is left; other units' reads stay. |
| ReadQueue.Device.AnswerRequests | devs/consoleng/consoletask.c:170-186 | The loop over the reads on hold does just that to the lists and the buffer. |
| ReadQueue.Device.Enter | devs/consoleng/consoletask.c:83-87 | Of the bytes entered, what fits is appended in order, the rest is lost, and reads on hold are served from what is then there. |
| ReadQueue.Device.QueueData | devs/consoleng/consoletask.c:36-81 | A paste is queued whole or not at all, in bracketed mode between its markers and without bytes that could end them. |
| ReadQueue.HarmlessParts | devs/consoleng/consoletask.c:36-81 | Of a bracketed paste the bytes other than escape and interrupt stay, in order, and those two go. |
| ReadQueue.Input.MovePaste | devs/consoleng/consoletask.c:395-425 | Moving paste bytes to the buffer loses, doubles and reorders none. |
| ReadQueue.Device.PollPastes | devs/consoleng/consoletask.c:510-530 | Pastes are moved until no read on hold has one left to use, and of no unit's bytes, delivered, buffered or still to come, is one lost, doubled or moved; each round uses up paste bytes, so this ends. |
| ReadQueue.Device.Abort | devs/consoleng/console.c:1715-1758 | An abort removes the read and replies to it as aborted just when it is at the port or on hold, and no other read gets a reply. |
| WideCells.Line.DeleteChars | devs/consoleng/charmapconclass.c:925-965 | Deleting cells moves the rest up and leaves every wide glyph of the width whole; nothing changes on failure. |
| WideCells.Line.InsertChars | devs/consoleng/charmapconclass.c:966-1016 | Inserting blanks moves the rest down, drops what passes the margin and leaves every wide glyph whole. |
| WideCells.Line.EraseChars | devs/consoleng/charmapconclass.c:1762-1800 | Erasing cells where they stand blanks them and the other half of a glyph that was cut, and leaves wide glyphs whole. |
| WideCells.Line.EraseLine | devs/consoleng/charmapconclass.c:1029-1070 | Erasing to the end, from the beginning or all of the row, likewise. |
| WideCells.Line.Print | devs/consoleng/charmapconclass.c:607-735 | Printing glyphs that fit parts the glyphs they cut and leaves every wide glyph of the row whole. |
| WideCells.RepairedPaired | devs/consoleng/charmapconclass.c:897-923 | After the repair every wide glyph has both halves and every second half its glyph. |
| WideCells.RepairedSame | devs/consoleng/charmapconclass.c:897-923 | A row that is whole already is left alone. |
| WideCells.DeletionKeepsPairs | devs/consoleng/charmapconclass.c:925-965 | Besides the cells deleted, a deletion blanks exactly a glyph half cut off at one edge of the gap; when both edges cut one, the halves meet and stay. |
| WideCells.InsertionKeepsPairs | devs/consoleng/charmapconclass.c:966-1016 | Besides the blanks, an insertion blanks exactly the two halves of a glyph it cuts and the first half of one cut at the margin. |
| LineEdit.EditLines | devs/consoleng/charmap.c:240-296 | Inserting or deleting rows in place moves contents by as many places, blanks the rows that come in, hands back exactly those that went out, and changes nothing when a blank row cannot be allocated. |
| LineEdit.JoinsKept | devs/consoleng/charmap.c:251-296 | After the edit a row goes on in the next exactly when both have moved together, or lie on one side of the region, and come from a row that went on in the next. |
| Hyperlinks.Pool.Create | devs/consoleng/hyperlink.c:22-48 | A link is had exactly when its texts are printable and within their limits and either a live record of that name can be held once more or there is room and storage for a new one. A named link is shared with the live record of the same target and name, of which there is never more than one, an unnamed one is new; failure changes nothing. |
| Hyperlinks.Pool.Release | devs/consoleng/hyperlink.c:50-58 | The last hold frees the record, any other only counts down. |
| Hyperlinks.Pool.Fill | devs/consoleng/hyperlink.c:63-71 | Filling cells changes their holds and the counts by the same, and fails as a whole when the count would overflow. |
| Hyperlinks.Pool.Copy | devs/consoleng/hyperlink.c:73-86 | Copying overlapping cells copies the old links and balances every count; it fails exactly when a count would overflow, and then nothing changes. |
| Hyperlinks.Pool.Open | devs/consoleng/hyperlink.c:88-128 | A payload opens the target it names exactly when such a link can be had, closes the link, or is rejected; the cursor never holds a freed record. |
| LinkStore.Store.SetLinks | devs/consoleng/charmap.c:332-348 | Over all rows and cursors together every record's count is the number of cells and cursors that hold it, and setting links of one row keeps that; when it succeeds is stated in terms of the range, the storage and the count. |
| LinkStore.Store.Resize | devs/consoleng/charmap.c:80-237 | Resizing a row keeps the links of the cells that stay, lets the others go, and keeps every count exact. |
| LinkStore.Store.CopyCells | devs/consoleng/hyperlink.c:73-86 | Copying cells of a row keeps every count exact, and fails only when one would overflow. |
| LinkStore.Store.Swap | devs/consoleng/charmap.c:240-247 | Exchanging rows moves holds without changing a count. |
| LinkStore.Store.EditRows | devs/consoleng/charmap.c:251-329 | Inserting or deleting rows moves the links with the rows, lets those of the discarded rows go and keeps every count exact; it succeeds exactly when every blank row can be allocated, and on failure no row holds anything else than before. |
| LinkStore.Store.Remove | devs/consoleng/charmap.c:15-45 | Disposing of a row lets go of exactly what it held; no other row or cursor is left with a freed record. |
| LinkStore.Store.Open | devs/consoleng/charmapconclass.c:1490-1497 | Opening a link at the cursor keeps every count exact; the cursor holds a link afterwards exactly when the payload names one that can be had. |
| LinkStore.Store.SetCursor | devs/consoleng/charmapconclass.c:1499-1503 | Saving and restoring cursors keeps every count exact, and fails exactly when the link is held as often as can be counted. |
| LinkStore.Store.Close | devs/consoleng/charmapconclass.c:501-512 | When rows and cursors are disposed of, no record and no byte is left in use. |
| LinkRows.NothingHeldNothingLive | devs/consoleng/hyperlink.c:50-58 | When nothing holds a link, no record is live and both totals are zero. |
| Urls.UrlAt | devs/consoleng/url_action.c:159-168 | A cell belongs to an address exactly when it carries a fitting explicit link or lies in the trimmed part of a token of its logical line with a known scheme; tokens that cannot be read belong to none. |
| Urls.PlainCovered | devs/consoleng/url_action.c:46-111 | An address that stands alone between white space, quotes or angle brackets is covered from its first cell to its last, wherever in it one looks. |
| Urls.BracketedCovered | devs/consoleng/url_action.c:95-108 | Of an address in brackets the cells within them are covered and the brackets are not. |
| Urls.PunctuationSpared | devs/consoleng/url_action.c:98-108 | Punctuation behind an address is not covered. |
| Urls.SchemesAre | devs/consoleng/url_action.c:17-33 | The schemes that make an address, in whatever case, with something behind them. |
| Urls.RunSegment | devs/consoleng/url_action.c:115-142 | All cells of a segment get the answer of its first cell. |
| Urls.UrlRun | devs/consoleng/url_action.c:146-157 | A run to be drawn in one go is uniform, and one without address ends only at an address or the row's end. |
| Urls.UrlInRow | devs/consoleng/url_action.c:170-176 | A row is reported exactly when some cell of it belongs to an address. |
| Urls.ScanShifts | devs/consoleng/url_action.c:46-111 | The address found does not depend on the cell of the token, or the row, from which one looks. |
| NavGrid.Grid.BackUndoesForward | devs/consoleng/navigation.h:66-81 | Over the grid a move back undoes a move forward. |
| NavGrid.Grid.ForwardUndoesBack | devs/consoleng/navigation.h:66-81 | Over the grid a move forward undoes a move back. |
| NavGrid.Grid.RowwiseKeeps | devs/consoleng/navigation.h:384-401 | Moving from row to row keeps the column where every row on the way has room for it and no second half of a glyph there. |
| NavGrid.Grid.AreaIs | devs/consoleng/navigation.h:364-405 | The bound on the work of a motion is linear in rows times columns. |
| Navigation.Navigator.Move | devs/consoleng/navigation.h:406-412 | A motion begins at the cursor with its work bounded. |
| Navigation.Navigator.FindFor | devs/consoleng/navigation.h:218-238 | An inline find begins at the cursor with its work bounded. |
| Navigation.Navigator.Step | devs/consoleng/navigation.h:116-405 | Each unit uses up the bound, so every motion ends; when it ends the cursor is where the motion is declared to lead (first cell that meets the goal, partner bracket, row and column, logical line end and so on), and an expanded selection covers what it is declared to cover. |
| NavGoals.AnswerSplit | devs/consoleng/navigation.h:178-196 | A bracket search stays where it began exactly when no position balances the bracket, and else leads to the first that does. |
| NavGoals.TooDeep | devs/consoleng/navigation.h:178-196 | Nesting beyond what is counted is not taken for a match. |

## Left out

- Regular expressions outside the core: inline flags, extended mode and ASCII mode, named groups, `\x`, `\u`, `\U`
  escapes, properties, POSIX classes, nested brackets and set operators, word starts and ends. Nothing is claimed about
  queries that use them; the predicate `InCore` says which do.
- RegexSearch.FindAll: the leftmost-first mode (`prefer_first`), which the user interface turns on for expressions that
  cannot match the empty text, is not modelled; nor is its traversal for nullability (search_regex.c:798-822).
- RegexSearch.FindAll: with line boundaries the rows must hold no newline codepoint, and the tables must not call a
  newline a word character; `RegexMachine.StoredNewline` shows what happens otherwise. CRLF mode is not modelled.
- The Unicode tables, case folding and glyph widths are functions given from outside; smart case
  (search_regex.c:47-51) is not modelled.
- `con_search_append`, the seeding of a query from the text and the anchor of a running search
  (search.c:289-331, search_seed.h, search_anchor.h); `con_regex_select` and origin selection for regular expressions.
- Reflow.Repack: attribute arrays a row may lack (roles, underline colours, links) are always present, the counts of
  links carried along are not part of this model, and all allocations draw on one counter.
- CopyText.BatchCopy: rows whose text array is absent.
- Base64.DecodePayload: the limit `CONCLIP_WRITE_MAX` is taken to be one MiB, since dos/conclip.h is not part of this
  model; the UTF-8 check of the decoded bytes and the clipboard itself are left out.
- SyncOutput.Unit.Write: how much of its input the parser takes, and whether it meets a begin marker, is an arbitrary
  function of the call; freeing the state with its unit (sync_output.c:90-99) is left out.
- ReadQueue.Device.Serve: units are fixed, reads served at once without the task and closing a unit are left out.
- WideCells.Line.Print: combining marks at the margin and text beyond the width are left to the caller; rows without
  roles, and a link that cannot be copied, are not modelled. Erasures and moves of links are in `LinkStore`.
- Hyperlinks.Pool.Create: the size of a record's header is a parameter.
- LinkStore.Store.EditRows: the texts and renditions of the cells are those of `LineEdit`; underline colours and
  appending blank rows for other purposes are left out.
- Urls.UrlAt: opening the address (url_action.c:180-244) is left out; wrapped rows are assumed to hold the columns they
  wrapped at.
- Navigation.Navigator.Step: a navigation without any rows, and turning a finished selection into a match for copying.
- Drawing, gadgets, preferences, key bindings, mouse reports and keyboard protocols.
