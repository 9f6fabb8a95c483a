# Proofs about an ODBC driver for a paged query service

The driver sends a query to AWS IoT SiteWise, gets the rows back in pages linked by
tokens, and hands them to an ODBC application row by row. This project models the path
from the pages to the application's buffers, the connection-string reader and writer,
and a few smaller parts, and proves what that code promises.

| file | subject |
|---|---|
| `Common.dfy` | what several modules share |
| `Service.dfy` | the paged service, and the sequential meaning of one query: the reply to each API call |
| `TokenChain.dfy` | all rows along the token chain, and exactly when the driver delivers them |
| `Prefetch.dfy` | the application thread and the page-fetching workers, interleaved access by access, refine that meaning |
| `PrefetchSafety.dfy` | row order, completeness, data races, threads and queue, row number, over every interleaving |
| `PrefetchProgress.dfy` | which calls return, and exactly when a fetch can hang |
| `Cursor.dfy`, `DataQuery.dfy` | the cursor and the query object as classes, call by call, against the same meaning |
| `Rowset.dfy`, `Statement.dfy` | block fetches, and SQLGetData on a statement |
| `GetData.dfy` | reading columns in parts over whole runs of fetches and reads |
| `StrBuffer.dfy`, `AppBuffer.dfy` | writing text into application buffers: parts, indicators, rowset elements |
| `DatumText.dfy` | the text of nested arrays and rows |
| `Text.dfy`, `Scanner.dfy`, `Settings.dfy`, `ConnectionString.dfy`, `RoundTrip.dfy` | connection strings: scanning, settings, printing, round trip |
| `Attributes.dfy` | what attributes stand for: letter case, blanks, braces, and the texts each key takes |
| `LikePattern.dfy` | LIKE patterns and their regular expressions |
| `CursorNames.dfy` | the cursor names of a connection, sequentially and from several threads |

`dafny verify dfyconfig.toml` checks everything.

## What the code does not keep

These promises are false of the code in some cases. The code is modelled as it is; the
exact condition is proved for all inputs (for LIKE patterns, all but those named under
"Left out"), and the lemmas named last in each entry give inputs or runs that fail.

- Rows behind a later page without rows are never delivered, even when that page carries a
  token: the fetch that meets it reports no data as at the end. A reply without a row
  means that every row of the service was handed out exactly when no page without rows
  lies between two with rows (`StopDeliversAllIff`, `DeliversAllIff`;
  `EmptyPageLosesRows`).
- The next fetch after such a page waits for ever, because the flag for a pending page
  stays set and no worker runs. Some interleaving gets there exactly when, along the token
  chain, a page without rows comes after one with rows (`HangsIffEmptyPage`,
  `EndsEmptyIff`, `BlockReturnsIff`; `HangReachable`).
- A buffer without room for a character and the terminator stores no text, so reading in
  parts is lossless exactly with that room (`LosslessIff`). A wide buffer of one
  character's size or less reports success all the same and, unless it is empty, counts
  the rest of the value as returned; every other such buffer leaves the offset where it
  was (`ReadKeepsIff`; `NoRoomLosesText`).
- Elements of a rowset bound with the default type all start at the same address
  (`RowsKeptIff`; `DefaultLosesRow`).
- An empty value puts nothing into its element, which then still reads as what it held
  before, and so does any value in a buffer too small even for a terminator. An element
  reads back the first part of its value, as much as the buffer has room for, exactly when
  the value is not empty and the buffer takes a terminator, or the element read as empty
  already (`RowReadsBackIff`, and from the pages on `BlockReadsBackIff`;
  `EmptyValueShowsOld`).
- A printed configuration reads back as itself exactly when every value survives on its
  own (`RoundTripIff`). Those that do not are: empty texts, texts with the delimiter, texts
  without a space that are padded or wrapped in braces, a log path that is no directory,
  and numbers below their least value (`DelimiterLosesText`).
- The connection-string documentation (docs/markdown/setup/connection-string.md:87-88) says
  that a timeout of 0 disables it; the code refuses 0 and keeps the default. A number of
  2^31 or more is kept as a negative one. The texts that each key takes are exactly those
  of `Denotes` (`AcceptedIff`; `ZeroTimeoutRefused`, `BigNumberIsNegative`).
- Child texts of nested values are cut to 1023 characters (`PrintedIsFullIff`;
  `LongChildIsCut`).
- A pattern with an unescaped dot, star, plus, question mark or bar, or a blank pattern,
  changes its meaning in translation, and one whose last escape is of a backslash has a
  translation that cannot be read, because the bracket written for it is never closed
  (`PreservedIff`; `DotLosesMeaning`, `NeverClosed`). A wildcard does not take a line break
  when the engine's dot does not (`EveryTextIff`; `WildDisagrees`).
- The cell offset survives SQLExtendedFetch and a new query. A row that comes that way is
  read from its beginning exactly when the column is not the one of the last call, or no
  call has counted anything of that column as returned since the last SQLFetch and the
  last change of column: a call counts with room for a character, and also when a wide
  buffer swallows the text (`ReplacedRowStartsIff`; `ReplacedRowLosesText`,
  `SwallowedRowLosesText`). The offset is what was returned throughout a run exactly when
  no unread text is swallowed and no row is replaced at an offset
  (`AlwaysSynchronisedIff`).
- SQLGetData reads the row handed out last exactly when some row was handed out; before the
  first fetch it reads the first row of the page (`RowReadIsLast`).
- The duplicate check of cursor names runs without the lock. The names stay consistent
  throughout an interleaving exactly when every addition adds a name that no other
  statement holds at that moment (`AlwaysConsistentIff`; `RaceBreaks`, `RaceReachable`).

## Model

| member | source | states |
|---|---|---|
| Service.HandedIsPrefix | src/odbc/src/query/data_query.cpp:130-237 | In every history of replies the rows handed out, followed by what the session still holds, are the deliverable rows: the pages in token order up to the first without rows after one with rows, or a failure. |
| Service.StopMeansAllHanded | src/odbc/src/query/data_query.cpp:191-209 | A fetch without a row on an open cursor comes only after all deliverable rows, and is an error exactly when a page failed. |
| Service.ReadableIsAll | src/odbc/src/query/data_query.cpp:215-236 | The count of rows read without error equals the rows handed out exactly when none failed to be read. |
| TokenChain.HandedIsChainPrefix | src/odbc/src/query/data_query.cpp:130-237 | In every history the rows handed out are a prefix of all pages concatenated along the token chain, empty pages or not. |
| TokenChain.DeliverableIsChainIff | src/odbc/src/query/data_query.cpp:130-189 | The deliverable rows are a prefix of the whole chain, and all of it if and only if no page without rows lies between two with rows. |
| TokenChain.EndsEmptyIff | src/odbc/src/query/data_query.cpp:130-156 | The deliverable rows end in an empty page if and only if, along the token chain, a page without rows comes after one with rows. |
| TokenChain.EndsBrokenIff | src/odbc/src/query/data_query.cpp:130-189 | They end in a failure if and only if the last answer of the chain is one and no page without rows comes after one with rows. |
| TokenChain.ExecuteReplyIff | src/odbc/src/query/data_query.cpp:337-365 | In every history the reply to Execute is an error, no rows or success according to the first answer of the chain that is not a page without rows: a failure, none, or a page with rows. |
| TokenChain.StopDeliversAllIff | src/odbc/src/query/data_query.cpp:151-156 | For every service: a reply without a row means, in every history, that the whole chain was handed out, if and only if there is no such page. |
| TokenChain.EmptyPageLosesRows | src/odbc/src/query/data_query.cpp:151-156 | Three pages of which the middle one has no rows: the row of the last is never delivered. |
| Prefetch.Step | src/odbc/src/query/data_query.cpp:108-296 | Every atomic step of either thread keeps the structural and meaning invariants and is a stutter or one correct reply of the sequential meaning. |
| Prefetch.ExecutionInv | src/odbc/src/query/data_query.cpp:108-296 | Every state of every interleaving from a fresh object satisfies the invariant. |
| PrefetchSafety.RowsInTokenOrder | src/odbc/src/query/data_query.cpp:130-237 | Under every interleaving the replies are those of the sequential meaning and the rows handed out are a prefix of the whole token chain. |
| PrefetchSafety.StopMeansComplete | src/odbc/src/query/data_query.cpp:191-209 | Under every interleaving a reply without a row on an open cursor means that all deliverable rows were handed out, is an error exactly when the chain ends in a failure with no page without rows behind one with rows, and has lost nothing exactly when no page without rows lies between two with rows. |
| PrefetchSafety.RaceFree | src/odbc/src/query/data_query.cpp:108-186 | No two threads are ever about to make conflicting accesses to the request, the queue or the closing flag, and no worker ever reads the closing flag. |
| PrefetchSafety.OneFaithfulWorker | src/odbc/src/query/data_query.cpp:108-128 | One worker at a time, queue and handle list of at most one element, no worker ever waits, and each worker uses the token it was started with. |
| PrefetchSafety.DestructionJoins | src/odbc/src/query/data_query.cpp:48-54 | An object without a result holds no thread handle and no live worker, so its destructor drops no running thread. |
| PrefetchSafety.CloseLeavesNothing | src/odbc/src/query/data_query.cpp:276-296 | Under every interleaving, between calls, a query that was closed last or failed to execute last has no cursor, no result, no handle and no live worker, and the closing flag is set. |
| PrefetchSafety.RowNumberIsPosition | src/odbc/src/query/data_query.cpp:308-320 | Under every interleaving the cursor is on the last row handed out, and the row number is its position in the whole chain exactly when every row could be read. |
| PrefetchProgress.StuckForever | src/odbc/src/query/data_query.cpp:158-163 | A stuck fetch stays stuck under every step, spurious wakeups included. |
| PrefetchProgress.StuckNeedsEmptyPage | src/odbc/src/query/data_query.cpp:151-156 | A stuck fetch means that all deliverable rows were handed out and that they ended in a page without rows. |
| PrefetchProgress.ProperDecreases | src/odbc/src/query/data_query.cpp:108-296 | Every step of a call or a worker that is not a spurious wakeup lowers one rank, the steps of closing and of its join included. |
| PrefetchProgress.SomeoneCanMove | src/odbc/src/query/data_query.cpp:108-296 | No deadlock: while a call is in progress and not stuck, some thread has a step. |
| PrefetchProgress.CallReturns | src/odbc/src/query/data_query.cpp:56-67 | Every call in progress can be driven to its return, unless it is a fetch after an empty page; so Execute and Close always return, and the join in closing with them, although the closing flag is set without a notification. |
| PrefetchProgress.HangReachable | src/odbc/src/query/data_query.cpp:151-156 | When the pages end in an empty one, some interleaving does reach a stuck fetch. |
| PrefetchProgress.HangsIffEmptyPage | src/odbc/src/query/data_query.cpp:130-156 | A stuck fetch is reachable if and only if, along the token chain, a page without rows comes after one with rows. |
| PrefetchProgress.DeliversAllIff | src/odbc/src/query/data_query.cpp:151-156 | Over all interleavings: a reply without a row means that the whole token chain was handed out, if and only if no page without rows lies between two with rows. |
| Cursor.IoTSiteWiseCursor.Increment | src/odbc/src/iotsitewise_cursor.cpp:40-48 | The position grows by one, the answer is whether it is inside the page, and the iterator is one behind it, or at the end. |
| Cursor.IoTSiteWiseCursor.HasData | src/odbc/src/iotsitewise_cursor.cpp:50-52 | On a page with rows, true exactly when the iterator is at a row, so that the dereference that follows it is safe; on an empty page only before the first Increment. |
| Cursor.IoTSiteWiseCursor.EnsureColumnDiscovered | src/odbc/src/iotsitewise_cursor.cpp:67-91 | Succeeds exactly for existing columns; then the column and all before it are in the cache, each with its own description. |
| Cursor.IoTSiteWiseCursor.ReadColumn | src/odbc/src/iotsitewise_cursor.cpp:54-65 | Finds the datum of the iterator's row for that column, read through the description of that same column, exactly when the column exists and is typed. |
| Cursor.ReadUpTo | src/odbc/src/query/data_query.cpp:215-232 | The columns put are all those before the first bound column that cannot be read. |
| Cursor.ReadableMeansAllRead | src/odbc/src/query/data_query.cpp:215-232 | A row is read without error exactly when each bound column that exists can be read. |
| Cursor.RowCells | src/odbc/src/query/data_query.cpp:215-232 | Afterwards each bound column holds the row's own datum at its element, and every other cell is as it was. |
| Cursor.RowMemory | src/odbc/src/query/data_query.cpp:215-232 | Text column by text column: its memory has taken one put of the row's own datum at the element, or none. |
| Cursor.PutText | src/odbc/src/iotsitewise_column.cpp:58-77 | Run on a buffer object over a column's memory, the code that puts a datum leaves exactly the bytes that the memory of bound columns is defined to have. |
| DataQuery.DataQuery.FirstPage | src/odbc/src/query/data_query.cpp:337-365 | The retry loop ends and finds the first page with rows, or a failure, or the end, as following the tokens does. |
| DataQuery.DataQuery.Execute | src/odbc/src/query/data_query.cpp:56-67 | On a fresh object: an error exactly when the first answer that is not a page without rows is a failure, no data exactly when all pages are without rows, success exactly when a page with rows comes first; the session is set up for the rest. |
| DataQuery.DataQuery.AsyncFetchOnePage | src/odbc/src/query/data_query.cpp:108-128 | The answer to the current request is pushed exactly when the queue is empty. |
| DataQuery.DataQuery.SwitchCursor | src/odbc/src/query/data_query.cpp:130-189 | Case by case: blocked for ever, failed page, empty page, last page, page with a successor. |
| DataQuery.DataQuery.NextPage | src/odbc/src/query/data_query.cpp:130-189 | The same switch as one move of the session to the next row, or the reply without a row. |
| DataQuery.DataQuery.ReadRow | src/odbc/src/query/data_query.cpp:215-232 | Puts the bound columns up to the first unreadable one, and succeeds exactly when all can be read. |
| DataQuery.DataQuery.FetchNextRow | src/odbc/src/query/data_query.cpp:191-237 | The reply of the sequential meaning, its row in the bound cells and in the memory of text columns, the history extended by it; never returns exactly when the session hangs. |
| DataQuery.DataQuery.InternalClose | src/odbc/src/query/data_query.cpp:276-296 | Joins every worker and drops handles, result and cursor. |
| DataQuery.DataQuery.Close | src/odbc/src/query/data_query.cpp:267-274 | Ends the session; later fetches report no data. |
| DataQuery.DataQuery.RowNumber | src/odbc/src/query/data_query.cpp:308-320 | On a row, that row stands at the number of rows handed out in the whole token chain, and the number returned is that exactly when every row could be read; 0 off a row, before the first fetch too. |
| DataQuery.DataQuery.GetColumn | src/odbc/src/query/data_query.cpp:239-265 | The text of the column of the iterator's row is put, a cut text with success and info; no data without a cursor, an error past the page or for an unreadable column, success and the null indicator for a null, and no data for a nested row without data. |
| DataQuery.DataQuery.RowReadIsLast | src/odbc/src/query/data_query.cpp:249-259 | That row is the one handed out last if and only if some row was handed out; otherwise it is the one the next fetch hands out first. |
| DataQuery.FetchReplyFollows | src/odbc/src/query/data_query.cpp:191-237 | Unless the session hangs, the reply a fetch gives is one the sequential meaning gives. |
| DataQuery.FetchResultIff | src/odbc/src/query/data_query.cpp:191-237 | A fetch succeeds exactly for a row whose bound columns can all be read, is an error for any other row and for a failed page, and reports no data in every other case. |
| Rowset.BlocksAreRows | src/odbc/src/statement.cpp:1156-1213 | Block fetches of any sizes, in any sequence, give exactly the replies of one-row fetches. |
| Rowset.BlocksCompose | src/odbc/src/statement.cpp:1156-1213 | Fetching n and then m rows is fetching n + m rows, and leaves the same session. |
| Rowset.BlockShape | src/odbc/src/statement.cpp:1181-1199 | Reply by reply: the remaining rows in order, then one error if a page failed and no data otherwise; after an empty page only one more reply. |
| Rowset.BlockCounts | src/odbc/src/statement.cpp:1181-1204 | On any stream the block delivers the first min(size, rows left) rows; the fetched count is how many of those can be read, the errors are the others and one more for a failed page that is reached. |
| Rowset.BlockResultIff | src/odbc/src/statement.cpp:1201-1212 | The result of a block on any stream, from its size, the rows left and how they end: success, success with info, no data or error, according to whether it reads rows and whether it meets errors; and its count is the rows that can be read. |
| Rowset.BlockStatusIff | src/odbc/src/statement.cpp:1196-1198 | Slot i is an error exactly for a row that cannot be read and for the failed page, a success exactly for a row that can, no row past these, and untouched where no fetch returned. |
| Rowset.IdleBlock | src/odbc/src/statement.cpp:1201-1212 | On a session without rows a block reports no data and counts nothing. |
| Rowset.FetchedCount | src/odbc/src/statement.cpp:1201-1212 | With readable rows and no failure: count is min(size, rows left), the rows are those, statuses are successes followed by empty slots, no data exactly when the count is zero. |
| Rowset.BatchSlot | src/odbc/src/statement.cpp:1181-1199 | After a block, an element of a text column with an element size differs from before in exactly the text that its own fetch put there. |
| Rowset.BlockReadsBackIff | src/odbc/src/statement.cpp:1181-1199 | From the pages to the memory: after a block, the bytes of a text column that begin i buffers after its base read back the first part of delivered row i's own text, as much as has room, if and only if the text is not empty and the buffer takes a terminator, or they read as empty before. |
| Rowset.BlockReturnsIff | src/odbc/src/statement.cpp:1181-1199 | A block returns unless it asks for two replies past the rows of a stream that an empty page ends, or the query already hangs. |
| Rowset.MarkedAt | src/odbc/src/statement.cpp:1196-1198 | Slot i of the status array holds the status of fetch i; slots past the fetched ones are untouched. |
| Rowset.TallyStep | src/odbc/src/statement.cpp:1182-1199 | One more pass of the loop whose fetch returns is a batch one longer, with its status and count. |
| Rowset.TallyStops | src/odbc/src/statement.cpp:1182-1199 | A pass whose fetch does not return leaves the tally of the whole rowset, which then has not all returned. |
| Statement.Statement.FetchElements | src/odbc/src/statement.cpp:1178-1199 | The loop leaves the query, bound cells, statuses and both counts of that many one-row fetches; it stops short only where one would not return. |
| Statement.Statement.InternalFetchRow | src/odbc/src/statement.cpp:1156-1213 | The whole call: result, count, statuses, cells and query state of the batch, cell offset zero; without a query an error, count zero and nothing else changed. |
| Statement.Statement.SQLGetData | src/odbc/src/odbc.cpp:1203-1216 | A text column, from the kept offset on the same column and from 0 on another, into a buffer with room: success with info while more is to come, success with the last part, no data after it; the area reads back that part, the offset goes on, and the indicator is what is left, the total, or none. Without room, one step of GetData; without a data area, the size required; without a text, an error, no data or a null according to the column. |
| Statement.Statement.ReadInParts | src/odbc/src/odbc.cpp:1203-1214 | An application that repeats the call while it answers success with info has the whole text, whatever the size of its buffer from one character on. |
| GetData.AlwaysSynchronisedIff | src/odbc/src/odbc.cpp:1203-1214 | Over every run of fetches, reads and replaced rows: in all states the offset is the length of what was returned of the column, if and only if no read puts unread text into a wide buffer of one character or less and no row is replaced at an offset. |
| GetData.OffsetIsReturned | src/odbc/src/odbc.cpp:1203-1214 | In particular, over any run of fetches and reads without such a buffer, null columns and calls without a data area included, the offset is the length of what was returned since the later of the last fetch and the last column change. |
| GetData.NextPartContinues | src/odbc/src/odbc.cpp:1203-1214 | The next part goes on after the text already returned; it is empty, with no data reported, exactly when the value is complete. |
| GetData.ReadKeepsIff | src/odbc/src/utility.cpp:128-137 | A read keeps offset and returned text in step exactly when nothing was left or the buffer is not a wide one of one character or less. |
| GetData.ReplacedRowStartsIff | src/odbc/src/statement.cpp:1066-1130 | After any run of fetches and reads, a row that comes without SQLFetch is read from its beginning if and only if the column is not that of the last call, or no call has counted anything of a non-empty text of it as returned since the last fetch and change of column; earlier replaced rows and every buffer size included. |
| GetData.ReplacedRowLosesText | src/odbc/src/statement.cpp:1066-1130 | A fetch, a read of one character and a replaced row: the next read gives the new value without its first character. |
| GetData.SwallowedRowLosesText | src/odbc/src/utility.cpp:128-137 | The same with a read that returned nothing into a wide buffer of one character: the next read gives the new value without its first two. |
| StrBuffer.CopyStaysInside | src/odbc/src/utility.cpp:35-189 | No copy writes past the buffer length, terminator included. |
| StrBuffer.CopyReadsBack | src/odbc/src/utility.cpp:35-189 | A terminated copy reads back as the text stored, for character sizes 1, 2 and 4. |
| StrBuffer.PartAdvances | src/odbc/src/app/application_data_buffer.cpp:290-343 | A call with room returns the next piece, terminated; truncated means more to come; the indicator is what is left, or the total on the last call. |
| StrBuffer.PartIs | src/odbc/src/app/application_data_buffer.cpp:290-343 | Every call with room, from any offset: result, text, offset and indicator, in numbers of characters and bytes. |
| StrBuffer.NoRoomLosesText | src/odbc/src/utility.cpp:128-137 | A call without room stores no text; on a wide buffer of one character or less it reports success, and a non-empty one counts the value as returned. |
| StrBuffer.PiecesMakePrefix | src/odbc/src/app/application_data_buffer.cpp:290-343 | Pieces of successive calls, whatever their buffer and character sizes, concatenate to the first part of the value. |
| StrBuffer.PartsReport | src/odbc/src/app/application_data_buffer.cpp:320-342 | Truncated, success and no data come in this order at the right calls, and bytes returned plus indicator make the total. |
| StrBuffer.CallCount | src/odbc/src/app/application_data_buffer.cpp:290-343 | No data is reported from call ceiling(length / capacity) + 1 on, and not before. |
| StrBuffer.LosslessIff | src/odbc/src/app/application_data_buffer.cpp:253-343 | Some number of calls returns the whole of a non-empty value if and only if the buffer holds a character and the terminator. |
| AppBuffer.WriteText | src/odbc/src/utility.cpp:35-189 | The data area changes exactly in the encoded characters and the terminator. |
| AppBuffer.ApplicationDataBuffer.PutString | src/odbc/src/app/application_data_buffer.cpp:253-343 | Result, kept offset, indicator and data area after putting a text at the current element; without a data area only the required size is reported. |
| AppBuffer.PutRows | src/odbc/src/statement.cpp:1182-1190 | Putting the values of a rowset into a bound column of a type with an element size changes the bytes from i buffers after the base on by the text of row i, each row's indicator is 8 bytes after the one before, and nothing else changes. |
| AppBuffer.IndicatorsAt | src/odbc/src/app/application_data_buffer.cpp:320-342 | Place by place, the indicator of row i is that of its own value, and every other place is as it was. |
| AppBuffer.RowIndicatorIs | src/odbc/src/app/application_data_buffer.cpp:320-342 | A row's indicator is the size of its text when it fits or nothing is stored, what is left of it when it is cut, and no total when it is empty. |
| AppBuffer.WriteKept | src/odbc/src/app/application_data_buffer.cpp:1840-1849 | A write that every later write leaves alone or repeats is still there at the end. |
| AppBuffer.RowsetKept | src/odbc/src/app/application_data_buffer.cpp:1938-1946 | For every type with an element size, the `buflen` bytes that begin i buffers after the base read back the first part of row i's text if and only if it is not empty and a terminator fits, or they read as empty before. |
| AppBuffer.RowsetElsewhere | src/odbc/src/app/application_data_buffer.cpp:1840-1849 | Before the first of these and after the last nothing changes. |
| AppBuffer.DefaultKeepsLast | src/odbc/src/app/application_data_buffer.cpp:1991-1997 | For the type without an element size, the base holds the text of the last row. |
| AppBuffer.RowsKeptIff | src/odbc/src/app/application_data_buffer.cpp:1938-1998 | Every row of every rowset of two or more is at its own place (i buffers after the base, or the base) afterwards if and only if the type has an element size or the buffer no room for a character. |
| AppBuffer.DefaultLosesRow | src/odbc/src/app/application_data_buffer.cpp:1991-1997 | A rowset of the default type whose first row is lost. |
| AppBuffer.RowReadsBackIff | src/odbc/src/app/application_data_buffer.cpp:290-295 | For every buffer size: a row's element reads back as the first part of its value, as much as has room, if and only if the value is not empty and the buffer takes a terminator, or the element read as empty before. |
| DatumText.ParseDatum | src/odbc/src/iotsitewise_column.cpp:58-77 | Puts the text of a value through the buffer's PutString; null sets the indicator, an unset datum fails, a row without data reports no data, all without touching the data area. |
| DatumText.ParseArrayType | src/odbc/src/iotsitewise_column.cpp:143-173 | The loop computes the bracketed, comma-separated child texts, each as its own 1024-byte buffer reads back. |
| DatumText.ParseRowType | src/odbc/src/iotsitewise_column.cpp:175-208 | The same with parentheses; a row without data puts nothing. |
| DatumText.PrintChild | src/odbc/src/iotsitewise_column.cpp:154-161 | A zeroed child buffer reads back the child's text cut to 1023 characters, or nothing. |
| DatumText.NestedText | src/odbc/src/iotsitewise_column.cpp:143-208 | An array is its children's texts in brackets, empty without children; a row is its columns' in parentheses, also without any; commas between them, each child by its first 1023 characters, a child without a text by nothing. |
| DatumText.RowOfTwo | src/odbc/src/iotsitewise_column.cpp:175-208 | A row of a text and a null prints the text and a comma in parentheses. |
| DatumText.PrintedIsFullIff | src/odbc/src/iotsitewise_column.cpp:143-208 | The printed text is the uncut one if and only if no child, at any depth, is longer than 1023 characters. |
| DatumText.LongChildIsCut | src/odbc/src/iotsitewise_column.cpp:154-161 | An array of one text of 1024 characters prints without its last character. |
| DatumText.BracketsBalance | src/odbc/src/iotsitewise_column.cpp:143-208 | For bracket-free scalars and no cut child the brackets of the text balance. |
| Scanner.ScanOne | src/odbc/src/config/connection_string_parser.cpp:83-121 | Handling the last segment and erasing it is one step of applying all segments from right to left. |
| Scanner.WrappedSum | src/odbc/src/config/connection_string_parser.cpp:93-99 | The wrapped size_t sum for a missing equals sign is below the segment start, or 0; otherwise it is the first equals sign of the segment. |
| Scanner.PairSlices | src/odbc/src/config/connection_string_parser.cpp:99-110 | The substrings cut out are the key and value of the segment split at its first equals sign. |
| Scanner.CutPair | src/odbc/src/config/connection_string_parser.cpp:83-112 | The pair handed on is that of the last segment; none without an equals sign or with nothing before it. |
| ConnectionString.ConnectionStringParser.ParseConnectionString | src/odbc/src/config/connection_string_parser.cpp:71-123 | The in-place scanner hands on exactly the reverse of the pairs of the string's segments, after dropping trailing NULs, with the settings that gives, and ends. |
| ConnectionString.ConnectionStringParser.HandleAttributePair | src/odbc/src/config/connection_string_parser.cpp:143-606 | The setting named by the lower-cased key takes an accepted value; an unknown key or a rejected value changes nothing. Attributes.HandleMeans says which keys and values these are. |
| Attributes.KeyOfIff | src/odbc/src/config/connection_string_parser.cpp:147-150 | A key names a setting if and only if it is that setting's name up to letter case. |
| Attributes.HandleMeans | src/odbc/src/config/connection_string_parser.cpp:143-606 | In any letter case a setting's name gives it the value the text stands for; with a text that stands for none, or another key, nothing changes. |
| Attributes.MeaningIgnoresCase | src/odbc/src/config/connection_string_parser.cpp:98-147 | Two strings that differ only in the letter case of their keys parse to the same settings. |
| Attributes.AcceptedIff | src/odbc/src/config/connection_string_parser.cpp:172-598 | Key by key, exactly which texts are taken and as which value: number ranges, the words of Auth in any letter case, the five levels, existing directories, any text; all others are refused. |
| Attributes.AttributesMean | src/odbc/src/config/connection_string_parser.cpp:71-123 | Parsing any list of written attributes, keys in any letter case, values bare or in braces and with blanks around them, gives each setting the value of its leftmost attribute. |
| Attributes.BracedValue | src/odbc/src/config/connection_string_parser.cpp:104-112 | A value in braces is what stands between them, blanks included. |
| Attributes.StripNulIff | src/odbc/src/config/connection_string_parser.cpp:76-79 | Trailing NULs go, and nothing else. |
| Attributes.SegmentsJoin | src/odbc/src/config/connection_string_parser.cpp:80-96 | The segments, put together with the delimiter, are the string. |
| Attributes.ZeroTimeoutRefused | src/odbc/src/config/connection_string_parser.cpp:202-268 | A timeout of 0 is refused. |
| Text.TrimIff | src/odbc/src/config/connection_string_parser.cpp:104-107 | Trim takes off the blanks at both ends, and nothing else. |
| ConnectionString.ApplyLast | src/odbc/src/config/connection_string_parser.cpp:80-122 | One pass of the scanner's loop on the remaining string. |
| ConnectionString.ScanLast | src/odbc/src/config/connection_string_parser.cpp:80-122 | One pass of the loop, for settings and pairs handed on alike. |
| Scanner.PairsByLast | src/odbc/src/config/connection_string_parser.cpp:80-122 | The reversed pairs of a string begin with that of its last segment, and go on with those of what is left of it. |
| RoundTrip.LeftmostDecides | src/odbc/src/config/connection_string_parser.cpp:98-121 | For every key the leftmost accepted occurrence decides the final value. |
| Settings.KeysSorted | src/odbc/src/config/configuration.cpp:485-515 | The order in which the argument map is walked is strictly increasing by name, so names are distinct. |
| Settings.NamesDiffer | src/odbc/src/config/connection_string_parser.cpp:34-65 | Different settings have different names. |
| Settings.Configuration.ToMap | src/odbc/src/config/configuration.cpp:485-515 | The argument map holds the text of exactly the settings that are set. |
| Settings.Configuration.ToConnectString | src/odbc/src/config/configuration.cpp:87-114 | The non-empty settings in name order, values with a space in braces. |
| RoundTrip.PrintSegments | src/odbc/src/config/configuration.cpp:87-114 | Split at the delimiter, the printed string is its entries and an empty end, when no text holds the delimiter. |
| RoundTrip.LeftmostPrinted | src/odbc/src/config/configuration.cpp:87-114 | In the printed string the entry of a key is the one that decides it. |
| RoundTrip.SurvivesIffReread | src/odbc/src/config/connection_string_parser.cpp:104-112 | Value by value: reading the printed entry gives the value back exactly when a condition on the value holds. |
| RoundTrip.ReparsedKey | src/odbc/src/config/configuration.cpp:87-114 | Setting by setting, what parsing the printed string gives is what reading that one entry gives. |
| RoundTrip.RoundTripIff | src/odbc/src/config/configuration.cpp:87-114 | Printing any configuration and parsing it into a fresh one gives it back if and only if every value in it survives. |
| RoundTrip.DelimiterLosesText | src/odbc/src/config/configuration.cpp:87-114 | A user name with the delimiter does not come back. |
| RoundTrip.OddTextsSurvive | src/odbc/src/config/configuration.cpp:87-114 | A NUL inside a text, and blanks and braces around one with a space, do. |
| LikePattern.ConvertPatternToRegex | src/odbc/src/utility.cpp:379-416 | The loop computes the character-by-character translation, a trailing lone backslash copied; blank patterns give the empty expression. |
| LikePattern.UpdateRegexExpression | src/odbc/src/utility.cpp:365-377 | The pending literal characters and the given text are appended, in this order, and the next index is returned. |
| LikePattern.TranslationJoins | src/odbc/src/utility.cpp:379-416 | A pattern put together from two is translated to their translations put together. |
| LikePattern.TranslationOfOne | src/odbc/src/utility.cpp:379-416 | Piece by piece: an escaped character of any kind in brackets, the wildcards as a dot and a starred dot, every other character as itself. |
| LikePattern.ParseTranslation | src/odbc/src/utility.cpp:379-416 | Read as a regular expression, the translation of a plain pattern is one item per token. |
| LikePattern.MeaningPreserved | src/odbc/src/utility.cpp:365-416 | For plain patterns a text of one line matches the translation exactly when it matches the pattern. |
| LikePattern.DotLosesMeaning | src/odbc/src/utility.cpp:379-416 | The pattern a.b does not match axb; its translation does. |
| LikePattern.PreservedIff | src/odbc/src/utility.cpp:365-416 | The meaning is kept if and only if the pattern is well formed, empty or not blank, and has no dot, star, plus, question mark or bar outside an escape and no escaped backslash. |
| LikePattern.NeverClosed | src/odbc/src/utility.cpp:390-396 | When no escape follows an escaped backslash, the translation opens a bracket for it, escapes the bracket that should close it, and has no other closing bracket after that. |
| LikePattern.EveryTextIff | src/odbc/src/utility.cpp:365-416 | On texts of several lines too, exactly when there is no wildcard or the engine's dot takes line breaks. |
| CursorNames.AddKeepsIff | src/odbc/src/connection.cpp:819-834 | Adding a name keeps the set equal to the range of an injective map if and only if no other statement holds the name. |
| CursorNames.RemoveKeeps | src/odbc/src/connection.cpp:836-847 | Removing a statement keeps it. |
| CursorNames.SequentialRuns | src/odbc/src/statement.cpp:1422-1458 | In every sequential run of setting and dropping, the set is the range of the map and the map is injective. |
| CursorNames.Connection.AddCursorName | src/odbc/src/connection.cpp:819-834 | The old name of the statement leaves the set, the new one enters, and the map is updated. |
| CursorNames.Connection.RemoveCursorName | src/odbc/src/connection.cpp:836-847 | The statement's name leaves the set and the statement the map; others stay. |
| CursorNames.Connection.CursorNameExists | src/odbc/src/connection.cpp:809-817 | The fast check agrees with searching the map. |
| CursorNames.Connection.GetCursorName | src/odbc/src/connection.cpp:798-807 | The name returned for a statement that has one is in use and belongs to no other statement, on a consistent pair. |
| CursorNames.IndexIsPlain | src/odbc/src/statement.cpp:1422-1458 | After any calls every statement has the name it would have with one map and a search through it, and the set is that map's range, so the same names are refused. |
| CursorNames.Connection.SetCursorName | src/odbc/src/statement.cpp:1422-1458 | Refuses too long, reserved and duplicate names in this order, without change; accepts others and keeps consistency. |
| CursorNames.VerdictIff | src/odbc/src/statement.cpp:1422-1458 | A length over 18, a name that begins with SQL_CUR in any letter case, and a name in use are refused in this order, and nothing else is; the name is the whole text or as many of its first characters as the length says. |
| CursorNames.AlwaysConsistentIff | src/odbc/src/connection.cpp:809-847 | Over every interleaving: all states are consistent if and only if every addition adds a name that no other statement holds at that moment. |
| CursorNames.RaceFreeRunsConsistent | src/odbc/src/statement.cpp:1448-1457 | For that it is enough that no check passes a name that another thread is about to add. |
| CursorNames.UsedNamesAreHeld | src/odbc/src/connection.cpp:819-847 | Over every interleaving each name in the set is held by some statement. |
| CursorNames.RaceBreaks | src/odbc/src/connection.cpp:809-834 | Two threads that passed the same name end up sharing it, and dropping one frees a name still held. |
| CursorNames.RaceReachable | src/odbc/src/statement.cpp:1448-1457 | Such a state is reached from a fresh connection. |
| CursorNames.UninterruptedIsOneCall | src/odbc/src/statement.cpp:1448-1457 | A check and an addition with no step between them are one sequential call. |

## Left out

- A second Execute on one query object: closing clears neither the queue nor the closing flag, the request token or the row counter. All statements start from a fresh object.
- Termination under a scheduler that produces spurious wakeups for ever: every other step lowers a rank, and a run to the return is given.
- DataQuery.DataQuery.AsyncFetchOnePage: runs to its end when the application thread waits for it or joins it; its lock, wait and notification are the subject of Prefetch, which proves that it never waits.
- DataQuery.DataQuery.FetchNextRow: each text column has one byte sequence of its own as its memory, so data areas of different columns that overlap are not modelled; columns of other types have cells by column and element, and the indicator areas of bound columns are described by AppBuffer.PutRows only.
- DataQuery.DataQuery.Execute: the cursor built twice by Execute and MakeRequestFetch is built once; column descriptions are fixed at construction and reduced to whether the type is known.
- Statement.Statement.SQLGetData: takes the buffer object that the C function builds from its arguments, whose offsets are 0.
- The bind offset pointer of a statement: AppBuffer takes the offset as the buffer's byte offset. SQLFetchScroll, which refuses every orientation but the next row and then is SQLFetch.
- Row positions and counters are unbounded here; the source keeps them in an int and a 64-bit number.
- Bytes of characters outside ASCII: the offset counts output characters while the input is indexed by bytes. The locale's narrowing of characters is not modelled.
- Debug assertions on buffer lengths that are not a multiple of the character size: release behaviour is modelled, which rounds down.
- Numeric, date and interval target types, and the text of numbers, booleans and timestamps: a scalar carries the text its column type prints.
- LikePattern.PreservedIff: leaves out patterns with an unescaped parenthesis, brace, bracket, caret or dollar sign, an escaped caret or closing bracket, an escape after an escaped backslash, whose bracket then closes only at that escape, or a line break; the expression language modelled has no groups, bounds, wider brackets or anchors.
- Trim works on blanks at both ends; how the library's regular expressions treat line breaks inside a value is not modelled.
- CursorNames.Connection.SetCursorName: a name is given as its characters up to the first NUL; the length limit applies to the length argument only, as in the code, so a NUL-terminated name of any length passes.
- Diagnostics records, logging, metadata requests, Cancel, SQLExtendedFetch itself (the same loop over another size), the DSN registry, authentication and the network.
