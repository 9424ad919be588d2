# Turso components in Dafny

Models of self-contained parts of the Turso database and its command-line shell, with proofs of what
they promise. Code that updates state in place is modelled by classes and methods with loops, each
proved against a specification function; code that only computes is modelled by functions.

| files | what they model |
|---|---|
| `MvccLog`, `LogWriter`, `LogReplication`, `LogPulls`, `Framing`, `PagePull` | the sync server: scanning a CRC-chained transaction log, the log as its writer lays it out, logical pulls by clients that resume where they stopped, which pulls and answers are accepted, length-delimited framing, and page pulls that send the newest version of each page |
| `BlobVm`, `BlobExec`, `BlobSpec`, `BlobBusy`, `BlobHandle` | the incremental-blob handle: the bytecode program it builds, a machine for its instructions, the handle as a fixed-length byte array that can expire, what `Busy` does to it, and the handle as the code drives it |
| `EditDistance`, `CivilDate` | the two-row edit distance of the manual page search, and the calendar arithmetic behind the build timestamp |
| `ReadState`, `SqlLexer`, `SqlPieces`, `Text`, `SqlLines`, `SqlLiteral` | the shell's statement-completeness automaton and lexer, the pieces a text is made of, the line-by-line file reader, and SQL literal printing and parsing |
| `StatementStream`, `BusySchedule` | the streaming statement splitter and the busy-retry schedule |
| `Savepoints`, `SchemaArcs`, `SchemaCounts`, `SchemaViews`, `AutoincSync` | a connection's schemas: named savepoints, copy-on-write references and their counts, several connections over attached and temp databases, and the resumable AUTOINCREMENT sync |
| `Common`, `Decimal` | shared value types and decimal numerals |

CRC computation is a function parameter: the results need how checksums chain, not what they are. Clocks,
I/O waits, `Busy` returns, execution failures, name resolution and the writes of other statements are
parameters too, and the results hold for all of them, or say for which.

Some properties one would expect hold only under a condition; these are stated as exact conditions, with
the inputs that break them.

- Page pulls keep a replica equal to full replay exactly when the requested server revision is not older than the client's (`PagePull.SafeIffForward`, `PagePull.BackwardPull`).
- Reading a file line by line sees what reading it whole sees exactly for lines that leave no quoted text or block comment open (`SqlLines.SplitsSafelyIffClosed`, `SqlLines.OpenLineMisleads`).
- A truncated log scans exactly when the cut is at zero or past the header (`MvccLog.TruncationScans`).
- The busy handler's 32-bit counter can overflow exactly when 2^31 retries fit in the timeout (`BusySchedule.OverflowIff`).
- A blob handle answers whatever comes next correctly exactly when the last operation that stepped its program did not return `Busy` (apart from a value a peer has already overwritten and a read-only value of one byte); otherwise the next operation runs the rest of the abandoned one and takes its answer (`BlobBusy.NextIsRightIff`, `BlobBusy.AbandonedWriteLands`, `BlobBusy.AbandonedReadAnswers`). Retrying the same operation is always right (`BlobBusy.RetryingIsRight`).

## Model

| member | source | states |
|---|---|---|
| `MvccLog.ScanMvccLog` | cli/sync_server.rs:921-954 | the scan loop over offset, running CRC and boundary list computes the recursive scan, with the same errors |
| `MvccLog.BoundaryIffFrame` | cli/sync_server.rs:1005-1079 | the frame reader reports a boundary exactly when the bytes up to it are one whole frame whose CRC continues the chain; both directions, any offset |
| `MvccLog.BoundaryOfTruncation` | cli/sync_server.rs:1005-1079 | cutting the log turns a frame that no longer fits into a torn tail, never into an error or another boundary |
| `MvccLog.ScanFromTruncation` | cli/sync_server.rs:940-948 | from any offset, the scan of a truncation is the scan restricted to the boundaries that still fit |
| `MvccLog.TruncationScans` | cli/sync_server.rs:921-954 | of all truncations of a log that scans, exactly those inside the header fail, and every other one yields the original boundary and CRC list restricted to what fits |
| `MvccLog.ScanFromAscends` | cli/sync_server.rs:940-948 | boundaries ascend strictly and stay inside the log |
| `LogWriter.WrittenLogScans` | core/mvcc/persistent_storage/logical_log.rs:797-824 | whatever header flags, salt and transactions the writer lays out field by field, the log scans to one boundary after the header and one after each transaction, at the partial sums of their lengths, with the CRC of the salt and of each frame chained to it |
| `LogWriter.ScannedLogIsWritten` | cli/sync_server.rs:921-954 | conversely, up to the end it reports, a log that scans is a header and transactions the writer would have laid out |
| `LogWriter.WrittenHeaderAccepted` | core/mvcc/persistent_storage/logical_log.rs:478-492 | a header laid out from its fields is accepted, and the chain starts at the CRC of its salt |
| `LogWriter.AcceptedHeaderIsWritten` | cli/sync_server.rs:961-1003 | only such a header is accepted |
| `LogWriter.FrameIsSealed` | cli/sync_server.rs:1005-1079 | every frame the reader accepts is a transaction laid out from its fields and sealed with the chained CRC |
| `LogWriter.QuietIffTorn` | cli/sync_server.rs:1005-1079 | the frame reader stops without an error exactly when the bytes left are too few for a frame header, or for the frame a sound header announces |
| `LogWriter.OtherVersionIff` | cli/sync_server.rs:956-967 | a log is reported as of another version exactly when it has a whole header with the right magic and that version |
| `LogReplication.DecodeRange` | sync/engine/src/database_sync_operations.rs:1547-1673 | the client's decode loop over one range computes the recursive strict decoder |
| `LogReplication.DecodeIffChain` | sync/engine/src/database_sync_operations.rs:1547-1673 | the strict decoder accepts exactly the concatenations of CRC-chained frames and recovers the chain |
| `LogReplication.RevisionRoundTrip` | cli/sync_server.rs:896-919 | parsing the revision string the server hands out gives back its offset, whatever the legacy default |
| `LogReplication.SeedFound` | cli/sync_server.rs:863-872 | looking up the CRC at any scanned boundary finds the CRC recorded there |
| `LogReplication.ScanResumes` | cli/sync_server.rs:921-954 | scanning from a boundary with its CRC finds exactly the remaining boundaries |
| `LogReplication.RangeDecodes` | cli/sync_server.rs:679-716 | the bytes past a held whole prefix decode, from the running CRC of that prefix, to exactly the transactions the prefix lacks |
| `LogReplication.FirstPull` | cli/sync_server.rs:664-716 | a client that holds nothing receives the header and every transaction and ends with all of them |
| `LogReplication.ResumedPull` | cli/sync_server.rs:679-726 | a resumed range carries the running CRC of what the client holds and completes its log |
| `LogReplication.PullCatchesUp` | cli/sync_server.rs:628-745 | any pull by a client in sync is accepted, decodes, and leaves it with every scanned transaction once and in order |
| `LogReplication.StepPreserves` | cli/sync_server.rs:628-745 | every server write past the last scanned boundary and every pull keeps all clients in sync |
| `LogReplication.RunsStayInSync` | cli/sync_server.rs:628-745 | over every interleaving each client holds a prefix of the log ending at a transaction boundary and has decoded exactly its transactions |
| `LogReplication.ClientsAgree` | cli/sync_server.rs:628-745 | from the start, any two clients hold prefixes of the log and the transactions of one are a prefix of the other's |
| `LogPulls.RevisionMeans` | cli/sync_server.rs:896-919 | an empty revision means nothing held, one without `:o` a legacy client, `g`, a numeral for one, `:o` and a numeral that offset, and nothing else means anything |
| `LogPulls.SeedIffBoundary` | cli/sync_server.rs:863-872 | the CRC lookup succeeds exactly at boundaries |
| `LogPulls.PullAcceptedIff` | cli/sync_server.rs:628-745 | a pull from a log that scans is accepted exactly for an empty or legacy revision or one naming the start or a boundary of the log; a legacy client is told the end and sent nothing |
| `LogPulls.PullRefusedHow` | cli/sync_server.rs:679-726 | a refused pull is told that its revision means nothing, lies past the end, or lies between boundaries, exactly when it does |
| `LogPulls.ClientAcceptsIff` | sync/engine/src/database_sync_operations.rs:1547-1673 | the client accepts exactly the answers whose ranges are whole logs, or frames sealed from the CRC sent along, and decodes exactly their transactions |
| `Framing.EncodeLengthDelimited` | cli/sync_server.rs:1189-1197 | the byte-pushing loop appends the base-128 length and the data |
| `Framing.VarintRoundTrip` | sync/engine/src/database_sync_operations.rs:991-1012 | the ten-byte varint reader recovers every 64-bit length wherever it stands in the stream |
| `Framing.DecodeOneRoundTrip` | cli/sync_server.rs:1189-1197 | one framed message is read back whole and leaves the rest of the stream |
| `Framing.FramingRoundTrip` | cli/sync_server.rs:1189-1197 | the concatenation of any list of framed messages decodes to exactly that list |
| `Framing.VarintShape` | cli/sync_server.rs:1189-1197 | the encoded length is its base-128 digits, least first, each but the last with the continuation bit, and no more of them than needed |
| `Framing.ReadVarintShape` | sync/engine/src/database_sync_operations.rs:991-1012 | the reader stops right after the first byte without the continuation bit, and refuses when the next ten bytes have none |
| `PagePull.HandlePagePull` | cli/sync_server.rs:512-588 | the newest-first loop over frames with its set of seen pages computes the recursive collapse, revisions and error cases included |
| `PagePull.CollapseMember` | cli/sync_server.rs:538-588 | membership in the collapse, both directions |
| `PagePull.CollapseDistinct` | cli/sync_server.rs:538-588 | no page is sent twice |
| `PagePull.CollapseExact` | cli/sync_server.rs:538-588 | the answer holds an update exactly when it is the newest version in the range of a selected page, and each page once |
| `PagePull.AnswerAdvances` | cli/sync_server.rs:538-588 | applying one answer carries a replica from full replay at the client revision to full replay at the server revision on the selected pages |
| `PagePull.StepStaysInSync` | cli/sync_server.rs:502-588 | each appended frame and each forward pull keeps the replica equal to replay at the revision it reports |
| `PagePull.ChainAgrees` | cli/sync_server.rs:502-588 | over any chain of forward pulls interleaved with writes the replica agrees with full replay on the selected pages |
| `PagePull.SafeIffForward` | cli/sync_server.rs:512-522 | a pull is safe in every world exactly when the server revision asked for is not below the client's |
| `PagePull.BackwardPull` | cli/sync_server.rs:512-522 | for every backward pair of revisions a world in which the pull leaves the replica ahead of what it reports |
| `PagePull.CollapseInFrameOrder` | cli/sync_server.rs:538-588 | the answer lists pages in the order of the frames they come from |
| `PagePull.FreshClientInSync` | cli/sync_server.rs:517-522 | a client whose revision is empty or does not parse is in sync exactly when it holds what the WAL starts from |
| `PagePull.ClientAtInSync` | cli/sync_server.rs:517-522 | a client told revision n is in sync exactly when it holds the first n frames replayed |
| `PagePull.PullReachesEnd` | cli/sync_server.rs:512-588 | asking with an empty or unparsable server revision brings any client in sync to the end of the WAL, and it is told so |
| `PagePull.PullReachesRevision` | cli/sync_server.rs:512-588 | asking for a revision brings a client in sync exactly there, or changes nothing when it lies past the end of the WAL |
| `BlobVm.BuildBlobProgram` | core/incremental_blob.rs:380-517 | emitting instructions, allocating registers and anchoring labels in the source's order yields the 25-instruction program with every jump where it is meant to go |
| `BlobVm.ProgramBuilder.Build` | core/vdbe/builder.rs:1290-1304 | resolving labels succeeds exactly when every used label was anchored, and changes nothing but the jump targets |
| `BlobExec.RankDecreases` | core/incremental_blob.rs:380-517 | every instruction that does not stop the program lowers a rank, so the program always reaches a result row, its end or a failure |
| `BlobExec.DispatchRun` | core/incremental_blob.rs:437-475 | both operations load the operation code and offset from the parameters afresh before they branch, whatever the registers held, and without touching a page |
| `BlobExec.ReadLoads` | core/incremental_blob.rs:437-478 | a bound read comes to its page access with exactly the bound offset and amount |
| `BlobExec.WriteLoads` | core/incremental_blob.rs:437-497 | a bound write comes to its page access with exactly the bound offset and bytes |
| `BlobExec.ReadRun` | core/vdbe/execute.rs:2889-2921 | a loaded read runs to its bytes, or null when the cursor expired, changes no row, and can wait only at its page access and only while unexpired |
| `BlobExec.WriteRun` | core/vdbe/execute.rs:2950-2984 | a loaded write runs to its acknowledgement with exactly those bytes replaced, or to null with nothing changed, and can wait only at its page access |
| `BlobExec.CloseRun` | core/incremental_blob.rs:508-516 | operation zero leaves the loop and halts with the rows committed as they are |
| `BlobExec.OpenRun` | core/incremental_blob.rs:400-430 | opening stops at the length of the value, and fails when the row is missing or holds no bytes |
| `BlobExec.PartialSame` | core/storage/btree.rs:5801-5823 | an instruction that returned early, a write with any first part of its bytes already stored, does on re-execution what it would have done |
| `BlobExec.WaitsDoNotMatter` | core/incremental_blob.rs:48-59 | any I/O waits at any waiting instructions leave the outcome of any run unchanged, and `Busy` needs an interruption that is one |
| `BlobExec.PumpOne` | core/incremental_blob.rs:48-59 | an operation is cut short exactly when its interruptions end in `Busy`, and is then left loaded with the first bytes of a write stored; otherwise it runs to its result row |
| `BlobSpec.BytesAreLatest` | core/incremental_blob.rs:92-138 | until someone else writes the row, every byte is what the last write in bounds covering it put there, and nothing expires |
| `BlobSpec.ExpiryLatches` | core/incremental_blob.rs:178-203 | once expiry has been reported every later read and write reports it, whatever happens in between |
| `BlobSpec.ReadReplies` | core/incremental_blob.rs:92-113 | after any operations a read answers expired exactly when an operation already ran into a peer's write or this one does, out of range exactly when it does not fit, and else the latest bytes |
| `BlobSpec.WriteReplies` | core/incremental_blob.rs:117-138 | after any operations a write is accepted, or answers expired, read-only or out of range, exactly as what was done before it and its own bounds decide |
| `BlobBusy.AnswersAsArray` | core/incremental_blob.rs:92-138 | an operation that finds nothing left loaded and does not return `Busy` answers, leaves the handle and stores rows as the byte array does |
| `BlobBusy.RunIsArray` | core/incremental_blob.rs:92-203 | over every run without a `Busy` reply, answers, handle and stored rows are the byte array's, under any waits and peer writes, expired or not |
| `BlobBusy.AcceptedWritesStay` | core/incremental_blob.rs:140-148 | writes accepted before the handle expired stay stored byte for byte unless a peer writes this very row |
| `BlobBusy.LoadedIffBusy` | core/vdbe/mod.rs:1944-1947 | over every run, an operation is left loaded exactly when the last one that stepped the machine returned `Busy`, which the caller sees from its replies |
| `BlobBusy.LostIffHit` | core/storage/btree.rs:7195-7204 | over every run, the row is lost exactly when a peer wrote it or a row the cursor was not told |
| `BlobBusy.NextIsRightIff` | core/incremental_blob.rs:50-59 | after every run of a fresh handle, whatever operation comes next answers as the byte array exactly when the last that stepped did not return `Busy`, or a peer hit the row, or the value is one read-only byte |
| `BlobBusy.AbandonedWriteLands` | core/incremental_blob.rs:117-138 | a write that returned `Busy` is carried out by the next read, which gets an internal error instead of its bytes |
| `BlobBusy.AbandonedReadAnswers` | core/incremental_blob.rs:92-113 | after a read that returned `Busy`, a read of the same length elsewhere silently gets the first one's bytes |
| `BlobBusy.RetryingIsRight` | core/incremental_blob.rs:92-138 | an operation retried until it no longer returns `Busy` answers as the byte array would have the first time, after any number of `Busy` returns and partial writes |
| `BlobHandle.Step` | core/vdbe/mod.rs:1907-1947 | the instruction loop runs to the next stop, or returns early at the given waiting instruction |
| `BlobHandle.PumpStep` | core/incremental_blob.rs:48-59 | the loop steps again after each I/O wait and gives up at the first `Busy` |
| `BlobHandle.Blob.StepOp` | core/incremental_blob.rs:178-203 | the loaded operation, or else the bound one, is resumed: cut short, reported expired and latched, or answered |
| `BlobHandle.Blob.Read` | core/incremental_blob.rs:92-113 | a read takes the step of the handle's meaning from any state it can be in, with the source's order of error checks |
| `BlobHandle.Blob.Write` | core/incremental_blob.rs:117-138 | a write takes the step of the handle's meaning from any state it can be in, with the source's order of error checks |
| `BlobHandle.Blob.PeerWrite` | core/storage/btree.rs:7195-7204 | another statement changes one row; the value is lost when that is this row or the cursor is not told which |
| `BlobHandle.Blob.Close` | core/incremental_blob.rs:140-148 | close drains a loaded operation and halts, committing the rows with it, whether or not the handle expired; it fails only by `Busy` |
| `BlobHandle.BlobOpen` | core/incremental_blob.rs:342-370 | opening succeeds exactly on a row with bytes, unless it returns `Busy`, and stands for that value, writable as asked |
| `BlobHandle.RunOps` | core/incremental_blob.rs:92-203 | any sequence of reads, writes and peer writes, under any waits and `Busy` returns, is a run of the handle's meaning |
| `BlobHandle.Session` | core/incremental_blob.rs:92-203 | open, any operations, close: replies and committed rows are those of the handle's meaning; without a `Busy` reply they are the byte array's, and every accepted write is committed even after expiry |
| `EditDistance.Levenshtein` | cli/manual.rs:75-102 | the two-row loop returns the length of a shortest edit script between the two strings |
| `EditDistance.NoShorterScript` | cli/manual.rs:75-102 | no script of insertions, deletions and substitutions between two strings is shorter than the recurrence |
| `EditDistance.ShortestScript` | cli/manual.rs:75-102 | some script has exactly that length |
| `EditDistance.EditDistanceIsMetric` | cli/manual.rs:75-102 | the distance is zero exactly on equal strings, symmetric, and satisfies the triangle inequality |
| `CivilDate.NextDayCounts` | core/build.rs:91-107 | the calendar's next day under the leap-year rules has the next day number |
| `CivilDate.CivilIsInverse` | core/build.rs:95-105 | the arithmetic maps every day count to the valid date whose day number it is |
| `CivilDate.FieldsFollowCalendar` | core/build.rs:91-107 | for every 64-bit epoch the fields are a valid date and time, a day later is the calendar's next day, and zero is 1970-01-01 00:00:00; no 32-bit cast or subtraction leaves its type |
| `CivilDate.FieldsDetermineEpoch` | core/build.rs:91-107 | the epoch is recovered from the fields |
| `CivilDate.FormatUtcInjective` | core/build.rs:106 | two epochs never print alike |
| `CivilDate.FormatUtcReadsBack` | core/build.rs:106 | reading the printed form by position gives back year, month, day, hour, minute and second, with the separators between them |
| `ReadState.WhitespaceIsInert` | cli/read_state_machine.rs:131-197 | deleting every whitespace token never changes where a run ends |
| `ReadState.TriggerCompletesAnywhere` | cli/read_state_machine.rs:131-197 | from trigger mode a run is first complete exactly at the first `; END ;`, whitespace tokens aside |
| `ReadState.CompleteIffStatements` | cli/read_state_machine.rs:124-197 | an input is complete exactly when its tokens, whitespace aside, are a sequence of whole statements, triggers ending at their first `; END ;` |
| `SqlLexer.Tokenizer.Next` | cli/read_state_machine.rs:78-118 | the iterator returns the first token of the text and leaves exactly the tokens after it; nothing is returned only when no token is left |
| `SqlLexer.Tokenizer.ReadKeyword` | cli/read_state_machine.rs:56-72 | the keyword reader consumes the longest word and classifies it |
| `SqlLexer.Tokenizer.SkipPast` | cli/read_state_machine.rs:79-98 | quoted text and line comments are skipped past the first closing character, or to the end |
| `SqlLexer.Tokenizer.SkipBlock` | cli/read_state_machine.rs:99-109 | a block comment is skipped past the first star-slash counted from its own star, or to the end |
| `SqlLexer.ProcessText` | cli/read_state_machine.rs:201-205 | folding the transition over the iterator is running the automaton on the token sequence |
| `SqlPieces.KeywordsAnyCase` | cli/read_state_machine.rs:56-72 | a word is a keyword exactly when it spells one letter by letter in any case |
| `SqlPieces.PieceLexes` | cli/read_state_machine.rs:78-118 | a character, word, quoted text, line or block comment or run of blanks gives its own tokens and leaves what follows to be read afresh |
| `SqlPieces.TextLexes` | cli/read_state_machine.rs:78-118 | a text put together from pieces has exactly their tokens, and an unfinished quote or comment at its end none |
| `SqlPieces.TextIsPieces` | cli/read_state_machine.rs:78-118 | every text is put together from pieces in this way |
| `SqlPieces.EveryTextLexes` | cli/read_state_machine.rs:78-118 | so the tokens of every text are those of its pieces |
| `SqlPieces.TriggerTextCompletes` | cli/read_state_machine.rs:131-205 | a text spelling CREATE, any TEMP words, TRIGGER and a body, in any case with any comments and quoted texts between, is complete exactly at the first `; END ;` of its body |
| `SqlLines.StepExtends` | cli/read_state_machine.rs:78-118 | text that begins with a neutral character does not change how the token before it is read |
| `SqlLines.ClosedLineSplits` | cli/app.rs:2052-2068 | after a line that leaves nothing open, a fresh tokenizer continues exactly where one tokenizer would |
| `SqlLines.SplitsSafelyIffClosed` | cli/read_state_machine.rs:78-118 | splitting after a line is harmless for every state and continuation exactly when the line leaves no quoted text or block comment open |
| `SqlLines.OpenLineMisleads` | cli/read_state_machine.rs:78-118 | for every open line a continuation on which the two disagree |
| `SqlLines.LinesAgree` | cli/app.rs:2052-2068 | line by line and whole-text processing end in the same state when no line leaves anything open |
| `SqlLines.ReadSqlFile` | cli/app.rs:2044-2076 | the file reader runs the text exactly at each line after which the state first becomes complete, then a non-blank remainder |
| `SqlLines.BatchIsComplete` | cli/app.rs:2052-2068 | each query run on completion is complete by itself and no shorter cut of its lines is |
| `SqlLines.LinesRejoin` | cli/app.rs:2052-2054 | the lines with their newlines, or carriage returns and newlines, put back are the text, and no line holds a newline |
| `SqlLines.BufferJoins` | cli/app.rs:2055-2060 | the buffer is the lines from the first that is not empty, joined by newlines |
| `SqlLiteral.QuoteIdent` | cli/app.rs:2213-2224 | the loop encloses the text in double quotes and doubles those inside |
| `SqlLiteral.SqlQuoteString` | cli/app.rs:2226-2237 | the loop encloses the text in single quotes and doubles those inside |
| `SqlLiteral.QuotedIsSilent` | cli/read_state_machine.rs:79-91 | whatever a quoted text contains, the tokens of it followed by any suffix are the tokens of the suffix |
| `SqlLiteral.QuotedInContext` | cli/read_state_machine.rs:79-91 | inside a statement a quoted text contributes no token, whatever it contains |
| `SqlLiteral.WriteSqlValue` | cli/app.rs:1987-2016 | the writer appends the literal of the value |
| `SqlLiteral.ParseHexBlob` | cli/app.rs:2301-2323 | the loop over nibble pairs computes the hexadecimal decoder, odd lengths and bad digits refused |
| `SqlLiteral.PairsUndoDoubling` | cli/app.rs:2325-2331 | left-to-right replacement of quote pairs undoes doubling for any runs of quotes |
| `SqlLiteral.HexRoundTrip` | cli/app.rs:2301-2323 | decoding the hexadecimal form gives back any bytes |
| `SqlLiteral.TextRoundTrip` | cli/app.rs:2267-2331 | a quoted text parses back to the text, never as a number, null or blob |
| `SqlLiteral.BlobRoundTrip` | cli/app.rs:2267-2323 | a hexadecimal blob literal parses back to its bytes |
| `SqlLiteral.IntegerRoundTrip` | cli/app.rs:2267-2299 | a printed 64-bit integer parses back to it |
| `Decimal.ParseI64RoundTrip` | cli/app.rs:2267-2299 | parsing the decimal numeral of any 64-bit signed integer gives it back |
| `Decimal.ParseU64RoundTrip` | cli/sync_server.rs:512-522 | parsing the decimal numeral of any 64-bit unsigned integer gives it back |
| `SqlLiteral.LiteralRoundTrip` | cli/app.rs:2267-2331 | parsing the printed literal gives back every null, integer, text and blob |
| `Decimal.ParseU64Iff` | cli/sync_server.rs:512-522 | the unsigned parser takes exactly a numeral, with zeros or one plus sign before it, that fits 64 bits |
| `Decimal.ParseI64Iff` | cli/app.rs:2267-2299 | the signed parser takes exactly a numeral with an optional sign that fits, negated after a minus sign |
| `SqlLiteral.HexShape` | cli/app.rs:2006-2013 | a blob prints as two lower-case hexadecimal digits a byte |
| `SqlLiteral.HexIff` | cli/app.rs:2301-2323 | exactly the pairs of hexadecimal digits in either case decode |
| `Text.TrimShape` | cli/app.rs:2267-2268 | trimming takes every blank off both ends and nothing else |
| `SqlLiteral.BlanksIgnored` | cli/app.rs:2267-2299 | blanks around a parameter value do not matter |
| `SqlLiteral.NullIff` | cli/app.rs:2267-2299 | a value is null exactly when it spells NULL in any case |
| `SqlLiteral.IntegerIff` | cli/app.rs:2267-2299 | a value is an integer exactly when the integer parser takes it, and that integer |
| `SqlLiteral.FloatIff` | cli/app.rs:2267-2299 | a value is a float exactly when it is a float text with a point or an exponent |
| `SqlLiteral.PointIsFloat` | cli/app.rs:2267-2299 | digits with a point among them, signed and scaled or not, are a float text |
| `SqlLiteral.ScaledIsFloat` | cli/app.rs:2267-2299 | so are digits with an exponent |
| `SqlLiteral.UnquotedIsText` | cli/app.rs:2267-2299 | a value that no quote ends is its own text exactly when it is neither null nor a number, and so is every word but null |
| `SqlLiteral.BlobLiteralParses` | cli/app.rs:2280-2290 | a blob literal is its bytes, or refused, whichever case its letter has |
| `StatementStream.FindStmtEnd` | cli/input.rs:223-240 | the loop finds the first semicolon followed by a newline or a carriage return and newline, and only that |
| `StatementStream.ApplyWriter.FlushCompleteStatements` | cli/input.rs:242-251 | the buffer is drained of its complete statements in order, up to the first failure |
| `StatementStream.ApplyWriter.Write` | cli/input.rs:291-296 | a write drains the old buffer extended by the data |
| `StatementStream.ApplyWriter.Finish` | cli/input.rs:254-268 | a last statement followed by blanks only is executed, anything else is left |
| `StatementStream.ChunkingIrrelevant` | cli/input.rs:242-296 | however a stream is cut into writes the same statements are executed with the same outcome, and without a failure the same bytes are kept |
| `StatementStream.StreamIsExecuted` | cli/input.rs:223-251 | statements free of terminators, each ended by a semicolon and either line ending, are executed exactly and in order up to the first failure, and bytes after them without a terminator are kept |
| `StatementStream.NothingIsLost` | cli/input.rs:242-251 | the stream is the executed statements, one line ending after each, and the kept bytes |
| `StatementStream.ApplyDump` | cli/app.rs:2038-2040 | a dump written in any chunks and finished has its statements executed exactly and in order, a last one with only blanks after its semicolon included, up to the first failure |
| `StatementStream.UnterminatedMeans` | cli/input.rs:223-240 | statements free of terminators are those without a semicolon and newline or semicolon, carriage return and newline, byte by byte |
| `BusySchedule.ElapsedClosedForm` | core/busy.rs:62-91 | the table of totals and the formula past its end are the sums of the delays |
| `BusySchedule.BusyHandlerState.InvokeTimeout` | core/busy.rs:145-167 | a retry is granted for the time the schedule leaves under the timeout, with both counters advanced, or refused with nothing changed |
| `BusySchedule.BusyHandlerState.Invoke` | core/busy.rs:121-140 | each kind of handler takes its step |
| `BusySchedule.BusyHandlerState.Reset` | core/busy.rs:103-107 | a reset state is a fresh one |
| `BusySchedule.BusyHandlerState.GetDelay` | core/busy.rs:173-179 | the delay is the time left until the timeout, zero once it has passed |
| `BusySchedule.WaitsExactlyMax` | core/busy.rs:145-167 | the delays granted before a refusal sum to exactly the maximum duration, a refusal comes exactly then, and it is final |
| `BusySchedule.EventuallyRefuses` | core/busy.rs:145-167 | some invocation is refused |
| `BusySchedule.CountersAgree` | core/busy.rs:145-167 | from a fresh state both counters count the granted invocations, whenever they come |
| `BusySchedule.NeverOverflows` | core/busy.rs:145-167 | while fewer than 2^31 retries fit in the timeout no cast or addition leaves its type in any run |
| `BusySchedule.OverflowIff` | core/busy.rs:160-166 | the counter overflows in some run exactly when 2^31 retries fit in the timeout |
| `BusySchedule.DelaysSetSumToMax` | core/busy.rs:145-179 | at whatever instants invocations come, the delays read right after each grant never sum to more than the maximum, and to exactly it at a refusal |
| `BusySchedule.RetryLoop` | core/statement.rs:537-625 | driving the handler the way a statement does, the delays waited follow the schedule and sum to exactly the maximum by the time it gives up |
| `BusySchedule.CustomLoop` | core/statement.rs:537-625 | a custom handler is asked with 0, 1, 2 and so on, waits a millisecond each time it answers other than zero, and gives up the first time it answers zero |
| `Savepoints.RunKeepsInv` | core/connection.rs:4751-4821 | over every run an open savepoint means an open transaction, and a temp database once snapshotted stays initialised |
| `Savepoints.FrameStays` | core/connection.rs:4751-4821 | while a savepoint is open, the stack up to its frame is what it was right after it began |
| `Savepoints.FrameOrigin` | core/connection.rs:4759-4785 | every frame on the stack belongs to exactly one savepoint still open, and holds the schemas of the moment it began |
| `Savepoints.SearchFinds` | core/connection.rs:4787-4800 | the search from the end finds the innermost open savepoint of that name, and fails only when none is open |
| `Savepoints.RollbackRestores` | core/vdbe/execute.rs:4622-4687 | over every run, ROLLBACK TO puts main, temp and staged schemas, the stack and the violation count back to right after the innermost savepoint of that name began, or changes nothing when none is open |
| `Savepoints.ReleaseDrops` | core/vdbe/execute.rs:4583-4621 | RELEASE drops that savepoint and those inside it, changes no schema the connection sees, and commits exactly when it is outermost and opened the transaction |
| `Savepoints.CommitRefusedIff` | core/vdbe/execute.rs:4365-4452 | over every run COMMIT, or RELEASE of the savepoint that opened the transaction, fails and changes nothing exactly when foreign keys are enforced and violations outstanding; otherwise the transaction is over and every attached database publishes what the connection saw of it |
| `Savepoints.DdlChangesOne` | core/connection.rs:3034-3076 | DDL changes the one schema it names for this connection, and no other, published or saved one |
| `SchemaArcs.Connection.TryMakeMut` | core/schema.rs:2651-2656 | the cell is mutated in place exactly when its reference count is one, otherwise a fresh clone is; no other cell changes |
| `SchemaArcs.NoFrameHolds` | core/connection.rs:123-148 | a reference count with nothing left for the frames means no frame refers to the cell |
| `SchemaCounts.CountedOnceIffSole` | core/schema.rs:2651-2656 | the reference count is one exactly when a single place holds the cell, and zero exactly when none does, over main, temp, staged, published and saved references |
| `SchemaArcs.MainWritten` | core/connection.rs:3027-3031 | writing through an exclusive main reference changes the main schema and nothing read through any other reference |
| `SchemaArcs.StagedWritten` | core/connection.rs:3055-3074 | writing through an exclusive staged reference changes that staged schema and nothing else |
| `SchemaArcs.Connection.WithSchemaMut` | core/connection.rs:3027-3031 | DDL on the main database acts as on a copy: no snapshot, staged or shared schema changes |
| `SchemaArcs.Connection.WithDatabaseSchemaMut` | core/connection.rs:3034-3076 | DDL on main, temp or an attached database acts as the by-value step |
| `SchemaArcs.Connection.SavepointBegin` | core/vdbe/execute.rs:4483-4582 | cloning references into a frame is saving the schemas |
| `SchemaArcs.Connection.ReleaseNamedSavepointFrame` | core/connection.rs:4787-4800 | the innermost frame of that name and those above it are dropped, unless releasing it commits |
| `SchemaArcs.Connection.SavepointRelease` | core/vdbe/execute.rs:4583-4621 | the pager's answer is acted on and the connection's dropped; both stacks stay in step and the result is the by-value step |
| `SchemaArcs.Connection.RollbackNamedSavepointFrame` | core/connection.rs:4802-4821 | the innermost frame of that name is returned and only the frames above it are dropped |
| `SchemaArcs.Connection.SavepointRollbackTo` | core/vdbe/execute.rs:4622-4687 | installing the frame's references is the by-value ROLLBACK TO, without reading the database |
| `SchemaArcs.Connection.RollbackStacks` | core/vdbe/execute.rs:4622-4644 | the pager's and the connection's stacks come down to the same savepoint, whose violation count comes back |
| `SchemaArcs.Connection.RestoreSchemas` | core/vdbe/execute.rs:4660-4671 | the frame's references are installed; a temp database initialised since the savepoint becomes empty, an uninitialised one is left alone |
| `SchemaArcs.Connection.Commit` | core/vdbe/execute.rs:4365-4452 | commit is refused while violations are outstanding, and otherwise publishes every staged schema and drops the stack |
| `SchemaArcs.Connection.BeginTransaction` | core/vdbe/execute.rs:4381-4394 | BEGIN opens a transaction, or is refused inside one |
| `SchemaArcs.Connection.CommitTransaction` | core/vdbe/execute.rs:4332-4401 | COMMIT is the by-value step, refused outside a transaction |
| `SchemaArcs.Connection.PublishAll` | core/vdbe/mod.rs:2309-2340 | publishing one database after another, in any order, publishes every staged schema |
| `SchemaArcs.Connection.PublishDatabaseSchema` | core/connection.rs:3656-3668 | one staged reference moves to its database, or is dropped when the database is gone |
| `SchemaArcs.Connection.Rollback` | core/vdbe/execute.rs:4349-4364 | rollback installs committed references, drops staged ones and the stack |
| `SchemaArcs.Connection.InitTempDatabase` | core/connection.rs:95-112 | first use gives the temp database an empty schema and changes no snapshot |
| `SchemaArcs.Connection.ResetTempDatabase` | core/connection.rs:721-727 | resetting drops the temp schema and nothing else |
| `SchemaArcs.Connection.OthersMutate` | core/schema.rs:2651-2656 | copy-on-write by any other holder changes nothing this connection reads |
| `SchemaArcs.Drive` | core/connection.rs:4751-4821 | every run on references, with other holders cloning, dropping and writing through references in between, is a run by value with the same outcomes |
| `SchemaViews.TempDbContext.CommitSchema` | core/connection.rs:746-770 | a changed temp schema becomes the committed one and the mark is cleared; an unmarked one is left |
| `SchemaViews.TempDbContext.RollbackSchema` | core/connection.rs:775-796 | a changed temp schema goes back to the committed one, or to empty when none was |
| `SchemaViews.TempDbContext.Ddl` | core/connection.rs:732-741 | temp DDL changes the schema in place and marks it |
| `SchemaViews.TempDbContext.Reset` | core/connection.rs:721-727 | resetting forgets the temp schema, its snapshot and the mark |
| `SchemaViews.AttachedSchemas.RollbackAttachedMvccTxs` | core/connection.rs:4695-4719 | exactly the staged schemas of MVCC databases with a transaction are dropped, when asked to, and no transaction is left |
| `SchemaViews.AttachedSchemas.RollbackAttachedWalTxns` | core/connection.rs:4724-4749 | exactly the staged schemas of attached WAL-mode databases are dropped |
| `SchemaViews.AttachedSchemas.RollbackAttached` | core/connection.rs:4695-4749 | the passes a rollback runs, the first only in MVCC mode, take the step the interleaving results are about |
| `SchemaViews.StepStaysInSync` | core/connection.rs:3034-3076 | every step of any connection keeps every schema equal to the DDL history replayed |
| `SchemaViews.SeesCommittedPlusOwn` | core/connection.rs:3622-3647 | a connection sees the committed DDL followed by its own uncommitted DDL and no one else's, on attached and temp databases |
| `SchemaViews.RollbackSeesCommitted` | core/connection.rs:4695-4749 | after rollback it sees exactly the committed DDL, for temp the last commit or empty |
| `SchemaViews.AlwaysCommittedPlusOwn` | core/connection.rs:3622-3668 | the same at every moment of every interleaving of DDL, publication and rollback with one uncommitted writer per attached database |
| `AutoincSync.SyncDriver.StepOnce` | core/connection.rs:4187-4302 | one pass of the driver's loop keeps the run's outcome, whether it advances or has to wait |
| `AutoincSync.SyncDriver.StepRead` | core/connection.rs:4202-4216 | rows already read are kept across a wait and none is read twice; a mark that is not an integer ends the run |
| `AutoincSync.SyncDriver.StepMax` | core/connection.rs:4244-4286 | a table strictly ahead is skipped, any other goes on to the upsert |
| `AutoincSync.SyncDriver.StepUpsert` | core/connection.rs:4287-4301 | the mark is written as handed out once, and the watermark set after it |
| `AutoincSync.SyncDriver.Poll` | core/connection.rs:4177-4304 | one call of the driver ends done, failed or waiting, with the outcome of the run unchanged |
| `AutoincSync.RunToEnd` | core/connection.rs:4177-4304 | however often it waits, the sync ends as one uninterrupted pass over the recorded marks, or fails without a change when a mark is not an integer |
| `AutoincSync.SelectMax` | core/connection.rs:4237-4253 | the maximum key, nothing for an empty table |
| `AutoincSync.NextIsAbove` | core/connection.rs:4255-4302 | afterwards each recorded mark with a backing table lies strictly below the next value generated, and only a table at the largest integer generates none |
| `AutoincSync.SecondSyncChangesNothing` | core/connection.rs:4255-4302 | a second sync leaves tables and watermarks as they are |
| `AutoincSync.OthersUntouched` | core/connection.rs:4255-4302 | rows at other keys, and tables without a recorded mark, stay as they were |
| `AutoincSync.AheadIsUntouched` | core/connection.rs:4255-4286 | a table strictly ahead of every mark recorded for it keeps its rows and its watermark |
| `AutoincSync.MarkIsHandedOut` | core/connection.rs:4287-4302 | a mark its table does not end up ahead of is in the table as handed out under the AUTOINCREMENT descriptor, with the store's watermark one above it, or at it at the end of the range |
| `AutoincSync.NoStoreNoMarks` | core/connection.rs:4287-4302 | without an MVCC store no watermark changes |

## Left out

- Sockets, HTTP, protobuf and JSON message bodies, file reads and thread loops: the log bytes, WAL frames and requests are taken as given.
- The arithmetic of crc32c: the checksum is an arbitrary append function.
- Log generations, replace-base answers, checkpoint truncation and the answer with pages where a log has an unsupported version or no portable payload; log bytes before the last scanned boundary do not change.
- LogReplication.DecodeRange: does not decode the portable payload inside a frame, which can fail too; a transaction is its frame bytes.
- The `db_size` field of page pulls.
- BlobHandle.Blob.PeerWrite: other statements are a step that changes one row and marks the cursor; how the b-tree finds the affected cursors is not modelled.
- BlobHandle.BlobOpen: does not model the checks on table, column and index that precede the program; columns are one value per row, and overflow pages are not modelled.
- The abort of the blob program by an interrupt or by an error while stepping, and the rollback when a handle whose close returned `Busy` is dropped.
- SqlLiteral.WriteSqlValue: the text of a float is given, not computed.
- SqlLiteral.LiteralRoundTrip: excludes floats, because an integral float prints without a decimal point and reads back as an integer.
- Text is a sequence of Unicode characters; the shell's statement splitter and the blob handle work on bytes and are modelled on bytes.
- Quote-aware splitting in the statement splitter: it looks only for a semicolon before a line ending, so statements containing one are cut there.
- Savepoints.RollbackRestores: pages, statement savepoints and the mirroring to attached pagers are not modelled; the pager contributes its stack of names and violation counts.
- The refusal of savepoint commands while a write statement is suspended, and allocation failure while cloning a schema.
- SchemaArcs.Connection.Commit: does not model a transaction poisoned by an abandoned write statement, whose commit rolls back.
- SchemaArcs.Connection.Rollback: which references are the committed ones is a parameter.
- SchemaViews.AttachedSchemas.RollbackAttached: relies on the rule that a database in MVCC mode is attached only to one in MVCC mode.
- SchemaViews.AlwaysCommittedPlusOwn: assumes what the write locks enforce, one uncommitted DDL writer per attached database; attaching and detaching during a run is not modelled.
- BusySchedule.BusyHandlerState.InvokeTimeout: states whose next addition or cast would overflow are excluded; `BusySchedule.OverflowIff` says when a run reaches one.
- BusySchedule.BusyHandlerState.Invoke: likewise, a custom callback at the largest 32-bit count.
- BusySchedule.RetryLoop: likewise, timeouts so long that the counter could overflow.
- BusySchedule.CustomLoop: likewise, more than 2^31 - 1 invocations.
- AutoincSync.RunToEnd: errors from preparing or stepping a statement are not modelled, only marks that are not integers.
- The rest of `core/connection.rs`, the storage engine, the translator, the one-bit lock, function tables and the shell's rendering and completion.
