# A verified model of the PostgreSQL ODBC driver

This project models the logic of an ODBC driver for PostgreSQL and proves what it promises: how the driver
keeps its picture of the server's transaction, how it translates and splits SQL text, and how it carries
values in and out.

The model takes the form of the code. Objects whose fields are updated in place are classes, loops over
buffers are methods over arrays, and each is proved against a specification on values; the promises are lemmas
about those specifications, over all inputs and all runs.

## The parts

- **Transactions and savepoints** (`Server`, `Protocol`, `ProtocolProofs`, `StatementRollback`, `CallRollback`,
  `Connection`). The server is a transaction status with a stack of named snapshots. The driver is its
  transaction bits, the flag that says its own savepoint is valid, the options of the read-only optimisation and
  the list of marked objects. Steps are ODBC calls with any queries, commits, rollbacks and begins.
- **Search patterns and names** (`LikePattern`, `LikeMeaning`, `CatalogName`). The server side is a reader of
  string constants and a matcher for LIKE; the other side is a matcher for ODBC patterns.
- **Literals, buffers and bytea** (`SqlLiteral`, `QueryBuffer`, `LiteralText`, `Bytea`, `ByteaForms`, `ByteaReader`,
  `BinaryWriter`, `HexExpand`, `CharBuffer`). String constants follow sections 4.1.2.1 and 4.1.2.2 of the
  PostgreSQL documentation, bytea text section 8.4, LIKE section 9.7.1.
- **Numerics** (`BigNum`, `NumericPrint`, `NumericParse`, `NumericTheorems`).
- **Connection strings** (`ConnString`, `ConnTokenizer`, `ConnRoundTrip`, `ConnWhole`, `ConnPieces`,
  `ConnReread`). The tokenizer works in place on one character array, cutting at semicolons and repairing wrong
  cuts; it is proved equal to a parser on the uncut text.
- **The SQL scanners** (`ScanSpec`, `ScanMachine`, `Rewriter`, `ScanCount`, `Counter`, `ScanLocal`,
  `ScanSplit`, `CommandSplit`, `CommandAlone`, `Prepare`, `Blocks`, `Cuts`, `ReturnMark`). The specification cuts a
  statement into blocks; the rewriter and the counter are flag-driven loops over characters.
- **Reading columns in pieces** (`GetDataSpec`, `GetDataTheorems`, `GetData`).
- **Parameter rows in batches** (`Batch`, `BatchTheorems`, `BatchStatus`, `BatchExec`).
- **Data at execution** (`DataAtExec`).
- **Shared definitions** (`Basics`).

## What the code does not promise

Some natural promises are false of the code. The model keeps the code as it is, shows the failing case and
says exactly when the promise holds.

- Earlier work in a transaction does not always survive a failing call: after a read-only call no savepoint is
  set, and a first text refused for its syntax takes a merged savepoint with it (`EarlierWorkSurvivesIff`). With
  a savepoint of its own, a call counts as read-only by its first query alone (`SuccessfulCall`).
- "COMMIT; BEGIN" in one query leaves the savepoint flag pointing at nothing (`LostSavepointIff`,
  `LostByCommandsIff`); the next rollback of a statement, or the next savepoint, then fails
  (`FalseClaimCannotRollBack`, `FalseClaimStopsNext`).
- A ROLLBACK outside a transaction leaves an error bit behind, and the next transaction's first failing
  statement is then not rolled back (`FirstStatementFailure`).
- A call that fails in the driver, after queries that succeeded, is not undone while its savepoint is in force: its
  own work stays; without a savepoint the whole transaction goes (`WorkOfDriverFailure`).
- A backslash before a non-ASCII character changes the meaning of a search pattern
  (`TranslationPreservesMeaningIff`).
- A value with a missing or misplaced closing bracket is accepted when no semicolon follows (`BraceError`). Text
  inside a braced value is read again as a setting when the string ends in a doubled bracket behind a semicolon
  (`ReadOnceIff`, `ReadTwice`).
- The line-end conversion of a parameter looks one byte past its end (`LiteralComesBackIff`).
- The rewriter and the counter disagree about a comment that overlaps its own opener (`ScannersAgreeIff`).
- A marker that touches a dollar sign can hide the following semicolon, so that each command gets the whole text
  (`CommandsArePreparedIff`, `DollarTakesWholeTextTwice`).
- A call without a buffer in the middle of a reading loses the rest of the value (`WholeValueIff`), and a
  longer buffer left behind by an earlier row makes the last piece look truncated (`StatusHonestIff`).
- Rows deferred before a row whose parameters cannot be converted are reported as successful and sent by the next
  execution (`EndInWords`, `RowsStayBehindIff`); a send behind trailing ignored rows can overwrite the status of a
  row of the send before (`TrailingKeepsIff`, `ExecutionReportsIff`).
- One SQLParamData after the end of an execution is not refused when the last row had deferred parameters: the
  first row is executed once more, and then all rows from the first (`CallAfterEnd`).
- Where a comment in convert.c (line 4228) calls the 16 bytes of a numeric most significant byte first, the code
  takes them least significant byte first; the model follows the code.

## Model

| member | source | states |
|---|---|---|
| ProtocolProofs.UpdateStatusAgrees | connection.c:3036-3079 | From any belief of the driver, the status update makes its in-transaction and error bits equal to the server's; the discards nested in the commit and abort hooks leave the server and everything else as it was |
| ProtocolProofs.NestedStatusUpdate | connection.c:3012-3034 | The status update that ends a query nested in a hook finds driver and server in step, changes nothing and starts no further hook |
| ProtocolProofs.ReplyEffect | connection.c:2335-2437 | Of one result: the savepoint flag stays set exactly after an error, BEGIN, COMMIT or plain result, and nothing but the transaction bits and options changes |
| ProtocolProofs.ReplyBits | connection.c:2335-2437 | The in-transaction bit is set by BEGIN alone, the error bit by ROLLBACK and by an error inside a transaction |
| ProtocolProofs.ReplyOptions | connection.c:2360-2377 | Only ROLLBACK touches the options: it makes the call before it count as one that wrote |
| ProtocolProofs.SwallowEffect | connection.c:2304-2437 | Of the results of commands the driver put in front, one BEGIN, one SAVEPOINT and behind that one RELEASE are swallowed, and no more |
| ProtocolProofs.RunTracks | connection.c:2304-2569 | Through the results of any query without a transaction start behind a transaction end, the driver's bits and its savepoint flag keep in step with the server's savepoint stack; the flag is never set without cause |
| ProtocolProofs.SendBatchKeeps | connection.c:2304-2684 | Every query text keeps the whole invariant, and what the server did is exactly the run of that text |
| ProtocolProofs.SavepointRun | execute.c:741-766 | The generated [RELEASE and] SAVEPOINT in front of any commands succeed and the commands run from the freshly marked state |
| ProtocolProofs.MarkedBatch | connection.c:2244-2252 | A query merged with its savepoint commands has the effect of setting the savepoint first and sending the query afterwards |
| ProtocolProofs.SetStatementSvpKeeps | execute.c:773-839 | Setting or announcing a statement savepoint succeeds and keeps the invariant, in all four combinations of options |
| ProtocolProofs.SendKeeps | connection.c:2194-2684 | CC_send_query_append keeps the invariant on success; on failure at most a savepoint refused together with its text is missing, and then the transaction is in error and managed by the discard |
| ProtocolProofs.AbortEffect | connection.c:526-540 | The full ROLLBACK abandons exactly the open transaction and resets every field of the bookkeeping |
| ProtocolProofs.InternalRollbackEffect | connection.c:2028-2056 | ROLLBACK TO the savepoint that the flag vouches for cannot fail, restores the work pending when it was set, and leaves the savepoint in place |
| ProtocolProofs.DiscardKeeps | execute.c:850-920 | The discard that closes a call restores the invariant in every case |
| ProtocolProofs.CommitEffect | connection.c:502-523 | A commit makes the pending work permanent exactly in a sound transaction whose COMMIT does not fail; otherwise the work is lost, and outside a transaction nothing happens |
| ProtocolProofs.RollbackEffect | connection.c:526-540 | A rollback loses exactly the pending work |
| ProtocolProofs.BeginEffect | connection.c:482-499 | A begin opens a transaction unless one is open, and touches no work |
| ProtocolProofs.NextKeeps | connection.c:482-540 | Every call, commit, rollback, begin and marking of an object keeps the invariant |
| ProtocolProofs.EveryRunIsSafe | connection.h:403-534 | Over every run: the transaction bits agree with the server and internal_svp is set only while the driver's own savepoint is the innermost one |
| StatementRollback.GeneratedSavepointIsSafe | execute.c:741-839 | In every safe state the generated commands succeed, name existing savepoints, and leave the application's savepoints and all work untouched |
| StatementRollback.ReachableSavepointsAreSafe | execute.c:741-839 | The same in every state reachable from a fresh connection |
| StatementRollback.SendShape | execute.c:796-838 | The three ways a statement is sent inside a transaction: without savepoint after a read-only one, merged with it, or after it |
| CallRollback.FailedCall | execute.c:872-893 | For calls with any queries: after a server error the server is exactly as it was where the savepoint was taken, application savepoints included, if the rollback point was started and the flag holds; otherwise the transaction is abandoned, or, if no query reached the savepoint logic, left in error |
| CallRollback.EarlierWorkSurvivesIff | execute.c:802-835 | Earlier work survives a call of any number of queries that the server fails, if and only if the previous call was not read-only and a first text refused for its syntax was not merged with its savepoint |
| CallRollback.DriverFailure | execute.c:872-893 | A call with any queries that fails in the driver while the server is sound: with its savepoint in force the server is left as it is, the call's own work included; otherwise the transaction is abandoned |
| CallRollback.WorkOfDriverFailure | execute.c:872-893 | On the inputs: what such a call did stays if and only if the previous call was not read-only; otherwise all work of the transaction is lost |
| CallRollback.SuccessfulCall | execute.c:902-917 | A successful call leaves the transaction open and counts as read-only for the next: by all its queries without a savepoint, by its first query alone with one |
| CallRollback.FailureAfterSuccess | execute.c:803-814 | A call failing right after a successful one loses the transaction exactly if the first counted as read-only |
| CallRollback.FailureWithoutSavepoint | execute.c:872-893 | On the inputs, without statement-level rollback: a failing call with any work leaves the server idle with nothing pending under transaction-level rollback, and the transaction in error otherwise; nothing is committed |
| CallRollback.FirstQuery | connection.c:2233-2252 | Outside a transaction a successful query opens one and its work is pending, or, under autocommit, its work is committed at once |
| CallRollback.FirstTwoCalls | connection.c:1877-1950 | In a new transaction, after a commit or a rollback: the work of a first call survives a failing second one if and only if not all queries of the first were read-only |
| CallRollback.FailureAfterOwnRollback | connection.c:2369-2376 | After the application's own ROLLBACK TO the next failing call keeps the work restored |
| CallRollback.CallLeavesNoBits | execute.c:894-917 | After every call that is over no bit of its rollback point is left |
| CallRollback.FalseClaimArises | connection.c:2335-2388 | After "COMMIT; BEGIN" in one text the driver claims a savepoint that is not there |
| CallRollback.FalseClaimCannotRollBack | connection.c:2028-2056 | Then the rollback of a failed statement fails and the transaction stays in error |
| CallRollback.FalseClaimStopsNext | execute.c:741-839 | And the next statement with a savepoint of its own fails before it is sent |
| CallRollback.CallsInBetween | execute.c:850-920 | A call without queries succeeds at the server, and a call that still needs data is not closed |
| CallRollback.DiscardSucceeds | connection.c:3012-3034 | In step with the server, the query that discards a marked object succeeds |
| StatementRollback.LostSavepointIff | connection.c:2335-2388 | A query leaves the flag pointing at nothing if and only if its results include a COMMIT but no SAVEPOINT, RELEASE or ROLLBACK, and it ends inside a transaction |
| StatementRollback.LostByCommandsIff | connection.c:2335-2388 | The same on the commands of a text that succeeds: it commits, touches no savepoint and ends inside a transaction |
| StatementRollback.CommitBeginLosesSavepoint | connection.c:2335-2388 | "COMMIT; BEGIN" in one text is such a query wherever the flag is set |
| StatementRollback.IdleRollbackLeavesErrorBit | connection.c:2369-2376 | A ROLLBACK outside any transaction sets the error bit, and the status update does not clear it |
| StatementRollback.FirstStatementFailure | execute.c:786-787 | A failing first statement of a transaction is answered by the full ROLLBACK exactly if no error bit is left over from before |
| Connection.ConnectionClass.ReceiveAll | connection.c:2304-2569 | The loop over the results of a query, and success exactly if no result is an error |
| Connection.ConnectionClass.DiscardMarkedObjects | connection.c:3012-3034 | The list of marked objects is empty afterwards, and in step with the server nothing else changes |
| Connection.ConnectionClass.RunCommitHook | connection.c:1877-1901 | Once the server is idle: driver and server agree, nothing is marked, no savepoint claimed, the server untouched; called again while it runs, it does nothing |
| Connection.ConnectionClass.RunAbortHook | connection.c:1904-1950 | The same after an abandoned transaction, the error bit cleared |
| Connection.ConnectionClass.UpdateTransactionStatus | connection.c:3036-3079 | Whatever the driver believed, afterwards it agrees with the server, which is untouched |
| Connection.ConnectionClass.SendQuery | connection.c:2194-2684 | From a safe state a successful query leaves a safe state, a failing one at most a savepoint refused with its text |
| Connection.ConnectionClass.RollbackStatement | connection.c:2028-2056 | With a valid savepoint the rollback succeeds and restores the work pending when it was set |
| Connection.ConnectionClass.DiscardSavepoint | execute.c:850-920 | Whatever the queries of a call left behind, the state is safe again |
| Connection.ConnectionClass.Execute | execute.c:850-920 | A whole call with its queries on the object keeps the invariant and equals the pure step |
| LikePattern.AdjustLikePattern | info.c:1653-1718 | The loop writes the translation of the whole pattern, terminated, within 4n + 1 bytes |
| LikeMeaning.TranslationPreservesMeaningIff | info.c:1653-1718 | For every string, LIKE on the value of the emitted literal matches as the ODBC pattern does, in both escape modes, if and only if no backslash stands before a non-ASCII character |
| LikeMeaning.AsciiPatternsKeepMeaning | info.c:1653-1718 | In particular the translation keeps the meaning of every ASCII pattern |
| CatalogName.SimpleCatalogEscape | info.c:1596-1649 | The buffer holds the doubled name within 2n + 1 bytes, reads back as the name inside a literal, and an empty name gives none |
| SqlLiteral.ConstantReadsBack | convert.c:5395-5407 | A text quoted in the driver's way is one complete string constant and its value is the text |
| LiteralText.LiteralComesBackIff | convert.c:6133-6194 | The emitted constant is complete, and its value is the parameter (CR LF reduced to LF under conversion) if and only if the look-ahead does not reach past the parameter |
| LiteralText.AppendLiteral | convert.c:5395-5407 | The quoted text of a character parameter is appended, with the E prefix exactly under backslash escapes |
| LiteralText.AppendBinaryLiteral | convert.c:5395-5407 | The quoted bytea text of a binary parameter is appended |
| LiteralText.AppendPieces | convert.c:2376-2450 | Under every interleaving of the writers the contents are the concatenation of all pieces, each write in bounds and room left for the terminator |
| QueryBuffer.QueryBuild.constructor | convert.c:2214-2232 | A new buffer is empty and larger than asked for |
| QueryBuffer.QueryBuild.Enlarge | convert.c:2330-2358 | Growth, also the smaller reallocation it can choose, keeps what was written and ends above the size asked for |
| QueryBuffer.QueryBuild.AppendData | convert.c:2390-2401 | Data is appended, terminated, in bounds |
| QueryBuffer.QueryBuild.AppendChar | convert.c:2413-2422 | A character is appended, room for the terminator kept |
| QueryBuffer.QueryBuild.AppendBinary | convert.c:2424-2437 | The space reserved is enough for either bytea form with its escapes |
| QueryBuffer.QueryBuild.AppendSpecialChars | convert.c:6133-6194 | The text that survives line-end conversion is appended, special characters doubled or not, within the reserved space |
| Bytea.ByteaComesBack | convert.c:6210-6266 | Both text forms of every byte string are well formed and read back as these bytes |
| Bytea.ByteaHasNoQuote | convert.c:6308-6350 | Neither form contains a quote |
| ByteaForms.HexTextReads | convert.c:6401-6433 | From the tables of digits: every byte string is read from its hexadecimal text, each digit in either case |
| ByteaForms.EscapeTextReads | convert.c:6210-6266 | And from its escape-format text, each byte plain, as a doubled backslash or in octal |
| ByteaForms.DriverWritesHex | convert.c:6353-6399 | The driver's hexadecimal text is the one in upper-case digits |
| ByteaForms.DriverWritesUnits | convert.c:6308-6350 | Its octal text writes letters, digits and blanks as they are and all other bytes with three octal digits |
| Bytea.ParameterComesBack | convert.c:6308-6350 | Through the literal layer and the bytea reader every binary parameter comes back, in both forms and both escape modes |
| ByteaReader.Hex2Bin | convert.c:6401-6433 | The in-place accumulation of half bytes stores the bytes the digits denote |
| ByteaReader.ConvertFromPgBinary | convert.c:6210-6266 | With and without a buffer: the count, and the bytes, of what the text denotes |
| BinaryWriter.PutOctal | convert.c:6268-6305 | An escaped octal unit, digits filled in from the last, is what the octal text prescribes |
| BinaryWriter.PutPgBinary | convert.c:6308-6350 | The emitted text is the escaped bytea text in the chosen form and fits the reserved space |
| HexExpand.Bin2Hex | convert.c:6353-6399 | For every placement and both widths: hex of the original source bytes, a terminator and nothing else, or -1 with memory untouched |
| HexExpand.RefusedIff | convert.c:6353-6399 | The call is refused if and only if the destination lies before the source and expanding from the left would write onto a source byte not yet read |
| HexExpand.ExpandedIsHexText | convert.c:6353-6399 | What is written is the hex text used by the bytea codec |
| NumericPrint.DivideByTen | convert.c:4245-4257 | In-place long division: old value = 10 * new value + digit, every partial quotient a byte, and the top non-zero byte found |
| NumericPrint.ExtractDigits | convert.c:4223-4263 | The digits are those of the value modulo ten to the precision |
| NumericPrint.ResolveNumericParam | convert.c:4204-4302 | The text is the exact decimal of the value modulo 10^min(precision, 39), terminated within 150 bytes |
| NumericParse.TimesTenPlus | convert.c:4373-4382 | Multiply-and-carry: new value plus carry out = 10 * old value + digit |
| NumericParse.ToBinary | convert.c:4367-4386 | Overflow exactly from 2^128 on, otherwise the 16 bytes hold the integer |
| NumericParse.ParseToNumericStruct | convert.c:4307-4387 | The struct and the overflow flag for every text, signs, blanks, leading zeros, second points and surplus digits included |
| NumericTheorems.ParsingIsExact | convert.c:4307-4387 | Overflow if and only if the stored digits (at most 48) denote 2^128 or more; otherwise value, sign, precision and scale are exact |
| NumericTheorems.EveryTextIsNumeral | convert.c:4316-4364 | Every text is such a numeral |
| NumericTheorems.AnyTextParsesExactly | convert.c:4307-4387 | The bound and the exact value, sign and scale for every text at all |
| NumericTheorems.PrintingIsExact | convert.c:4204-4302 | The printed text denotes sign times the kept digits over ten to the scale |
| NumericTheorems.ParseOfPrinted | convert.c:4204-4387 | Parsing a printed struct restores sign, scale and every byte, for scales up to 48 and a precision that covers the digits |
| NumericTheorems.PrintOfParsed | convert.c:4204-4387 | Printing a parsed number of up to 48 digits denotes the same number with the same scale |
| NumericTheorems.ParsedZero | convert.c:4307-4387 | No digit is stored exactly for a zero without fraction |
| NumericTheorems.ScaleWraps | convert.c:4307-4387 | The scale stored is the congruent number of a signed byte |
| ConnTokenizer.Repair | drvconn.c:527-573 | The repair loop over the split string terminates and finds the ending that the unsplit text has |
| ConnTokenizer.TakeTurn | drvconn.c:484-577 | One turn of the in-place tokenizer takes what one turn of the pure parser takes, and leaves the rest of the string intact |
| ConnTokenizer.GetAttributes | drvconn.c:448-585 | The in-place tokenizer yields the pairs and the result of the pure parser on every NUL-free string |
| ConnTokenizer.MakeBracketConnectString | dlg_specific.c:238-273 | The buffer holds keyword, equals sign, braced value with doubled closing braces and semicolon, within its allocation |
| ConnRoundTrip.ParseWrittenAll | drvconn.c:448-585 | Every list of items with arbitrary values, written and concatenated, is parsed back as the same pairs in order |
| ConnRoundTrip.RemoveBraces | dlg_specific.c:2044-2074 | The copying loop halves doubled closing braces between the outer braces |
| ConnRoundTrip.BracedComesBack | dlg_specific.c:2044-2074 | Taking the braces off recovers every value exactly |
| ConnReread.ReadOnceIff | drvconn.c:527-573 | Over the whole string: no turn starts inside a value another turn took, if and only if no braced value with a semicolon in it reaches a string end with a doubled bracket |
| ConnReread.ReadTwice | drvconn.c:527-573 | For "A={x;B=y}}" the text inside the value of A is read again as the setting B |
| ConnPieces.PiecesParsed | drvconn.c:448-585 | Every list of settings with braces, settings without, and tokens that are no settings, separated by semicolons, with or without a last one, is read as the pairs of the settings in order, each value whole |
| ConnPieces.BraceError | drvconn.c:505-573 | A value that opens with a brace and is not closed, or has text behind its bracket, is an error if and only if a semicolon follows somewhere; the settings in front have been taken |
| ConnPieces.LoneEquals | drvconn.c:564-571 | A single equals sign behind the last value is read as an empty setting exactly if that value holds neither a semicolon nor a closing bracket |
| ConnWhole.ThereAndBack | drvconn.c:448-585 | Settings written, concatenated, tokenized in place and unbraced come back as the same list |
| ScanMachine.NextWrites | convert.c:3520-4038 | Every step of the character machine writes the next piece of what the block-wise rewriting still prescribes |
| Rewriter.QueryParse.ProcessInside | convert.c:3611-3691 | The flag-driven branches inside literals, quoted identifiers, dollar quotes and comments are the machine's step |
| Rewriter.QueryParse.ProcessToken | convert.c:3520-4038 | One call over flags and counters is one step of the machine |
| Rewriter.PrepareStatement | convert.c:2750-2791 | The statement sent is the input copied except that the k-th marker since the last semicolon outside all blocks becomes $k; terminated in the growing buffer |
| ScanSpec.DigitsDenote | convert.c:4613-4627 | The number written for a marker denotes its position |
| Blocks.BlockEndIff | convert.c:3595-4038 | Each block ends exactly where its characters say: a literal behind the first quote no backslash protects, a quoted identifier behind the first double quote, a comment where openers and closers first balance, a line comment behind the first line feed, a dollar quote behind the first recurrence of its tag, an identifier before the first character that is no part of a word |
| Cuts.CutsAreOutside | convert.c:3520-4038 | There is one way to cut a statement into such blocks, and it is the scanner's |
| Cuts.RewriteByCuts | convert.c:3520-4038 | The statement sent is one piece for each block: nothing for a carriage return that is dropped, the number of the marker since the last semicolon, or the block itself |
| Cuts.MarkerTextIs | convert.c:4613-4627 | A marker is written as a dollar sign and its signed 16-bit number |
| Cuts.DigitsAre | convert.c:4613-4627 | in decimal without superfluous zeros |
| Cuts.MarkerBehindComment | convert.c:3685-3691 | Behind the line feed that ends a line comment a question mark is a marker again, written and counted |
| ScanCount.RewriteKeepsIff | convert.c:3520-4038 | A statement is sent unchanged if and only if, outside the blocks, it has no marker and no carriage return that the conversion drops |
| ScanCount.ScannersAgreeIff | statement.c:1132-1139 | Rewriter and counter see the same text outside blocks if and only if no comment opener overlaps its own closer |
| ScanCount.OverlappingComment | statement.c:1132-1139 | For "/*/?" the rewriter finds a marker and the counter none |
| ScanCount.SameRewriting | convert.c:2797-2835 | Without such a comment, the rewritten text is also the one the counter's view gives |
| Counter.StepInside | statement.c:1038-1081 | The counter's branches inside blocks are the same machine |
| Counter.ScanQueryAndCountParams | statement.c:975-1145 | The 16-bit count of markers, the position of the first command's end, whether anything but blanks follows it, and whether a marker stands behind an opening brace while the count is zero |
| ReturnMark.ReportInWords | statement.c:975-1145 | The whole report told from the cuts: the 16-bit count, the position of the first semicolon, whether a command follows, and whether a marker stands behind an opening brace while the count is zero |
| ScanLocal.BlockLocal | convert.c:3520-4038 | A block that is copied ends at the end of its copy, given what follows it |
| CommandAlone.EndsAlike | statement.c:975-1145 | Whether a command ends at a semicolon is seen from its own text: texts that agree up to and including it, and on the E before a leading literal, both end there or neither does |
| CommandSplit.SplitStatements | convert.c:2797-2835 | The loop over both texts with the counter, advancing by its results also where one of them is -1 |
| CommandSplit.MoreIff | statement.c:1017-1025 | Another command follows exactly when a character does that is neither white space nor part of a multibyte character |
| CommandAlone.CommandsArePreparedIff | convert.c:2797-2835 | For every statement, rewritten by the rewriter and cut by the counter: the loop takes exactly the commands of the original, each with its rewritten text and the number of its own parameters, if and only if the rewriter wrote these commands where the counter looks for them and each of them, taken alone with its semicolon, ends at that semicolon |
| CommandAlone.CommandsArePrepared | convert.c:2797-2835 | When no comment overlaps its own opener, exactly the commands taken alone decide |
| CommandAlone.ApartSuffices | convert.c:2797-2835 | They do so when no marker touches an identifier, a dollar sign or a marker |
| CommandAlone.PiecesAreCommandsIff | convert.c:2797-2835 | The pieces between semicolons, blank ones included, are the rewritten commands if and only if both views of the blocks give the same rewriting and each command alone ends where it should |
| CommandSplit.DollarTakesWholeTextTwice | convert.c:2803-2828 | For "?$;x" the number written for the marker opens a dollar quote that hides the semicolon, and both commands get the whole text |
| Prepare.PrepareParametersNoDesc | convert.c:2750-2846 | The whole function, buffer, rewriting and cutting composed: what is prepared are the commands of the statement under exactly that condition |
| GetDataSpec.PiecesAddUp | convert.c:1157-1254 | For every sequence of buffer sizes the pieces read are the value up to what is left |
| GetDataSpec.NothingAfterEnd | convert.c:1304-1327 | Once the end is reached every further call reports no data |
| GetDataSpec.ReadThenWrittenIff | convert.c:6084-6125 | A value read as a column and written back as a parameter is the same if and only if it holds no CR LF |
| GetDataTheorems.EveryReadingIsWhole | convert.c:1157-1254 | Calls with buffers of at least two bytes and enough room in all hand out exactly the value and end |
| GetDataTheorems.ProbeChangesNothing | convert.c:1202-1254 | A first call without a buffer reports the whole length as truncated and changes nothing for the reading behind it |
| GetDataTheorems.BehindTheEnd | convert.c:1304-1327 | Once the end was reported, a call without a buffer starts over and any other reports the end again |
| GetDataTheorems.ReportsWhatRemained | convert.c:1202-1212 | Each call reports the length that remained before it |
| GetDataTheorems.WholeValueIff | convert.c:1214-1254 | For all sizes, zero included: a reading that ended handed out the whole value if and only if its last call had a buffer |
| GetDataTheorems.EmptyBufferLosesRest | convert.c:1245-1254 | A call without a buffer in the middle of a reading reports success and loses the rest |
| GetDataTheorems.StatusHonestIff | convert.c:1202-1254 | Every status of every reading tells the truth about truncation if and only if no longer buffer was left behind by an earlier row |
| GetData.EstimateLinefeeds | convert.c:6084-6125 | The length and whether anything changes |
| GetData.ConvertLinefeeds | convert.c:6084-6125 | The converted text with its terminator in the buffer |
| GetData.GetDataClass.Setup | convert.c:945-1144 | The converted value is saved exactly as far as later calls need it; an old buffer is reused |
| GetData.GetDataClass.ConvertTextField | convert.c:1157-1263 | One chunk, its length, its status and the saved state, for a first and a later call |
| GetData.GetDataClass.CopyAndConvertField | convert.c:1274-1327 | One SQLGetData call on the fields is one call of the specification; the buffer holds the next piece and a terminator |
| GetData.ReadColumn | convert.c:1274-1327 | A whole reading on the object collects what the specification says |
| BatchTheorems.ExecutionConserves | execute.c:454-620 | Over every execution, failing ones included: what was pending before plus the live rows taken is what was sent plus what is pending, in order |
| BatchTheorems.EveryRowIsSentOnce | execute.c:541-587 | An error-free execution sends the live rows once each, in order, cut into batches of the batch size |
| BatchTheorems.RowsStayBehindIff | execute.c:497-510 | On the inputs: rows deferred before the first row that cannot be converted stay behind, for the next execution to send, if and only if the live rows before it do not fill their batches |
| BatchTheorems.NothingStaysBehind | execute.c:541-587 | Without such a row nothing stays behind, whatever the server replies |
| BatchStatus.TouchReachesLast | execute.c:437-451 | The status update reaches the last n live rows and no others |
| BatchStatus.BatchRows | execute.c:574-587 | A send caused by a live row carries exactly the live rows since the last send |
| BatchStatus.LiveSendTouchesItsBatch | execute.c:588-632 | Such a send sets the statuses of these rows, to one code, and no others |
| BatchStatus.TrailingSendTouchesOneMore | execute.c:528-540 | A send behind trailing ignored rows also sets the status of one row before its own |
| BatchStatus.OneMoreIs | execute.c:528-540 | That row is the last row of the send before |
| BatchStatus.TrailingSuccess | execute.c:614-620 | A plain success behind ignored rows changes no status |
| BatchStatus.TrailingKeepsIff | execute.c:528-540 | The statuses of earlier sends survive a send behind trailing ignored rows if and only if it is a plain success, there was none before, or its code is that of the send before |
| BatchStatus.ExecutionReportsIff | execute.c:588-632 | Over every execution, on the inputs: each row of a send caused by a live row ends with the code of the reply to that send, if and only if no trailing send overwrites one of them |
| BatchStatus.TrailingSendOverwrites | execute.c:528-540 | A concrete execution in which the status of a row of another send is overwritten |
| BatchStatus.StatusesInWords | execute.c:588-640 | Over every execution, for every row sent: ERROR exactly after a refused send, SUCCESS exactly after a plain success or information without notice when rows were deferred before, SUCCESS_WITH_INFO after any other information; except the row a trailing send overwrites |
| BatchStatus.EndInWords | execute.c:497-640 | A server error ends the execution exactly if the last send was refused, a conversion error exactly if the row taken last cannot be converted; that row is left with ERROR, those deferred before it with SUCCESS, ignored rows and rows not reached unused |
| BatchExec.StatementClass.ParamStatusBatchUpdate | execute.c:437-451 | The downward loop over the status array |
| BatchExec.StatementClass.DeferRow | execute.c:545-572 | A row joins the deferred statements |
| BatchExec.StatementClass.FlushRow | execute.c:574-587 | A row is sent with the deferred ones, as one text |
| BatchExec.StatementClass.ExecLast | execute.c:488-540 | The deferred statements are sent behind trailing ignored rows |
| BatchExec.StatementClass.PGAPIExecute | execute.c:1145-1249 | The row loop over the fields is the execution on values, and each text sent is the semicolon-separated batch |
| DataAtExec.TokensAreDeferred | execute.c:1201-1229 | The parameters asked for are the deferred ones, each once, in increasing order |
| DataAtExec.ScriptInWords | execute.c:1145-1249 | What happens in a whole execution, as a set and an order: exactly the rows that are not ignored and not behind a failing one are executed, exactly their deferred parameters asked for, row by row, parameters in order and before the execution |
| DataAtExec.LastTakenIs | execute.c:1145-1249 | The row taken last |
| DataAtExec.StatementClass.CountDeferred | execute.c:1201-1229 | The number of deferred parameters of the row, or -1 |
| DataAtExec.StatementClass.PGAPIExecute | execute.c:1145-1249 | Rows without deferred parameters are executed in order, ignored ones skipped, up to the first that needs data or fails |
| DataAtExec.StatementClass.PGAPIParamData | execute.c:1539-1632 | Asks for the next deferred parameter, or executes the row and goes on; refused, without effect, exactly when the count is negative; after an end with the count at zero it starts over |
| DataAtExec.ExecuteSupplyingData | execute.c:1512-1641 | A whole execution asks for every deferred parameter of every row exactly once, row after row, and takes one call more than there are such parameters; the count is left as the last row taken had it |
| DataAtExec.CallAfterEnd | execute.c:1539-1594 | One call too many is refused with an error if and only if the row taken last had no deferred parameter; otherwise the first row is executed once more |
| DataAtExec.AskedOfOneRow | execute.c:1574-1632 | For one row with k deferred parameters data is asked for k times |
| DataAtExec.PutDataClass.PutData | execute.c:1748-1873 | The first piece is stored, a later one appended, an empty later one refused; the buffer is always terminated |
| DataAtExec.PutAll | execute.c:1748-1873 | Whatever the pieces, the stored buffer is their terminated concatenation |

## Left out

- libpq, sockets, locks and threads: the server is an abstract session that answers each query; failed sends and
  dead connections are not modelled.
- Discards of marked objects are taken to succeed; one that fails inside a transaction would call itself again. The
  status update at the end of each is not run as a step, because it finds nothing to do (NestedStatusUpdate).
- Cursors, ProcessRollback, autocommit and manual-transaction bits, END_WITH_COMMIT and appended queries;
  ROLLBACK_ON_ERROR appears only in the driver's own discards.
- ProtocolProofs.EveryRunIsSafe: a query that ends a transaction and starts another one in the same text is
  excluded, because LostSavepointIff shows that the claim fails there.
- CommandAlone.CommandsArePreparedIff: the byte in front of the original and of the rewritten text in memory is taken
  to be the same.
- Rewriter.PrepareStatement: statements with a brace or `@@identity` outside the blocks, statements sent with a cursor
  or as an INSERT without a target list, MS Jet connections, parameter casts and output parameters are table-driven
  rewritings. A multibyte character is a run of bytes from 0x80 on; other encodings are not modelled.
- The blocks of the scanners are those of the driver; where the server's own lexer cuts a text differently (a
  lower-case e before a literal, tags with underscores) is not modelled.
- String constants with backslash escapes other than those for backslash and quote.
- ByteaReader.ConvertFromPgBinary: text in which every backslash starts a complete form, as the server sends it, and
  a destination longer than the text, as its callers provide.
- NumericPrint.ResolveNumericParam: scales from 0 to 127; with a negative scale the source reads in front of its digits.
- ConnTokenizer.MakeBracketConnectString: keywords of at most 25 characters, which the source demands of its callers by
  reserving 30 bytes for keyword and punctuation.
- Percent-decoding of connection-string values without braces, and the conversion of values to settings.
- GetData.GetDataClass.CopyAndConvertField: character data of text columns; wide characters, locale conversion,
  binary reads, bytea columns, large objects, NULLs and bound columns are not modelled, nor values of 2^31 - 1
  bytes and more.
- BatchExec.StatementClass.PGAPIExecute: deferred execution only; direct execution sends one row at a time. Row
  texts are taken not to be empty, and a status array to be present.
- DataAtExec.StatementClass.PGAPIExecute: rows are executed one by one; statuses and batches are the subject of the
  batch modules. Large objects are not modelled.
- DataAtExec.PutDataClass.PutData: character data of explicit length; a NULL as the first piece is not modelled.
- Allocation failures, AWS authentication and failover, catalog queries, descriptors, dates and times, GUI and DSN
  storage: plumbing or foreign code.
