# A verified model of MocksySQL

MocksySQL is a proxy that sits between a MySQL client and a MySQL server and speaks the MySQL
Client/Server Protocol to both. It cuts the byte streams into packets, follows the connection
through handshake, authentication and commands, can answer writes itself, keeps a log of the
UPDATE statements it has seen, and rewrites the text result sets of later queries as if those
updates had been carried out. This project models that pipeline, from raw reads to rewritten
bytes, and proves what it promises.

## How the model is laid out

| module | what it holds |
|---|---|
| Bytes, Outcomes, Types | bytes and UTF-8, results and panics, the wire's integers and strings |
| Packets, Framing | headers, classification, OK/EOF/ERR payloads; cutting a stream and writing it back |
| Evaluator, SqlLogic | the WHERE evaluator; SQL-92's three-valued logic as its reference |
| DiffLog, Rows, Verdicts | the UPDATE log and its replay; the text row codec and the row rewriter; what conditions decide |
| Responses | what one server packet does to a pending response, state by state |
| ResponseAccumulators | the mutable accumulator that re-feeds one packet through several states |
| ResponseRuns, Coherence, Prepares, Executes, FieldLists, Refeeding | whole responses: which ones are accepted, how they are numbered, termination |
| Greetings, Handshakes, Connections | the packets of the connection phase; the connection and its packet loop |
| Exchanges, Invariants | the two nested half-duplex loops; what holds along every run of them |
| Delivery, EndToEnd, ClientView | conservation, any split into reads, the table the client sees |
| Conservation | the bytes of whole runs of the exchange |
| Interceptions, Sessions, Logins | what an intercepted UPDATE changes; whole sessions over the exchange, and the login before them |
| Counterexamples, Replays | inputs on which the client is misled; answers from the replay cache |

Code that updates state in place is a class or a method with loops (`StateDiffLog`,
`ResponseAccumulator`, `Connection`, `ReplayReader`, `Exchange`, the decoding and encoding loops),
each proved equal to a function on values; the lemmas are about those functions. The proxy holds a
packet by exclusive reference while it is consumed, so a packet is a value passed in and out.

A Rust `String` is the sequence of its UTF-8 bytes. A panic ends the connection's thread, and under
the release profile, which aborts on panic, the whole proxy. It is an outcome, `Panic(fault)`, tagged
with what was violated; what a connection holds after one is not stated. The SQL parser is a parameter, the insert counter and all reads are inputs, and writes are
accumulated bytes. The stored handshake response appears as its capability word.

## What the proofs show about the code

Some properties hold only under a condition. Those are proved together with the exact condition,
or with the input on which they fail.

- The evaluator is two-valued: NULL = NULL is true and NULL <> 'x' is true, and a comparison of a
  text with TRUE or FALSE comes out the same whatever the text. On conditions made by AND, OR, nesting
  and null tests from comparisons of columns and literals, evaluator and SQL agree on the condition
  and all conditions inside it if and only if no comparison runs into one of these cases
  (`SqlLogic.AgreementIsExact`), and no row that SQL selects is lost by any of them if and only if
  none runs into the second (`SqlLogic.LossIsExact`). `WHERE active = TRUE` drops every row
  (`Counterexamples.TrueIsNeverEqual`).
- Evaluating a condition of any shape panics exactly when it comes to need a column the row does not
  have, an operator or literal the evaluator does not handle, or a truth value where it finds a text
  (`Evaluator.PanicsIffUnmet`). `WHERE id + 1 = 2` always does (`Counterexamples.SumPanics`).
- Such a condition, logged or queried, makes the rewriter panic on a logged table; `Rows.RewriteIsSafe`
  and `ClientView.AnswerableIsRewritable` say exactly when. `SELECT name FROM t WHERE id = '1'` is an
  instance of `ClientView.MissingColumnPanics`.
- Overriding a row with the last matching entry is the sequential replay of the log only under
  conditions: `DiffLog.LastMatchIsReplay` gives them for logs whose entries decide alike on the row
  as sent and as replayed, and `DiffLog.ReplayNeedsIndependence` shows an entry tested on a stale row.
- Assigning a number or boolean in an UPDATE logs NULL (`DiffLog.LoggedValueIsEvaluatedValue`).
- Text is decoded byte by byte as characters and encoded as UTF-8, so a row survives re-encoding if
  and only if it is ASCII (`Rows.ReencodingRestoresAscii`), and a column name occurring twice
  truncates the rewritten row (`Rows.FieldCountKept`).
- A row that starts with an empty string and has seven bytes or more is taken for an OK packet and
  ends the response or panics (`ClientView.MisreadRowEndsResponse`); a row of the empty string and
  'abcdef' is one (`Counterexamples.MisreadRow`).
- OK and ERR packets that close a result set are not renumbered, so after dropped rows the client
  sees a gap unless their number is a multiple of 256 (`Coherence.SequenceCoherence`, with an
  instance in `Counterexamples.GapBeforeError`).
- A COM_FIELD_LIST terminator announcing more results is re-fed for ever under DEPRECATE_EOF
  (`Refeeding.RefeedingTerminates`).
- The response to a COM_STMT_PREPARE in the protocol's layout gets through if and only if the statement
  has a parameter and the client has DEPRECATE_EOF (`Prepares.PrepareByProtocol`). Without parameters
  it never ends (`Prepares.NoParamsNeverEnds`), the EOF packets sent without DEPRECATE_EOF panic or
  are left over (`Prepares.EofAfterParams`), and an ERR panics (`Prepares.PrepareErrorPanics`).
- A suffix saved when the turn changes is taken for the other side's bytes: a read conserves the bytes
  of both sides if and only if it leaves none (`Conservation.ServerStepConserves`,
  `Conservation.ClientStepConserves`).
- A client that sends its handshake response and an OK of its own in one read is let into the command
  phase before the server has spoken (`Counterexamples.ForgedOk`).
- The EOF packet that ends a COM_FIELD_LIST response without DEPRECATE_EOF leaves the proxy waiting
  (`FieldLists.FieldListNeverEnds`).
- An ERR in answer to COM_STMT_EXECUTE does not end the response (`Executes.ExecuteErrorNeverEnds`), and
  one in answer to the handshake response without a question leaves the proxy waiting
  (`Logins.OtherAnswers`).
- A condition of an unsupported kind, or a bare column, makes a logged UPDATE apply to no row and a
  query drop none (`Verdicts.UnsupportedDecidesNothing`, `Verdicts.TextDecidesNothing`).
- The length of the connection attributes is kept in eight bits. What is recovered is exactly the
  prefix of pairs given in `Handshakes.AttributesRoundTrip`; `Handshakes.AttributesRecovered` says
  when that is all of them, `Handshakes.AttributesCutOff` when it is none.
- An EOF packet in the row state ends the response if and only if it has seven bytes and announces
  no further result set (`ResponseRuns.EofEndsOrPanics`). A client without DEPRECATE_EOF, whose
  server closes with the five-byte EOF packet of the protocol, gets a panic at the end of every
  result set (`ResponseRuns.EofTerminatedExactness`).
- The repository's README and a comment in `send_command_to_server` say that commands other than
  SELECT are kept from the server when replay is on; the code forwards an UPDATE, because the
  branch so commented belongs to queries that are not a plain SELECT. The model follows the code.

## Model

| member | source | states |
|---|---|---|
| Conservation.RunConservesBytes | src/connection_handler.rs:83-177 | Byte conservation over whole runs: while no queried table is logged, no write is intercepted and turns end on packet boundaries, after any reads from either side the bytes written to each side, followed by what is saved of the other's, are the bytes read from the other, in order |
| ClientView.ClientSeesSurvivors | src/state_handler.rs:23-50 | End to end: for a text query over any number of columns and rows, with the EOF packet after the definitions or without, however the server's bytes are split into reads, the proxy ends in the command phase with no byte left over, and what it wrote parses to the head of the answer, the order-preserving filter and override of the rows, and the terminator, consecutively numbered, every header giving its body's size |
| Sessions.Session | src/connection_handler.rs:83-177 | Whole sessions over the exchange: from the client's turn in the command phase, any number of queries answered by a table, statements answered by OK or ERR, and intercepted writes, each cut into reads in any way, are exchanged; the client is sent each table as it is to see it under the log of that moment, the server's own OK or ERR, or the proxy's; the server gets exactly the queries not intercepted; the client's turn comes again |
| Sessions.WritesAreRead | src/connection_handler.rs:380-440 | Along any session, until the next UPDATE of its table, an intercepted UPDATE shows in the tables the client is sent: its assignments in every row whose values at the server satisfy its condition, the earlier log's in every other |
| Logins.LoginThenSession | src/connection_handler.rs:83-177 | From a new connection: any dialogue of packets the proxy consumes up to the command phase, by whatever authentication and with or without TLS, then any session, each packet cut into reads in any way, are exchanged; login packets pass unchanged to the other side, and the session goes as sessions do |
| Logins.PlainLogin | src/mysql/accumulator/handshake_response.rs:31-180 | Greeting, handshake response and OK in the protocol's layout are such a dialogue and store the client's capability word |
| Logins.TlsLogin | src/connection_handler.rs:317-336 | So are greeting, SSL request, and after the switch handshake response and OK; the connection is then encrypted |
| Logins.LoginDialogue | src/mysql/accumulator/auth_init.rs:13-32 | A whole login in the protocol's layout: greeting, response, and whatever the server asks for (nothing, AuthMoreData 3, AuthMoreData 4 with the client's password, an auth switch with the client's response); each packet reaches the other side, and the login ends in the command phase on the server's OK and in a final failure on its ERR |
| Logins.Authentication | src/mysql/accumulator/auth_init.rs:13-32 | The part of it after the handshake response, from any connection |
| Logins.QuestionOpens | src/mysql/accumulator/auth_init.rs:13-32 | A cached password leaves the turn with the server, a full authentication or an auth switch hands it to the client |
| Logins.SwitchExactness | src/mysql/accumulator/auth_switch_request.rs:15-41 | An auth switch request is taken if and only if its plugin name and its challenge are UTF-8 |
| Logins.OtherAnswers | src/mysql/accumulator/auth_init.rs:13-32 | An ERR and any other packet at that point leaves the proxy waiting; a short OK and other AuthMoreData panic |
| Sessions.QueryReads | src/connection_handler.rs:132-175 | However a query is cut into reads, the client loop ends on its last byte, having forwarded or answered it and logged it if interception is on |
| Sessions.ResponseReads | src/connection_handler.rs:94-130 | However a response is cut into reads, the server loop ends on its last byte with what a single read would write |
| Sessions.LogAlongSession | src/materialization/mod.rs:32-91 | A session appends to each table's log the entries of its parsed statements, in order, and nothing else |
| ClientView.TableHasAnswer | src/mysql/accumulator/result_set.rs:309-344 | The answers the end-to-end statement speaks of exist, for clients with and without DEPRECATE_EOF, for every table with distinct ASCII column names and canonical rows that fit their packets |
| ClientView.RowsDelivered | src/mysql/accumulator/result_set.rs:115-177 | The bodies emitted for any sequence of rows are the encoded survivors: each row overridden by its last matching entry and dropped exactly if the query's condition is then false |
| ClientView.AnswerableIsRewritable | src/mysql/accumulator/result_set.rs:115-171 | Whatever the conditions, no row makes the rewriter panic if and only if on each row the needs of the logged conditions are met by the row as sent and those of the query's condition by the row as overridden |
| ClientView.MissingColumnPanics | src/mysql/accumulator/result_set.rs:153-171 | A query whose condition is one comparison or null test of columns and literals gets through a logged table's row if and only if the result has every column the condition mentions |
| ClientView.MentionedColumnsSuffice | src/mysql/accumulator/result_set.rs:115-171 | Conditions of AND, OR, comparisons, null tests and literals other than placeholders, with no text right of a connective, that mention only columns of the result never make the rewriter panic |
| ClientView.MisreadRowEndsResponse | src/mysql/packet.rs:82-101 | A row beginning with an empty string in a body of at least seven bytes ends its response if it decodes as an OK packet and panics otherwise; any other row keeps the response pending, or panics exactly if it cannot be rewritten |
| Counterexamples.MisreadRow | src/mysql/packet.rs:82-101 | The row of the empty string and 'abcdef' ends the result set it stands in |
| Counterexamples.GapBeforeError | src/mysql/accumulator/result_set.rs:50-68 | A result set of one dropped row, closed by ERR: packets numbered 1 to 4 come in and three go out that are not consecutive |
| Counterexamples.TrueIsNeverEqual | src/materialization/evaluator.rs:164-176 | A comparison of a column with TRUE drops every row, the ones SQL selects by it among them |
| Counterexamples.SumPanics | src/materialization/evaluator.rs:32-44 | A sum in a condition panics on every row |
| EndToEnd.AnySplit | src/state_handler.rs:90-155 | Any way of cutting the bytes of a pending response into reads leaves the connection where one single read would and writes the same bytes |
| Interceptions.UpdateIsSeen | src/connection_handler.rs:380-440 | An intercepted UPDATE is acknowledged and returns the connection to the command phase; under the log it leaves, rows of its table satisfying its condition as sent show its assignments instead of an earlier match's, other rows are overridden as before, and other tables' logs are untouched |
| Conservation.TransparentFromStart | src/connection_handler.rs:83-177 | From a new connection with nothing logged and no interception, each side has been sent a prefix of what the other has sent, short only of the suffix still saved |
| Conservation.ServerStepConserves | src/state_handler.rs:23-50 | A server read without a log conserves the bytes of both sides if and only if nothing is saved where the turn changes |
| Conservation.ClientStepConserves | src/connection_handler.rs:132-175 | So does a client read the proxy does not answer itself |
| Delivery.BytesAreConserved | src/state_handler.rs:23-50 | Within one turn: after any consecutive reads of one side, in every phase, written bytes followed by the saved suffix are those received, while no queried table is logged |
| Delivery.EmptyLogIsTransparent | src/state_handler.rs:23-50 | Within one turn an empty log suffices |
| ResponseRuns.ResponseExactness | src/mysql/accumulator/result_set.rs:35-71 | For classified packets and clients with or without DEPRECATE_EOF, the machine started fresh returns to the command phase on the last packet and on none before if and only if they form a lone OK or ERR, column definitions cut short by one, or a count, that many definitions, the EOF packet due without DEPRECATE_EOF, rows, and a 7-byte terminator, OK or ERR |
| ResponseRuns.EofTerminatedExactness | src/mysql/accumulator/result_set.rs:345-383 | A full result set closed by an EOF packet is accepted if and only if that is a 7-byte terminator without further results, and panics otherwise: always on the 5-byte EOF packet |
| ResponseRuns.EofEndsOrPanics | src/mysql/packet.rs:325-364 | In the row state an EOF packet is consumed if and only if it has 7 bytes and announces no further result set; any other is a panic |
| ResponseRuns.HeadRun | src/mysql/accumulator/result_set.rs:309-344 | When rows begin exactly the announced columns have been collected, in order, the EOF packet due without DEPRECATE_EOF is past, and all head packets were passed on unchanged |
| ResponseRuns.RowsRun | src/mysql/accumulator/result_set.rs:345-383 | Any number of rows leaves the response pending with its columns unchanged |
| ResponseRuns.DefinitionRoundTrip | src/mysql/accumulator/result_set.rs:430-504 | A column definition laid out as the protocol says is known by its original table and column name, and is read if and only if its catalog is "def", its fixed fields are there and its type is a known one |
| Coherence.SequenceCoherence | src/mysql/accumulator/result_set.rs:345-383 | As many packets are emitted as received less the dropped rows; they are numbered consecutively modulo 256 if and only if the result set ends with a terminator or the number of dropped rows is a multiple of 256 |
| Coherence.RowsCoherent | src/mysql/accumulator/result_set.rs:162-176 | For any rows and any subset of them dropped, the emitted rows are consecutive and the counter grows by the number dropped |
| Refeeding.RefeedingTerminates | src/mysql/accumulator/result_set.rs:274-393 | One packet stops being fed back, after at most five rounds, if and only if it is not a COM_FIELD_LIST terminator announcing more results under DEPRECATE_EOF |
| Refeeding.RefeedingDescends | src/mysql/accumulator/result_set.rs:274-393 | Every other re-feed lowers the command-dependent rank that bounds the accumulator's recursion |
| Refeeding.OverflowIsTheLoop | src/mysql/accumulator/result_set.rs:345-383 | The stack overflow is reported on that loop and nowhere else |
| Prepares.PrepareExactness | src/mysql/accumulator/result_set.rs:193-272 | For any packets and capabilities, the response to a prepare ends on the last packet and on none before if and only if it is a lone OK without definitions, as agreed, or an OK announcing a parameter followed by exactly the definitions of all parameters and columns |
| Prepares.PrepareByProtocol | src/mysql/accumulator/result_set.rs:193-272 | In the protocol's layout, EOF packets included where due, that is the case if and only if the statement has a parameter and the client has DEPRECATE_EOF |
| Prepares.EofAfterParams | src/mysql/accumulator/result_set.rs:245-263 | The EOF packet after the parameters panics if columns follow and is left over after the response otherwise |
| Prepares.NoParamsNeverEnds | src/mysql/accumulator/result_set.rs:237-244 | Without parameters the response is still pending after the OK packet and any further packet panics |
| Prepares.PrepareErrorPanics | src/mysql/accumulator/result_set.rs:201-202 | An ERR packet in answer to a prepare panics |
| Executes.ExecuteExactness | src/mysql/accumulator/result_set.rs:50-68 | The response to an execution ends on its first EOF packet or OK packet numbered 1 and on none before, if its OK and ERR packets decode; its packets pass unchanged |
| Executes.ExecuteErrorNeverEnds | src/mysql/accumulator/result_set.rs:179-191 | A lone ERR leaves the proxy waiting |
| Executes.ResetExactness | src/mysql/accumulator/result_set.rs:49 | Any one packet ends the response to COM_STMT_RESET |
| FieldLists.FieldListExactness | src/mysql/accumulator/result_set.rs:283-383 | With DEPRECATE_EOF the response to a COM_FIELD_LIST is any number of column definitions and a 7-byte terminator, OK or ERR, and ends on that last packet |
| FieldLists.FieldListNeverEnds | src/mysql/accumulator/result_set.rs:320-344 | Without it the EOF packet that ends the list leaves the proxy waiting |
| FieldLists.OnePacketExactness | src/mysql/accumulator/result_set.rs:282-300 | Every command not treated apart is answered by one packet, whatever it is, provided an OK or ERR decodes |
| ResponseAccumulators.ResponseAccumulator.Consume | src/mysql/accumulator/result_set.rs:35-71 | The mutable, mutually recursive accumulator terminates and leaves the packet, phase and fields that the per-state description gives |
| ResponseAccumulators.ResponseAccumulator.ProcessResultSet | src/mysql/accumulator/result_set.rs:274-393 | The text protocol's dispatch, re-feeding included, does what the per-state description says |
| ResponseAccumulators.ResponseAccumulator.HydrateRow | src/mysql/accumulator/result_set.rs:345-383 | The row state: rewriting, renumbering in 8-bit arithmetic, and completion or restart by a terminator |
| ResponseAccumulators.ResponseAccumulator.ProcessStmtPrepare | src/mysql/accumulator/result_set.rs:193-272 | The prepared-statement dispatch does what the per-state description says |
| ResponseAccumulators.ResponseAccumulator.ParseRow | src/mysql/accumulator/result_set.rs:86-113 | The scanning loop builds the row map of the body's fields and panics on a bad field or one too many |
| ResponseAccumulators.ResponseAccumulator.OverrideRow | src/mysql/accumulator/result_set.rs:115-177 | Body, header size, skip mark and dropped count after the rewrite are those of the rewritten row; the sequence number is left to the caller |
| ResponseAccumulators.ResponseAccumulator.RebuildBody | src/mysql/accumulator/result_set.rs:135-151 | The loop replaces the assigned columns among as many leading ones as the row map has entries and encodes the result |
| ResponseAccumulators.ResponseAccumulator.FindOverride | src/mysql/accumulator/result_set.rs:125-133 | The scan yields the assignments of the last entry matching the original row, or its first panic |
| Rows.PointwiseRewrite | src/mysql/accumulator/result_set.rs:115-177 | Under distinct names exactly the columns assigned by the last entry matching the row as sent are replaced, the row is dropped if and only if the query's condition is false on the result, and with no match an ASCII row keeps its body |
| Rows.RowRoundTrip | src/mysql/accumulator/result_set.rs:86-151 | An encoded row is parsed back to the same fields when they are ASCII, widened ones otherwise, and consumed whole |
| Rows.ReencodingRestoresAscii | src/mysql/types.rs:129-151 | Decoding then encoding restores a canonical row body if and only if all its text is ASCII |
| Rows.UnmatchedRowIsKept | src/mysql/accumulator/result_set.rs:115-177 | A row whose lengths are in shortest form and whose text is ASCII leaves byte for byte as it came when no entry matches it |
| Rows.FieldCountKept | src/mysql/accumulator/result_set.rs:86-151 | The row map has one entry per field, so that the rewritten row has as many fields, if and only if the original column names are distinct |
| Rows.RewriteIsSafe | src/mysql/accumulator/result_set.rs:115-177 | Whatever the conditions, the rewriter gets through a row if and only if each field has a column, the row meets all needs of the logged conditions, and the rewritten row those of the query's condition |
| Rows.RowClassification | src/mysql/packet.rs:82-101 | A canonical row is never taken for EOF or ERR, and for OK exactly when its first column is the empty string and its body has at least seven bytes |
| SqlLogic.EvaluatorRefinesSql | src/materialization/evaluator.rs:23-224 | On safely compared conditions (AND, OR, nesting and null tests over comparisons of columns and literals, TRUE read as 1) the short-circuiting evaluator answers true exactly when sections 8.2, 8.6 and 8.12 of SQL-92 yield true |
| SqlLogic.AgreementIsExact | src/materialization/evaluator.rs:156-224 | Safe comparison is exactly agreement with SQL on the condition and every condition inside it |
| SqlLogic.LossIsExact | src/materialization/evaluator.rs:156-224 | Every row SQL selects by such a condition, or by one inside it, is accepted by the same condition if and only if no comparison with a TRUE or FALSE other than `<>` holds in SQL, equalities of two of them apart, and none of them is tested for not being NULL |
| SqlLogic.NoSelectedRowIsLost | src/materialization/evaluator.rs:23-224 | Under that condition no row SQL selects is lost, whether NULLs are compared or not |
| Evaluator.PanicsIffUnmet | src/materialization/evaluator.rs:23-224 | Any expression on any row: the evaluator panics if and only if what its short-circuit evaluation comes to need is not there: a column looked up, a handled operator or literal, a truth value right of a connective |
| Evaluator.ErrIffUnsupported | src/materialization/evaluator.rs:23-97 | Evaluation short of a panic ends in an error if and only if it reaches an expression of an unsupported kind |
| Evaluator.FirstDifferenceDecides | src/materialization/evaluator.rs:188-217 | After a common prefix, `<`, `<=`, `>` and `>=` are decided by the first byte that differs or the end of the shorter text |
| SqlLogic.OrderedIsPrecedes | src/materialization/evaluator.rs:188-217 | All four comparisons are those of a reference order defined by the first differing index |
| Evaluator.TruthValuesCompared | src/materialization/evaluator.rs:85-92 | Truth values as operands are equal or not, in no order, and neither NULL nor not NULL |
| Evaluator.MixedOperands | src/materialization/evaluator.rs:165-217 | A truth value and a text differ and are in no order |
| Evaluator.TextOperands | src/materialization/evaluator.rs:110-147 | A text left of a connective is passed over; right of it, it panics where it is reached |
| Verdicts.MatchesMeansSql | src/mysql/accumulator/result_set.rs:125-133 | On safely compared conditions a logged UPDATE applies exactly to the rows SQL selects by its condition, and one without a condition to all |
| Verdicts.DroppedMeansSql | src/mysql/accumulator/result_set.rs:153-171 | On safely compared conditions a query drops exactly the rows SQL does not select |
| Verdicts.UnsupportedDecidesNothing | src/mysql/accumulator/result_set.rs:128-166 | A condition that reaches LIKE, IN, NOT or another unsupported kind matches no row and drops none |
| Verdicts.TextDecidesNothing | src/mysql/accumulator/result_set.rs:128-166 | Nor does a bare column or text as the whole condition |
| Verdicts.LastSelectionCounts | src/mysql/accumulator/result_set.rs:153-158 | Rows are tested by the condition of the command's last statement, if that is a plain SELECT, and by none otherwise |
| Evaluator.EvaluationFrame | src/materialization/evaluator.rs:23-224 | The outcome, panics included, depends only on the columns the expression mentions |
| DiffLog.LastMatchIsReplay | src/mysql/accumulator/result_set.rs:125-145 | For entries that decide alike on the row as sent and as replayed so far, one override by the last match equals replaying every UPDATE in order if and only if each column assigned only by earlier matches gets the value it already has |
| DiffLog.IndependentIsTestedAlike | src/mysql/accumulator/result_set.rs:125-133 | Entries whose conditions mention no column an earlier entry assigns decide alike on every row |
| DiffLog.ReplayIsMerge | src/mysql/accumulator/result_set.rs:125-145 | Replaying such entries in order is applying all assignments of those matching the row as sent at once, later ones winning |
| DiffLog.ReplayNeedsIndependence | src/mysql/accumulator/result_set.rs:125-133 | Without independence it fails: a log on which the override is tested against a stale row |
| DiffLog.LogGrows | src/materialization/mod.rs:32-70 | A command's statements append, in order and to their own tables only, the entries of the UPDATEs before the first one the log cannot represent |
| DiffLog.StateDiffLog.GetDiff | src/materialization/mod.rs:32-70 | The loop over the statements leaves the log after that command |
| DiffLog.StateDiffLog.UpdateDiffLog | src/materialization/mod.rs:72-91 | One entry is appended to the table's log, created if missing; the other tables are unchanged |
| DiffLog.ProcessAssignments | src/materialization/mod.rs:93-127 | The loop collects the assignments, or none if one is not a literal for a named column |
| DiffLog.LastAssignmentWins | src/materialization/mod.rs:96-126 | Exactly the assigned columns are in the result, each with the text of its last literal |
| DiffLog.LoggedValueIsEvaluatedValue | src/materialization/mod.rs:118-119 | The logged value is what the evaluator makes of the literal exactly for string literals and NULL; a number or boolean is logged as NULL |
| DiffLog.RefusedAssignments | src/materialization/mod.rs:98-123 | An UPDATE is refused if and only if one of its assignments has a tuple for a target or anything but a literal for a value |
| Framing.ChunkingIndependence | src/state_handler.rs:90-155 | However an in-order stream is split into reads, headers included, the packets cut out are those of a one-shot parse and the saved bytes are its unparsed suffix |
| Framing.ReadThenSerialize | src/mysql/packet.rs:50-71 | The frames cut out, written back, followed by the unparsed suffix are the bytes read |
| Framing.SerializeThenRead | src/state_handler.rs:119-166 | Consecutively numbered frames of fitting sizes are parsed back from their bytes, leaving an incomplete tail alone |
| Framing.ReadIsComplete | src/state_handler.rs:90-155 | What is cut out is well formed and in order and no complete frame is left behind |
| Framing.FrameRoundTrip | src/mysql/packet.rs:50-79 | A frame comes back from its bytes if and only if its header gives its body's size and that is below 2^24 |
| Framing.GenerateOutgoingFrame | src/state_handler.rs:157-166 | The loop writes the packets' headers and bodies in order |
| Packets.HeaderFromToBytes | src/mysql/packet.rs:29-47 | A header survives its four bytes if and only if its size is below 2^24 |
| Packets.HeaderToFromBytes | src/mysql/packet.rs:29-47 | Any four bytes survive being read as a header |
| Packets.OkRoundTrip | src/mysql/packet.rs:207-315 | Under PROTOCOL_41 the OK packet with header 0x00 or 0xFE and any 64-bit counts and 16-bit status and warnings is read back to the same data, and with 0x00 classified OK in every phase |
| Packets.OkNeedsProtocol41 | src/mysql/packet.rs:288-315 | The OK packet of an intercepted write is built and classified OK if and only if PROTOCOL_41 is set |
| Packets.OkRoundTripBefore41 | src/mysql/packet.rs:232-315 | Without PROTOCOL_41 the status is written and read back exactly under TRANSACTIONS, and nothing after the counters otherwise |
| Packets.OtherHeadersPanic | src/mysql/packet.rs:213-218 | An OK payload that begins neither with 0x00 nor 0xFE panics |
| Packets.ErrorsAreRead | src/mysql/packet.rs:119-169 | An ERR packet with any code and message is classified ERR and read if and only if its state and message are UTF-8; otherwise it panics |
| Packets.ShortErrorsPanic | src/mysql/packet.rs:119-145 | One of fewer than nine bytes panics |
| Sessions.ErrorCycle | src/mysql/accumulator/result_set.rs:52-55 | A statement answered by an ERR packet with any code, state and message is a proper cycle of a session, and the client is sent that packet |
| Types.LenEncRoundTrip | src/mysql/types.rs:59-127 | A length-encoded 64-bit integer decodes to itself and is consumed exactly, whatever follows |
| Types.EncodingIsShortest | src/mysql/types.rs:102-127 | The encoding written is no longer than any other that decodes to the same number, and the only one of its length |
| Types.LenEncValue | src/mysql/types.rs:59-100 | Two, three or eight bytes follow 0xFC, 0xFD and 0xFE, the low byte first; any other first byte is its own value |
| Types.TextRoundTrip | src/mysql/types.rs:129-151 | An encoded text decodes to its byte-by-byte widening and is consumed exactly |
| Types.StringFromBytes | src/mysql/types.rs:130-142 | The pushing loop yields the widening of the announced bytes, or panics if they are not there |
| Types.WidenIsUtf8 | src/mysql/types.rs:132-136 | The widening is the UTF-8 of the bytes taken as code points |
| Bytes.Utf8Exactness | src/mysql/types.rs:153-198 | Text is accepted if and only if it is the UTF-8 (RFC 3629) of some Unicode scalar values |
| Bytes.BitIsSet | src/mysql/accumulator/mod.rs:16-33 | A capability is set exactly if the flags are a multiple of twice its mask, the mask, and less than the mask |
| Types.NulRoundTrip | src/mysql/types.rs:153-173 | Bytes without NUL come back from their terminated form if they are UTF-8, and panic otherwise |
| Handshakes.HandshakeResponseRoundTrip | src/mysql/accumulator/handshake_response.rs:31-180 | A response laid out as section "Protocol::HandshakeResponse41" describes, with any of its optional parts and attributes of any length, leads to authentication with exactly its capability word and the attributes the 8-bit length covers |
| Handshakes.ReplyChoice | src/mysql/accumulator/handshake_response.rs:31-73 | The next phase is the TLS exchange exactly for an unencrypted client asking for SSL, then on a body of only the fixed part; PROTOCOL_41 is always set |
| Handshakes.FixedPartExactness | src/mysql/accumulator/handshake_response.rs:32-59 | The fixed part is accepted if and only if it is a capability word with PROTOCOL_41, five bytes, and 23 zero bytes |
| Handshakes.AuthDataExactness | src/mysql/accumulator/handshake_response.rs:90-104 | Authentication data with a one-byte length is read if and only if it is all there and UTF-8 |
| Handshakes.CompressionPanics | src/mysql/accumulator/handshake_response.rs:149-158 | A client past the SSL request that asks for zstd panics the proxy |
| Handshakes.AttributesRoundTrip | src/mysql/accumulator/handshake_response.rs:128-147 | Of a block of ASCII attributes of any length, exactly the leading pairs that begin before the length modulo 256 is consumed are recovered |
| Handshakes.AttributesRecovered | src/mysql/accumulator/handshake_response.rs:128-147 | Attributes with distinct keys are all recovered if and only if there are none or all but the last take fewer bytes than the block's length modulo 256 |
| Handshakes.AttributesCutOff | src/mysql/accumulator/handshake_response.rs:128-147 | A block is not read at all if and only if it is empty or its length is a multiple of 256 |
| Handshakes.ConsumeHandshakeResponse | src/mysql/accumulator/handshake_response.rs:31-180 | The body is read as its description says, panics included |
| Handshakes.ConsumeAttributes | src/mysql/accumulator/handshake_response.rs:128-147 | The loop at a moving offset collects the announced attributes |
| Handshakes.QueryRoundTrip | src/mysql/accumulator/command.rs:33-90 | A COM_QUERY without query attributes is stored with its whole text, parsed, and waits for a response |
| Handshakes.PlainQueries | src/mysql/accumulator/command.rs:97-154 | A COM_QUERY without query attributes is stored with its text if that is UTF-8 and panics otherwise |
| Handshakes.AttributedQueries | src/mysql/accumulator/command.rs:106-137 | One with query attributes gets through if and only if it has no parameters, one set of them, and UTF-8 text |
| Handshakes.OtherCommands | src/mysql/accumulator/command.rs:140-154 | Any other command keeps its whole body as text, COM_STMT_EXECUTE none, and waits for a response, COM_STMT_CLOSE excepted; unknown codes and text that is not UTF-8 panic |
| Greetings.GreetingExactness | src/mysql/accumulator/handshake.rs:32-136 | The server's greeting is accepted if and only if it is laid out as section "Protocol::HandshakeV10" describes |
| Greetings.GreetingIsAccepted | src/mysql/accumulator/handshake.rs:32-136 | A server greeting laid out as section "Protocol::HandshakeV10" describes is accepted, and one without PLUGIN_AUTH exactly if it announces no length and carries 13 bytes of data |
| Connections.Connection.ProcessIncomingFrame | src/state_handler.rs:23-50 | One read leaves the connection, and returns the packets, that consuming its frames one by one and dropping the skipped ones gives |
| Connections.Connection.MakePackets | src/state_handler.rs:90-155 | The loop returns the frames of saved suffix and read, classified by the phase at its start, and saves exactly what is left |
| Connections.Connection.Consume | src/state_handler.rs:52-88 | One packet is consumed by the phase's accumulator, with its panics, and the stored data updated; a new command starts a fresh response |
| Exchanges.Exchange | src/connection_handler.rs:83-177 | The two nested loops are one machine reading from whoever has the turn: same bytes to both sides, same final connection, same panic |
| Exchanges.InterceptCommand | src/connection_handler.rs:407-440 | A lone command packet is logged, and answered in place of the server if it is a write |
| Exchanges.WritesBegin | src/connection_handler.rs:362-394 | A query is a write if and only if it begins with insert, update or delete in any mix of cases, and an insert for its id if a space follows |
| Exchanges.LowerCaseAt | src/connection_handler.rs:390 | Lower-casing moves each ASCII capital by 32 and leaves every other byte |
| Exchanges.WriteIsAcknowledged | src/connection_handler.rs:362-378 | The answer is one whole frame numbered after the command, classified OK, reporting one row, and the counter as the id of a text beginning with insert, in any mix of cases, and a space |
| Invariants.EveryRun | src/connection_handler.rs:83-177 | On every run, whatever the peers send: no missing command or handshake response is ever unwrapped, interception included; a pending response has its command and is not complete; the phase never moves back; TLS is switched at most once; the command phase is never left and a failed authentication is final |
| Invariants.InvAtStart | src/connection.rs:46-70 | The invariant holds of a new connection |
| Invariants.ConsumeKeepsInv | src/state_handler.rs:23-88 | Any packet in any phase keeps the invariant, moves forward, and unwraps nothing missing |
| Invariants.InterceptKeepsInv | src/connection_handler.rs:407-440 | So does interception |
| Invariants.OkIsNeeded | src/mysql/accumulator/auth_complete.rs:11-22 | On every run, whatever the peers send, the first step into the command phase is a read completing a packet classified OK |
| Invariants.AccessIsGranted | src/mysql/accumulator/auth_complete.rs:11-22 | With peers that keep their turns it is a read from the server |
| Counterexamples.ForgedOk | src/mysql/accumulator/auth_init.rs:13-32 | A client that sends handshake response and OK in one read is in the command phase without the server |
| Invariants.CommandNeedsOk | src/mysql/accumulator/auth_init.rs:13-32 | No packet but one classified OK, in an authentication phase, leads into the command phase |
| Invariants.TurnsAreKept | src/connection_handler.rs:38-177 | With peers that stop at turn boundaries, every read of every run is from the side the phase waits for |
| Invariants.HandOver | src/connection_handler.rs:38-56 | A packet hands the turn over if and only if it leads into one of the phases the loop breaks on |
| Replays.SnapshotIsReplayed | src/connection_handler.rs:249-287 | Successive cache reads hand out the entry as it was at the first of them, whatever the cache holds later; nothing is kept exactly from the read on that reaches its end |
| Replays.ReplayReader.Read | src/connection_handler.rs:258-276 | One read copies a prefix of the kept bytes, or of the entry, into the buffer, touches no more of it, and keeps the rest |
| Replays.SendCommandToServer | src/connection_handler.rs:180-216 | With replay on, a command is held back from the server exactly if it is a COM_QUERY that does not parse or holds a query other than a plain SELECT without FROM |
| Replays.LoneStatements | src/connection_handler.rs:180-216 | A lone UPDATE or other statement and a SELECT without FROM go to the server, other queries and unparsable ones do not, every other command does |
| Replays.OneIsEnough | src/connection_handler.rs:198-213 | One statement kept from the server keeps the whole command from it |

## Left out

- Sockets, TLS streams and certificates, threads, logging, delays and environment variables: foreign input and output; reads are arbitrary byte chunks, the TLS switch is its effect on the phase, the switches are parameters of `Exchanges.Config`.
- The SQL parser, base64, JSON and Kafka: library code, and with it the publishing of responses (src/connection_handler.rs:218-247); the parser is a parameter, a cached response is its decoded bytes.
- The time to live, random keys and concurrent sharing of the update log: the log is a sequence in insertion order, as if nothing expired and one connection at a time used it.
- Replays.SendCommandToServer: the replay build's choice is proved on its own; `Exchanges.Exchange` is the build without the replay feature, which has neither the cache reads nor this guard.
- Replays.SnapshotIsReplayed: speaks of a non-empty entry; an empty one is handed out as an empty read, which ends the connection. The waiting loop for an entry that is not in the cache yet has no bound and is not modelled.
- Invariants.TurnsAreKept: one slot saves the unfinished packet of both directions, so peers are taken to stop where a packet hands the turn over.
- ClientView.ClientSeesSurvivors: takes the rows to be canonical and not misread as OK, the column names to be distinct, the terminator to have 7 bytes and the rewritten bodies to fit a header; `ClientView.MisreadRowEndsResponse`, `Rows.FieldCountKept`, `ResponseRuns.EofTerminatedExactness` and `Framing.FrameRoundTrip` show what happens where one of these fails.
- SqlLogic.LossIsExact: conditions as operands of comparisons or null tests, bare columns as conditions, and numeric coercion ('01' = 1) have no reference semantics here; a value is compared with TRUE as with the text 1.
- Conservation.RunConservesBytes: takes turns to end on packet boundaries, as one slot saves the unfinished packet of both directions; the step lemmas show that each turn that does not breaks it.
- Logins.TlsLogin: the tls feature; without it the packet after an SSL request panics.
- Sessions.Session: its commands are COM_QUERY without query attributes that carry parameters, from one connection; rows satisfy the conditions of the line above.
- Handshakes.ReplyChoice: user name, authentication data, database and plugin name are read only as far as their lengths and encodings, because nothing else of them steers the proxy; the same holds for the fields of the server's greeting in `Greetings.CheckGreeting`.
- Numeric fields of error packets and column definitions, and fields that are stored but never read (warning count, statement id, status, rows), are checked only for their bounds and, for the column type, its range.
- DiffLog.LogGrows: table names are taken as the parser gives them, without the quoting their printed form may carry.
- Exchanges.InterceptCommand: lower-casing is that of ASCII letters, which decides the prefixes looked for; the shared insert counter is an input.
- Overflow checks of a debug build: sequence arithmetic wraps as in a release build.
- Query attributes with parameters and zstd compression appear as the panics they are; LOCAL INFILE and compressed packets are not part of this model.
- Binary result sets only by their effect on the phase, which is all the code does with them.
