/** What a client gets for a text query: the server's table with the logged updates applied, less
    the rows that no longer satisfy the query. */
module ClientView {
  import opened Outcomes
  import opened Bytes
  import opened Types
  import opened Packets
  import opened Framing
  import opened DiffLog
  import opened Evaluator
  import opened SqlLogic
  import opened Rows
  import opened Responses
  import opened ResponseAccumulators
  import opened ResponseRuns
  import opened Coherence
  import opened Connections
  import opened Delivery
  import opened EndToEnd

  /** A server's answer: the column count packet, the column definitions with what they decode to,
      the EOF packet after them if one is due, the rows field by field, and the terminator. */
  datatype Answer = Answer(count: seq<byte>, definitions: seq<seq<byte>>, columns: seq<Column>, gap: seq<seq<byte>>,
                           rows: seq<seq<Field>>, terminator: seq<byte>)

  function EncodeRows(rows: seq<seq<Field>>): (bodies: seq<seq<byte>>)
    ensures |bodies| == |rows| && forall i :: 0 <= i < |rows| ==> bodies[i] == EncodeRow(rows[i])
  {
    seq(|rows|, i requires 0 <= i < |rows| => EncodeRow(rows[i]))
  }

  /** Packet bodies of an answer whose table is `rows`. */
  function Bodies(a: Answer, rows: seq<seq<Field>>): seq<seq<byte>> {
    [a.count] + a.definitions + a.gap + EncodeRows(rows) + [a.terminator]
  }

  /** Frames with these bodies, numbered from `first`. */
  function NumberedFrames(bodies: seq<seq<byte>>, first: int): (fs: seq<Frame>)
    ensures |fs| == |bodies|
    ensures forall i :: 0 <= i < |fs| ==> fs[i] == Frame(Header(|bodies[i]|, (first + i) % 256), bodies[i])
  {
    seq(|bodies|, i requires 0 <= i < |bodies| => Frame(Header(|bodies[i]|, (first + i) % 256), bodies[i]))
  }

  predicate Sized(bodies: seq<seq<byte>>) {
    forall i :: 0 <= i < |bodies| ==> 0 < |bodies[i]| < MAX_SIZE
  }

  /** A canonical row: one field per column, and not one the classifier takes for an OK packet. */
  predicate CanonicalRow(fs: seq<Field>, n: nat) {
    |fs| == n && n > 0 && Encodable(fs) && !Misread(fs)
  }

  predicate AllCanonical(rows: seq<seq<Field>>, n: nat) {
    forall i :: 0 <= i < |rows| ==> |rows[i]| == n && CanonicalRow(rows[i], n)
  }

  /** One definition per column, and bodies that fit their headers. */
  predicate Framed(a: Answer) {
    |a.definitions| == |a.columns| && Sized(Bodies(a, a.rows))
  }

  /** At most one body, and that of an EOF packet. */
  predicate IsGap(gap: seq<seq<byte>>) {
    |gap| <= 1 && forall i :: 0 <= i < |gap| ==> 0 < |gap[i]| <= 9 && gap[i][0] == 0xFE
  }

  predicate WellBehaved(a: Answer) {
    && a.columns != [] && DistinctNames(a.columns) && Framed(a)
    && (forall i :: 0 <= i < |a.columns| ==> ColumnFromBody(a.definitions[i]) == Done(a.columns[i]))
    && a.count != [] && Counts(Pack(a.count, 0), |a.columns|)
    && AllCanonical(a.rows, |a.columns|)
    && IsGap(a.gap)
    && |a.terminator| == 7 && a.terminator[0] == 0xFE && !HasBit(FromLittleEndian(a.terminator[3..5]), MORE_RESULTS)
  }

  /** A packet with this body, as it is parsed while a response is pending. */
  function Pack(body: seq<byte>, seqNo: byte): Packet
    requires body != []
  {
    Typed(Frame(Header(|body|, seqNo), body), PendingResponse)
  }

  /** The log of the table the first column comes from. */
  function TableLog(columns: seq<Column>, diff: DiffMap): Option<Log>
    requires columns != []
  {
    if columns[0].orgTable in diff then Some(diff[columns[0].orgTable]) else None
  }

  /** What becomes of one row: unchanged without a log; otherwise overridden by the last matching
      entry, and dropped if the query's condition is then false. */
  function Survivor(columns: seq<Column>, log: Option<Log>, selection: Option<Expr>, fs: seq<Field>): seq<seq<Field>>
    requires |fs| <= |columns|
  {
    if log.None? then [fs] else
    var row := RowOf(columns, WidenAll(fs));
    var match' := LastMatch(row, log.value);
    if match'.Panic? || Dropped(OverriddenBy(row, match'.value), selection) == Done(true) then []
    else [Replaced(columns, WidenAll(fs), match'.value)]
  }

  function Survivors(columns: seq<Column>, log: Option<Log>, selection: Option<Expr>,
      rows: seq<seq<Field>>): seq<seq<Field>>
    requires forall i :: 0 <= i < |rows| ==> |rows[i]| <= |columns|
  {
    if rows == [] then [] else
    Survivor(columns, log, selection, rows[0]) + Survivors(columns, log, selection, rows[1..])
  }

  function Names(columns: seq<Column>): set<Text> {
    set i | 0 <= i < |columns| :: columns[i].orgName
  }

  /** The rewriter does not panic on the row. */
  predicate Rewritable(columns: seq<Column>, log: Option<Log>, selection: Option<Expr>, fs: seq<Field>) {
    log.Some? ==> Rewrite(columns, EncodeRow(fs), log.value, selection).Done?
  }

  predicate AllRewritable(columns: seq<Column>, log: Option<Log>, selection: Option<Expr>, rows: seq<seq<Field>>) {
    forall i :: 0 <= i < |rows| ==> Rewritable(columns, log, selection, rows[i])
  }

  /** On this row all needs are met: those of the logged selections by the row as sent, those of the
      query's condition by the row as overridden. */
  predicate Answerable(columns: seq<Column>, log: Option<Log>, selection: Option<Expr>, fs: seq<Field>)
    requires |fs| <= |columns|
  {
    log.Some? ==>
      var row := RowOf(columns, WidenAll(fs));
      && AllDecided(row, log.value)
      && LastMatch(row, log.value).Done?
      && Decided(OverriddenBy(row, LastMatch(row, log.value).value), selection)
  }

  /** A query the text path supports, answered well. */
  predicate Answers(a: Answer, c: Context) {
    && TextQuery(c) && WellBehaved(a) && (Deprecating(c) <==> a.gap == [])
    && AllRewritable(a.columns, TableLog(a.columns, c.diff), SelectionOf(c.command.value), a.rows)
  }

  /** The table the client is to see. */
  function ClientTable(a: Answer, c: Context): seq<seq<Field>>
    requires Answers(a, c)
  {
    assert forall i :: 0 <= i < |a.rows| ==> |a.rows[i]| <= |a.columns|;
    Survivors(a.columns, TableLog(a.columns, c.diff), SelectionOf(c.command.value), a.rows)
  }

  function BodiesOf(ps: seq<Packet>): (bodies: seq<seq<byte>>)
    ensures |bodies| == |ps| && forall i :: 0 <= i < |ps| ==> bodies[i] == ps[i].body
  {
    seq(|ps|, i requires 0 <= i < |ps| => ps[i].body)
  }

  lemma RowIsRewritable(columns: seq<Column>, log: Option<Log>, selection: Option<Expr>, fs: seq<Field>)
    requires DistinctNames(columns) && |fs| == |columns| && Encodable(fs)
    ensures Rewritable(columns, log, selection, fs) <==> Answerable(columns, log, selection, fs)
  {
    hide RowOf, Rewrite, EncodeRow, Needs, AllMet, LastMatch, AllDecided, Decided;
    if log.Some? {
      RewriteIsSafe(columns, fs, log.value, selection);
      var row := RowOf(columns, WidenAll(fs));
      LastMatchDone(row, log.value);
      if LastMatch(row, log.value).Done? {
        OverrideIsComplete(columns, WidenAll(fs), LastMatch(row, log.value).value);
      }
    }
  }

  /** Rows are rewritable, none of them making the rewriter panic, if and only if on each of them all
      needs of the conditions evaluated are met. */
  lemma AnswerableIsRewritable(columns: seq<Column>, log: Option<Log>, selection: Option<Expr>, rows: seq<seq<Field>>)
    requires DistinctNames(columns) && AllCanonical(rows, |columns|)
    ensures AllRewritable(columns, log, selection, rows) <==>
      forall i :: 0 <= i < |rows| ==> Answerable(columns, log, selection, rows[i])
  {
    hide Rewritable, Answerable;
    forall i | 0 <= i < |rows|
      ensures Rewritable(columns, log, selection, rows[i]) <==> Answerable(columns, log, selection, rows[i])
    {
      assert CanonicalRow(rows[i], |columns|);
      RowIsRewritable(columns, log, selection, rows[i]);
    }
  }

  lemma RowHasNames(columns: seq<Column>, fs: seq<Field>)
    requires DistinctNames(columns) && |fs| == |columns|
    ensures RowOf(columns, WidenAll(fs)).Keys == Names(columns)
  {
    hide RowOf;
    RowOfDistinct(columns, WidenAll(fs));
  }

  /** Handled by the evaluator, on columns of the answer. */
  predicate Covered(selection: Option<Expr>, columns: seq<Column>) {
    selection.Some? ==> Handled(selection.value) && Mentions(selection.value) <= Names(columns)
  }

  lemma CoveredIsDecided(row: Row, selection: Option<Expr>, columns: seq<Column>)
    requires Covered(selection, columns) && row.Keys == Names(columns)
    ensures Decided(row, selection)
  {
    hide Needs;
    if selection.Some? {
      HandledNeeds(row, selection.value);
    }
  }

  /** Conditions of handled operators and literals that mention only columns of the answer never make
      the rewriter panic. */
  lemma MentionedColumnsSuffice(columns: seq<Column>, log: Log, selection: Option<Expr>, fs: seq<Field>)
    requires DistinctNames(columns) && |fs| == |columns| && Encodable(fs)
    requires Covered(selection, columns) && forall i :: 0 <= i < |log| ==> Covered(log[i].selection, columns)
    ensures Rewritable(columns, Some(log), selection, fs)
  {
    hide Rewritable, Decided, Covered, LastMatch, RowOf, Names;
    var row := RowOf(columns, WidenAll(fs));
    RowHasNames(columns, fs);
    forall i | 0 <= i < |log| ensures Decided(row, log[i].selection) {
      CoveredIsDecided(row, log[i].selection, columns);
    }
    LastMatchDone(row, log);
    CoveredIsDecided(OverriddenBy(row, LastMatch(row, log).value), selection, columns);
    RowIsRewritable(columns, Some(log), selection, fs);
  }

  /** A query whose condition is simple is answered on a logged table if and only if the answer has
      every column the condition mentions; one that selects other columns only makes every row panic. */
  lemma MissingColumnPanics(columns: seq<Column>, log: Log, condition: Expr, fs: seq<Field>)
    requires DistinctNames(columns) && |fs| == |columns| && Encodable(fs)
    requires Simple(condition) && AllDecided(RowOf(columns, WidenAll(fs)), log)
    ensures Rewritable(columns, Some(log), Some(condition), fs) <==> Mentions(condition) <= Names(columns)
  {
    hide Rewritable, Needs, AllMet, LastMatch, AllDecided, RowOf, Simple, Names, DistinctNames, Matches, WidenAll;
    var row := RowOf(columns, WidenAll(fs));
    RowHasNames(columns, fs);
    RowIsRewritable(columns, Some(log), Some(condition), fs);
    LastMatchDone(row, log);
    SimpleNeedsAll(OverriddenBy(row, LastMatch(row, log).value), condition);
  }

  /** A row the classifier takes for an OK packet. */
  predicate Misread(fs: seq<Field>) {
    fs != [] && fs[0] == Some([]) && |EncodeRow(fs)| >= 7
  }

  /** A misread row ends its response there, or panics if it does not decode as an OK packet; any
      other keeps the response pending, or panics if it cannot be rewritten. */
  lemma MisreadRowEndsResponse(r: Response, fs: seq<Field>, seqNo: byte, c: Context)
    requires TextQuery(c) && AtRows(r, c) && fs != [] && EncodeRow(fs) != []
    ensures var p := Pack(EncodeRow(fs), seqNo); var re := Respond(r, p, c);
      if Misread(fs) then
        re == if OkFromBody(p.body, c.clientFlag).Done? then Done(Reaction(r.(state := Complete), p, Phase.Command))
            else Panic(Malformed)
      else (re.Done? <==> IsRow(p, r.columns, c)) && (re.Done? ==> re.value.phase == PendingResponse)
  {
    hide EncodeRow, Rewrite, Classify, OkFromBody;
    RowClassification(fs);
    var p := Pack(EncodeRow(fs), seqNo);
    if Misread(fs) {
      OkFault(p.body, c.clientFlag);
    } else if IsRow(p, r.columns, c) {
      RowStep(r, p, c);
    }
  }

  lemma OkFault(body: seq<byte>, flag: Option<nat>)
    requires flag.Some?
    ensures OkFromBody(body, flag).Panic? ==> OkFromBody(body, flag) == Panic(Malformed)
  {
    hide FromLittleEndian;
  }

  /** One row: what is emitted for it are its survivors, encoded. */
  lemma RowDelivered(r: Response, p: Packet, fs: seq<Field>, c: Context)
    requires TextQuery(c) && AtRows(r, c) && DistinctNames(r.columns) && CanonicalRow(fs, |r.columns|)
    requires Rewritable(r.columns, TableLog(r.columns, c.diff), SelectionOf(c.command.value), fs)
    requires p.body == EncodeRow(fs) && p.pType == OtherPacket && !p.skip
    ensures IsRow(p, r.columns, c)
    ensures BodiesOf(Emitted([RowOut(r, p, c).0]))
         == EncodeRows(Survivor(r.columns, TableLog(r.columns, c.diff), SelectionOf(c.command.value), fs))
  {
    hide Rewrite, LastMatch, Dropped, RowOf, EncodeRow;
    var log, selection := TableLog(r.columns, c.diff), SelectionOf(c.command.value);
    if log.Some? {
      PointwiseRewrite(r.columns, fs, log.value, selection);
    }
    EmittedOne(RowOut(r, p, c).0);
  }

  /** All rows. */
  lemma {:induction false} RowsDelivered(r: Response, ps: seq<Packet>, rows: seq<seq<Field>>, c: Context)
    requires TextQuery(c) && AtRows(r, c) && DistinctNames(r.columns) && |ps| == |rows|
    requires AllRewritable(r.columns, TableLog(r.columns, c.diff), SelectionOf(c.command.value), rows)
    requires forall i :: 0 <= i < |ps| ==> ps[i].body == EncodeRow(rows[i]) && ps[i].pType == OtherPacket && !ps[i].skip
    requires AllCanonical(rows, |r.columns|)
    ensures AllRows(ps, r.columns, c) && StaysPending(r, ps, c)
    ensures BodiesOf(Emitted(RespondAll(r, ps, c).value.packets))
         == EncodeRows(Survivors(r.columns, TableLog(r.columns, c.diff), SelectionOf(c.command.value), rows))
    decreases |ps|
  {
    hide Respond, RespondAll, IsRow, RowOut, EncodeRow, CanonicalRow, Rewritable, Survivor, Emitted;
    var log, selection := TableLog(r.columns, c.diff), SelectionOf(c.command.value);
    if ps == [] {
      NothingRun(r, ps, 0, c);
    } else {
      RowDelivered(r, ps[0], rows[0], c);
      RowStep(r, ps[0], c);
      var re := Respond(r, ps[0], c).value;
      RowsDelivered(re.response, ps[1..], rows[1..], c);
      RunStep(r, ps, c, re);
      PendingRun(r, ps, c);
      assert ps == [ps[0]] + ps[1..];
      var tail := RespondAll(re.response, ps[1..], c).value.packets;
      EmittedAppend([re.packet], tail);
      EncodeRowsAppend(Survivor(r.columns, log, selection, rows[0]), Survivors(r.columns, log, selection, rows[1..]));
    }
  }

  lemma EncodeRowsAppend(a: seq<seq<Field>>, b: seq<seq<Field>>)
    ensures EncodeRows(a + b) == EncodeRows(a) + EncodeRows(b)
  {
    hide EncodeRow;
  }

  /** Plain packets: a column definition's first byte is the length of the text "def". */
  lemma DefinitionIsPlain(body: seq<byte>)
    requires ColumnFromBody(body).Done?
    ensures body != [] && body[0] !in {0x00, 0xFF}
  {
    hide DecodeText, DecodeLenEnc;
    FirstText(body, 6);
    DefIsShort(body);
  }

  lemma FirstText(body: seq<byte>, k: nat)
    requires k > 0 && DecodeTexts(body, k).Done?
    ensures DecodeText(body).Done? && DecodeTexts(body, k).value.result[0] == DecodeText(body).value.result
  {
    hide DecodeText;
  }

  lemma DefIsShort(body: seq<byte>)
    requires DecodeText(body).Done? && DecodeText(body).value.result == DEF
    ensures body != [] && body[0] !in {0x00, 0xFF}
  {
    hide Ascii;
    var n := DecodeLenEnc(body).value;
    assert |body[n.increment..n.increment + n.result]| == n.result;
  }

  /** The answer's packets, as the accumulator gets them. */
  function PacketsFor(a: Answer, first: int): (ps: seq<Packet>)
    requires Framed(a)
    ensures |ps| == |Bodies(a, a.rows)|
    ensures forall i :: 0 <= i < |ps| ==> ps[i] == Pack(Bodies(a, a.rows)[i], (first + i) % 256)
  {
    TypeAll(NumberedFrames(Bodies(a, a.rows), first), PendingResponse)
  }

  function ReplyFor(a: Answer, first: int): ResponseRuns.Reply
    requires Framed(a)
  {
    ReplyOf(a, PacketsFor(a, first))
  }

  /** The packets of an answer, told apart by their number. */
  function ReplyOf(a: Answer, ps: seq<Packet>): ResponseRuns.Reply
    requires |ps| == |a.columns| + |a.gap| + |a.rows| + 2
  {
    var n, m := |a.columns| + 1, |a.columns| + 1 + |a.gap|;
    ResultSet(ps[0], ps[1..n], a.columns, ps[n..m], ps[m..m + |a.rows|], ps[m + |a.rows|])
  }

  lemma JoinPieces<T>(all: seq<T>, n: nat, m: nat, k: nat)
    requires 1 <= n <= m <= k && |all| == k + 1
    ensures [all[0]] + all[1..n] + all[n..m] + all[m..k] + [all[k]] == all
  {
  }

  predicate PackedFrom(ps: seq<Packet>, bodies: seq<seq<byte>>, first: int) {
    |ps| == |bodies| && forall i :: 0 <= i < |ps| ==> bodies[i] != [] && ps[i] == Pack(bodies[i], (first + i) % 256)
  }

  lemma PackedPiece(ps: seq<Packet>, before: seq<seq<byte>>, piece: seq<seq<byte>>, after: seq<seq<byte>>, first: int)
    requires PackedFrom(ps, before + piece + after, first)
    ensures PackedFrom(ps[|before|..|before| + |piece|], piece, first + |before|)
  {
    hide Pack;
    var all, n := before + piece + after, |before|;
    forall i | 0 <= i < |piece|
      ensures piece[i] != [] && ps[n..n + |piece|][i] == Pack(piece[i], (first + n + i) % 256)
    {
      assert all[n + i] == piece[i] && ps[n + i] == Pack(all[n + i], (first + (n + i)) % 256);
    }
  }

  /** The pieces of the packet sequence are those of the answer. */
  lemma ReplyPieces(a: Answer, first: int)
    requires Framed(a)
    ensures var reply, m := ReplyFor(a, first), |a.columns| + 1 + |a.gap|;
      && PacketsOf(reply) == PacketsFor(a, first)
      && PackedFrom([reply.count], [a.count], first)
      && PackedFrom(reply.definitions, a.definitions, first + 1)
      && PackedFrom(reply.gap, a.gap, first + |a.columns| + 1)
      && PackedFrom(reply.rows, EncodeRows(a.rows), first + m)
      && PackedFrom([reply.last], [a.terminator], first + m + |a.rows|)
  {
    hide EncodeRows, PacketsFor, PackedFrom, Sized;
    PacketsArePacked(a, first);
    PackedPieces(PacketsFor(a, first), a.count, a.definitions, a.gap, EncodeRows(a.rows), a.terminator, first);
    PiecesOfReply(a, PacketsFor(a, first));
  }

  lemma PiecesOfReply(a: Answer, ps: seq<Packet>)
    requires |ps| == |a.columns| + |a.gap| + |a.rows| + 2
    ensures PacketsOf(ReplyOf(a, ps)) == ps
  {
    var n, m := |a.columns| + 1, |a.columns| + 1 + |a.gap|;
    JoinPieces(ps, n, m, m + |a.rows|);
  }

  lemma PackedPieces(ps: seq<Packet>, x: seq<byte>, ds: seq<seq<byte>>, gs: seq<seq<byte>>, rs: seq<seq<byte>>,
                     z: seq<byte>, first: int)
    requires PackedFrom(ps, [x] + ds + gs + rs + [z], first)
    ensures var n, m := |ds| + 1, |ds| + 1 + |gs|;
      && |ps| == m + |rs| + 1
      && PackedFrom([ps[0]], [x], first) && PackedFrom(ps[1..n], ds, first + 1) && PackedFrom(ps[n..m], gs, first + n)
      && PackedFrom(ps[m..m + |rs|], rs, first + m) && PackedFrom([ps[m + |rs|]], [z], first + m + |rs|)
  {
    hide PackedFrom;
    assert [x] + ds + gs + rs + [z] == [x] + ds + gs + (rs + [z]);
    PackedHead(ps, x, ds, gs, rs + [z], first);
    PackedTail(ps, [x] + ds + gs, rs, z, first);
  }

  lemma PackedHead(ps: seq<Packet>, x: seq<byte>, ds: seq<seq<byte>>, gs: seq<seq<byte>>, tail: seq<seq<byte>>,
      first: int)
    requires PackedFrom(ps, [x] + ds + gs + tail, first)
    ensures var n, m := |ds| + 1, |ds| + 1 + |gs|;
      && |ps| == m + |tail|
      && PackedFrom([ps[0]], [x], first) && PackedFrom(ps[1..n], ds, first + 1) && PackedFrom(ps[n..m], gs, first + n)
  {
    PackedLength(ps, [x] + ds + gs + tail, first);
    hide PackedFrom;
    assert [x] + ds + gs + tail == [] + [x] + (ds + gs + tail);
    PackedPiece(ps, [], [x], ds + gs + tail, first);
    assert [x] + ds + gs + tail == [x] + ds + (gs + tail);
    PackedPiece(ps, [x], ds, gs + tail, first);
    PackedPiece(ps, [x] + ds, gs, tail, first);
    assert ps[0..1] == [ps[0]];
  }

  lemma PackedTail(ps: seq<Packet>, head: seq<seq<byte>>, rs: seq<seq<byte>>, z: seq<byte>, first: int)
    requires PackedFrom(ps, head + rs + [z], first)
    ensures var m := |head|;
      && |ps| == m + |rs| + 1
      && PackedFrom(ps[m..m + |rs|], rs, first + m) && PackedFrom([ps[m + |rs|]], [z], first + m + |rs|)
  {
    PackedLength(ps, head + rs + [z], first);
    hide PackedFrom;
    PackedPiece(ps, head, rs, [z], first);
    assert head + rs + [z] == head + rs + [z] + [];
    PackedPiece(ps, head + rs, [z], [], first);
    assert ps[|head| + |rs|..|head| + |rs| + 1] == [ps[|head| + |rs|]];
  }

  lemma PackedLength(ps: seq<Packet>, bodies: seq<seq<byte>>, first: int)
    requires PackedFrom(ps, bodies, first)
    ensures |ps| == |bodies|
  {
  }

  lemma PacketsArePacked(a: Answer, first: int)
    requires Framed(a)
    ensures PackedFrom(PacketsFor(a, first), Bodies(a, a.rows), first)
  {
    hide Pack, Bodies;
  }

  lemma DefinitionsDefine(ps: seq<Packet>, bodies: seq<seq<byte>>, columns: seq<Column>, first: int)
    requires PackedFrom(ps, bodies, first) && |bodies| == |columns|
    requires forall i :: 0 <= i < |columns| ==> ColumnFromBody(bodies[i]) == Done(columns[i])
    ensures AllDefine(ps, columns)
  {
    hide ColumnFromBody;
    forall i | 0 <= i < |ps| ensures Defines(ps[i], columns[i]) {
      DefinitionIsPlain(bodies[i]);
    }
  }

  lemma RowsAreRows(ps: seq<Packet>, rows: seq<seq<Field>>, n: nat, first: int)
    requires PackedFrom(ps, EncodeRows(rows), first) && AllCanonical(rows, n)
    ensures |ps| == |rows|
    ensures forall i :: 0 <= i < |ps| ==> ps[i].body == EncodeRow(rows[i]) && ps[i].pType == OtherPacket && !ps[i].skip
  {
    hide EncodeRow, Encodable;
    forall i | 0 <= i < |ps| ensures ps[i].body == EncodeRow(rows[i]) && ps[i].pType == OtherPacket && !ps[i].skip {
      assert CanonicalRow(rows[i], n);
      RowClassification(rows[i]);
    }
  }

  lemma TerminatorTerminates(body: seq<byte>, seqNo: byte)
    requires |body| == 7 && body[0] == 0xFE && !HasBit(FromLittleEndian(body[3..5]), MORE_RESULTS)
    ensures Terminates(Pack(body, seqNo))
  {
  }

  lemma ReplyIsValid(a: Answer, first: int, c: Context)
    requires Answers(a, c)
    ensures var reply := ReplyFor(a, first);
      var start := RowsStart(a.columns, c);
      && Valid(reply, c) && Terminates(reply.last) && StaysPending(start, reply.rows, c)
      && BodiesOf(Emitted(RespondAll(start, reply.rows, c).value.packets))
         == EncodeRows(ClientTable(a, c))
  {
    hide EncodeRow, EncodeRows, Terminates, AllRows, AllDefine, RespondAll, Survivors, Emitted, AllCanonical,
      AllRewritable, FromLittleEndian, PacketsFor, ColumnFromBody, PackedFrom, Counts, Pack, DistinctNames, Bodies,
      Sized, BodiesOf, IsGap, Separates;
    var reply, n, m := ReplyFor(a, first), |a.columns|, |a.columns| + 1 + |a.gap|;
    ReplyPieces(a, first);
    DefinitionsDefine(reply.definitions, a.definitions, a.columns, first + 1);
    GapSeparates(reply.gap, a.gap, first + n + 1, c);
    RowsAreRows(reply.rows, a.rows, n, first + m);
    var k := OnlyPacket(reply.last, a.terminator, first + m + |a.rows|);
    TerminatorTerminates(a.terminator, k);
    k := OnlyPacket(reply.count, a.count, first);
    CountIsCount(a.count, 0, k, n);
    RowsDelivered(RowsStart(a.columns, c), reply.rows, a.rows, c);
  }

  lemma GapSeparates(ps: seq<Packet>, gap: seq<seq<byte>>, first: int, c: Context)
    requires PackedFrom(ps, gap, first) && IsGap(gap) && (Deprecating(c) <==> gap == [])
    ensures Separates(ps, c)
  {
  }

  lemma OnlyPacket(p: Packet, body: seq<byte>, first: int) returns (seqNo: byte)
    requires PackedFrom([p], [body], first)
    ensures body != [] && p == Pack(body, seqNo)
  {
    hide Pack;
    seqNo := first % 256;
    assert [p][0] == Pack([body][0], (first + 0) % 256);
  }

  lemma CountIsCount(body: seq<byte>, j: byte, k: byte, n: nat)
    requires body != [] && Counts(Pack(body, j), n)
    ensures Counts(Pack(body, k), n)
  {
    hide DecodeLenEnc, Classify;
  }

  lemma NumberedIsFrames(ps: seq<Packet>, first: int)
    requires Numbered(ps, first)
    ensures Untyped(ps) == NumberedFrames(BodiesOf(ps), first)
  {
  }

  /** Consecutively numbered frames of fitting sizes are what their bytes parse to. */
  lemma FramesAreParsed(bodies: seq<seq<byte>>, first: int)
    requires Sized(bodies)
    ensures ReadFrames(Serialize(NumberedFrames(bodies, first)), None)
        == Done(Parsed(NumberedFrames(bodies, first), []))
  {
    hide Serialize, ReadFrames, NextFrame;
    var fs := NumberedFrames(bodies, first);
    assert NextFrame([]) == None by {
      NothingNext();
    }
    forall i | 0 < i < |fs| ensures fs[i].header.seqNo == (fs[i - 1].header.seqNo + 1) % 256 {
      NextNumber(first + i);
    }
    SerializeThenRead(fs, [], None);
    assert Serialize(fs) + [] == Serialize(fs);
  }

  lemma NothingNext()
    ensures NextFrame([]) == None
  {
  }

  lemma NextNumber(x: int)
    ensures x % 256 == ((x - 1) % 256 + 1) % 256
  {
  }

  /** The emitted packets of an answer, body by body. */
  lemma EmittedBodies(a: Answer, first: int, c: Context)
    requires Answers(a, c)
    ensures var ps := PacketsFor(a, first);
      && Accepts(FRESH, ps, c)
      && Numbered(Emitted(RespondAll(FRESH, ps, c).value.packets), first)
      && BodiesOf(Emitted(RespondAll(FRESH, ps, c).value.packets))
         == Bodies(a, ClientTable(a, c))
  {
    hide EncodeRow, EncodeRows, Terminates, Valid, RespondAll, Survivors, Emitted, Framed, AllCanonical, AllRewritable,
      Answers, ClientTable, PacketsFor, Pack, ColumnFromBody, FromLittleEndian, Counts, DistinctNames;
    AnswerIsFramed(a, c);
    var reply, n := ReplyFor(a, first), |a.columns|;
    ReplyPieces(a, first);
    ReplyIsValid(a, first, c);
    PacketsAreNumbered(a, first);
    SequenceCoherence(reply, first, c);
    ResultSetPackets(reply, c);
    var rows := RespondAll(RowsStart(a.columns, c), reply.rows, c).value;
    var head, last := [reply.count] + reply.definitions + reply.gap, Renumber(reply.last, rows.response.skipped);
    HeadIsKept(a, first);
    EmittedOfReply(head, rows.packets, last);
    AllBodies(head, Emitted(rows.packets), last);
  }

  lemma PacketsAreNumbered(a: Answer, first: int)
    requires Framed(a)
    ensures Numbered(PacketsFor(a, first), first) && NoneSkipped(PacketsFor(a, first))
  {
    hide Bodies;
  }

  lemma HeadIsKept(a: Answer, first: int)
    requires Framed(a)
    ensures var reply := ReplyFor(a, first);
      && NoneSkipped([reply.count] + reply.definitions + reply.gap) && !reply.last.skip
      && BodiesOf([reply.count] + reply.definitions + reply.gap) == [a.count] + a.definitions + a.gap
      && reply.last.body == a.terminator
  {
    hide Bodies, EncodeRows, PacketsFor, Sized, BodiesOf, NoneSkipped, PackedFrom;
    ReplyPieces(a, first);
    var reply, n, m := ReplyFor(a, first), |a.columns|, |a.columns| + 1 + |a.gap|;
    PackedBodies([reply.count], [a.count], first);
    PackedBodies(reply.definitions, a.definitions, first + 1);
    PackedBodies(reply.gap, a.gap, first + n + 1);
    PackedBodies([reply.last], [a.terminator], first + m + |a.rows|);
    JoinBodies([reply.count], reply.definitions);
    JoinBodies([reply.count] + reply.definitions, reply.gap);
    LastBody(reply.last, a.terminator);
  }

  lemma PackedBodies(ps: seq<Packet>, bodies: seq<seq<byte>>, first: int)
    requires PackedFrom(ps, bodies, first)
    ensures BodiesOf(ps) == bodies && NoneSkipped(ps)
  {
  }

  lemma JoinBodies(a: seq<Packet>, b: seq<Packet>)
    ensures BodiesOf(a + b) == BodiesOf(a) + BodiesOf(b)
    ensures NoneSkipped(a) && NoneSkipped(b) ==> NoneSkipped(a + b)
  {
  }

  lemma LastBody(p: Packet, body: seq<byte>)
    requires BodiesOf([p]) == [body] && NoneSkipped([p])
    ensures p.body == body && !p.skip
  {
    assert BodiesOf([p])[0] == [p][0].body && ![p][0].skip;
  }

  lemma AllBodies(head: seq<Packet>, rows: seq<Packet>, last: Packet)
    ensures BodiesOf(head + rows + [last]) == BodiesOf(head) + BodiesOf(rows) + [last.body]
  {
  }

  /** The bytes of an answer, in one read: what is written for them is the client's table in the
      answer's layout, numbered consecutively from the server's first number. */
  lemma AnswerBytes(c: Conn, a: Answer, first: int)
    requires c.response == FRESH && Saved(c) == [] && Answers(a, ContextOf(c))
    ensures var bytes := Serialize(NumberedFrames(Bodies(a, a.rows), first));
      && bytes != [] && Deliverable(c, bytes)
      && Delivered(c, bytes).0.phase == Phase.Command && Saved(Delivered(c, bytes).0) == []
      && Delivered(c, bytes).1 == Serialize(NumberedFrames(Bodies(a, ClientTable(a, ContextOf(c))), first))
  {
    hide ReadFrames, Serialize, Answers, ClientTable, RespondAll, Emitted, Bodies, NumberedFrames, Untyped, BodiesOf,
      Numbered, Deliverable, Delivered, PacketsFor, Framed;
    AnswerIsFramed(a, ContextOf(c));
    EmittedBodies(a, first, ContextOf(c));
    AnswerIsDelivered(c, a, first);
    NumberedIsFrames(Emitted(RespondAll(FRESH, PacketsFor(a, first), ContextOf(c)).value.packets), first);
  }

  /** End to end: for a text query, however the server's bytes are split into reads, the proxy ends
      in the command phase with nothing left over, and the bytes it writes parse to the column
      count, the column definitions, the surviving rows in order and the terminator, numbered
      consecutively from the server's first number, each header giving its body's size. */
  lemma ClientSeesSurvivors(parser: Parser, c: Conn, chunks: seq<seq<byte>>, a: Answer, first: int)
    requires c.response == FRESH && Saved(c) == [] && Answers(a, ContextOf(c))
    requires Flatten(chunks) == Serialize(NumberedFrames(Bodies(a, a.rows), first))
    requires Sized(Bodies(a, ClientTable(a, ContextOf(c))))
    ensures var r := ReceiveAll(parser, c, chunks);
      && r.Done?
      && r.value.0.phase == Phase.Command && Saved(r.value.0) == []
      && ReadFrames(r.value.1, None) == Done(Parsed(NumberedFrames(Bodies(a, ClientTable(a, ContextOf(c))), first), []))
  {
    hide ReadFrames, Serialize, Answers, ClientTable, Sized, Bodies, NumberedFrames, Deliverable, Delivered;
    AnswerBytes(c, a, first);
    assert chunks != [];
    AnySplit(parser, c, chunks);
    FramesAreParsed(Bodies(a, ClientTable(a, ContextOf(c))), first);
  }

  lemma AnswerIsFramed(a: Answer, c: Context)
    requires Answers(a, c)
    ensures Framed(a) && TextQuery(c)
  {
    hide Framed, AllCanonical, DistinctNames, Counts, ColumnFromBody, FromLittleEndian;
  }

  lemma AnswerIsDelivered(c: Conn, a: Answer, first: int)
    requires Framed(a) && c.phase == PendingResponse && c.response == FRESH && Saved(c) == []
    requires Accepts(FRESH, PacketsFor(a, first), ContextOf(c))
    ensures var bytes := Serialize(NumberedFrames(Bodies(a, a.rows), first));
      && bytes != [] && Deliverable(c, bytes)
      && Delivered(c, bytes).0.phase == Phase.Command && Saved(Delivered(c, bytes).0) == []
      && Delivered(c, bytes).1
         == Serialize(Untyped(Emitted(RespondAll(FRESH, PacketsFor(a, first), ContextOf(c)).value.packets)))
  {
    hide ReadFrames, NextFrame, Serialize, RespondAll, Emitted, Sized, Bodies, NumberedFrames, Untyped, TypeAll;
    var fs := NumberedFrames(Bodies(a, a.rows), first);
    FramesAreParsed(Bodies(a, a.rows), first);
    NothingNext();
    var bytes := Serialize(fs);
    assert Saved(c) + bytes == bytes;
    if bytes == [] {
      ReadNothing(bytes, None);
      BodiesExist(a);
    }
  }

  lemma BodiesExist(a: Answer)
    ensures |Bodies(a, a.rows)| >= 2
  {
  }

  // ---- Every table has a well-behaved answer

  const NO_TEXT: Text := []
  const FIXED_FIELDS: seq<byte> := [0, 0, 0, 0, 0, 0, 0, 0, 0, 0, 0, 0]
  const EOF_BODY: seq<byte> := [0xFE, 0, 0, 2, 0, 0, 0]
  const SHORT_EOF_BODY: seq<byte> := [0xFE, 0, 0, 2, 0]

  function DefinitionBody(column: Column): seq<byte> {
    EncodeTexts([DEF, NO_TEXT, column.orgTable, column.orgTable, column.orgName,
        column.orgName]) + ([12] + FIXED_FIELDS)
  }

  /** The answer a server gives for a table, in the protocol's layout, to a client with or without
      DEPRECATE_EOF; its terminator has the 7 bytes the proxy can read. */
  function AnswerFor(columns: seq<Column>, rows: seq<seq<Field>>, deprecating: bool): Answer {
    Answer(EncodeLenEnc(|columns|), seq(|columns|, i requires 0 <= i < |columns| => DefinitionBody(columns[i])),
           columns, if deprecating then [] else [SHORT_EOF_BODY], rows, EOF_BODY)
  }

  predicate Definable(column: Column) {
    && Ascii(column.orgTable) && |column.orgTable| < U64 && Ascii(column.orgName) && |column.orgName| < U64
    && |DefinitionBody(column)| < MAX_SIZE
  }

  lemma DefinitionIsRead(column: Column)
    requires Definable(column)
    ensures ColumnFromBody(DefinitionBody(column)) == Done(column) && DefinitionBody(column) != []
  {
    hide Ascii, ColumnFromBody, EncodeTexts;
    assert Ascii(NO_TEXT) && Ascii(DEF) by {
      FixedTextsAreAscii();
    }
    DefinitionRoundTrip(DEF, NO_TEXT, column.orgTable, column.orgTable, column.orgName, column.orgName, FIXED_FIELDS);
  }

  lemma FixedTextsAreAscii()
    ensures Ascii(NO_TEXT) && Ascii(DEF)
  {
  }

  lemma CountIsRead(n: nat)
    requires 0 < n < U64
    ensures EncodeLenEnc(n) != [] && |EncodeLenEnc(n)| <= 9 && Counts(Pack(EncodeLenEnc(n), 0), n)
  {
    hide DecodeLenEnc, LittleEndian;
    var body := EncodeLenEnc(n);
    LenEncRoundTrip(n, []);
    assert body + [] == body;
  }

  lemma EofIsRead()
    ensures FromLittleEndian(EOF_BODY[3..5]) == 2 && !HasBit(2, MORE_RESULTS)
  {
    assert EOF_BODY[3..5] == [2, 0] && [2, 0][1..] == [0] && [0][1..] == [];
  }

  /** Any table with distinct ASCII column names and canonical rows that fit their packets is the
      table of a well-behaved answer. */
  lemma TableHasAnswer(columns: seq<Column>, rows: seq<seq<Field>>, deprecating: bool)
    requires 0 < |columns| < U64 && DistinctNames(columns) && AllCanonical(rows, |columns|)
    requires forall i :: 0 <= i < |columns| ==> Definable(columns[i])
    requires forall i :: 0 <= i < |rows| ==> |EncodeRow(rows[i])| < MAX_SIZE
    ensures WellBehaved(AnswerFor(columns, rows, deprecating))
        && (deprecating <==> AnswerFor(columns, rows, deprecating).gap == [])
  {
    hide Definable, ColumnFromBody, EncodeRow, DistinctNames, Counts, EncodeLenEnc, Pack, FromLittleEndian,
        DefinitionBody;
    var a := AnswerFor(columns, rows, deprecating);
    forall i | 0 <= i < |columns|
      ensures ColumnFromBody(a.definitions[i]) == Done(columns[i]) && 0 < |a.definitions[i]| < MAX_SIZE
    {
      assert Definable(columns[i]);
      DefinitionIsRead(columns[i]);
      DefinitionFits(columns[i]);
    }
    CountIsRead(|columns|);
    EofIsRead();
    forall i | 0 <= i < |rows| ensures 0 < |EncodeRow(rows[i])| {
      assert CanonicalRow(rows[i], |columns|);
      RowClassification(rows[i]);
    }
    PiecesAreSized(a.count, a.definitions, a.gap, EncodeRows(rows), a.terminator);
  }

  lemma DefinitionFits(column: Column)
    requires Definable(column)
    ensures |DefinitionBody(column)| < MAX_SIZE
  {
  }

  lemma PiecesAreSized(x: seq<byte>, ds: seq<seq<byte>>, gs: seq<seq<byte>>, rs: seq<seq<byte>>, z: seq<byte>)
    requires 0 < |x| < MAX_SIZE && Sized(ds) && Sized(gs) && Sized(rs) && 0 < |z| < MAX_SIZE
    ensures Sized([x] + ds + gs + rs + [z])
  {
  }
}
