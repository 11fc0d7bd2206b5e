/** What one server packet does to the response being collected (src/mysql/accumulator/result_set.rs),
    stated per state and without the re-feeding by which the accumulator gets there. */
module Responses {
  import opened Outcomes
  import opened Bytes
  import opened Types
  import opened Packets
  import opened DiffLog
  import opened Evaluator
  import opened Rows

  // Command codes (src/mysql/command.rs)
  const COM_QUERY: byte := 0x03
  const COM_FIELD_LIST: byte := 0x04
  const COM_STMT_PREPARE: byte := 0x16
  const COM_STMT_EXECUTE: byte := 0x17
  const COM_STMT_CLOSE: byte := 0x19
  const COM_STMT_RESET: byte := 0x1A
  const LAST_COMMAND: byte := 0x1F

  datatype Command = Command(code: byte, arg: Text, ast: Option<seq<Statement>>)

  /** What a response accumulator reads from its connection. */
  datatype Context = Context(phase: Phase, command: Option<Command>, clientFlag: Option<nat>, diff: DiffMap)

  datatype State =
    | Initiated | MetaExchange | ColumnCount | HydrateParams | ParamsHydrated
    | HydrateColumns | ColumnsHydrated | HydrateRows | Complete

  /** The fields of a response accumulator that anything reads. */
  datatype Response = Response(state: State, metadataFollows: bool, columns: seq<Column>, columnCount: nat,
                               paramCount: nat, params: seq<Column>, skipped: nat)

  const FRESH := Response(Initiated, false, [], 0, 0, [], 0)

  /** The accumulator, the possibly rewritten packet and the next phase. */
  datatype Reaction = Reaction(response: Response, packet: Packet, phase: Phase)

  /** The condition of the command's last statement, if that is a plain SELECT. */
  function SelectionOf(command: Command): Option<Expr> {
    if command.ast.None? || command.ast.value == [] then None else
    var last := command.ast.value[|command.ast.value| - 1];
    if last.Query? && last.select.Some? then last.select.value.selection else None
  }

  function DecodeTexts(bytes: seq<byte>, k: nat): (r: Outcome<Decoded<seq<Text>>>)
    ensures r.Done? ==> |r.value.result| == k && r.value.increment <= |bytes|
    ensures r.Panic? ==> r.fault == Malformed
    decreases k
  {
    if k == 0 then Done(Decoded([], 0)) else
    var t :- DecodeText(bytes);
    var rest :- DecodeTexts(bytes[t.increment..], k - 1);
    Done(Decoded([t.result] + rest.result, t.increment + rest.increment))
  }

  const DEF: Text := [0x64, 0x65, 0x66]

  /** A column definition: six texts, the first being "def", then fixed-length fields. */
  function ColumnFromBody(body: seq<byte>): (r: Outcome<Column>)
    ensures r.Panic? ==> r.fault == Malformed
  {
    var texts :- DecodeTexts(body, 6);
    var length :- DecodeLenEnc(body[texts.increment..]);
    var fixed := body[texts.increment..][length.increment..];
    if texts.result[0] != DEF || |fixed| < 12 || 20 < fixed[6] < 242 then Panic(Malformed)
    else Done(Column(texts.result[3], texts.result[5]))
  }

  function Respond(r: Response, p: Packet, c: Context): Outcome<Reaction> {
    var command :- Unwrap(c.command, NoCommand);
    if command.code == COM_STMT_PREPARE then RespondPrepare(r, p, c)
    else if command.code == COM_STMT_RESET then Done(Reaction(r, p, Phase.Command))
    else
      var r' :- Screen(r, p, c);
      if command.code == COM_STMT_EXECUTE then Done(Reaction(r', p, BinaryPhase(p, c)))
      else RespondText(r', p, c)
  }

  /** ERR and OK packets complete a response whatever it was waiting for. */
  function Screen(r: Response, p: Packet, c: Context): Outcome<Response> {
    if p.pType == ErrorPacket then
      var _ :- ErrorCheck(p.body, c.clientFlag);
      Done(r.(state := Complete))
    else if p.pType == OkPacket then
      var _ :- OkFromBody(p.body, c.clientFlag);
      Done(r.(state := Complete))
    else Done(r)
  }

  function BinaryPhase(p: Packet, c: Context): Phase {
    if p.pType == EofPacket || (p.header.seqNo == 1 && p.pType == OkPacket) then Phase.Command else c.phase
  }

  /** The text protocol. */
  function RespondText(r: Response, p: Packet, c: Context): Outcome<Reaction>
    requires c.command.Some?
  {
    match r.state
    case Initiated => Begin(r, p, c)
    case MetaExchange => Panic(Malformed)
    case ColumnCount => CountColumns(r, p, c)
    case HydrateColumns =>
      if c.command.value.code == COM_FIELD_LIST && p.pType == EofPacket then
        EnterRows(r.(state := ColumnsHydrated), p, c)
      else AddColumn(r, p, c)
    case ColumnsHydrated => EnterRows(r, p, c)
    case HydrateRows => RespondRow(r, p, c)
    case Complete => Done(Reaction(r, p, Phase.Command))
    case _ => Panic(Unsupported)
  }

  function Begin(r: Response, p: Packet, c: Context): Outcome<Reaction>
    requires c.command.Some?
  {
    if c.command.value.code == COM_QUERY then
      var flag :- Unwrap(c.clientFlag, NoHandshakeResponse);
      if HasBit(flag, OPTIONAL_METADATA) then Panic(Malformed) else CountColumns(r.(state := ColumnCount), p, c)
    else if c.command.value.code == COM_FIELD_LIST then
      if p.pType == EofPacket then EnterRows(r.(state := ColumnsHydrated), p, c)
      else AddColumn(r.(state := HydrateColumns), p, c)
    else Done(Reaction(r.(state := Complete), p, Phase.Command))
  }

  function CountColumns(r: Response, p: Packet, c: Context): Outcome<Reaction> {
    var n :- DecodeLenEnc(p.body);
    var flag :- Unwrap(c.clientFlag, NoHandshakeResponse);
    var next := if !HasBit(flag, OPTIONAL_METADATA) || r.metadataFollows then HydrateColumns else ColumnsHydrated;
    Done(Reaction(r.(columnCount := n.result, state := next), p, c.phase))
  }

  function AddColumn(r: Response, p: Packet, c: Context): Outcome<Reaction> {
    var column :- ColumnFromBody(p.body);
    var columns := r.columns + [column];
    Done(Reaction(r.(columns := columns,
                     state := if r.columnCount == |columns| then ColumnsHydrated else HydrateColumns),
                  p, c.phase))
  }

  /** After the columns: an EOF packet of its own, or with DEPRECATE_EOF the first row. */
  function EnterRows(r: Response, p: Packet, c: Context): Outcome<Reaction>
    requires c.command.Some?
  {
    var flag :- Unwrap(c.clientFlag, NoHandshakeResponse);
    if HasBit(flag, DEPRECATE_EOF) then RespondRow(r.(state := HydrateRows), p, c)
    else if p.pType != EofPacket then Panic(Malformed)
    else Done(Reaction(r.(state := HydrateRows), p, c.phase))
  }

  function RespondRow(r: Response, p: Packet, c: Context): Outcome<Reaction>
    requires c.command.Some?
  {
    if p.pType == EofPacket then
      var status :- EofStatus(p.body, c.clientFlag);
      var p' := Renumber(p, r.skipped);
      if status.None? then Done(Reaction(r.(state := HydrateRows), p', c.phase))
      else if HasBit(status.value, MORE_RESULTS) then Restart(r, p', c)
      else Done(Reaction(r.(state := Complete), p', Phase.Command))
    else if p.pType == OtherPacket then
      if r.columns == [] then Panic(Malformed) else
      var r' := r.(state := HydrateRows);
      var table := r.columns[0].orgTable;
      if table !in c.diff then Done(Reaction(r', Renumber(p, r.skipped), c.phase)) else
      var row :- Rewrite(r.columns, p.body, c.diff[table], SelectionOf(c.command.value));
      var skipped := if row.dropped then r.skipped + 1 else r.skipped;
      Done(Reaction(r'.(skipped := skipped), Renumber(RewrittenPacket(p, row), skipped), c.phase))
    else Panic(Unsupported)
  }

  function RewrittenPacket(p: Packet, row: Rewritten): Packet {
    Packet(Header(|row.body|, p.header.seqNo), row.body, p.pType, p.skip || row.dropped)
  }

  /** Sequence numbers move down by the number of dropped rows, in 8-bit arithmetic. */
  function Renumber(p: Packet, skipped: nat): Packet {
    p.(header := p.header.(seqNo := (p.header.seqNo - skipped) % 256))
  }

  /** A terminator announcing further result sets is taken as the first packet of the next one. */
  function Restart(r: Response, p: Packet, c: Context): Outcome<Reaction>
    requires c.command.Some?
  {
    if c.command.value.code == COM_QUERY then
      var flag :- Unwrap(c.clientFlag, NoHandshakeResponse);
      if HasBit(flag, OPTIONAL_METADATA) then Panic(Malformed) else CountColumns(r.(state := ColumnCount), p, c)
    else if c.command.value.code == COM_FIELD_LIST then
      if c.clientFlag.Some? && HasBit(c.clientFlag.value, DEPRECATE_EOF) then Panic(StackOverflow)
      else Done(Reaction(r.(state := HydrateRows), p, c.phase))
    else Done(Reaction(r.(state := Complete), p, Phase.Command))
  }

  /** The prepared-statement protocol. */
  function RespondPrepare(r: Response, p: Packet, c: Context): Outcome<Reaction> {
    match r.state
    case Initiated =>
      if |p.body| < 10 || p.body[0] != 0 || p.body[9] != 0 || (p.header.size > 12 && |p.body| < 12) then
        Panic(Malformed)
      else
      var r' := r.(columnCount := FromLittleEndian(p.body[5..7]), paramCount := FromLittleEndian(p.body[7..9]),
                   metadataFollows := if p.header.size > 12 then p.body[11] == 1 else r.metadataFollows);
      if r'.metadataFollows then Done(Reaction(r'.(state := MetaExchange), p, c.phase)) else
      var flag :- Unwrap(c.clientFlag, NoHandshakeResponse);
      if HasBit(flag, OPTIONAL_METADATA) then Done(Reaction(r'.(state := Complete), p, Phase.Command))
      else Done(Reaction(r'.(state := MetaExchange), p, c.phase))
    case MetaExchange => if r.paramCount > 0 then AddParam(r.(state := HydrateParams), p, c) else Panic(Unsupported)
    case HydrateParams => AddParam(r, p, c)
    case HydrateColumns =>
      var column :- ColumnFromBody(p.body);
      var r' := r.(columns := r.columns + [column]);
      if |r'.columns| == r.columnCount then Done(Reaction(r'.(state := Complete), p, Phase.Command))
      else Done(Reaction(r', p, c.phase))
    case Complete => Done(Reaction(r, p, Phase.Command))
    case _ => Panic(Unsupported)
  }

  function AddParam(r: Response, p: Packet, c: Context): Outcome<Reaction> {
    var param :- ColumnFromBody(p.body);
    var r' := r.(params := r.params + [param], state := HydrateParams);
    if |r'.params| < r.paramCount || |r'.params| > r.paramCount then Done(Reaction(r', p, c.phase))
    else if r.columnCount > 0 then Done(Reaction(r'.(state := HydrateColumns), p, c.phase))
    else Done(Reaction(r'.(state := Complete), p, Phase.Command))
  }
}
