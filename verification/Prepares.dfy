/** Responses to COM_STMT_PREPARE (src/mysql/accumulator/result_set.rs:193-272). */
module Prepares {
  import opened Outcomes
  import opened Bytes
  import opened Types
  import opened Packets
  import opened Responses
  import opened ResponseAccumulators
  import opened ResponseRuns

  predicate PrepareContext(c: Context) {
    c.phase == PendingResponse && c.command.Some? && c.command.value.code == COM_STMT_PREPARE && c.clientFlag.Some?
  }

  /** The first packet as the proxy reads it. */
  predicate OkHead(p: Packet) {
    |p.body| >= 10 && p.body[0] == 0 && p.body[9] == 0 && (p.header.size > 12 ==> |p.body| >= 12)
  }

  function ColumnsIn(p: Packet): nat
    requires OkHead(p)
  {
    FromLittleEndian(p.body[5..7])
  }

  function ParamsIn(p: Packet): nat
    requires OkHead(p)
  {
    FromLittleEndian(p.body[7..9])
  }

  /** The client does without definitions unless told otherwise, and is not. */
  predicate WithoutDefinitions(p: Packet, c: Context)
    requires OkHead(p) && c.clientFlag.Some?
  {
    HasBit(c.clientFlag.value, OPTIONAL_METADATA) && !(p.header.size > 12 && p.body[11] == 1)
  }

  predicate Definitions(ps: seq<Packet>) {
    forall i :: 0 <= i < |ps| ==> ColumnFromBody(ps[i].body).Done?
  }

  /** The responses the proxy takes: a lone OK without definitions, or an OK announcing at least one
      parameter, followed by the definitions of all parameters and columns and nothing else. */
  predicate Prepared(ps: seq<Packet>, c: Context)
    requires c.clientFlag.Some?
  {
    && ps != [] && OkHead(ps[0])
    && if WithoutDefinitions(ps[0], c) then |ps| == 1
       else ParamsIn(ps[0]) > 0 && |ps| == 1 + ParamsIn(ps[0]) + ColumnsIn(ps[0]) && Definitions(ps[1..])
  }

  lemma DefinitionsTail(ps: seq<Packet>)
    requires ps != []
    ensures Definitions(ps) <==> ColumnFromBody(ps[0].body).Done? && Definitions(ps[1..])
  {
    hide ColumnFromBody;
    assert ps == [ps[0]] + ps[1..];
    assert forall i :: 0 < i < |ps| ==> ps[i] == ps[1..][i - 1];
  }

  lemma AcceptsStep(r: Response, ps: seq<Packet>, c: Context)
    ensures Accepts(r, ps, c) <==>
      && ps != [] && Respond(r, ps[0], c).Done?
      && var re := Respond(r, ps[0], c).value;
      if re.phase == PendingResponse then Accepts(re.response, ps[1..], c) else re.phase == Phase.Command && |ps| == 1
  {
    hide Respond;
  }

  lemma {:induction false} PreparedColumns(r: Response, ps: seq<Packet>, c: Context)
    requires PrepareContext(c) && r.state == HydrateColumns && |r.columns| < r.columnCount
    ensures Accepts(r, ps, c) <==> |r.columns| + |ps| == r.columnCount && Definitions(ps)
    decreases |ps|
  {
    hide ColumnFromBody, Accepts, Definitions;
    AcceptsStep(r, ps, c);
    if ps != [] {
      DefinitionsTail(ps);
      if Respond(r, ps[0], c).Done? {
        var re := Respond(r, ps[0], c).value;
        if re.phase == PendingResponse {
          PreparedColumns(re.response, ps[1..], c);
        } else if |ps| == 1 {
          NoDefinitions(ps[1..]);
        }
      }
    }
  }

  lemma NoDefinitions(ps: seq<Packet>)
    requires ps == []
    ensures Definitions(ps)
  {
  }

  lemma {:induction false} PreparedParams(r: Response, ps: seq<Packet>, c: Context)
    requires PrepareContext(c) && r.state in {MetaExchange, HydrateParams} && |r.params| < r.paramCount
        && r.columns == []
    ensures Accepts(r, ps, c) <==> |r.params| + |ps| == r.paramCount + r.columnCount && Definitions(ps)
    decreases |ps|
  {
    hide ColumnFromBody, Accepts, Definitions;
    AcceptsStep(r, ps, c);
    if ps != [] {
      DefinitionsTail(ps);
      if Respond(r, ps[0], c).Done? {
        var re := Respond(r, ps[0], c).value;
        if re.response.state == HydrateParams {
          PreparedParams(re.response, ps[1..], c);
        } else if re.response.state == HydrateColumns {
          PreparedColumns(re.response, ps[1..], c);
        } else if |ps| == 1 {
          NoDefinitions(ps[1..]);
        }
      }
    }
  }

  /** The first packet either ends the response or announces definitions. */
  lemma HeadStep(p: Packet, c: Context)
    requires PrepareContext(c)
    ensures !OkHead(p) ==> Respond(FRESH, p, c) == Panic(Malformed)
    ensures OkHead(p) ==>
      && Respond(FRESH, p, c).Done?
      && var re := Respond(FRESH, p, c).value;
      if WithoutDefinitions(p, c) then re.phase == Phase.Command
      else
        && re.phase == PendingResponse && re.response.state == MetaExchange
        && re.response.columnCount == ColumnsIn(p) && re.response.paramCount == ParamsIn(p)
        && re.response.columns == [] && re.response.params == []
  {
    hide FromLittleEndian;
  }

  /** Without parameters the proxy waits for a definition that it then refuses. */
  lemma NoParams(r: Response, ps: seq<Packet>, c: Context)
    requires PrepareContext(c) && r.state == MetaExchange && r.paramCount == 0
    ensures !Accepts(r, ps, c)
    ensures forall p :: Respond(r, p, c) == Panic(Unsupported)
  {
    hide Accepts;
    AcceptsStep(r, ps, c);
  }

  /** Prepare exactness: for any packets and any capabilities, the machine started fresh returns to
      `Command` on the last packet and on none before if and only if they are such a response. */
  lemma PrepareExactness(ps: seq<Packet>, c: Context)
    requires PrepareContext(c)
    ensures Accepts(FRESH, ps, c) <==> Prepared(ps, c)
  {
    hide Accepts, Respond, ColumnFromBody, FromLittleEndian;
    AcceptsStep(FRESH, ps, c);
    if ps != [] {
      HeadStep(ps[0], c);
      if OkHead(ps[0]) && !WithoutDefinitions(ps[0], c) {
        var r := Respond(FRESH, ps[0], c).value.response;
        if r.paramCount > 0 {
          PreparedParams(r, ps[1..], c);
        } else {
          NoParams(r, ps[1..], c);
        }
      }
    }
  }

  // ---- The protocol's layout

  /** An OK packet of a prepare with all its fields: 12 bytes or more, so many columns and parameters. */
  predicate PrepareOk(p: Packet, columns: nat, params: nat) {
    |p.body| == p.header.size >= 12 && OkHead(p) && ColumnsIn(p) == columns && ParamsIn(p) == params
  }

  /** Definitions, and after any of them an EOF packet for a client without DEPRECATE_EOF. */
  function Block(definitions: seq<Packet>, eof: Packet, c: Context): seq<Packet> {
    if definitions == [] || Deprecating(c) then definitions else definitions + [eof]
  }

  /** As the server answers a prepare, parameters first: the proxy takes the response if and only if
      the statement has a parameter and the client has DEPRECATE_EOF. */
  lemma PrepareByProtocol(ok: Packet, params: seq<Packet>, columns: seq<Packet>, eof1: Packet, eof2: Packet, c: Context)
    requires PrepareContext(c) && !HasBit(c.clientFlag.value, OPTIONAL_METADATA)
    requires PrepareOk(ok, |columns|, |params|) && Definitions(params) && Definitions(columns)
    ensures Accepts(FRESH, [ok] + Block(params, eof1, c) + Block(columns, eof2, c), c)
      <==> params != [] && Deprecating(c)
  {
    hide Accepts, Definitions, OkHead, ColumnsIn, ParamsIn;
    var blocks := Block(params, eof1, c) + Block(columns, eof2, c);
    var ps := [ok] + blocks;
    assert ps == [ok] + Block(params, eof1, c) + Block(columns, eof2, c) && ps[0] == ok && ps[1..] == blocks;
    PrepareExactness(ps, c);
    if params != [] && Deprecating(c) {
      JoinedDefinitions(params, columns);
    }
  }

  lemma JoinedDefinitions(a: seq<Packet>, b: seq<Packet>)
    requires Definitions(a) && Definitions(b)
    ensures Definitions(a + b)
  {
    hide ColumnFromBody;
  }

  lemma EofIsNoDefinition(body: seq<byte>)
    requires body != [] && |body| <= 9 && body[0] == 0xFE
    ensures ColumnFromBody(body) == Panic(Malformed)
  {
    hide Widen;
    if DecodeText(body).Done? {
      assert DecodeText(body).value.increment == 9;
      assert DecodeText(body[9..]).Panic?;
      assert DecodeTexts(body[9..], 5).Panic?;
    }
    assert DecodeTexts(body, 6).Panic?;
  }

  lemma {:induction false} RunsUpTo(r: Response, ps: seq<Packet>, x: Packet, c: Context)
    requires Accepts(r, ps, c)
    ensures RespondAll(r, ps + [x], c).Done?
    ensures RespondAll(r, ps + [x], c).value.phase == Phase.Command && RespondAll(r, ps + [x], c).value.rest == [x]
    decreases |ps|
  {
    hide Respond;
    assert ps != [] && (ps + [x])[0] == ps[0] && (ps + [x])[1..] == ps[1..] + [x];
    var re := Respond(r, ps[0], c).value;
    if re.phase == PendingResponse {
      RunsUpTo(re.response, ps[1..], x, c);
    }
  }

  lemma {:induction false} ParamsThenEof(r: Response, params: seq<Packet>, eof: Packet, c: Context)
    requires PrepareContext(c) && r.state in {MetaExchange, HydrateParams} && |r.params| < r.paramCount
    requires r.columnCount > 0 && |r.params| + |params| == r.paramCount && Definitions(params)
    requires ColumnFromBody(eof.body) == Panic(Malformed)
    ensures RespondAll(r, params + [eof], c) == Panic(Malformed)
    decreases |params|
  {
    hide ColumnFromBody;
    var ps := params + [eof];
    assert ps[0] == params[0] && ps[1..] == params[1..] + [eof];
    DefinitionsTail(params);
    var re := Respond(r, ps[0], c).value;
    if |params| > 1 {
      ParamsThenEof(re.response, params[1..], eof, c);
    } else {
      assert ps[1..] == [eof];
    }
  }

  /** What happens to a client without DEPRECATE_EOF: the EOF packet after the parameters panics if
      columns are to follow, and is left over after the end of the response if not. */
  lemma EofAfterParams(ok: Packet, params: seq<Packet>, columns: nat, eof: Packet, c: Context)
    requires PrepareContext(c) && !HasBit(c.clientFlag.value, OPTIONAL_METADATA)
    requires PrepareOk(ok, columns, |params|) && Definitions(params) && params != []
    requires eof.body != [] && |eof.body| <= 9 && eof.body[0] == 0xFE
    ensures columns > 0 ==> RespondAll(FRESH, [ok] + params + [eof], c) == Panic(Malformed)
    ensures columns == 0 ==>
      var run := RespondAll(FRESH, [ok] + params + [eof], c);
      run.Done? && run.value.phase == Phase.Command && run.value.rest == [eof]
  {
    hide Respond, ColumnFromBody, FromLittleEndian;
    var ps := [ok] + params;
    HeadStep(ok, c);
    if columns > 0 {
      EofIsNoDefinition(eof.body);
      ParamsThenEof(Respond(FRESH, ok, c).value.response, params, eof, c);
      assert (ps + [eof])[1..] == params + [eof];
    } else {
      PrepareExactness(ps, c);
      assert ps[1..] == params;
      RunsUpTo(FRESH, ps, eof, c);
    }
  }

  /** An ERR packet in answer to a prepare panics, as does any other that does not begin with a zero. */
  lemma PrepareErrorPanics(p: Packet, c: Context)
    requires PrepareContext(c) && p.body != [] && p.body[0] != 0
    ensures Respond(FRESH, p, c) == Panic(Malformed)
  {
    HeadStep(p, c);
  }

  /** A statement without parameters leaves the proxy waiting after the OK packet, and whatever comes
      then panics. */
  lemma NoParamsNeverEnds(ok: Packet, columns: nat, c: Context)
    requires PrepareContext(c) && !HasBit(c.clientFlag.value, OPTIONAL_METADATA) && PrepareOk(ok, columns, 0)
    ensures StaysPending(FRESH, [ok], c)
    ensures forall p :: Respond(RespondAll(FRESH, [ok], c).value.response, p, c) == Panic(Unsupported)
  {
    hide Respond, FromLittleEndian;
    HeadStep(ok, c);
    var r := Respond(FRESH, ok, c).value.response;
    NoParams(r, [], c);
    assert RespondAll(r, [ok][1..], c) == Done(Run(r, [], PendingResponse, []));
  }
}
