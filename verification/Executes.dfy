/** Responses to COM_STMT_EXECUTE and COM_STMT_RESET (src/mysql/accumulator/result_set.rs:35-71, 179-191). */
module Executes {
  import opened Outcomes
  import opened Bytes
  import opened Packets
  import opened Responses
  import opened ResponseRuns

  predicate ExecuteContext(c: Context) {
    && c.phase == PendingResponse && c.command.Some? && c.command.value.code == COM_STMT_EXECUTE
    && c.clientFlag.Some? && HasBit(c.clientFlag.value, PROTOCOL_41)
  }

  /** A packet that decodes as what it was classified. */
  predicate Readable(p: Packet, c: Context) {
    && (p.pType == OkPacket ==> OkFromBody(p.body, c.clientFlag).Done?)
    && (p.pType == ErrorPacket ==> ErrorCheck(p.body, c.clientFlag).Done?)
  }

  /** An EOF packet, or an OK packet that is the first of the response. */
  predicate EndsExecution(p: Packet) {
    p.pType == EofPacket || (p.pType == OkPacket && p.header.seqNo == 1)
  }

  lemma ExecuteStep(r: Response, p: Packet, c: Context)
    requires ExecuteContext(c)
    ensures Respond(r, p, c).Done? <==> Readable(p, c)
    ensures Readable(p, c) ==>
      && Respond(r, p, c).value.packet == p
      && Respond(r, p, c).value.phase == if EndsExecution(p) then Phase.Command else PendingResponse
  {
    hide OkFromBody, ErrorCheck;
  }

  /** Execution exactness: rows in the binary protocol pass unread, and a response ends on its first
      EOF packet or on an OK packet numbered 1, provided that OK and ERR packets decode. An ERR does
      not end it. */
  lemma {:induction false} ExecuteExactness(r: Response, ps: seq<Packet>, c: Context)
    requires ExecuteContext(c)
    ensures Accepts(r, ps, c) <==>
      && ps != [] && EndsExecution(ps[|ps| - 1])
      && (forall i :: 0 <= i < |ps| ==> Readable(ps[i], c))
      && (forall i :: 0 <= i < |ps| - 1 ==> !EndsExecution(ps[i]))
    ensures Accepts(r, ps, c) ==> RespondAll(r, ps, c).value.packets == ps
    decreases |ps|
  {
    hide Respond, Readable;
    if ps != [] {
      ExecuteStep(r, ps[0], c);
      assert forall i :: 0 < i < |ps| ==> ps[i] == ps[1..][i - 1];
      if Readable(ps[0], c) {
        var re := Respond(r, ps[0], c).value;
        if !EndsExecution(ps[0]) {
          ExecuteExactness(re.response, ps[1..], c);
          assert ps == [ps[0]] + ps[1..];
        } else {
          assert |ps| == 1 ==> ps == [ps[0]];
        }
      }
    }
  }

  /** A lone ERR in answer to an execution leaves the proxy waiting. */
  lemma ExecuteErrorNeverEnds(r: Response, p: Packet, c: Context)
    requires ExecuteContext(c) && p.pType == ErrorPacket && Readable(p, c)
    ensures StaysPending(r, [p], c)
  {
    hide Respond, Readable;
    ExecuteStep(r, p, c);
    var re := Respond(r, p, c).value;
    assert [p][1..] == [];
    assert RespondAll(re.response, [p][1..], c) == Done(Run(re.response, [], PendingResponse, []));
  }

  /** Any one packet ends the response to COM_STMT_RESET. */
  lemma ResetExactness(r: Response, ps: seq<Packet>, c: Context)
    requires c.phase == PendingResponse && c.command.Some? && c.command.value.code == COM_STMT_RESET
    ensures Accepts(r, ps, c) <==> |ps| == 1
  {
  }
}
