/** Sequence numbers of the packets a client receives (src/mysql/accumulator/result_set.rs:162-176, 367). */
module Coherence {
  import opened Outcomes
  import opened Packets
  import opened Rows
  import opened Responses
  import opened ResponseRuns

  /** Headers carry the body sizes and count up from `first` modulo 256. */
  predicate Numbered(ps: seq<Packet>, first: int) {
    forall i :: 0 <= i < |ps| ==> ps[i].header == Header(|ps[i].body|, (first + i) % 256)
  }

  predicate NoneSkipped(ps: seq<Packet>) {
    forall i :: 0 <= i < |ps| ==> !ps[i].skip
  }

  /** What is written to the client: the packets not marked as skipped. */
  function Emitted(ps: seq<Packet>): seq<Packet> {
    if ps == [] then [] else (if ps[0].skip then [] else [ps[0]]) + Emitted(ps[1..])
  }

  lemma {:induction false} EmittedAppend(a: seq<Packet>, b: seq<Packet>)
    ensures Emitted(a + b) == Emitted(a) + Emitted(b)
  {
    if a == [] {
      assert a + b == b;
    } else {
      assert (a + b)[1..] == a[1..] + b;
      EmittedAppend(a[1..], b);
    }
  }

  lemma {:induction false} EmittedAll(ps: seq<Packet>)
    requires NoneSkipped(ps)
    ensures Emitted(ps) == ps
  {
    if ps != [] {
      EmittedAll(ps[1..]);
    }
  }

  lemma NumberedAppend(a: seq<Packet>, b: seq<Packet>, first: int)
    ensures Numbered(a + b, first) <==> Numbered(a, first) && Numbered(b, first + |a|)
  {
    if Numbered(a + b, first) {
      forall i | 0 <= i < |a| ensures a[i].header == Header(|a[i].body|, (first + i) % 256) {
        assert (a + b)[i] == a[i];
      }
      forall i | 0 <= i < |b| ensures b[i].header == Header(|b[i].body|, (first + |a| + i) % 256) {
        assert (a + b)[|a| + i] == b[i];
      }
    }
  }

  lemma SubtractModulo(x: int, k: nat)
    ensures (x % 256 - k) % 256 == (x - k) % 256
  {
  }

  /** What leaves for one row: numbered down by the rows dropped so far, this one included. */
  lemma RowOutCoherent(r: Response, p: Packet, x: int, c: Context)
    requires TextQuery(c) && AtRows(r, c) && IsRow(p, r.columns, c)
    requires !p.skip && p.header == Header(|p.body|, x % 256)
    ensures var (q, skipped) := RowOut(r, p, c);
      && q.header == Header(|q.body|, (x - skipped) % 256)
      && skipped == r.skipped + (if q.skip then 1 else 0)
  {
    hide Rewrite;
    var (q, skipped) := RowOut(r, p, c);
    SubtractModulo(x, skipped);
  }

  /** Any number of rows, any of them dropped: the emitted ones are consecutive. */
  lemma {:induction false} RowsCoherent(r: Response, ps: seq<Packet>, first: int, c: Context)
    requires TextQuery(c) && AtRows(r, c) && AllRows(ps, r.columns, c)
    requires Numbered(ps, first) && NoneSkipped(ps)
    ensures StaysPending(r, ps, c)
    ensures var run := RespondAll(r, ps, c).value;
      && AtRows(run.response, c) && run.response.columns == r.columns
      && Numbered(Emitted(run.packets), first - r.skipped)
      && |Emitted(run.packets)| == |ps| - (run.response.skipped - r.skipped)
    decreases |ps|
  {
    hide Respond, RespondAll, IsRow, RowOut, Numbered;
    if ps == [] {
      NothingRun(r, ps, first - r.skipped, c);
    } else {
      FirstRow(r, ps, first, c);
      RowStep(r, ps[0], c);
      var re := Respond(r, ps[0], c).value;
      RowsCoherent(re.response, ps[1..], first + 1, c);
      RunStep(r, ps, c, re);
      EmittedStep(re.packet, RespondAll(re.response, ps[1..], c).value.packets, first - r.skipped);
      PendingRun(r, ps, c);
    }
  }

  lemma NothingRun(r: Response, ps: seq<Packet>, first: int, c: Context)
    requires ps == []
    ensures StaysPending(r, ps, c) && RespondAll(r, ps, c) == Done(Run(r, [], PendingResponse, []))
    ensures Emitted([]) == [] && Numbered([], first)
  {
  }

  lemma PendingRun(r: Response, ps: seq<Packet>, c: Context)
    requires RespondAll(r, ps, c).Done? && RespondAll(r, ps, c).value.phase == PendingResponse
    ensures StaysPending(r, ps, c)
  {
  }

  lemma FirstRow(r: Response, ps: seq<Packet>, first: int, c: Context)
    requires TextQuery(c) && AtRows(r, c) && AllRows(ps, r.columns, c)
    requires ps != [] && Numbered(ps, first) && NoneSkipped(ps)
    ensures IsRow(ps[0], r.columns, c) && AllRows(ps[1..], r.columns, c)
    ensures Numbered(ps[1..], first + 1) && NoneSkipped(ps[1..])
    ensures var (q, skipped) := RowOut(r, ps[0], c);
      && q.header == Header(|q.body|, (first - skipped) % 256)
      && skipped == r.skipped + (if q.skip then 1 else 0)
  {
    hide IsRow, RowOut;
    assert ps[0].header == Header(|ps[0].body|, (first + 0) % 256) && IsRow(ps[0], r.columns, c);
    RowOutCoherent(r, ps[0], first, c);
    forall i | 0 <= i < |ps[1..]|
      ensures IsRow(ps[1..][i], r.columns, c) && !ps[1..][i].skip
      ensures ps[1..][i].header == Header(|ps[1..][i].body|, (first + 1 + i) % 256)
    {
      assert ps[1..][i] == ps[i + 1];
    }
  }

  lemma EmittedStep(q: Packet, tail: seq<Packet>, first: int)
    requires !q.skip ==> q.header == Header(|q.body|, first % 256)
    requires Numbered(Emitted(tail), if q.skip then first else first + 1)
    ensures Numbered(Emitted([q] + tail), first)
    ensures |Emitted([q] + tail)| == |Emitted(tail)| + (if q.skip then 0 else 1)
  {
    hide Numbered;
    assert ([q] + tail)[1..] == tail;
    if q.skip {
      assert [] + Emitted(tail) == Emitted(tail);
    } else {
      OneNumbered(q, first);
      NumberedAppend([q], Emitted(tail), first);
    }
  }

  lemma OneNumbered(q: Packet, first: int)
    requires q.header == Header(|q.body|, first % 256)
    ensures Numbered([q], first)
  {
  }

  /** Sequence coherence: of a result set numbered consecutively, the emitted packets are those
      received less the dropped rows, and after an EOF-typed terminator they are numbered
      consecutively too. After a closing OK or ERR they are so only if the number of dropped rows
      is a multiple of 256, because those packets are not renumbered. */
  lemma SequenceCoherence(reply: Reply, first: int, c: Context)
    requires TextQuery(c) && reply.ResultSet? && Valid(reply, c)
    requires Numbered(PacketsOf(reply), first) && NoneSkipped(PacketsOf(reply))
    ensures Accepts(FRESH, PacketsOf(reply), c)
    ensures var run := RespondAll(FRESH, PacketsOf(reply), c).value;
      && |Emitted(run.packets)| == |PacketsOf(reply)| - run.response.skipped
      && (Numbered(Emitted(run.packets), first) <==> Terminates(reply.last) || run.response.skipped % 256 == 0)
  {
    hide Respond, RespondAll, Terminates, Closes, IsRow, Announced, Defines, Numbered, NoneSkipped, Emitted;
    var ResultSet(count, definitions, columns, gap, rows, last) := reply;
    var head := [count] + definitions + gap;
    SplitNumbering(head, rows, last, first);
    ResultSetPackets(reply, c);
    var start := RowsStart(columns, c);
    RowsCoherent(start, rows, first + |head|, c);
    var body := RespondAll(start, rows, c).value;
    var q := if Terminates(last) then Renumber(last, body.response.skipped) else last;
    EmittedOfReply(head, body.packets, q);
    NumberedAppend(head, Emitted(body.packets), first);
    NumberedAppend(head + Emitted(body.packets), [q], first);
    LastNumber(q, last, first + |head| + |rows|, body.response.skipped, Terminates(last));
  }

  /** What leaves for a result set: the head as it is, the rows as the row state leaves them, and
      the last packet. */
  lemma ResultSetPackets(reply: Reply, c: Context)
    requires TextQuery(c) && reply.ResultSet? && Valid(reply, c)
    ensures Accepts(FRESH, PacketsOf(reply), c)
    ensures var rows := RespondAll(RowsStart(reply.columns, c), reply.rows, c);
      && rows.Done?
      && RespondAll(FRESH, PacketsOf(reply), c).value.response == rows.value.response.(state := Complete)
      && RespondAll(FRESH, PacketsOf(reply), c).value.packets
         == [reply.count] + reply.definitions + reply.gap + rows.value.packets
            + [if Terminates(reply.last) then Renumber(reply.last, rows.value.response.skipped) else reply.last]
  {
    hide Respond, RespondAll, Terminates, Closes, IsRow, Announced, Defines;
    var ResultSet(count, definitions, columns, gap, rows, last) := reply;
    var head := [count] + definitions + gap;
    HeadRun(count, definitions, columns, gap, c);
    var start := RespondAll(FRESH, head, c).value.response;
    RowsRun(start, rows, c);
    RunAppend(FRESH, head, rows, c);
    LastStep(RespondAll(start, rows, c).value.response, last, c);
    EndsWith(FRESH, head + rows, last, c);
  }

  lemma SplitNumbering(head: seq<Packet>, rows: seq<Packet>, last: Packet, first: int)
    requires Numbered(head + rows + [last], first) && NoneSkipped(head + rows + [last])
    ensures Numbered(head, first) && NoneSkipped(head)
    ensures Numbered(rows, first + |head|) && NoneSkipped(rows)
    ensures last.header == Header(|last.body|, (first + |head| + |rows|) % 256) && !last.skip
  {
    var n := |head| + |rows|;
    var all := head + rows + [last];
    NumberedAppend(head + rows, [last], first);
    NumberedAppend(head, rows, first);
    assert [last][0] == last && all[n] == last;
    assert forall i :: 0 <= i < |head| ==> all[i] == head[i];
    assert forall i :: 0 <= i < |rows| ==> all[|head| + i] == rows[i];
  }

  lemma EmittedOfReply(head: seq<Packet>, rows: seq<Packet>, last: Packet)
    requires NoneSkipped(head) && !last.skip
    ensures Emitted(head + rows + [last]) == head + Emitted(rows) + [last]
  {
    EmittedAppend(head + rows, [last]);
    EmittedAppend(head, rows);
    EmittedAll(head);
    EmittedAll([last]);
  }

  /** The packet that ends a result set is renumbered if it is a terminator and kept otherwise. */
  lemma LastStep(r: Response, last: Packet, c: Context)
    requires TextQuery(c) && AtRows(r, c) && (Closes(last, c) || Terminates(last))
    ensures Respond(r, last, c) == Done(Reaction(r.(state := Complete),
      if Terminates(last) then Renumber(last, r.skipped) else last, Phase.Command))
  {
    if Terminates(last) {
      TerminatorStep(r, last, c);
    } else {
      ClosingStep(r, last, c);
    }
  }

  lemma LastNumber(q: Packet, last: Packet, x: int, k: nat, renumbered: bool)
    requires last.header == Header(|last.body|, x % 256)
    requires q == if renumbered then Renumber(last, k) else last
    ensures Numbered([q], x - k) <==> renumbered || k % 256 == 0
  {
    SubtractModulo(x, k);
    SameModulo(x, k);
    assert Numbered([q], x - k) <==> [q][0].header == Header(|q.body|, (x - k + 0) % 256);
  }

  lemma SameModulo(x: int, k: nat)
    ensures x % 256 == (x - k) % 256 <==> k % 256 == 0
  {
    var r, s := x % 256, k % 256;
    assert x - k == 256 * (x / 256 - k / 256) + (r - s);
    assert (x - k) % 256 == (r - s) % 256;
  }
}
