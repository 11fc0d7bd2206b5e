/** How often one packet is fed back into the accumulator (src/mysql/accumulator/result_set.rs:274-393). */
module Refeeding {
  import opened Outcomes
  import opened Bytes
  import opened Packets
  import opened Rows
  import opened Responses
  import opened ResponseAccumulators

  /** The state in which `process_result_set` feeds the same packet back, if it does. */
  function Refed(s: State, p: Packet, c: Context): Option<State>
    requires TextPacket(p, c)
  {
    var code := c.command.value.code;
    match s
    case Initiated =>
      if code == COM_QUERY then
        if c.clientFlag.None? then None
        else if HasBit(c.clientFlag.value, OPTIONAL_METADATA) then Some(MetaExchange) else Some(ColumnCount)
      else if code == COM_FIELD_LIST then Some(HydrateColumns)
      else Some(Complete)
    case HydrateColumns => if code == COM_FIELD_LIST && p.pType == EofPacket then Some(ColumnsHydrated) else None
    case ColumnsHydrated => if Deprecating(c) then Some(HydrateRows) else None
    case HydrateRows =>
      if p.pType != EofPacket || EofStatus(p.body, c.clientFlag).Panic? then None
      else
        var status := EofStatus(p.body, c.clientFlag).value;
        if status.None? then None
        else if HasBit(status.value, MORE_RESULTS) then Some(Initiated) else Some(Complete)
    case _ => None
  }

  /** At most `n` feeds after the first until the packet is settled. */
  predicate Settles(s: State, p: Packet, c: Context, n: nat)
    requires TextPacket(p, c)
    decreases n
  {
    match Refed(s, p, c)
    case None => true
    case Some(next) => n > 0 && Settles(next, p, c, n - 1)
  }

  /** A COM_FIELD_LIST terminator announcing more results, under DEPRECATE_EOF. */
  predicate Loops(s: State, p: Packet, c: Context)
    requires TextPacket(p, c)
  {
    && c.command.value.code == COM_FIELD_LIST && Deprecating(c) && p.pType == EofPacket
    && s in {Initiated, HydrateColumns, ColumnsHydrated, HydrateRows}
    && EofStatus(p.body, c.clientFlag).Done? && EofStatus(p.body, c.clientFlag).value.Some?
    && HasBit(EofStatus(p.body, c.clientFlag).value.value, MORE_RESULTS)
  }

  lemma {:induction false} LoopsForever(s: State, p: Packet, c: Context, n: nat)
    requires TextPacket(p, c) && Loops(s, p, c)
    ensures !Settles(s, p, c, n)
    decreases n
  {
    hide EofStatus;
    if n > 0 {
      LoopsForever(Refed(s, p, c).value, p, c, n - 1);
    }
  }

  /** Feeding a packet back moves down the rank the accumulator's recursion is bounded by, except
      around that one loop. */
  lemma RefeedingDescends(s: State, p: Packet, c: Context)
    requires TextPacket(p, c) && Refed(s, p, c).Some? && !Loops(s, p, c)
    ensures Rank(Refed(s, p, c).value, c) < Rank(s, c)
    ensures !Loops(Refed(s, p, c).value, p, c)
  {
    hide FromLittleEndian;
  }

  lemma {:induction false} SettlesByRank(s: State, p: Packet, c: Context)
    requires TextPacket(p, c) && !Loops(s, p, c)
    ensures Settles(s, p, c, Rank(s, c))
    decreases Rank(s, c)
  {
    hide Refed, Loops, Rank;
    if Refed(s, p, c).Some? {
      RefeedingDescends(s, p, c);
      SettlesByRank(Refed(s, p, c).value, p, c);
      SettlesMore(Refed(s, p, c).value, p, c, Rank(Refed(s, p, c).value, c), Rank(s, c) - 1);
    }
  }

  lemma {:induction false} SettlesMore(s: State, p: Packet, c: Context, n: nat, m: nat)
    requires TextPacket(p, c) && n <= m && Settles(s, p, c, n)
    ensures Settles(s, p, c, m)
    decreases n
  {
    hide Refed;
    if Refed(s, p, c).Some? {
      SettlesMore(Refed(s, p, c).value, p, c, n - 1, m - 1);
    }
  }

  /** Termination on one packet: the accumulator stops feeding a packet back, after at most five
      rounds, if and only if it is not a COM_FIELD_LIST terminator announcing more results. */
  lemma RefeedingTerminates(s: State, p: Packet, c: Context)
    requires TextPacket(p, c)
    ensures (exists n :: Settles(s, p, c, n)) <==> !Loops(s, p, c)
    ensures !Loops(s, p, c) ==> Settles(s, p, c, 5)
  {
    if Loops(s, p, c) {
      forall n: nat ensures !Settles(s, p, c, n) {
        LoopsForever(s, p, c, n);
      }
    } else {
      SettlesByRank(s, p, c);
      SettlesMore(s, p, c, Rank(s, c), 5);
    }
  }

  /** The overflow the model reports is exactly that loop. */
  lemma OverflowIsTheLoop(r: Response, p: Packet, c: Context)
    requires TextPacket(p, c)
    ensures Respond(r, p, c) == Panic(StackOverflow) <==> Loops(r.state, p, c)
  {
    hide ColumnFromBody, FromLittleEndian, Rewrite;
  }
}
