/** Serving recorded responses from the replay cache (src/connection_handler.rs:179-287). */
module Replays {
  import opened Outcomes
  import opened Bytes
  import opened Evaluator
  import opened DiffLog
  import opened Responses

  /** `send_command_to_server`: is the last command left to the server although replay is on? */
  predicate LeftToServer(command: Option<Command>) {
    command.None? || command.value.code != COM_QUERY ||
    (command.value.ast.Some?
        && forall i :: 0 <= i < |command.value.ast.value| ==> NoTableRead(command.value.ast.value[i]))
  }

  /** Not a query at all (so an UPDATE or an INSERT is left to the server), or a plain SELECT
      without a FROM clause. */
  predicate NoTableRead(s: Statement) {
    s.Query? ==> s.select.Some? && !s.select.value.hasFrom
  }

  method SendCommandToServer(replayEnabled: bool, command: Option<Command>) returns (send: bool)
    ensures send == (!replayEnabled || LeftToServer(command))
  {
    if !replayEnabled || command.None? || command.value.code != COM_QUERY {
      return true;
    }
    if command.value.ast.None? {
      return false;
    }
    var ast := command.value.ast.value;
    for i := 0 to |ast|
      invariant forall k :: 0 <= k < i ==> NoTableRead(ast[k])
    {
      if ast[i].Query? && (ast[i].select.None? || ast[i].select.value.hasFrom) {
        assert !NoTableRead(ast[i]);
        return false;
      }
    }
    send := true;
  }

  /** What one cache read hands out and keeps: the kept bytes, or else the entry as it is now. */
  function NextChunk(kept: Option<seq<byte>>, entry: seq<byte>, size: nat): (r: (seq<byte>, Option<seq<byte>>)) {
    var bytes := match kept case None => entry case Some(left) => left;
    if |bytes| <= size then (bytes, None) else (bytes[..size], Some(bytes[size..]))
  }

  class ReplayReader {
    var partialReplayBytes: Option<seq<byte>>

    constructor ()
      ensures partialReplayBytes == None
    {
      partialReplayBytes := None;
    }

    /** `get_response_from_cache_if_replay_enabled`, once the entry has turned up in the cache. */
    method Read(buf: array<byte>, entry: seq<byte>) returns (len: nat)
      modifies this, buf
      ensures len <= buf.Length
      ensures (buf[..len], partialReplayBytes) == NextChunk(old(partialReplayBytes), entry, buf.Length)
      ensures buf[len..] == old(buf[len..])
    {
      var toTransmit := match partialReplayBytes case None => entry case Some(left) => left;
      len := if |toTransmit| < buf.Length then |toTransmit| else buf.Length;
      forall i | 0 <= i < len {
        buf[i] := toTransmit[i];
      }
      assert buf[..len] == toTransmit[..len];
      assert toTransmit[..|toTransmit|] == toTransmit;
      partialReplayBytes := if len < |toTransmit| then Some(toTransmit[len..]) else None;
    }
  }

  /** Successive reads; the cached value may be another one at each of them. */
  function Replay(kept: Option<seq<byte>>, entries: seq<seq<byte>>, size: nat): (r: (seq<seq<byte>>, Option<seq<byte>>))
    ensures |r.0| == |entries|
    decreases |entries|
  {
    if entries == [] then ([], kept) else
    var (chunk, left) := NextChunk(kept, entries[0], size);
    var (chunks, last) := Replay(left, entries[1..], size);
    ([chunk] + chunks, last)
  }

  /** One more read in front: what it hands out comes first. */
  lemma ReplayStep(kept: Option<seq<byte>>, entries: seq<seq<byte>>, size: nat)
    requires entries != []
    ensures var (chunk, left) := NextChunk(kept, entries[0], size);
      var tail := Replay(left, entries[1..], size);
      && Replay(kept, entries, size) == ([chunk] + tail.0, tail.1)
      && Flatten(Replay(kept, entries, size).0) == chunk + Flatten(tail.0)
  {
    var (chunk, left) := NextChunk(kept, entries[0], size);
    var tail := Replay(left, entries[1..], size);
    assert ([chunk] + tail.0)[1..] == tail.0;
  }

  /** What `rounds` reads of `size` bytes can hold. */
  function Room(rounds: nat, size: nat): nat {
    rounds * size
  }

  lemma OneRoundLess(rounds: nat, size: nat)
    requires rounds > 0
    ensures Room(rounds, size) == Room(rounds - 1, size) + size
  {
  }

  function Kept(o: Option<seq<byte>>): seq<byte> {
    match o case None => [] case Some(left) => left
  }

  ghost predicate Delivers(result: (seq<seq<byte>>, Option<seq<byte>>), all: seq<byte>, rounds: nat, size: nat) {
    && Flatten(result.0) + Kept(result.1) == all
    && (result.1.None? <==> |all| <= Room(rounds, size))
  }

  lemma NoReads(kept: Option<seq<byte>>, size: nat)
    ensures Replay(kept, [], size) == ([], kept) && Flatten<byte>([]) == [] && Room(0, size) == 0
  {
  }

  lemma {:induction false} KeptBytesAreDelivered(left: seq<byte>, entries: seq<seq<byte>>, size: nat)
    requires size > 0 && entries != [] && Room(|entries| - 1, size) < |left|
    ensures Delivers(Replay(Some(left), entries, size), left, |entries|, size)
    decreases |entries|
  {
    hide Room, Replay, Flatten;
    var (chunk, rest) := NextChunk(Some(left), entries[0], size);
    assert chunk + Kept(rest) == left;
    ReplayStep(Some(left), entries, size);
    OneRoundLess(|entries|, size);
    if |entries| == 1 {
      NoReads(rest, size);
    } else {
      OneRoundLess(|entries| - 1, size);
      KeptBytesAreDelivered(rest.value, entries[1..], size);
    }
  }

  /** Replay chunking: starting afresh, any number of reads needed and no more hand out the entry
      as it was at the first of them, whatever the cache holds later; nothing is kept exactly from
      the read on that reaches its end, the ceil(length / size)-th. */
  lemma SnapshotIsReplayed(entries: seq<seq<byte>>, size: nat)
    requires size > 0 && entries != [] && Room(|entries| - 1, size) < |entries[0]|
    ensures Delivers(Replay(None, entries, size), entries[0], |entries|, size)
  {
    ReplayStep(None, entries, size);
    ReplayStep(Some(entries[0]), entries, size);
    KeptBytesAreDelivered(entries[0], entries, size);
  }

  /** A lone statement goes to the server exactly if it is none the cache can answer: a SELECT without
      FROM, or no query at all. Every other command goes there, and a query that does not parse does not. */
  lemma LoneStatements(code: byte, arg: Text, selection: Option<Expr>, s: Statement)
    ensures LeftToServer(None)
    ensures code != COM_QUERY ==> forall ast :: LeftToServer(Some(Responses.Command.Command(code, arg, ast)))
    ensures !LeftToServer(Some(Responses.Command.Command(COM_QUERY, arg, None)))
    ensures var left := LeftToServer(Some(Responses.Command.Command(COM_QUERY, arg, Some([s]))));
      && (s.Update? || s.OtherStatement? ==> left)
      && (s == Query(None) ==> !left)
      && (s == Query(Some(Select(selection, true))) ==> !left)
      && (s == Query(Some(Select(selection, false))) ==> left)
  {
    assert s == [s][0];
  }

  /** One statement the cache can answer keeps the whole command from the server. */
  lemma OneIsEnough(arg: Text, a: seq<Statement>, s: Statement, b: seq<Statement>)
    requires !LeftToServer(Some(Responses.Command.Command(COM_QUERY, arg, Some([s]))))
    ensures !LeftToServer(Some(Responses.Command.Command(COM_QUERY, arg, Some(a + [s] + b))))
  {
    assert (a + [s] + b)[|a|] == s;
  }
}
