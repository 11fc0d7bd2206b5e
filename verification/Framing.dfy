/** Cutting a byte stream into frames and serialising frames again (src/state_handler.rs). */
module Framing {
  import opened Outcomes
  import opened Bytes
  import opened Packets

  /** A packet before it is classified. */
  datatype Frame = Frame(header: Header, body: seq<byte>)

  datatype Parsed = Parsed(frames: seq<Frame>, rest: seq<byte>)

  predicate WellFormed(f: Frame) {
    f.header.size == |f.body| && 0 < |f.body| < MAX_SIZE
  }

  predicate AllWellFormed(fs: seq<Frame>) {
    forall i :: 0 <= i < |fs| ==> WellFormed(fs[i])
  }

  /** The first frame of `bytes`, if it is complete. */
  function NextFrame(bytes: seq<byte>): (r: Option<Frame>)
    ensures r.Some? ==> r.value.header.size == |r.value.body| && 4 + |r.value.body| <= |bytes|
  {
    if |bytes| < 4 then None else
    var h := HeaderFromBytes(bytes[..4]);
    if |bytes| < 4 + h.size then None
    else Some(Frame(h, bytes[4..4 + h.size]))
  }

  predicate Follows(last: Option<byte>, seqNo: byte) {
    last.Some? ==> seqNo == (last.value + 1) % 256
  }

  /** Sequence numbers count up modulo 256. */
  predicate InOrder(fs: seq<Frame>) {
    forall i :: 0 < i < |fs| ==> fs[i].header.seqNo == (fs[i - 1].header.seqNo + 1) % 256
  }

  /** Parse as many frames as are complete; `last` is the sequence number of the frame before. */
  function ReadFrames(bytes: seq<byte>, last: Option<byte>): (r: Outcome<Parsed>)
    ensures r.Done? ==> forall i :: 0 <= i < |r.value.frames| ==> r.value.frames[i].body != []
    decreases |bytes|
  {
    if bytes == [] then Done(Parsed([], [])) else
    match NextFrame(bytes)
    case None => Done(Parsed([], bytes))
    case Some(f) =>
      if f.body == [] then Panic(Malformed)
      else if !Follows(last, f.header.seqNo) then Panic(OutOfOrder)
      else
        var tail :- ReadFrames(bytes[4 + |f.body|..], Some(f.header.seqNo));
        Done(Parsed([f] + tail.frames, tail.rest))
  }

  /** One step of the parse. */
  lemma ReadStep(bytes: seq<byte>, last: Option<byte>, f: Frame)
    requires NextFrame(bytes) == Some(f) && f.body != [] && Follows(last, f.header.seqNo)
    ensures ReadFrames(bytes, last) == match ReadFrames(bytes[4 + |f.body|..], Some(f.header.seqNo))
      case Panic(fault) => Panic(fault)
      case Done(t) => Done(Parsed([f] + t.frames, t.rest))
  {
    hide HeaderFromBytes;
  }

  lemma ReadNothing(bytes: seq<byte>, last: Option<byte>)
    requires NextFrame(bytes) == None
    ensures ReadFrames(bytes, last) == Done(Parsed([], bytes))
  {
    hide HeaderFromBytes;
  }

  /** A parse that succeeds passed the checks on its first frame. */
  lemma ReadChecked(bytes: seq<byte>, last: Option<byte>)
    requires NextFrame(bytes).Some? && ReadFrames(bytes, last).Done?
    ensures var f := NextFrame(bytes).value;
      f.body != [] && Follows(last, f.header.seqNo) && ReadFrames(bytes[4 + |f.body|..], Some(f.header.seqNo)).Done?
  {
    hide HeaderFromBytes;
  }

  function FrameBytes(f: Frame): (s: seq<byte>)
    ensures |s| == 4 + |f.body|
  {
    HeaderToBytes(f.header) + f.body
  }

  function Serialize(fs: seq<Frame>): seq<byte> {
    if fs == [] then [] else FrameBytes(fs[0]) + Serialize(fs[1..])
  }

  lemma {:induction false} SerializeAppend(a: seq<Frame>, b: seq<Frame>)
    ensures Serialize(a + b) == Serialize(a) + Serialize(b)
  {
    if a == [] {
      assert a + b == b;
    } else {
      assert (a + b)[1..] == a[1..] + b;
      SerializeAppend(a[1..], b);
    }
  }

  /** Completing a stream does not change its first complete frame. */
  lemma NextFrameStable(a: seq<byte>, b: seq<byte>)
    requires NextFrame(a).Some?
    ensures NextFrame(a + b) == NextFrame(a)
  {
    var f := NextFrame(a).value;
    assert (a + b)[..4] == a[..4];
    assert (a + b)[4..4 + |f.body|] == a[4..4 + |f.body|];
  }

  /** A complete frame is written back as the bytes it was cut from. */
  lemma CutThenWrite(bytes: seq<byte>)
    requires NextFrame(bytes).Some?
    ensures var f := NextFrame(bytes).value;
      f.header.size < MAX_SIZE && FrameBytes(f) + bytes[4 + |f.body|..] == bytes
  {
    var f := NextFrame(bytes).value;
    HeaderToFromBytes(bytes[..4]);
    assert bytes == bytes[..4] + bytes[4..4 + |f.body|] + bytes[4 + |f.body|..];
  }

  /** A frame comes back from the front of its own bytes exactly when its size is that of its
      body and fits the header. */
  lemma FrameRoundTrip(f: Frame, tail: seq<byte>)
    ensures NextFrame(FrameBytes(f) + tail) == Some(f) <==> f.header.size == |f.body| < MAX_SIZE
    ensures (FrameBytes(f) + tail)[4 + |f.body|..] == tail
  {
    hide HeaderFromBytes, HeaderToBytes;
    var bytes := FrameBytes(f) + tail;
    HeaderFromToBytes(f.header);
    assert bytes[..4] == HeaderToBytes(f.header);
    var r := NextFrame(bytes);
    assert r.Some? ==> r.value.header == HeaderFromBytes(HeaderToBytes(f.header));
    if f.header.size == |f.body| < MAX_SIZE {
      assert bytes[4..4 + |f.body|] == f.body;
    }
  }

  /** Parsing loses nothing: the frames and the unparsed suffix are the bytes that were read. */
  lemma {:induction false} ReadThenSerialize(bytes: seq<byte>, last: Option<byte>)
    requires ReadFrames(bytes, last).Done?
    ensures var p := ReadFrames(bytes, last).value; Serialize(p.frames) + p.rest == bytes
    decreases |bytes|
  {
    hide ReadFrames, NextFrame, HeaderToBytes;
    if NextFrame(bytes).None? {
      ReadNothing(bytes, last);
      assert [] + bytes == bytes;
    } else {
      var f := NextFrame(bytes).value;
      var tail := bytes[4 + |f.body|..];
      ReadChecked(bytes, last);
      ReadStep(bytes, last, f);
      ReadThenSerialize(tail, Some(f.header.seqNo));
      CutThenWrite(bytes);
      var t := ReadFrames(tail, Some(f.header.seqNo)).value;
      assert ([f] + t.frames)[1..] == t.frames;
      assert FrameBytes(f) + (Serialize(t.frames) + t.rest) == bytes;
    }
  }

  /** What a read cuts out is well formed and in order, and no complete frame is left behind. */
  lemma {:induction false} ReadIsComplete(bytes: seq<byte>, last: Option<byte>)
    requires ReadFrames(bytes, last).Done?
    ensures var p := ReadFrames(bytes, last).value;
      && AllWellFormed(p.frames) && InOrder(p.frames)
      && (p.frames != [] ==> Follows(last, p.frames[0].header.seqNo))
      && NextFrame(p.rest) == None
    decreases |bytes|
  {
    hide ReadFrames, NextFrame;
    if NextFrame(bytes).None? {
      ReadNothing(bytes, last);
    } else {
      var f := NextFrame(bytes).value;
      ReadChecked(bytes, last);
      ReadStep(bytes, last, f);
      ReadIsComplete(bytes[4 + |f.body|..], Some(f.header.seqNo));
      CutThenWrite(bytes);
    }
  }

  /** Frames whose sizes fit the header, in order, are parsed back from their bytes. */
  lemma {:induction false} SerializeThenRead(fs: seq<Frame>, tail: seq<byte>, last: Option<byte>)
    requires AllWellFormed(fs) && InOrder(fs) && NextFrame(tail) == None
    requires fs != [] ==> Follows(last, fs[0].header.seqNo)
    ensures ReadFrames(Serialize(fs) + tail, last) == Done(Parsed(fs, tail))
    decreases fs
  {
    hide ReadFrames, NextFrame, FrameBytes;
    if fs == [] {
      assert Serialize(fs) + tail == tail;
      ReadNothing(tail, last);
    } else {
      var f, after := fs[0], Serialize(fs[1..]) + tail;
      SerializeThenRead(fs[1..], tail, Some(f.header.seqNo));
      FrameRoundTrip(f, after);
      assert Serialize(fs) + tail == FrameBytes(f) + after;
      ReadStep(FrameBytes(f) + after, last, f);
      assert fs == [f] + fs[1..];
    }
  }

  /** Forgetting the previous sequence number only drops the order check on the first frame. */
  lemma ReadWithoutLast(bytes: seq<byte>, last: Option<byte>)
    requires ReadFrames(bytes, last).Done?
    ensures ReadFrames(bytes, None) == ReadFrames(bytes, last)
  {
    hide NextFrame;
  }

  /** One read of `a + b` finds the frames of `a`, then those of `a`'s unparsed suffix and `b`. */
  lemma {:induction false} ReadAppend(a: seq<byte>, b: seq<byte>, last: Option<byte>)
    requires ReadFrames(a + b, last).Done?
    ensures ReadFrames(a, last).Done?
    ensures var pa := ReadFrames(a, last).value;
      var pb := ReadFrames(pa.rest + b, None);
      && pb.Done?
      && ReadFrames(a + b, last).value == Parsed(pa.frames + pb.value.frames, pb.value.rest)
    decreases |a|
  {
    hide ReadFrames, NextFrame;
    if NextFrame(a).None? {
      ReadNothing(a, last);
      ReadWithoutLast(a + b, last);
      var none: seq<Frame> := [];
      assert forall fs: seq<Frame> :: none + fs == fs;
    } else {
      NextFrameStable(a, b);
      var f := NextFrame(a).value;
      var rest, next := a[4 + |f.body|..], Some(f.header.seqNo);
      assert (a + b)[4 + |f.body|..] == rest + b;
      ReadChecked(a + b, last);
      ReadStep(a + b, last, f);
      ReadStep(a, last, f);
      ReadAppend(rest, b, next);
      var pa := ReadFrames(rest, next).value;
      var pb := ReadFrames(pa.rest + b, None).value;
      assert [f] + (pa.frames + pb.frames) == [f] + pa.frames + pb.frames;
    }
  }

  /** The proxy's own way: each read is joined with the saved suffix and parsed on its own. */
  function ReadChunks(saved: seq<byte>, chunks: seq<seq<byte>>): Outcome<Parsed>
    decreases |chunks|
  {
    if chunks == [] then Done(Parsed([], saved)) else
    var head :- ReadFrames(saved + chunks[0], None);
    var tail :- ReadChunks(head.rest, chunks[1..]);
    Done(Parsed(head.frames + tail.frames, tail.rest))
  }

  /** Chunking independence: however the stream is split into reads, the proxy finds the frames
      of a one-shot parse and is left with the same unparsed suffix. */
  lemma {:induction false} ChunkingIndependence(saved: seq<byte>, chunks: seq<seq<byte>>)
    requires ReadFrames(saved + Flatten(chunks), None).Done?
    requires NextFrame(saved) == None
    ensures ReadChunks(saved, chunks) == ReadFrames(saved + Flatten(chunks), None)
    decreases |chunks|
  {
    if chunks == [] {
      assert saved + Flatten(chunks) == saved;
    } else {
      var whole := saved + chunks[0];
      assert saved + Flatten(chunks) == whole + Flatten(chunks[1..]);
      ReadAppend(whole, Flatten(chunks[1..]), None);
      ReadIsComplete(whole, None);
      ChunkingIndependence(ReadFrames(whole, None).value.rest, chunks[1..]);
    }
  }

  function Typed(f: Frame, phase: Phase): Packet
    requires f.body != []
  {
    Packet(f.header, f.body, Classify(f.body, phase), false)
  }

  /** All frames of one read are classified by the phase at the start of that read. */
  function TypeAll(fs: seq<Frame>, phase: Phase): (ps: seq<Packet>)
    requires forall i :: 0 <= i < |fs| ==> fs[i].body != []
    ensures |ps| == |fs|
    ensures forall i :: 0 <= i < |fs| ==> ps[i] == Typed(fs[i], phase)
  {
    if fs == [] then [] else [Typed(fs[0], phase)] + TypeAll(fs[1..], phase)
  }

  lemma {:induction false} TypeAllAppend(a: seq<Frame>, b: seq<Frame>, phase: Phase)
    requires forall i :: 0 <= i < |a| ==> a[i].body != []
    requires forall i :: 0 <= i < |b| ==> b[i].body != []
    ensures TypeAll(a + b, phase) == TypeAll(a, phase) + TypeAll(b, phase)
  {
  }

  function Untyped(ps: seq<Packet>): (fs: seq<Frame>)
    ensures |fs| == |ps|
    ensures forall i :: 0 <= i < |ps| ==> fs[i] == Frame(ps[i].header, ps[i].body)
  {
    if ps == [] then [] else [Frame(ps[0].header, ps[0].body)] + Untyped(ps[1..])
  }

  /** Frames are written header first, in order. */
  method GenerateOutgoingFrame(packets: seq<Packet>) returns (ret: seq<byte>)
    ensures ret == Serialize(Untyped(packets))
  {
    ret := [];
    for i := 0 to |packets|
      invariant ret == Serialize(Untyped(packets[..i]))
    {
      var p := packets[i];
      assert Untyped(packets[..i + 1]) == Untyped(packets[..i]) + [Frame(p.header, p.body)];
      SerializeAppend(Untyped(packets[..i]), [Frame(p.header, p.body)]);
      assert [Frame(p.header, p.body)][1..] == [];
      ret := ret + HeaderToBytes(p.header);
      ret := ret + p.body;
    }
    assert packets[..|packets|] == packets;
  }
}
