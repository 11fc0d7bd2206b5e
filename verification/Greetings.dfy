/** The server's handshake packet (src/mysql/accumulator/handshake.rs). */
module Greetings {
  import opened Outcomes
  import opened Bytes
  import opened Types
  import opened Packets

  const PROTOCOL_VERSION: byte := 10

  /** Bytes after the server version up to the second part of the authentication data. */
  const MIDDLE := 31

  /** Capability word of a greeting, in two halves. */
  function Capabilities(middle: seq<byte>): nat
    requires |middle| == MIDDLE
  {
    FromLittleEndian(middle[13..15]) + 0x1_0000 * FromLittleEndian(middle[18..20])
  }

  /** Thread id, first part of the authentication data, filler, capabilities, character set, status,
      data length and ten reserved bytes. */
  predicate MiddleAccepted(middle: seq<byte>)
    requires |middle| == MIDDLE
  {
    && Utf8(middle[4..12]) && middle[12] == 0
    && (HasBit(Capabilities(middle), PLUGIN_AUTH) || middle[20] == 0)
    && forall i :: 21 <= i < 31 ==> middle[i] == 0
  }

  /** Length of the second part of the authentication data. */
  function SecondPart(middle: seq<byte>): nat
    requires |middle| == MIDDLE
  {
    var announced := if HasBit(Capabilities(middle), PLUGIN_AUTH) then middle[20] else 0;
    (if announced > 21 then announced else 21) - 8
  }

  /** The second part of the authentication data, the plugin name if there is to be one, and no more. */
  function CheckData(middle: seq<byte>, data: seq<byte>): (r: Outcome<()>)
    requires |middle| == MIDDLE
    ensures r.Panic? ==> r.fault == Malformed
  {
    var n := SecondPart(middle);
    if |data| < n || !Utf8(data[..n]) then Panic(Malformed)
    else if HasBit(Capabilities(middle), PLUGIN_AUTH) then
      var plugin :- DecodeNul(data[n..]);
      if n + plugin.increment == |data| then Done(()) else Panic(Malformed)
    else if n == |data| then Done(()) else Panic(Malformed)
  }

  /** `HandshakeAccumulator::consume` up to the fields it stores: does it accept the packet? */
  function CheckGreeting(body: seq<byte>): (r: Outcome<()>)
    requires body != []
    ensures r.Panic? ==> r.fault == Malformed
  {
    if body[0] != PROTOCOL_VERSION then Panic(Malformed) else
    var version :- DecodeNul(body[1..]);
    var rest := body[1..][version.increment..];
    if |rest| < MIDDLE || !MiddleAccepted(rest[..MIDDLE]) then Panic(Malformed)
    else CheckData(rest[..MIDDLE], rest[MIDDLE..])
  }

  /** A greeting as section "Protocol::HandshakeV10" lays it out. */
  datatype Greeting = Greeting(version: Text, thread: seq<byte>, data1: Text, capabilities: nat, charset: byte,
                               status: seq<byte>, dataLength: byte, data2: Text, plugin: Text)

  function EncodeMiddle(g: Greeting): seq<byte> {
    g.thread + g.data1 + [0] + LittleEndian(g.capabilities % 0x1_0000, 2) + [g.charset] + g.status
    + LittleEndian(g.capabilities / 0x1_0000, 2) + [g.dataLength] + [0, 0, 0, 0, 0, 0, 0, 0, 0, 0]
  }

  function EncodeGreeting(g: Greeting): seq<byte> {
    [PROTOCOL_VERSION] + (g.version + [0]
    + (EncodeMiddle(g) + (g.data2 + if HasBit(g.capabilities, PLUGIN_AUTH) then g.plugin + [0] else [])))
  }

  /** Field widths, and texts that are UTF-8. */
  predicate Fits(g: Greeting) {
    && NulFree(g.version) && |g.thread| == 4 && |g.data1| == 8 && Utf8(g.data1)
    && g.capabilities < 0x1_0000_0000 && |g.status| == 2 && Utf8(g.data2) && NulFree(g.plugin)
  }

  /** The announced data length is kept: at least 13 bytes, and none announced without a plugin. */
  predicate LengthsAgree(g: Greeting) {
    if HasBit(g.capabilities, PLUGIN_AUTH) then |g.data2| == (if g.dataLength > 21 then g.dataLength else 21) - 8
    else g.dataLength == 0 && |g.data2| == 13
  }

  lemma HalvesJoin(capabilities: nat)
    requires capabilities < 0x1_0000_0000
    ensures FromLittleEndian(LittleEndian(capabilities % 0x1_0000, 2)) == capabilities % 0x1_0000
    ensures FromLittleEndian(LittleEndian(capabilities / 0x1_0000, 2)) == capabilities / 0x1_0000
  {
    assert Pow256(2) == 256 * Pow256(1) && Pow256(1) == 256 * Pow256(0);
    FromLittleEndianInverts(capabilities % 0x1_0000, 2);
    FromLittleEndianInverts(capabilities / 0x1_0000, 2);
  }

  lemma MiddleRoundTrip(g: Greeting)
    requires Fits(g)
    ensures var m := EncodeMiddle(g);
      && |m| == MIDDLE && Capabilities(m) == g.capabilities && m[20] == g.dataLength
      && (MiddleAccepted(m) <==> HasBit(g.capabilities, PLUGIN_AUTH) || g.dataLength == 0)
  {
    hide Utf8, LittleEndian, FromLittleEndian, NulFree;
    var m := EncodeMiddle(g);
    HalvesJoin(g.capabilities);
    assert m[4..12] == g.data1 && m[12] == 0;
    assert m[13..15] == LittleEndian(g.capabilities % 0x1_0000, 2);
    assert m[18..20] == LittleEndian(g.capabilities / 0x1_0000, 2);
  }

  /** A greeting laid out that way is accepted if and only if its lengths agree. */
  lemma GreetingIsAccepted(g: Greeting)
    requires Fits(g) && (HasBit(g.capabilities, PLUGIN_AUTH) ==>
        |g.data2| == (if g.dataLength > 21 then g.dataLength else 21) - 8)
    ensures CheckGreeting(EncodeGreeting(g)).Done? <==> LengthsAgree(g)
  {
    hide Utf8, DecodeNul, EncodeMiddle, Capabilities, MiddleAccepted;
    var body, middle := EncodeGreeting(g), EncodeMiddle(g);
    var data := g.data2 + if HasBit(g.capabilities, PLUGIN_AUTH) then g.plugin + [0] else [];
    MiddleRoundTrip(g);
    assert body[1..] == g.version + [0] + (middle + data);
    NulRoundTrip(g.version, middle + data);
    assert body[1..][|g.version| + 1..] == middle + data;
    assert (middle + data)[..MIDDLE] == middle && (middle + data)[MIDDLE..] == data;
    if HasBit(g.capabilities, PLUGIN_AUTH) {
      assert data[..|g.data2|] == g.data2 && data[|g.data2|..] == g.plugin + [0] + [];
      NulRoundTrip(g.plugin, []);
    } else {
      assert data == g.data2;
      assert |g.data2| == 13 ==> data[..13] == g.data2;
    }
  }

  lemma MiddleIs(middle: seq<byte>) returns (g: Greeting)
    requires |middle| == MIDDLE && MiddleAccepted(middle)
    ensures EncodeMiddle(g) == middle && g.capabilities == Capabilities(middle) < 0x1_0000_0000
    ensures |g.thread| == 4 && |g.data1| == 8 && Utf8(g.data1) && |g.status| == 2 && g.dataLength == middle[20]
  {
    hide Utf8, LittleEndian, FromLittleEndian;
    var low, high := middle[13..15], middle[18..20];
    HalfWord(low);
    HalfWord(high);
    var capabilities := Capabilities(middle);
    assert capabilities % 0x1_0000 == FromLittleEndian(low) && capabilities / 0x1_0000 == FromLittleEndian(high);
    g := Greeting([], middle[..4], middle[4..12], capabilities, middle[15], middle[16..18], middle[20], [], []);
    var zeros: seq<byte> := [0, 0, 0, 0, 0, 0, 0, 0, 0, 0];
    assert middle[21..31] == zeros;
    assert middle == middle[..4] + middle[4..12] + [middle[12]] + low + [middle[15]] + middle[16..18] + high
                  + [middle[20]] + middle[21..31];
  }

  lemma HalfWord(bytes: seq<byte>)
    requires |bytes| == 2
    ensures FromLittleEndian(bytes) < 0x1_0000 && LittleEndian(FromLittleEndian(bytes), 2) == bytes
  {
    LittleEndianInverts(bytes);
    assert Pow256(2) == 256 * Pow256(1) && Pow256(1) == 256 * Pow256(0);
  }

  /** What the accepted data after the middle is. */
  lemma DataIs(middle: seq<byte>, data: seq<byte>) returns (data2: Text, plugin: Text)
    requires |middle| == MIDDLE && CheckData(middle, data).Done?
    ensures |data2| == SecondPart(middle) && Utf8(data2) && NulFree(plugin)
    ensures data == data2 + if HasBit(Capabilities(middle), PLUGIN_AUTH) then plugin + [0] else []
  {
    hide Utf8, DecodeNul, Capabilities, NulFree, SecondPart;
    var n := SecondPart(middle);
    data2, plugin := data[..n], [];
    EmptyIsNulFree();
    if HasBit(Capabilities(middle), PLUGIN_AUTH) {
      NulParts(data[n..]);
      plugin := DecodeNul(data[n..]).value.result;
      assert data[n..] == plugin + [0];
      assert data == data[..n] + data[n..];
    } else {
      assert data == data[..n];
    }
  }

  lemma LengthsDo(g: Greeting, middle: seq<byte>)
    requires |middle| == MIDDLE && MiddleAccepted(middle) && g.capabilities == Capabilities(middle)
    requires g.dataLength == middle[20] && |g.data2| == SecondPart(middle)
    ensures LengthsAgree(g)
  {
    hide Capabilities, Utf8;
  }

  /** What an accepted greeting says. */
  lemma GreetingIs(body: seq<byte>) returns (g: Greeting)
    requires body != [] && CheckGreeting(body).Done?
    ensures Fits(g) && LengthsAgree(g) && body == EncodeGreeting(g)
  {
    hide Utf8, DecodeNul, EncodeMiddle, Capabilities, MiddleAccepted, NulFree, CheckData, SecondPart, LengthsAgree;
    NulParts(body[1..]);
    var version := DecodeNul(body[1..]).value.result;
    var rest := body[1..][|version| + 1..];
    var middle, data := rest[..MIDDLE], rest[MIDDLE..];
    var m := MiddleIs(middle);
    var data2, plugin := DataIs(middle, data);
    g := m.(version := version, data2 := data2, plugin := plugin);
    SameMiddle(m, g);
    LengthsDo(g, middle);
    assert rest == middle + data;
    assert body == [body[0]] + (version + [0] + rest);
  }

  lemma EmptyIsNulFree()
    ensures NulFree([])
  {
  }

  lemma SameMiddle(a: Greeting, b: Greeting)
    requires b == a.(version := b.version, data2 := b.data2, plugin := b.plugin)
    ensures EncodeMiddle(a) == EncodeMiddle(b)
  {
  }

  /** The proxy accepts the server's greeting if and only if it is laid out as the protocol says. */
  lemma GreetingExactness(body: seq<byte>)
    requires body != []
    ensures CheckGreeting(body).Done? <==> exists g :: Fits(g) && LengthsAgree(g) && body == EncodeGreeting(g)
  {
    hide CheckGreeting, EncodeGreeting, Fits;
    if CheckGreeting(body).Done? {
      var g := GreetingIs(body);
    }
    if g :| Fits(g) && LengthsAgree(g) && body == EncodeGreeting(g) {
      GreetingIsAccepted(g);
    }
  }
}
