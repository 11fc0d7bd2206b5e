/** The packets of the connection phase and the command packet: what each makes the proxy store
    and which phase it chooses (src/mysql/accumulator). */
module Handshakes {
  import opened Outcomes
  import opened Bytes
  import opened Types
  import opened Packets
  import opened DiffLog
  import opened Responses

  type Attributes = map<Text, Text>

  /** What a handshake response decides: the next phase, the capability word and the attributes. */
  datatype Reply = Reply(phase: Phase, clientFlag: nat, attributes: Attributes)

  const FIXED_PART := 32

  /** The capability word of a handshake response whose fixed part is acceptable. */
  function ReadFixedPart(body: seq<byte>): (r: Outcome<nat>)
    ensures r.Panic? ==> r.fault in {Malformed, Unsupported}
    ensures r.Done? ==> |body| >= FIXED_PART && HasBit(r.value, PROTOCOL_41)
  {
    var flag :- DecodeFixed(body, 4);
    if !HasBit(flag, PROTOCOL_41) then Panic(Unsupported)
    else if |body| < FIXED_PART || exists i :: 9 <= i < FIXED_PART && body[i] != 0 then Panic(Malformed)
    else Done(flag)
  }

  /** Bytes taken by user name, authentication data, database and plugin name. */
  function CredentialsLength(bytes: seq<byte>, flag: nat): (r: Outcome<nat>)
    ensures r.Panic? ==> r.fault == Malformed
    ensures r.Done? ==> r.value <= |bytes|
  {
    var user :- DecodeNul(bytes);
    var a := user.increment;
    var auth :- AuthDataLength(bytes[a..], flag);
    var b := a + auth;
    var database :- if HasBit(flag, CONNECT_WITH_DB) then NulLength(bytes[b..]) else Done(0);
    var d := b + database;
    var plugin :- if HasBit(flag, PLUGIN_AUTH) then NulLength(bytes[d..]) else Done(0);
    Done(d + plugin)
  }

  function AuthDataLength(bytes: seq<byte>, flag: nat): (r: Outcome<nat>)
    ensures r.Panic? ==> r.fault == Malformed
    ensures r.Done? ==> r.value <= |bytes|
  {
    if HasBit(flag, LENENC_AUTH_DATA) then
      var data :- DecodeText(bytes); Done(data.increment)
    else
      var n :- DecodeFixed(bytes, 1);
      if 1 + n > |bytes| || !Utf8(bytes[1..1 + n]) then Panic(Malformed) else Done(1 + n)
  }

  function NulLength(bytes: seq<byte>): (r: Outcome<nat>)
    ensures r.Panic? ==> r.fault == Malformed
    ensures r.Done? ==> r.value <= |bytes|
  {
    var t :- DecodeNul(bytes); Done(t.increment)
  }

  /** The attribute loop: pairs are read while fewer than the announced bytes are consumed. */
  function ReadAttributes(bytes: seq<byte>, left: int, found: Attributes): (r: Outcome<Attributes>)
    ensures r.Panic? ==> r.fault == Malformed
    decreases |bytes|
  {
    if left <= 0 then Done(found) else
    var key :- DecodeText(bytes);
    var value :- DecodeText(bytes[key.increment..]);
    var n := key.increment + value.increment;
    ReadAttributes(bytes[n..], left - n, found[key.result := value.result])
  }

  /** The announced attribute length is cut to 8 bits. */
  function AttributesOf(bytes: seq<byte>, flag: nat): (r: Outcome<Attributes>)
    ensures r.Panic? ==> r.fault == Malformed
  {
    if !HasBit(flag, CONNECT_ATTRS) then Done(map[]) else
    var n :- DecodeLenEnc(bytes);
    ReadAttributes(bytes[n.increment..], n.result % 256, map[])
  }

  /** `plain` says that the client connection is not encrypted yet. */
  function ReadReply(body: seq<byte>, plain: bool): (r: Outcome<Reply>)
    ensures r.Panic? ==> r.fault in {Malformed, Unsupported}
  {
    var flag :- ReadFixedPart(body);
    if plain && HasBit(flag, SSL) then
      if |body| != FIXED_PART then Panic(Malformed) else Done(Reply(TlsExchange, flag, map[]))
    else
      var rest := body[FIXED_PART..];
      var n :- CredentialsLength(rest, flag);
      var attributes :- AttributesOf(rest[n..], flag);
      // the compression level is asked for with a fixed length, which its decoder refuses
      if HasBit(flag, ZSTD) then Panic(Malformed) else Done(Reply(AuthInit, flag, attributes))
  }

  /** `HandshakeResponseAccumulator::consume`. */
  method ConsumeHandshakeResponse(body: seq<byte>, plain: bool) returns (r: Outcome<Reply>)
    ensures r == ReadReply(body, plain)
  {
    hide ReadFixedPart, CredentialsLength, AttributesOf;
    var flag := ReadFixedPart(body);
    if flag.Panic? {
      return Panic(flag.fault);
    }
    if plain && HasBit(flag.value, SSL) {
      return if |body| != FIXED_PART then Panic(Malformed) else Done(Reply(TlsExchange, flag.value, map[]));
    }
    var n := CredentialsLength(body[FIXED_PART..], flag.value);
    if n.Panic? {
      return Panic(n.fault);
    }
    assert body[FIXED_PART..][n.value..] == body[FIXED_PART + n.value..];
    var attributes := ConsumeAttributes(body, FIXED_PART + n.value, flag.value);
    if attributes.Panic? {
      return Panic(attributes.fault);
    }
    r := if HasBit(flag.value, ZSTD) then Panic(Malformed) else Done(Reply(AuthInit, flag.value, attributes.value));
  }

  /** The connection attribute loop of `consume`. */
  method ConsumeAttributes(body: seq<byte>, from: nat, flag: nat) returns (r: Outcome<Attributes>)
    requires from <= |body|
    ensures r == AttributesOf(body[from..], flag)
  {
    hide DecodeLenEnc, DecodeText;
    if !HasBit(flag, CONNECT_ATTRS) {
      return Done(map[]);
    }
    var length := DecodeLenEnc(body[from..]);
    if length.Panic? {
      return Panic(length.fault);
    }
    var start, announced := from + length.value.increment, length.value.result % 256;
    assert body[from..][length.value.increment..] == body[start..];
    var offset := start;
    var attributes: Attributes := map[];
    while offset < start + announced
      invariant start <= offset <= |body|
      invariant ReadAttributes(body[offset..], start + announced - offset, attributes)
             == ReadAttributes(body[start..], announced, map[])
      decreases |body| - offset
    {
      var key := DecodeText(body[offset..]);
      if key.Panic? {
        return Panic(key.fault);
      }
      var middle := offset + key.value.increment;
      assert body[offset..][key.value.increment..] == body[middle..];
      var value := DecodeText(body[middle..]);
      if value.Panic? {
        return Panic(value.fault);
      }
      attributes := attributes[key.value.result := value.value.result];
      assert body[offset..][key.value.increment + value.value.increment..] == body[middle + value.value.increment..];
      offset := middle + value.value.increment;
    }
    r := Done(attributes);
  }

  /** The phase choice: an unencrypted client asking for SSL gets the TLS exchange, on a request
      without credentials; everyone else goes on to authentication. Either way 4.1 is granted. */
  lemma ReplyChoice(body: seq<byte>, plain: bool)
    requires ReadReply(body, plain).Done?
    ensures var reply := ReadReply(body, plain).value;
      && HasBit(reply.clientFlag, PROTOCOL_41) && reply.clientFlag == FromLittleEndian(body[..4])
      && reply.phase == (if plain && HasBit(reply.clientFlag, SSL) then TlsExchange else AuthInit)
      && (reply.phase == TlsExchange ==> |body| == FIXED_PART)
  {
    hide CredentialsLength, AttributesOf;
  }

  function EncodePairs(pairs: seq<(Text, Text)>): seq<byte> {
    if pairs == [] then [] else EncodeText(pairs[0].0) + EncodeText(pairs[0].1) + EncodePairs(pairs[1..])
  }

  function MapOf(pairs: seq<(Text, Text)>, found: Attributes): Attributes {
    if pairs == [] then found else MapOf(pairs[1..], found[pairs[0].0 := pairs[0].1])
  }

  predicate AsciiPairs(pairs: seq<(Text, Text)>) {
    forall i :: 0 <= i < |pairs| ==> Ascii(pairs[i].0) && Ascii(pairs[i].1) && |pairs[i].0| < U64 && |pairs[i].1| < U64
  }

  function PairLength(pair: (Text, Text)): nat {
    |EncodeText(pair.0)| + |EncodeText(pair.1)|
  }

  /** How many pairs the loop enters when it is to consume `left` bytes. */
  function Covered(pairs: seq<(Text, Text)>, left: int): (n: nat)
    ensures n <= |pairs|
    decreases |pairs|
  {
    if pairs == [] || left <= 0 then 0 else 1 + Covered(pairs[1..], left - PairLength(pairs[0]))
  }

  lemma {:induction false} PairsRoundTrip(pairs: seq<(Text, Text)>, tail: seq<byte>, left: int, found: Attributes)
    requires AsciiPairs(pairs) && left <= |EncodePairs(pairs)|
    ensures ReadAttributes(EncodePairs(pairs) + tail, left, found) == Done(MapOf(pairs[..Covered(pairs, left)], found))
    decreases |pairs|
  {
    hide ReadAttributes, EncodeText, Ascii;
    var n := Covered(pairs, left);
    if pairs != [] && left > 0 {
      var rest := EncodePairs(pairs[1..]) + tail;
      var next := found[pairs[0].0 := pairs[0].1];
      assert EncodePairs(pairs) + tail == EncodeText(pairs[0].0) + (EncodeText(pairs[0].1) + rest);
      ReadOnePair(pairs[0], rest, left, found);
      PairsRoundTrip(pairs[1..], tail, left - PairLength(pairs[0]), next);
      assert pairs[..n][0] == pairs[0] && pairs[..n][1..] == pairs[1..][..n - 1];
    } else {
      ReadNoPair(EncodePairs(pairs) + tail, left, found);
    }
  }

  lemma ReadNoPair(bytes: seq<byte>, left: int, found: Attributes)
    requires left <= 0
    ensures ReadAttributes(bytes, left, found) == Done(found)
  {
  }

  lemma ReadOnePair(pair: (Text, Text), rest: seq<byte>, left: int, found: Attributes)
    requires Ascii(pair.0) && Ascii(pair.1) && |pair.0| < U64 && |pair.1| < U64 && left > 0
    ensures ReadAttributes(EncodeText(pair.0) + (EncodeText(pair.1) + rest), left, found)
         == ReadAttributes(rest, left - PairLength(pair), found[pair.0 := pair.1])
  {
    hide DecodeText, EncodeText, Ascii;
    PairRoundTrip(pair.0, pair.1, rest);
  }

  lemma PairRoundTrip(k: Text, v: Text, rest: seq<byte>)
    requires Ascii(k) && Ascii(v) && |k| < U64 && |v| < U64
    ensures var bytes := EncodeText(k) + (EncodeText(v) + rest);
      && DecodeText(bytes) == Done(Decoded(k, |EncodeText(k)|))
      && DecodeText(bytes[|EncodeText(k)|..]) == Done(Decoded(v, |EncodeText(v)|))
      && bytes[|EncodeText(k)| + |EncodeText(v)|..] == rest
  {
    hide DecodeText, EncodeText;
    TextRoundTrip(k, EncodeText(v) + rest);
    TextRoundTrip(v, rest);
    assert (EncodeText(k) + (EncodeText(v) + rest))[|EncodeText(k)|..] == EncodeText(v) + rest;
  }

  /** The length of an attribute block is kept in 8 bits: what is recovered from a block of ASCII
      attributes are the leading pairs that begin before that many bytes are consumed. */
  lemma AttributesRoundTrip(pairs: seq<(Text, Text)>, tail: seq<byte>, flag: nat)
    requires AsciiPairs(pairs) && |EncodePairs(pairs)| < U64 && HasBit(flag, CONNECT_ATTRS)
    ensures AttributesOf(EncodeText(EncodePairs(pairs)) + tail, flag)
         == Done(MapOf(pairs[..Covered(pairs, |EncodePairs(pairs)| % 256)], map[]))
  {
    hide DecodeLenEnc, EncodeLenEnc, EncodePairs, ReadAttributes, MapOf, Ascii, Covered;
    var block := EncodePairs(pairs);
    assert EncodeText(block) + tail == EncodeLenEnc(|block|) + (block + tail);
    LenEncRoundTrip(|block|, block + tail);
    assert (EncodeText(block) + tail)[|EncodeLenEnc(|block|)|..] == block + tail;
    PairsRoundTrip(pairs, tail, |block| % 256, map[]);
  }

  predicate DistinctKeys(pairs: seq<(Text, Text)>) {
    forall i, j :: 0 <= i < j < |pairs| ==> pairs[i].0 != pairs[j].0
  }

  lemma {:induction false} MapOfKeys(pairs: seq<(Text, Text)>, found: Attributes, key: Text)
    ensures key in MapOf(pairs, found) <==> key in found || exists i :: 0 <= i < |pairs| && pairs[i].0 == key
    decreases |pairs|
  {
    if pairs != [] {
      MapOfKeys(pairs[1..], found[pairs[0].0 := pairs[0].1], key);
      assert forall i :: 0 < i < |pairs| ==> pairs[i] == pairs[1..][i - 1];
    }
  }

  lemma {:induction false} AllCovered(pairs: seq<(Text, Text)>, left: int)
    requires pairs != []
    ensures Covered(pairs, left) == |pairs| <==> |EncodePairs(pairs[..|pairs| - 1])| < left
    decreases |pairs|
  {
    hide EncodeText;
    var before := pairs[..|pairs| - 1];
    if |pairs| == 1 {
      assert EncodePairs(before) == [] && Covered(pairs[1..], left - PairLength(pairs[0])) == 0;
    } else {
      AllCovered(pairs[1..], left - PairLength(pairs[0]));
      assert before[0] == pairs[0] && before[1..] == pairs[1..][..|pairs| - 2];
    }
  }

  /** Attributes with distinct keys are all recovered if and only if there are none or all of them
      but the last take fewer bytes than their block's length leaves modulo 256. */
  lemma AttributesRecovered(pairs: seq<(Text, Text)>, tail: seq<byte>, flag: nat)
    requires AsciiPairs(pairs) && DistinctKeys(pairs) && |EncodePairs(pairs)| < U64 && HasBit(flag, CONNECT_ATTRS)
    ensures AttributesOf(EncodeText(EncodePairs(pairs)) + tail, flag) == Done(MapOf(pairs, map[]))
      <==> pairs == [] || |EncodePairs(pairs[..|pairs| - 1])| < |EncodePairs(pairs)| % 256
  {
    hide EncodePairs, EncodeText, MapOf, Covered, AttributesOf, AsciiPairs;
    AttributesRoundTrip(pairs, tail, flag);
    var n := Covered(pairs, |EncodePairs(pairs)| % 256);
    if pairs == [] {
      assert pairs[..n] == pairs;
    } else {
      AllCovered(pairs, |EncodePairs(pairs)| % 256);
      if n == |pairs| {
        assert pairs[..n] == pairs;
      } else {
        var last := pairs[|pairs| - 1].0;
        MapOfKeys(pairs, map[], last);
        MapOfKeys(pairs[..n], map[], last);
      }
    }
  }

  /** A block is not read at all if and only if it is empty or its length is a multiple of 256. */
  lemma AttributesCutOff(pairs: seq<(Text, Text)>, tail: seq<byte>, flag: nat)
    requires AsciiPairs(pairs) && |EncodePairs(pairs)| < U64 && HasBit(flag, CONNECT_ATTRS)
    ensures AttributesOf(EncodeText(EncodePairs(pairs)) + tail, flag) == Done(map[])
      <==> pairs == [] || |EncodePairs(pairs)| % 256 == 0
  {
    hide EncodePairs, EncodeText, MapOf, AttributesOf, AsciiPairs;
    AttributesRoundTrip(pairs, tail, flag);
    var n := Covered(pairs, |EncodePairs(pairs)| % 256);
    if n == 0 {
      NothingMapped(pairs[..n]);
    } else {
      MapOfKeys(pairs[..n], map[], pairs[0].0);
      assert pairs[..n][0] == pairs[0];
    }
  }

  lemma NothingMapped(pairs: seq<(Text, Text)>)
    requires pairs == []
    ensures MapOf(pairs, map[]) == map[]
  {
  }

  /** What a client sends after the fixed part. */
  datatype Credentials = Credentials(user: Text, auth: seq<byte>, database: Text, plugin: Text,
      pairs: seq<(Text, Text)>)

  predicate Sendable(r: Credentials, flag: nat) {
    && NulFree(r.user) && NulFree(r.database) && NulFree(r.plugin)
    && (if HasBit(flag, LENENC_AUTH_DATA) then |r.auth| < U64 else |r.auth| < 256 && Utf8(r.auth))
    && AsciiPairs(r.pairs) && |EncodePairs(r.pairs)| < U64
  }

  function EncodeAuth(auth: seq<byte>, flag: nat): seq<byte>
    requires |auth| < 256 || HasBit(flag, LENENC_AUTH_DATA)
  {
    if HasBit(flag, LENENC_AUTH_DATA) then EncodeText(auth) else [|auth|] + auth
  }

  function EncodeNul(t: Text, present: bool): seq<byte> {
    if present then t + [0] else []
  }

  function EncodeCredentials(r: Credentials, flag: nat): seq<byte>
    requires Sendable(r, flag)
  {
    EncodeNul(r.user, true) + EncodeAuth(r.auth, flag)
    + EncodeNul(r.database, HasBit(flag, CONNECT_WITH_DB)) + EncodeNul(r.plugin, HasBit(flag, PLUGIN_AUTH))
  }

  /** The fixed part: capability word, maximum packet size, character set and 23 zero bytes. */
  function EncodeFixedPart(flag: nat, sizeAndSet: seq<byte>): (s: seq<byte>)
    requires |sizeAndSet| == 5
    ensures |s| == FIXED_PART
  {
    LittleEndian(flag, 4) + sizeAndSet + seq(23, _ => 0)
  }

  lemma FixedPartRoundTrip(flag: nat, sizeAndSet: seq<byte>, tail: seq<byte>)
    requires |sizeAndSet| == 5 && flag < 0x1_0000_0000 && HasBit(flag, PROTOCOL_41)
    ensures ReadFixedPart(EncodeFixedPart(flag, sizeAndSet) + tail) == Done(flag)
  {
    var body := EncodeFixedPart(flag, sizeAndSet) + tail;
    assert body[..4] == LittleEndian(flag, 4);
    assert Pow256(4) == 256 * Pow256(3) && Pow256(3) == 256 * Pow256(2) && Pow256(2) == 256 * Pow256(1);
    FromLittleEndianInverts(flag, 4);
  }

  lemma AuthRoundTrip(auth: seq<byte>, flag: nat, tail: seq<byte>)
    requires if HasBit(flag, LENENC_AUTH_DATA) then |auth| < U64 else |auth| < 256 && Utf8(auth)
    ensures AuthDataLength(EncodeAuth(auth, flag) + tail, flag) == Done(|EncodeAuth(auth, flag)|)
  {
    hide DecodeText, EncodeText, Utf8;
    if HasBit(flag, LENENC_AUTH_DATA) {
      TextRoundTrip(auth, tail);
    } else {
      var bytes := [|auth|] + auth + tail;
      assert bytes[..1] == [|auth|] && FromLittleEndian([|auth|]) == |auth|;
      assert bytes[1..1 + |auth|] == auth;
    }
  }

  lemma OptionalNulRoundTrip(t: Text, present: bool, tail: seq<byte>)
    requires NulFree(t)
    ensures (if present then NulLength(EncodeNul(t, present) + tail) else Done(0)) == Done(|EncodeNul(t, present)|)
  {
    hide DecodeNul;
    NulRoundTrip(t, tail);
  }

  lemma CredentialsRoundTrip(r: Credentials, flag: nat, tail: seq<byte>)
    requires Sendable(r, flag)
    ensures CredentialsLength(EncodeCredentials(r, flag) + tail, flag) == Done(|EncodeCredentials(r, flag)|)
  {
    hide NulFree, DecodeNul, EncodeNul, EncodeAuth, AuthDataLength, NulLength, AsciiPairs, EncodePairs;
    var u, x := EncodeNul(r.user, true), EncodeAuth(r.auth, flag);
    var d := EncodeNul(r.database, HasBit(flag, CONNECT_WITH_DB));
    var g := EncodeNul(r.plugin, HasBit(flag, PLUGIN_AUTH));
    var bytes := EncodeCredentials(r, flag) + tail;
    assert bytes == u + (x + (d + (g + tail)));
    UserRoundTrip(r.user, x + (d + (g + tail)));
    assert bytes[|u|..] == x + (d + (g + tail));
    AuthRoundTrip(r.auth, flag, d + (g + tail));
    assert bytes[|u| + |x|..] == d + (g + tail);
    OptionalNulRoundTrip(r.database, HasBit(flag, CONNECT_WITH_DB), g + tail);
    assert bytes[|u| + |x| + |d|..] == g + tail;
    OptionalNulRoundTrip(r.plugin, HasBit(flag, PLUGIN_AUTH), tail);
  }

  lemma UserRoundTrip(user: Text, tail: seq<byte>)
    requires NulFree(user)
    ensures DecodeNul(EncodeNul(user, true) + tail) == Done(Decoded(user, |EncodeNul(user, true)|))
  {
    hide DecodeNul, Utf8;
    NulRoundTrip(user, tail);
  }

  /** A handshake response laid out as section "Protocol::HandshakeResponse41" describes, from a
      client that asks for no encryption or has it already, sends the proxy on to authentication
      with exactly its capability word and those connection attributes the 8-bit length covers. */
  lemma HandshakeResponseRoundTrip(flag: nat, sizeAndSet: seq<byte>, r: Credentials, plain: bool)
    requires |sizeAndSet| == 5 && flag < 0x1_0000_0000 && HasBit(flag, PROTOCOL_41) && !HasBit(flag, ZSTD)
    requires Sendable(r, flag) && !(plain && HasBit(flag, SSL))
    ensures var attributes := if HasBit(flag, CONNECT_ATTRS) then EncodeText(EncodePairs(r.pairs)) else [];
      ReadReply(EncodeFixedPart(flag, sizeAndSet) + (EncodeCredentials(r, flag) + attributes), plain)
      == Done(Reply(AuthInit, flag,
           if !HasBit(flag, CONNECT_ATTRS) then map[]
           else MapOf(r.pairs[..Covered(r.pairs, |EncodePairs(r.pairs)| % 256)], map[])))
  {
    hide Covered, ReadFixedPart, EncodeFixedPart, CredentialsLength, EncodeCredentials, EncodePairs, EncodeText,
        AsciiPairs,
      NulFree, MapOf, ReadAttributes, DecodeLenEnc;
    var attributes := if HasBit(flag, CONNECT_ATTRS) then EncodeText(EncodePairs(r.pairs)) else [];
    var rest := EncodeCredentials(r, flag) + attributes;
    var body := EncodeFixedPart(flag, sizeAndSet) + rest;
    FixedPartRoundTrip(flag, sizeAndSet, rest);
    assert body[FIXED_PART..] == rest;
    CredentialsRoundTrip(r, flag, attributes);
    assert rest[|EncodeCredentials(r, flag)|..] == attributes;
    if HasBit(flag, CONNECT_ATTRS) {
      assert attributes + [] == attributes;
      AttributesRoundTrip(r.pairs, [], flag);
    }
  }

  /** `AuthInitAccumulator::consume`, with the auth switch request it delegates to. */
  function AuthInitPhase(p: Packet): Outcome<Phase>
    requires p.body != []
  {
    if p.body[0] == 0xFE then
      var plugin :- DecodeNul(p.body[1..]);
      if Utf8(p.body[1..][plugin.increment..]) then Done(AuthSwitchResponse) else Panic(Malformed)
    else if p.body[0] == 0x00 then AuthCompletePhase(p)
    else if p.body[0] == 0x01 then
      if |p.body| > 1 && p.body[1] == 0x03 then Done(AuthComplete)
      else if |p.body| > 1 && p.body[1] == 0x04 then Done(AuthSwitchResponse)
      else Panic(Unsupported)
    else Done(AuthInit)
  }

  /** `AuthCompleteAccumulator::consume`: the gate into the command phase. */
  function AuthCompletePhase(p: Packet): Outcome<Phase> {
    if p.pType == OkPacket then Done(Phase.Command)
    else if p.pType == ErrorPacket then Done(AuthFailed)
    else Panic(Unsupported)
  }

  /** Where the SQL text of a command packet starts. */
  function CommandOffset(body: seq<byte>, flag: Option<nat>): (r: Outcome<nat>)
    requires body != []
    ensures r.Done? ==> r.value <= |body|
  {
    if body[0] != COM_QUERY then Done(0) else
    var f :- Unwrap(flag, NoHandshakeResponse);
    if !HasBit(f, QUERY_ATTRIBUTES) then Done(1) else
    var params :- DecodeLenEnc(body[1..]);
    var sets :- DecodeLenEnc(body[1..][params.increment..]);
    // a parameter's bind flag is asked for with a fixed length, which its decoder refuses
    if sets.result != 1 || params.result > 0 then Panic(Malformed)
    else Done(1 + params.increment + sets.increment)
  }

  /** `CommandAccumulator::consume`; `parser` is the SQL parser. */
  function ReadCommand(body: seq<byte>, flag: Option<nat>,
      parser: Text -> Option<seq<Statement>>): Outcome<(Responses.Command, Phase)>
    requires body != []
  {
    var offset :- CommandOffset(body, flag);
    if body[0] > LAST_COMMAND then Panic(Malformed) else
    var arg := if body[0] == COM_STMT_EXECUTE then [] else body[offset..];
    if !Utf8(arg) then Panic(Malformed) else
    Done((Responses.Command(body[0], arg, parser(arg)),
          if body[0] == COM_STMT_CLOSE then Phase.Command else PendingResponse))
  }

  /** Bytes before the text of a COM_QUERY: no attributes, one set of them. */
  function QueryPrefix(flag: nat): seq<byte> {
    if HasBit(flag, QUERY_ATTRIBUTES) then [COM_QUERY, 0, 1] else [COM_QUERY]
  }

  /** A COM_QUERY without query attributes leaves its whole text as the command, parsed, and the
      response pending. */
  lemma QueryRoundTrip(text: Text, flag: nat, parser: Text -> Option<seq<Statement>>)
    requires Utf8(text)
    ensures ReadCommand(QueryPrefix(flag) + text, Some(flag), parser)
         == Done((Responses.Command(COM_QUERY, text, parser(text)), PendingResponse))
  {
    hide Utf8;
    var body := QueryPrefix(flag) + text;
    assert body[|QueryPrefix(flag)|..] == text;
    if HasBit(flag, QUERY_ATTRIBUTES) {
      assert body[1] == 0 && body[1..][1..][0] == 1;
    }
  }

  /** A command other than COM_QUERY keeps its whole body as its text, code included, but for
      COM_STMT_EXECUTE, which keeps none; all wait for a response but COM_STMT_CLOSE, and unknown
      codes and text that is not UTF-8 panic. */
  lemma OtherCommands(code: byte, rest: seq<byte>, flag: Option<nat>, parser: Text -> Option<seq<Statement>>)
    requires code != COM_QUERY
    ensures var text := if code == COM_STMT_EXECUTE then [] else [code] + rest;
      ReadCommand([code] + rest, flag, parser)
      == if code <= LAST_COMMAND && Utf8(text) then
           Done((Responses.Command(code, text, parser(text)), if code == COM_STMT_CLOSE then Phase.Command
               else PendingResponse))
         else Panic(Malformed)
  {
    hide Utf8;
    assert ([code] + rest)[0..] == [code] + rest;
  }

  /** A COM_QUERY without query attributes must be UTF-8. */
  lemma PlainQueries(text: seq<byte>, flag: nat, parser: Text -> Option<seq<Statement>>)
    requires !HasBit(flag, QUERY_ATTRIBUTES)
    ensures ReadCommand([COM_QUERY] + text, Some(flag), parser)
         == if Utf8(text) then Done((Responses.Command(COM_QUERY, text, parser(text)), PendingResponse))
             else Panic(Malformed)
  {
    hide Utf8;
    assert ([COM_QUERY] + text)[1..] == text;
  }

  /** One with them must announce no parameters and one set of them. */
  lemma AttributedQueries(text: seq<byte>, params: byte, sets: byte, flag: nat, parser: Text -> Option<seq<Statement>>)
    requires HasBit(flag, QUERY_ATTRIBUTES) && params < 251 && sets < 251
    ensures ReadCommand([COM_QUERY] + ([params] + ([sets] + text)), Some(flag), parser)
         == if params == 0 && sets == 1 && Utf8(text)
            then Done((Responses.Command(COM_QUERY, text, parser(text)), PendingResponse)) else Panic(Malformed)
  {
    hide Utf8, DecodeLenEnc;
    var body := [COM_QUERY] + ([params] + ([sets] + text));
    SmallNumber(params, [sets] + text);
    SmallNumber(sets, text);
    assert body[1..] == [params] + ([sets] + text);
    assert body[1..][1..] == [sets] + text && body[3..] == text;
  }

  lemma SmallNumber(n: byte, tail: seq<byte>)
    requires n < 251
    ensures DecodeLenEnc([n] + tail) == Done(Decoded(n, 1))
  {
  }

  /** The fixed part is accepted if and only if it is laid out that way: a capability word with
      PROTOCOL_41, five bytes, 23 zero bytes. */
  lemma FixedPartExactness(body: seq<byte>)
    ensures ReadFixedPart(body).Done? <==> exists flag: nat, sizeAndSet: seq<byte>, tail: seq<byte> ::
      && |sizeAndSet| == 5 && flag < 0x1_0000_0000 && HasBit(flag, PROTOCOL_41)
      && body == EncodeFixedPart(flag, sizeAndSet) + tail
  {
    hide EncodeFixedPart;
    if ReadFixedPart(body).Done? {
      var flag, sizeAndSet, tail := ReadFixedPart(body).value, body[4..9], body[FIXED_PART..];
      FixedPartIs(body);
      assert |sizeAndSet| == 5 && body == EncodeFixedPart(flag, sizeAndSet) + tail;
    }
    if flag: nat, sizeAndSet: seq<byte>, tail: seq<byte> :|
      |sizeAndSet| == 5 && flag < 0x1_0000_0000 && HasBit(flag, PROTOCOL_41)
          && body == EncodeFixedPart(flag, sizeAndSet) + tail {
      FixedPartRoundTrip(flag, sizeAndSet, tail);
    }
  }

  lemma FixedPartIs(body: seq<byte>)
    requires ReadFixedPart(body).Done?
    ensures ReadFixedPart(body).value < 0x1_0000_0000
    ensures body == EncodeFixedPart(ReadFixedPart(body).value, body[4..9]) + body[FIXED_PART..]
  {
    LittleEndianInverts(body[..4]);
    assert Pow256(4) == 256 * Pow256(3) && Pow256(3) == 256 * Pow256(2) && Pow256(2) == 256 * Pow256(1);
    var zeros: seq<byte> := seq(23, _ => 0);
    assert body[9..FIXED_PART] == zeros;
    assert body == body[..4] + body[4..9] + body[9..FIXED_PART] + body[FIXED_PART..];
  }

  /** Of the three texts after the user name's: authentication data without LENENC_AUTH_DATA must be
      UTF-8 and as long as announced; what ends in NUL must be UTF-8 before it. */
  lemma AuthDataExactness(n: byte, rest: seq<byte>, flag: nat)
    requires !HasBit(flag, LENENC_AUTH_DATA)
    ensures AuthDataLength([n] + rest, flag) == if n <= |rest| && Utf8(rest[..n]) then Done(1 + n) else Panic(Malformed)
  {
    hide Utf8;
    var bytes := [n] + rest;
    assert bytes[..1] == [n] && FromLittleEndian([n]) == n;
    assert n <= |rest| ==> bytes[1..1 + n] == rest[..n];
  }

  /** Compression is refused: a client past the SSL request that asks for it is not let in. */
  lemma CompressionPanics(body: seq<byte>, plain: bool)
    requires ReadFixedPart(body).Done? && HasBit(ReadFixedPart(body).value, ZSTD)
    requires !(plain && HasBit(ReadFixedPart(body).value, SSL))
    ensures ReadReply(body, plain) == Panic(Malformed)
  {
    hide CredentialsLength, AttributesOf, ReadFixedPart;
  }
}
