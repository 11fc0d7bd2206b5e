/** Packet headers, packet classification and the OK, EOF and ERR payloads (src/mysql/packet.rs). */
module Packets {
  import opened Outcomes
  import opened Bytes
  import opened Types

  datatype Phase =
    | Handshake | HandshakeResponse | TlsExchange | AuthInit | AuthSwitchResponse
    | AuthFailed | AuthComplete | Command | PendingResponse

  datatype PacketType = OtherPacket | CommandPacket | OkPacket | EofPacket | ErrorPacket

  datatype Header = Header(size: nat, seqNo: byte)

  datatype Packet = Packet(header: Header, body: seq<byte>, pType: PacketType, skip: bool)

  const MAX_SIZE := 0x100_0000

  // Capability and status bits (src/mysql/accumulator/mod.rs and packet.rs)
  const CONNECT_WITH_DB := 0x8
  const PROTOCOL_41 := 0x200
  const SSL := 0x800
  const TRANSACTIONS := 0x2000
  const PLUGIN_AUTH := 0x8_0000
  const CONNECT_ATTRS := 0x10_0000
  const LENENC_AUTH_DATA := 0x20_0000
  const DEPRECATE_EOF := 0x100_0000
  const OPTIONAL_METADATA := 0x200_0000
  const ZSTD := 0x400_0000
  const QUERY_ATTRIBUTES := 0x800_0000
  const MORE_RESULTS := 0x8

  function HeaderFromBytes(bytes: seq<byte>): Header
    requires |bytes| == 4
  {
    Header(FromLittleEndian(bytes[..3]), bytes[3])
  }

  /** The size goes out as four bytes, of which the last is overwritten by the sequence number. */
  function HeaderToBytes(h: Header): (s: seq<byte>)
    ensures |s| == 4
  {
    LittleEndian(h.size, 4)[3 := h.seqNo]
  }

  lemma HeaderFromToBytes(h: Header)
    ensures HeaderFromBytes(HeaderToBytes(h)) == h <==> h.size < MAX_SIZE
  {
    assert HeaderToBytes(h)[..3] == LittleEndian(h.size, 4)[..3];
    LittleEndianPrefix(h.size, 3, 4);
    FromLittleEndianInverts(h.size, 3);
    Pow256Of3();
  }

  lemma HeaderToFromBytes(bytes: seq<byte>)
    requires |bytes| == 4
    ensures HeaderToBytes(HeaderFromBytes(bytes)) == bytes
    ensures HeaderFromBytes(bytes).size < MAX_SIZE
  {
    LittleEndianInverts(bytes[..3]);
    LittleEndianPrefix(FromLittleEndian(bytes[..3]), 3, 4);
    assert HeaderToBytes(HeaderFromBytes(bytes))[..3] == bytes[..3];
    Pow256Of3();
  }

  lemma Pow256Of3()
    ensures Pow256(3) == MAX_SIZE
  {
    assert Pow256(3) == 256 * Pow256(2) && Pow256(2) == 256 * Pow256(1);
  }

  function Classify(body: seq<byte>, phase: Phase): PacketType
    requires body != []
  {
    if |body| >= 7 && body[0] == 0x00 then OkPacket
    else if |body| <= 9 && body[0] == 0xFE then EofPacket
    else if body[0] == 0xFF then ErrorPacket
    else if phase == Command then CommandPacket
    else OtherPacket
  }

  datatype OkData = OkData(header: byte, affectedRows: nat, lastInsertId: nat, statusFlags: Option<nat>,
      warnings: Option<nat>)

  /** Read an OK payload; `flag` is the stored client capability word, if there is one. */
  function OkFromBody(body: seq<byte>, flag: Option<nat>): Outcome<OkData> {
    var header :- DecodeFixed(body, 1);
    if header != 0x00 && header != 0xFE then Panic(Malformed) else
    var affected :- DecodeLenEnc(body[1..]);
    var rest := body[1..][affected.increment..];
    var insertId :- DecodeLenEnc(rest);
    var tail := rest[insertId.increment..];
    var f :- Unwrap(flag, NoHandshakeResponse);
    if HasBit(f, PROTOCOL_41) then
      var status :- DecodeFixed(tail, 2);
      var warnings :- DecodeFixed(tail[2..], 2);
      Done(OkData(header, affected.result, insertId.result, Some(status), Some(warnings)))
    else if HasBit(f, TRANSACTIONS) then
      var status :- DecodeFixed(tail, 2);
      Done(OkData(header, affected.result, insertId.result, Some(status), None))
    else
      Done(OkData(header, affected.result, insertId.result, None, None))
  }

  /** The OK packet of an intercepted write; panics on an absent status without PROTOCOL_41. */
  function OkToPacket(ok: OkData, seqNo: byte, flag: nat): Outcome<Packet> {
    var counts := [ok.header] + EncodeLenEnc(ok.affectedRows) + EncodeLenEnc(ok.lastInsertId);
    var status :-
      if HasBit(flag, PROTOCOL_41) then
        Done(LittleEndian(OrZero(ok.statusFlags), 2) + LittleEndian(OrZero(ok.warnings), 2))
      else if HasBit(flag, TRANSACTIONS) then
        var s :- Unwrap(ok.statusFlags, Malformed);
        Done(LittleEndian(s, 2))
      else Done([]);
    var body := counts + status;
    Done(Packet(Header(|body|, seqNo), body, OkPacket, false))
  }

  function OrZero(o: Option<nat>): nat {
    match o case None => 0 case Some(n) => n
  }

  /** Status word of an EOF payload; under PROTOCOL_41 the payload must be exactly 7 bytes long. */
  function EofStatus(body: seq<byte>, flag: Option<nat>): Outcome<Option<nat>> {
    var f :- Unwrap(flag, NoHandshakeResponse);
    if !HasBit(f, PROTOCOL_41) then Done(None)
    else if |body| != 7 then Panic(Malformed)
    else Done(Some(FromLittleEndian(body[3..5])))
  }

  /** Does `ErrorData::from_packet` succeed? It reads a code, an SQL state and a UTF-8 message. */
  function ErrorCheck(body: seq<byte>, flag: Option<nat>): Outcome<()> {
    if |body| < 2 then Panic(Malformed) else
    var f :- Unwrap(flag, NoHandshakeResponse);
    if HasBit(f, PROTOCOL_41) && (|body| < 9 || !Utf8(body[3..4]) || !Utf8(body[4..9])) then Panic(Malformed)
    else if |body| < 9 || !Utf8(body[9..]) then Panic(Malformed)
    else Done(())
  }

  /** The body of an ERR packet (section "Protocol::ERR_Packet" under PROTOCOL_41). */
  function ErrBody(code: seq<byte>, marker: byte, state: Text, message: seq<byte>): (s: seq<byte>)
    ensures s != []
  {
    [0xFF] + code + [marker] + state + message
  }

  /** An ERR packet is read if and only if its SQL state and its message, of any length, are UTF-8; one
      too short for them panics. */
  lemma ErrorsAreRead(code: seq<byte>, marker: byte, state: seq<byte>, message: seq<byte>, flag: nat, phase: Phase)
    requires |code| == 2 && |state| == 5 && HasBit(flag, PROTOCOL_41)
    ensures var body := ErrBody(code, marker, state, message);
      && Classify(body, phase) == ErrorPacket
      && (ErrorCheck(body, Some(flag)).Done? <==> Utf8([marker]) && Utf8(state) && Utf8(message))
      && (ErrorCheck(body, Some(flag)).Panic? ==> ErrorCheck(body, Some(flag)) == Panic(Malformed))
  {
    hide Utf8;
    var body := ErrBody(code, marker, state, message);
    assert body[0] == 0xFF;
    assert body[3..4] == [marker] && body[4..9] == state && body[9..] == message;
  }

  lemma ShortErrorsPanic(body: seq<byte>, flag: nat)
    requires |body| < 9
    ensures ErrorCheck(body, Some(flag)) == Panic(Malformed)
  {
  }

  /** A status word has 16 bits and a counter 64. */
  predicate Representable(ok: OkData) {
    && ok.affectedRows < U64 && ok.lastInsertId < U64
    && OrZero(ok.statusFlags) < 0x1_0000 && OrZero(ok.warnings) < 0x1_0000
  }

  lemma Fixed2RoundTrip(n: nat, tail: seq<byte>)
    requires n < 0x1_0000
    ensures DecodeFixed(LittleEndian(n, 2) + tail, 2) == Done(n)
    ensures (LittleEndian(n, 2) + tail)[2..] == tail
  {
    assert (LittleEndian(n, 2) + tail)[..2] == LittleEndian(n, 2);
    assert Pow256(2) == 256 * Pow256(1) && Pow256(1) == 256 * Pow256(0);
    FromLittleEndianInverts(n, 2);
  }

  /** Under PROTOCOL_41 an OK packet is classified OK and decodes to the data it was built from,
      an absent status or warning count coming back as zero. */
  lemma OkRoundTrip(ok: OkData, seqNo: byte, flag: nat, phase: Phase)
    requires Representable(ok) && ok.header in {0x00, 0xFE} && HasBit(flag, PROTOCOL_41)
    ensures var r := OkToPacket(ok, seqNo, flag);
      && r.Done?
      && 7 <= |r.value.body| <= 23 && r.value.header == Header(|r.value.body|, seqNo)
      && (ok.header == 0x00 ==> Classify(r.value.body, phase) == OkPacket)
      && OkFromBody(r.value.body, Some(flag))
         == Done(ok.(statusFlags := Some(OrZero(ok.statusFlags)), warnings := Some(OrZero(ok.warnings))))
  {
    var a, i := EncodeLenEnc(ok.affectedRows), EncodeLenEnc(ok.lastInsertId);
    var s, w := LittleEndian(OrZero(ok.statusFlags), 2), LittleEndian(OrZero(ok.warnings), 2);
    var body := [ok.header] + a + i + (s + w);
    OkDecodes(body, a, i, s, w, ok, flag);
  }

  lemma OkDecodes(body: seq<byte>, a: seq<byte>, i: seq<byte>, s: seq<byte>, w: seq<byte>, ok: OkData, flag: nat)
    requires Representable(ok) && ok.header in {0x00, 0xFE} && HasBit(flag, PROTOCOL_41)
    requires a == EncodeLenEnc(ok.affectedRows) && i == EncodeLenEnc(ok.lastInsertId)
    requires s == LittleEndian(OrZero(ok.statusFlags), 2) && w == LittleEndian(OrZero(ok.warnings), 2)
    requires body == [ok.header] + a + i + (s + w)
    ensures OkFromBody(body, Some(flag))
         == Done(ok.(statusFlags := Some(OrZero(ok.statusFlags)), warnings := Some(OrZero(ok.warnings))))
  {
    hide DecodeLenEnc, EncodeLenEnc, LittleEndian;
    assert DecodeFixed(body, 1) == Done(ok.header) by {
      assert body[..1] == [ok.header] && FromLittleEndian([ok.header]) == ok.header;
    }
    assert body[1..] == a + (i + (s + w));
    LenEncRoundTrip(ok.affectedRows, i + (s + w));
    assert body[1..][|a|..] == i + (s + w);
    LenEncRoundTrip(ok.lastInsertId, s + w);
    assert body[1..][|a|..][|i|..] == s + w;
    Fixed2RoundTrip(OrZero(ok.statusFlags), w);
    Fixed2RoundTrip(OrZero(ok.warnings), []);
    assert w == w + [];
  }

  /** Without PROTOCOL_41 and TRANSACTIONS, the OK packet of an intercepted write (one row affected,
      a counter byte as insert id) is too short to be classified OK. */
  lemma OkNeedsProtocol41(ok: OkData, seqNo: byte, flag: nat, phase: Phase)
    requires ok.header == 0 && ok.affectedRows == 1 && ok.lastInsertId < 256 && ok.statusFlags == None
    ensures HasBit(flag, PROTOCOL_41) <==>
      var r := OkToPacket(ok, seqNo, flag); r.Done? && Classify(r.value.body, phase) == OkPacket
  {
  }

  /** Without PROTOCOL_41 an OK packet holds the status if there is TRANSACTIONS, and nothing after the
      counters if there is not. */
  lemma OkRoundTripBefore41(ok: OkData, seqNo: byte, flag: nat)
    requires Representable(ok) && ok.header == 0 && !HasBit(flag, PROTOCOL_41)
    requires HasBit(flag, TRANSACTIONS) ==> ok.statusFlags.Some?
    ensures OkToPacket(ok, seqNo, flag).Done?
    ensures OkFromBody(OkToPacket(ok, seqNo, flag).value.body, Some(flag))
         == Done(ok.(statusFlags := if HasBit(flag, TRANSACTIONS) then ok.statusFlags else None, warnings := None))
  {
    hide DecodeLenEnc, EncodeLenEnc, LittleEndian;
    var a, i := EncodeLenEnc(ok.affectedRows), EncodeLenEnc(ok.lastInsertId);
    var s := if HasBit(flag, TRANSACTIONS) then LittleEndian(OrZero(ok.statusFlags), 2) else [];
    var body := [ok.header] + a + i + s;
    assert DecodeFixed(body, 1) == Done(0) by {
      assert body[..1] == [ok.header] && FromLittleEndian([ok.header]) == 0;
    }
    assert body[1..] == a + (i + s);
    LenEncRoundTrip(ok.affectedRows, i + s);
    assert body[1..][|a|..] == i + s;
    LenEncRoundTrip(ok.lastInsertId, s);
    assert body[1..][|a|..][|i|..] == s;
    Fixed2RoundTrip(OrZero(ok.statusFlags), []);
    assert s + [] == s;
  }

  /** An OK payload begins with 0x00 or 0xFE; any other panics. */
  lemma OtherHeadersPanic(body: seq<byte>, flag: Option<nat>)
    requires body == [] || body[0] !in {0x00, 0xFE}
    ensures OkFromBody(body, flag) == Panic(Malformed)
  {
    if body != [] {
      assert body[..1] == [body[0]] && FromLittleEndian([body[0]]) == body[0];
    }
  }
}
