/** Wire types: fixed and length-encoded integers and strings (src/mysql/types.rs). */
module Types {
  import opened Outcomes
  import opened Bytes

  datatype Decoded<+T> = Decoded(result: T, increment: nat)

  function DecodeFixed(bytes: seq<byte>, k: nat): (r: Outcome<nat>)
    ensures r.Panic? ==> r.fault == Malformed
  {
    if |bytes| < k then Panic(Malformed) else Done(FromLittleEndian(bytes[..k]))
  }

  /** Width of the value that follows the first byte of a length-encoded integer. */
  function LenEncWidth(first: byte): nat {
    if first == 0xFC then 2 else if first == 0xFD then 3 else if first == 0xFE then 8 else 0
  }

  function DecodeLenEnc(bytes: seq<byte>): (r: Outcome<Decoded<nat>>)
    ensures r.Done? ==> 0 < r.value.increment <= |bytes|
    ensures r.Panic? ==> r.fault == Malformed
  {
    if bytes == [] then Panic(Malformed) else
    var w := LenEncWidth(bytes[0]);
    if |bytes| <= w then Panic(Malformed)
    else if w == 0 then Done(Decoded(bytes[0], 1))
    else Done(Decoded(FromLittleEndian(bytes[1..1 + w]), 1 + w))
  }

  function EncodeLenEnc(v: nat): (s: seq<byte>)
    ensures s != [] && s[0] !in {0xFB, 0xFF}
  {
    if v < 251 then [v]
    else if v <= 0xFFFF then [0xFC] + LittleEndian(v, 2)
    else if v <= 0xFF_FFFF then [0xFD] + LittleEndian(v, 3)
    else [0xFE] + LittleEndian(v, 8)
  }

  const U64 := 0x1_0000_0000_0000_0000

  /** Whatever follows, an encoded integer decodes to itself and is consumed exactly. */
  lemma LenEncRoundTrip(v: nat, tail: seq<byte>)
    requires v < U64
    ensures DecodeLenEnc(EncodeLenEnc(v) + tail) == Done(Decoded(v, |EncodeLenEnc(v)|))
  {
    var s := EncodeLenEnc(v);
    if v >= 251 {
      var w := LenEncWidth(s[0]);
      assert (s + tail)[1..1 + w] == LittleEndian(v, w);
      PowersOf256();
      FromLittleEndianInverts(v, w);
    }
  }

  /** Four bytes, the low one first. */
  function Word(b0: nat, b1: nat, b2: nat, b3: nat): nat {
    b0 + 0x100 * b1 + 0x1_0000 * b2 + 0x100_0000 * b3
  }

  /** Two, three or eight bytes follow 0xFC, 0xFD and 0xFE, the low byte first; any other byte stands
      for itself. */
  lemma LenEncValue(first: byte, b: seq<byte>)
    requires |b| == 8
    ensures DecodeLenEnc([first] + b) == Done(
      if first == 0xFC then Decoded(Word(b[0], b[1], 0, 0), 3)
      else if first == 0xFD then Decoded(Word(b[0], b[1], b[2], 0), 4)
      else if first == 0xFE then Decoded(Word(b[0], b[1], b[2], b[3]) + 0x1_0000_0000 * Word(b[4], b[5], b[6], b[7]), 9)
      else Decoded(first, 1))
  {
    hide FromLittleEndian, Word;
    assert ([first] + b)[1..3] == b[..2] && ([first] + b)[1..4] == b[..3] && ([first] + b)[1..9] == b;
    FewBytes(b[0], b[1], b[2]);
    assert b[..2] == [b[0], b[1]] && b[..3] == [b[0], b[1], b[2]];
    EightBytes(b);
  }

  lemma FewBytes(b0: byte, b1: byte, b2: byte)
    ensures FromLittleEndian([b0, b1]) == Word(b0, b1, 0, 0)
    ensures FromLittleEndian([b0, b1, b2]) == Word(b0, b1, b2, 0)
  {
    OneAndTwo(b0, b1);
    OneAndTwo(b1, b2);
    assert [b0, b1, b2][1..] == [b1, b2];
  }

  lemma OneAndTwo(b0: byte, b1: byte)
    ensures FromLittleEndian([b0, b1]) == b0 + 256 * b1
  {
    var none: seq<byte> := [];
    assert [b1][1..] == none && FromLittleEndian(none) == 0;
    assert FromLittleEndian([b1]) == b1;
    assert [b0, b1][1..] == [b1];
  }

  lemma EightBytes(b: seq<byte>)
    requires |b| == 8
    ensures FromLittleEndian(b) == Word(b[0], b[1], b[2], b[3]) + 0x1_0000_0000 * Word(b[4], b[5], b[6], b[7])
  {
    hide Word;
    FourBytesFirst(b);
    FourBytesFirst(b[4..]);
    assert b[4..][4..] == [] && FromLittleEndian([]) == 0;
  }

  lemma FourBytesFirst(b: seq<byte>)
    requires |b| >= 4
    ensures FromLittleEndian(b) == Word(b[0], b[1], b[2], b[3]) + 0x1_0000_0000 * FromLittleEndian(b[4..])
  {
    assert b[1..][1..] == b[2..] && b[2..][1..] == b[3..] && b[3..][1..] == b[4..];
    var c, d, e, f := FromLittleEndian(b[1..]), FromLittleEndian(b[2..]), FromLittleEndian(b[3..]),
        FromLittleEndian(b[4..]);
    assert e == b[3] + 256 * f;
    assert d == b[2] + 256 * e;
    assert c == b[1] + 256 * d;
  }

  /** A whole length-encoded integer; 0xFB and 0xFF mark something else (section
      "Protocol::LengthEncodedInteger"). */
  predicate Encodes(s: seq<byte>, v: nat) {
    s != [] && s[0] !in {0xFB, 0xFF} && DecodeLenEnc(s) == Done(Decoded(v, |s|))
  }

  /** The encoding written is the shortest one, and the only one of its length. */
  lemma EncodingIsShortest(s: seq<byte>, v: nat)
    requires Encodes(s, v)
    ensures v < U64 && Encodes(EncodeLenEnc(v), v)
    ensures |EncodeLenEnc(v)| <= |s|
    ensures |EncodeLenEnc(v)| == |s| ==> EncodeLenEnc(v) == s
  {
    var w := LenEncWidth(s[0]);
    PowersOf256();
    if w > 0 {
      LittleEndianInverts(s[1..1 + w]);
      assert s == [s[0]] + s[1..1 + w];
    }
    assert v < U64;
    LenEncRoundTrip(v, []);
    assert EncodeLenEnc(v) + [] == EncodeLenEnc(v);
  }

  lemma PowersOf256()
    ensures Pow256(2) == 0x1_0000 && Pow256(3) == 0x100_0000 && Pow256(8) == U64
  {
    assert Pow256(2) == 256 * Pow256(1) && Pow256(1) == 256 * Pow256(0);
    assert Pow256(3) == 256 * Pow256(2) && Pow256(4) == 256 * Pow256(3);
    assert Pow256(6) == 256 * Pow256(5) && Pow256(5) == 256 * Pow256(4);
    assert Pow256(8) == 256 * Pow256(7) && Pow256(7) == 256 * Pow256(6);
  }

  /** A string built by pushing each byte as a `char`: bytes from 0x80 up take two UTF-8 bytes. */
  function Widen(bytes: seq<byte>): (t: Text)
    ensures |bytes| <= |t|
    ensures t == bytes <==> Ascii(bytes)
    ensures |t| == |bytes| ==> t == bytes
  {
    if bytes == [] then [] else
    var b := bytes[|bytes| - 1];
    var t := Widen(bytes[..|bytes| - 1]);
    assert Ascii(bytes) <==> Ascii(bytes[..|bytes| - 1]) && b < 0x80;
    assert bytes == bytes[..|bytes| - 1] + [b];
    t + WidenByte(b)
  }

  /** UTF-8 of the character with code point `b`. */
  function WidenByte(b: byte): Text {
    if b < 0x80 then [b] else [0xC0 + b / 64, 0x80 + b % 64]
  }

  /** Widening is UTF-8: each byte is taken for the scalar value of that number. */
  lemma {:induction false} WidenIsUtf8(bytes: seq<byte>)
    ensures Widen(bytes) == EncodeScalars(CodePoints(bytes))
    decreases |bytes|
  {
    hide Ascii, EncodeScalar, WidenByte;
    if bytes != [] {
      var n := |bytes| - 1;
      WidenIsUtf8(bytes[..n]);
      assert CodePoints(bytes) == CodePoints(bytes[..n]) + [bytes[n]];
      EncodeScalarsAppend(CodePoints(bytes[..n]), bytes[n]);
      WidenByteIsUtf8(bytes[n]);
    }
  }

  function CodePoints(bytes: seq<byte>): (cps: seq<nat>)
    ensures |cps| == |bytes| && forall i :: 0 <= i < |cps| ==> cps[i] == bytes[i] && Scalar(cps[i])
  {
    seq(|bytes|, i requires 0 <= i < |bytes| => bytes[i])
  }

  lemma WidenByteIsUtf8(b: byte)
    ensures WidenByte(b) == EncodeScalar(b)
  {
  }

  lemma {:induction false} EncodeScalarsAppend(cps: seq<nat>, cp: nat)
    requires (forall i :: 0 <= i < |cps| ==> Scalar(cps[i])) && Scalar(cp)
    ensures EncodeScalars(cps + [cp]) == EncodeScalars(cps) + EncodeScalar(cp)
  {
    if cps == [] {
      assert (cps + [cp])[1..] == [];
    } else {
      assert (cps + [cp])[1..] == cps[1..] + [cp];
      EncodeScalarsAppend(cps[1..], cp);
    }
  }

  lemma WidenEmpty()
    ensures Widen([]) == []
  {
  }

  lemma WidenStep(bytes: seq<byte>, start: nat, i: nat)
    requires start <= i < |bytes|
    ensures Widen(bytes[start..i + 1]) == Widen(bytes[start..i]) + WidenByte(bytes[i])
  {
    hide Ascii, WidenByte;
    var s := bytes[start..i + 1];
    assert s[..|s| - 1] == bytes[start..i];
  }

  function DecodeText(bytes: seq<byte>): (r: Outcome<Decoded<Text>>)
    ensures r.Done? ==> 0 < r.value.increment <= |bytes|
    ensures r.Panic? ==> r.fault == Malformed
  {
    var n :- DecodeLenEnc(bytes);
    var end := n.increment + n.result;
    if end > |bytes| then Panic(Malformed)
    else Done(Decoded(Widen(bytes[n.increment..end]), end))
  }

  function EncodeText(t: Text): (s: seq<byte>)
    ensures s != [] && s[0] == EncodeLenEnc(|t|)[0]
    ensures |s| == |EncodeLenEnc(|t|)| + |t|
  {
    EncodeLenEnc(|t|) + t
  }

  /** The decoding loop: every byte of the announced range is pushed as a `char`. */
  method StringFromBytes(bytes: seq<byte>) returns (r: Outcome<Decoded<Text>>)
    ensures r == DecodeText(bytes)
  {
    hide DecodeLenEnc, Widen;
    var n := DecodeLenEnc(bytes);
    if n.Panic? {
      return Panic(n.fault);
    }
    var start, end := n.value.increment, n.value.increment + n.value.result;
    if end > |bytes| {
      return Panic(Malformed);
    }
    var result: Text := [];
    WidenEmpty();
    assert bytes[start..start] == [];
    for i := start to end
      invariant result == Widen(bytes[start..i])
    {
      WidenStep(bytes, start, i);
      result := result + WidenByte(bytes[i]);
    }
    r := Done(Decoded(result, end));
  }

  /** Decoding an encoded text widens it: it is restored exactly when it is ASCII. */
  lemma TextRoundTrip(t: Text, tail: seq<byte>)
    requires |t| < U64
    ensures DecodeText(EncodeText(t) + tail) == Done(Decoded(Widen(t), |EncodeText(t)|))
  {
    hide DecodeLenEnc, EncodeLenEnc, Widen;
    assert EncodeText(t) + tail == EncodeLenEnc(|t|) + (t + tail);
    LenEncRoundTrip(|t|, t + tail);
    var n := |EncodeLenEnc(|t|)|;
    assert (EncodeText(t) + tail)[n..n + |t|] == t;
  }

  /** Index of the first NUL byte, as `StringNullEnc` looks for it. */
  function NulIndex(bytes: seq<byte>): (r: Option<nat>)
    ensures r.Some? ==> r.value < |bytes| && bytes[r.value] == 0 && 0 !in bytes[..r.value]
    ensures r.None? ==> 0 !in bytes
  {
    if bytes == [] then None
    else if bytes[0] == 0 then Some(0)
    else match NulIndex(bytes[1..])
      case None => None
      case Some(k) => assert bytes[..k + 1] == [bytes[0]] + bytes[1..][..k]; Some(k + 1)
  }

  /** A NUL-terminated UTF-8 string; the increment includes the terminator. */
  function DecodeNul(bytes: seq<byte>): (r: Outcome<Decoded<Text>>)
    ensures r.Done? ==> 0 < r.value.increment <= |bytes|
    ensures r.Panic? ==> r.fault == Malformed
  {
    var k :- Unwrap(NulIndex(bytes), Malformed);
    if Utf8(bytes[..k]) then Done(Decoded(bytes[..k], k + 1)) else Panic(Malformed)
  }

  predicate NulFree(t: Text) {
    Utf8(t) && 0 !in t
  }

  /** Bytes without NUL come back from their terminated form if and only if they are UTF-8. */
  lemma NulRoundTrip(t: Text, tail: seq<byte>)
    requires 0 !in t
    ensures DecodeNul(t + [0] + tail) == if Utf8(t) then Done(Decoded(t, |t| + 1)) else Panic(Malformed)
  {
    hide Utf8, NulIndex;
    NulIndexOf(t, tail);
    assert (t + [0] + tail)[..|t|] == t;
  }

  lemma NulIndexOf(t: seq<byte>, tail: seq<byte>)
    requires 0 !in t
    ensures NulIndex(t + [0] + tail) == Some(|t|)
  {
    hide NulIndex;
    var bytes := t + [0] + tail;
    assert bytes[|t|] == 0;
    var k := NulIndex(bytes).value;
    assert forall i :: 0 <= i < |t| ==> bytes[i] == t[i];
    assert forall i :: 0 <= i < k ==> bytes[i] == bytes[..k][i];
  }

  /** A decoded NUL-terminated text, and what follows it. */
  lemma NulParts(bytes: seq<byte>)
    requires DecodeNul(bytes).Done?
    ensures var t := DecodeNul(bytes).value.result;
      && NulFree(t) && DecodeNul(bytes).value.increment == |t| + 1
      && bytes == t + [0] + bytes[|t| + 1..]
  {
    hide Utf8, NulIndex;
    var t := DecodeNul(bytes).value.result;
    assert bytes == bytes[..|t|] + [bytes[|t|]] + bytes[|t| + 1..];
  }
}
