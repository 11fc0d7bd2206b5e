/** Bytes, little-endian numbers and the text representation shared by every layer. */
module Bytes {

  type byte = b: int | 0 <= b < 256

  /** A Rust `String`: its UTF-8 bytes. */
  type Text = seq<byte>

  function Pow256(k: nat): (p: nat)
    ensures p > 0
  {
    if k == 0 then 1 else 256 * Pow256(k - 1)
  }

  function LittleEndian(n: nat, k: nat): (s: seq<byte>)
    ensures |s| == k
  {
    if k == 0 then [] else [n % 256] + LittleEndian(n / 256, k - 1)
  }

  function FromLittleEndian(s: seq<byte>): (n: nat)
    ensures n < Pow256(|s|)
  {
    if s == [] then 0 else s[0] + 256 * FromLittleEndian(s[1..])
  }

  lemma {:induction false} FromLittleEndianInverts(n: nat, k: nat)
    ensures FromLittleEndian(LittleEndian(n, k)) == n <==> n < Pow256(k)
  {
    if k > 0 {
      FromLittleEndianInverts(n / 256, k - 1);
      assert LittleEndian(n, k)[1..] == LittleEndian(n / 256, k - 1);
    }
  }

  lemma {:induction false} LittleEndianInverts(s: seq<byte>)
    ensures LittleEndian(FromLittleEndian(s), |s|) == s
  {
    if s == [] {
      assert LittleEndian(FromLittleEndian(s), 0) == [];
    } else {
      var n, rest := FromLittleEndian(s), FromLittleEndian(s[1..]);
      assert n % 256 == s[0] && n / 256 == rest;
      LittleEndianInverts(s[1..]);
      assert LittleEndian(n, |s|) == [s[0]] + s[1..];
    }
  }

  lemma {:induction false} LittleEndianPrefix(n: nat, k: nat, m: nat)
    requires k <= m
    ensures LittleEndian(n, m)[..k] == LittleEndian(n, k)
  {
    if k > 0 {
      LittleEndianPrefix(n / 256, k - 1, m - 1);
      assert LittleEndian(n, m)[..k] == [n % 256] + LittleEndian(n / 256, m - 1)[..k - 1];
    }
  }

  /** Is the single-bit mask `bit` set in `flags`? */
  predicate HasBit(flags: nat, bit: nat)
    requires bit > 0
  {
    flags / bit % 2 == 1
  }

  /** The bit is set when the flags are some multiple of twice the mask, the mask, and less. */
  lemma BitIsSet(flags: nat, bit: nat, high: nat, low: nat)
    requires bit > 0 && low < bit
    ensures HasBit(high * (2 * bit) + bit + low, bit) && !HasBit(high * (2 * bit) + low, bit)
  {
    Quotient(2 * high + 1, bit, low);
    Quotient(2 * high, bit, low);
    assert high * (2 * bit) + bit + low == (2 * high + 1) * bit + low;
    assert high * (2 * bit) + low == (2 * high) * bit + low;
  }

  lemma Quotient(q: nat, bit: nat, low: nat)
    requires bit > 0 && low < bit
    ensures (q * bit + low) / bit == q
  {
    var n := q * bit + low;
    SameQuotient(q, n / bit, bit, low, n % bit);
  }

  /** Division with remainder is unique. */
  lemma SameQuotient(p: int, q: int, bit: nat, r: nat, t: nat)
    requires r < bit && t < bit && p * bit + r == q * bit + t
    ensures p == q
  {
    assert (p - q) * bit == p * bit - q * bit && (q - p) * bit == q * bit - p * bit;
    if p > q {
      Multiple(p - q, bit);
    } else if q > p {
      Multiple(q - p, bit);
    }
  }

  lemma Multiple(k: nat, bit: nat)
    requires k > 0
    ensures k * bit >= bit
  {
    assert k * bit == (k - 1) * bit + bit;
  }

  /** All bytes are ASCII. */
  predicate Ascii(s: seq<byte>) {
    forall i :: 0 <= i < |s| ==> s[i] < 0x80
  }

  /** Length of the UTF-8 sequence starting `s`, 0 when there is none (RFC 3629, section 4). */
  function Utf8Head(s: seq<byte>): (k: nat)
    ensures k <= |s|
  {
    if s == [] then 0
    else if s[0] < 0x80 then 1
    else if |s| >= 2 && 0xC2 <= s[0] <= 0xDF && Continuation(s[1]) then 2
    else if |s| >= 3 && 0xE0 <= s[0] <= 0xEF && Continuation(s[1]) && Continuation(s[2])
         && (s[0] == 0xE0 ==> s[1] >= 0xA0) && (s[0] == 0xED ==> s[1] <= 0x9F) then 3
    else if |s| >= 4 && 0xF0 <= s[0] <= 0xF4
         && Continuation(s[1]) && Continuation(s[2]) && Continuation(s[3])
         && (s[0] == 0xF0 ==> s[1] >= 0x90) && (s[0] == 0xF4 ==> s[1] <= 0x8F) then 4
    else 0
  }

  predicate Continuation(b: byte) {
    0x80 <= b <= 0xBF
  }

  /** What `String::from_utf8` accepts. */
  predicate Utf8(s: seq<byte>)
    decreases |s|
  {
    s == [] || (Utf8Head(s) > 0 && Utf8(s[Utf8Head(s)..]))
  }

  /** Unicode scalar values. */
  predicate Scalar(cp: nat) {
    cp < 0xD800 || 0xE000 <= cp < 0x11_0000
  }

  /** UTF-8 of a scalar value (RFC 3629, section 3). */
  function EncodeScalar(cp: nat): (s: seq<byte>)
    requires Scalar(cp)
    ensures 0 < |s| <= 4
  {
    if cp < 0x80 then [cp]
    else if cp < 0x800 then [0xC0 + cp / 0x40, 0x80 + cp % 0x40]
    else if cp < 0x1_0000 then [0xE0 + cp / 0x1000, 0x80 + cp / 0x40 % 0x40, 0x80 + cp % 0x40]
    else [0xF0 + cp / 0x4_0000, 0x80 + cp / 0x1000 % 0x40, 0x80 + cp / 0x40 % 0x40, 0x80 + cp % 0x40]
  }

  function EncodeScalars(cps: seq<nat>): seq<byte>
    requires forall i :: 0 <= i < |cps| ==> Scalar(cps[i])
  {
    if cps == [] then [] else
    assert Scalar(cps[0]);
    EncodeScalar(cps[0]) + EncodeScalars(cps[1..])
  }

  lemma HeadOfScalar(cp: nat, tail: seq<byte>)
    requires Scalar(cp)
    ensures Utf8Head(EncodeScalar(cp) + tail) == |EncodeScalar(cp)|
    ensures (EncodeScalar(cp) + tail)[|EncodeScalar(cp)|..] == tail
  {
    var s := EncodeScalar(cp) + tail;
    assert s[0] == EncodeScalar(cp)[0];
  }

  /** A head is the encoding of a scalar value. */
  lemma ScalarOfHead(s: seq<byte>) returns (cp: nat)
    requires Utf8Head(s) > 0
    ensures Scalar(cp) && EncodeScalar(cp) == s[..Utf8Head(s)]
  {
    hide EncodeScalar;
    var k := Utf8Head(s);
    if k == 1 {
      cp := OneByte(s[0]);
      assert s[..k] == [s[0]];
    } else if k == 2 {
      cp := TwoBytes(s[0], s[1]);
      assert s[..k] == [s[0], s[1]];
    } else if k == 3 {
      cp := ThreeBytes(s[0], s[1], s[2]);
      assert s[..k] == [s[0], s[1], s[2]];
    } else {
      cp := FourBytes(s[0], s[1], s[2], s[3]);
      assert s[..k] == [s[0], s[1], s[2], s[3]];
    }
  }

  lemma OneByte(a: byte) returns (cp: nat)
    requires a < 0x80
    ensures Scalar(cp) && EncodeScalar(cp) == [a]
  {
    cp := a;
  }

  lemma TwoBytes(a: byte, b: byte) returns (cp: nat)
    requires 0xC2 <= a <= 0xDF && Continuation(b)
    ensures Scalar(cp) && EncodeScalar(cp) == [a, b]
  {
    var x: nat, y: nat := a - 0xC0, b - 0x80;
    cp := x * 0x40 + y;
    assert cp / 0x40 == x && cp % 0x40 == y;
  }

  lemma ThreeBytes(a: byte, b: byte, c: byte) returns (cp: nat)
    requires 0xE0 <= a <= 0xEF && Continuation(b) && Continuation(c)
    requires (a == 0xE0 ==> b >= 0xA0) && (a == 0xED ==> b <= 0x9F)
    ensures Scalar(cp) && EncodeScalar(cp) == [a, b, c]
  {
    var x: nat, y: nat, z: nat := a - 0xE0, b - 0x80, c - 0x80;
    cp := x * 0x1000 + y * 0x40 + z;
    assert cp / 0x40 == x * 0x40 + y && cp % 0x40 == z && cp / 0x1000 == x;
    assert (x * 0x40 + y) % 0x40 == y;
  }

  lemma FourBytes(a: byte, b: byte, c: byte, d: byte) returns (cp: nat)
    requires 0xF0 <= a <= 0xF4 && Continuation(b) && Continuation(c) && Continuation(d)
    requires (a == 0xF0 ==> b >= 0x90) && (a == 0xF4 ==> b <= 0x8F)
    ensures Scalar(cp) && EncodeScalar(cp) == [a, b, c, d]
  {
    var x: nat, y: nat, z: nat, w: nat := a - 0xF0, b - 0x80, c - 0x80, d - 0x80;
    cp := x * 0x4_0000 + y * 0x1000 + z * 0x40 + w;
    assert cp / 0x40 == x * 0x1000 + y * 0x40 + z && cp % 0x40 == w;
    assert cp / 0x1000 == x * 0x40 + y && cp / 0x4_0000 == x;
    assert (x * 0x1000 + y * 0x40 + z) % 0x40 == z && (x * 0x40 + y) % 0x40 == y;
  }

  lemma {:induction false} ScalarsAreUtf8(cps: seq<nat>)
    requires forall i :: 0 <= i < |cps| ==> Scalar(cps[i])
    ensures Utf8(EncodeScalars(cps))
  {
    if cps != [] {
      assert Scalar(cps[0]);
      ScalarsAreUtf8(cps[1..]);
      HeadOfScalar(cps[0], EncodeScalars(cps[1..]));
    }
  }

  lemma {:induction false} Utf8IsScalars(s: seq<byte>) returns (cps: seq<nat>)
    requires Utf8(s)
    ensures (forall i :: 0 <= i < |cps| ==> Scalar(cps[i])) && EncodeScalars(cps) == s
    decreases |s|
  {
    hide Utf8Head, EncodeScalar;
    if s == [] {
      cps := [];
    } else {
      var cp := ScalarOfHead(s);
      var rest := Utf8IsScalars(s[Utf8Head(s)..]);
      cps := [cp] + rest;
      assert cps[1..] == rest;
    }
  }

  /** Text is accepted if and only if it is the UTF-8 of some Unicode scalar values. */
  lemma Utf8Exactness(s: seq<byte>)
    ensures Utf8(s) <==> exists cps: seq<nat> ::
      (forall i :: 0 <= i < |cps| ==> Scalar(cps[i])) && EncodeScalars(cps) == s
  {
    if Utf8(s) {
      var cps := Utf8IsScalars(s);
    }
    if cps: seq<nat> :| (forall i :: 0 <= i < |cps| ==> Scalar(cps[i])) && EncodeScalars(cps) == s {
      ScalarsAreUtf8(cps);
    }
  }

  lemma {:induction false} AsciiIsUtf8(s: seq<byte>)
    requires Ascii(s)
    ensures Utf8(s)
    decreases |s|
  {
    if s != [] {
      AsciiIsUtf8(s[1..]);
    }
  }

  /** Flatten a sequence of chunks. */
  function Flatten<T>(chunks: seq<seq<T>>): seq<T> {
    if chunks == [] then [] else chunks[0] + Flatten(chunks[1..])
  }
}
