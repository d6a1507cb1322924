/** UTF-8 as Rust's `str::from_utf8` checks it and `String::into_bytes` produces
    it: the encoding of Unicode scalar values (Dafny's `char`) and the table of
    well-formed byte sequences of section 4 of RFC 3629. */
module Utf8 {

  type byte = b: int | 0 <= b < 0x100

  datatype Option<+T> = None | Some(value: T)

  /** The first character of a byte sequence and how many bytes it took. */
  datatype Decoded = Decoded(c: char, len: nat)

  /** The bytes of one scalar value (section 3 of RFC 3629): the value is cut
      into six-bit groups `x` (lowest), `y`, `z` and the remaining bits `w`. */
  function EncodeChar(c: char): (r: seq<byte>)
    ensures 1 <= |r| <= 4
  {
    var n := c as int;
    var x, q1 := n % 0x40, n / 0x40;
    var y, q2 := q1 % 0x40, q1 / 0x40;
    var z, w := q2 % 0x40, q2 / 0x40;
    if n < 0x80 then [n]
    else if n < 0x800 then [0xC0 + q1, 0x80 + x]
    else if n < 0x1_0000 then [0xE0 + q2, 0x80 + y, 0x80 + x]
    else [0xF0 + w, 0x80 + z, 0x80 + y, 0x80 + x]
  }

  /** The bytes of a string, as `into_bytes` and `as_bytes` give them. */
  function ToUtf8(s: string): seq<byte>
  {
    if s == [] then [] else EncodeChar(s[0]) + ToUtf8(s[1..])
  }

  /** UTF8-tail = %x80-BF */
  predicate IsTail(b: byte)
  {
    0x80 <= b <= 0xBF
  }

  /** Range allowed for the second byte of a three-byte sequence led by `b0`. */
  predicate SecondOfThree(b0: byte, b1: byte)
  {
    if b0 == 0xE0 then 0xA0 <= b1 <= 0xBF
    else if b0 == 0xED then 0x80 <= b1 <= 0x9F
    else IsTail(b1)
  }

  /** Range allowed for the second byte of a four-byte sequence led by `b0`. */
  predicate SecondOfFour(b0: byte, b1: byte)
  {
    if b0 == 0xF0 then 0x90 <= b1 <= 0xBF
    else if b0 == 0xF4 then 0x80 <= b1 <= 0x8F
    else IsTail(b1)
  }

  /** Byte `i` of `b` as an integer, 0 past the end. */
  function At(b: seq<byte>, i: nat): int
  {
    if i < |b| then b[i] else 0
  }

  /** The well-formed sequence that starts `b`, per the ABNF of section 4 of
      RFC 3629, and the scalar value it encodes; None when `b` starts with
      an ill-formed or truncated sequence. */
  function DecodeFirst(b: seq<byte>): (r: Option<Decoded>)
    requires b != []
    ensures r.Some? ==> 1 <= r.value.len <= |b| && r.value.len <= 4
  {
    var b0, b1, b2, b3 := b[0] as int, At(b, 1), At(b, 2), At(b, 3);
    if b0 <= 0x7F then Some(Decoded(b0 as char, 1))
    else if 0xC2 <= b0 <= 0xDF then
      if 2 <= |b| && IsTail(b[1])
      then Some(Decoded(((b0 - 0xC0) * 0x40 + (b1 - 0x80)) as char, 2))
      else None
    else if 0xE0 <= b0 <= 0xEF then
      if 3 <= |b| && SecondOfThree(b0, b[1]) && IsTail(b[2])
      then Some(Decoded(((b0 - 0xE0) * 0x1000 + (b1 - 0x80) * 0x40 + (b2 - 0x80)) as char, 3))
      else None
    else if 0xF0 <= b0 <= 0xF4 then
      if 4 <= |b| && SecondOfFour(b0, b[1]) && IsTail(b[2]) && IsTail(b[3])
      then Some(Decoded(((b0 - 0xF0) * 0x4_0000 + (b1 - 0x80) * 0x1000 + (b2 - 0x80) * 0x40 + (b3 - 0x80)) as char, 4))
      else None
    else None
  }

  /** `str::from_utf8`: the string the bytes encode, or None when they are not
      well-formed UTF-8. */
  function FromUtf8(b: seq<byte>): Option<string>
    decreases |b|
  {
    if b == [] then Some([])
    else match DecodeFirst(b)
      case None => None
      case Some(d) =>
        match FromUtf8(b[d.len..])
        case None => None
        case Some(s) => Some([d.c] + s)
  }

  lemma DecodeEncode2(c: char, rest: seq<byte>)
    requires 0x80 <= c as int < 0x800
    ensures DecodeFirst(EncodeChar(c) + rest) == Some(Decoded(c, 2))
  {
    var n := c as int;
    var x, q1 := n % 0x40, n / 0x40;
    var b := EncodeChar(c) + rest;
    assert b[0] == 0xC0 + q1 && b[1] == 0x80 + x;
  }

  lemma DecodeEncode3(c: char, rest: seq<byte>)
    requires 0x800 <= c as int < 0x1_0000
    ensures DecodeFirst(EncodeChar(c) + rest) == Some(Decoded(c, 3))
  {
    var n := c as int;
    var x, q1 := n % 0x40, n / 0x40;
    var y, q2 := q1 % 0x40, q1 / 0x40;
    var b := EncodeChar(c) + rest;
    assert n == q2 * 0x1000 + y * 0x40 + x;
    assert b[0] == 0xE0 + q2 && b[1] == 0x80 + y && b[2] == 0x80 + x;
    assert SecondOfThree(b[0], b[1]);
  }

  lemma DecodeEncode4(c: char, rest: seq<byte>)
    requires 0x1_0000 <= c as int
    ensures DecodeFirst(EncodeChar(c) + rest) == Some(Decoded(c, 4))
  {
    var n := c as int;
    var x, q1 := n % 0x40, n / 0x40;
    var y, q2 := q1 % 0x40, q1 / 0x40;
    var z, w := q2 % 0x40, q2 / 0x40;
    var b := EncodeChar(c) + rest;
    assert n == w * 0x4_0000 + z * 0x1000 + y * 0x40 + x;
    assert b[0] == 0xF0 + w && b[1] == 0x80 + z && b[2] == 0x80 + y && b[3] == 0x80 + x;
    assert SecondOfFour(b[0], b[1]);
  }

  /** Decoding the encoding of a character gives it back and consumes exactly
      its bytes, whatever follows. */
  lemma DecodeEncodeChar(c: char, rest: seq<byte>)
    ensures DecodeFirst(EncodeChar(c) + rest) == Some(Decoded(c, |EncodeChar(c)|))
  {
    var n := c as int;
    if n < 0x80 {
    } else if n < 0x800 {
      DecodeEncode2(c, rest);
    } else if n < 0x1_0000 {
      DecodeEncode3(c, rest);
    } else {
      DecodeEncode4(c, rest);
    }
  }

  lemma DivMod64(q: int, r: int)
    requires 0 <= r < 0x40
    ensures (q * 0x40 + r) / 0x40 == q && (q * 0x40 + r) % 0x40 == r
  {
  }

  lemma EncodeDecode3(b: seq<byte>)
    requires b != [] && DecodeFirst(b).Some? && DecodeFirst(b).value.len == 3
    ensures EncodeChar(DecodeFirst(b).value.c) == b[..3]
  {
    var n := DecodeFirst(b).value.c as int;
    var x, y, z := b[2] as int - 0x80, b[1] as int - 0x80, b[0] as int - 0xE0;
    assert n == (z * 0x40 + y) * 0x40 + x;
    DivMod64(z * 0x40 + y, x);
    DivMod64(z, y);
  }

  lemma EncodeDecode4(b: seq<byte>)
    requires b != [] && DecodeFirst(b).Some? && DecodeFirst(b).value.len == 4
    ensures EncodeChar(DecodeFirst(b).value.c) == b[..4]
  {
    var n := DecodeFirst(b).value.c as int;
    var x, y, z, w := b[3] as int - 0x80, b[2] as int - 0x80, b[1] as int - 0x80, b[0] as int - 0xF0;
    assert n == ((w * 0x40 + z) * 0x40 + y) * 0x40 + x;
    DivMod64((w * 0x40 + z) * 0x40 + y, x);
    DivMod64(w * 0x40 + z, y);
    DivMod64(w, z);
  }

  /** A well-formed sequence is the encoding of the character it decodes to. */
  lemma EncodeDecodeFirst(b: seq<byte>)
    requires b != [] && DecodeFirst(b).Some?
    ensures EncodeChar(DecodeFirst(b).value.c) == b[..DecodeFirst(b).value.len]
  {
    var d := DecodeFirst(b).value;
    if d.len == 2 {
      DivMod64(b[0] as int - 0xC0, b[1] as int - 0x80);
    } else if d.len == 3 {
      EncodeDecode3(b);
    } else if d.len == 4 {
      EncodeDecode4(b);
    }
  }

  lemma {:induction false} ToUtf8Append(s: string, t: string)
    ensures ToUtf8(s + t) == ToUtf8(s) + ToUtf8(t)
  {
    if s != [] {
      assert (s + t)[0] == s[0] && (s + t)[1..] == s[1..] + t;
      ToUtf8Append(s[1..], t);
    } else {
      assert s + t == t;
    }
  }

  /** Decoding inverts encoding: every string survives `into_bytes` followed by
      `from_utf8`. */
  lemma {:induction false} FromToUtf8(s: string)
    ensures FromUtf8(ToUtf8(s)) == Some(s)
  {
    if s != [] {
      var e := EncodeChar(s[0]);
      DecodeEncodeChar(s[0], ToUtf8(s[1..]));
      assert (e + ToUtf8(s[1..]))[|e|..] == ToUtf8(s[1..]);
      FromToUtf8(s[1..]);
      assert s == [s[0]] + s[1..];
    }
  }

  /** Encoding inverts decoding: a byte sequence that `from_utf8` accepts is
      exactly the encoding of the string it yields. */
  lemma {:induction false} ToFromUtf8(b: seq<byte>)
    requires FromUtf8(b).Some?
    ensures ToUtf8(FromUtf8(b).value) == b
    decreases |b|
  {
    if b != [] {
      var d := DecodeFirst(b).value;
      EncodeDecodeFirst(b);
      ToFromUtf8(b[d.len..]);
      var s := FromUtf8(b).value;
      assert s[0] == d.c && s[1..] == FromUtf8(b[d.len..]).value;
      assert b == b[..d.len] + b[d.len..];
    }
  }

  /** `from_utf8` accepts `b` and yields `s` exactly when `b` is the UTF-8
      encoding of `s`. */
  lemma Utf8Exact(b: seq<byte>, s: string)
    ensures FromUtf8(b) == Some(s) <==> ToUtf8(s) == b
  {
    if FromUtf8(b) == Some(s) {
      ToFromUtf8(b);
    }
    if ToUtf8(s) == b {
      FromToUtf8(s);
    }
  }

  /** ASCII characters are one byte each, unchanged. */
  lemma {:induction false} AsciiBytes(s: string)
    requires forall i :: 0 <= i < |s| ==> s[i] as int < 0x80
    ensures |ToUtf8(s)| == |s|
    ensures forall i :: 0 <= i < |s| ==> ToUtf8(s)[i] == s[i] as int
  {
    if s != [] {
      AsciiBytes(s[1..]);
    }
  }
}
