/**
 * UTF-8 (RFC 3629) between Unicode text and octets: `str.encode("utf-8")`
 * and the strict `bytes.decode("utf-8")`. A Dafny `char` is a Unicode scalar
 * value, so every text has a UTF-8 form.
 */
module Utf8 {
  import opened Bytes
  import opened Wrappers

  /** A continuation octet `10xxxxxx`. */
  predicate IsContinuation(b: byte) {
    0x80 <= b < 0xC0
  }

  /** The UTF-8 form of one scalar value: 1 to 4 octets by the size of the value. */
  function EncodeScalar(c: char): (r: seq<byte>)
    ensures |r| == (if c as int < 0x80 then 1 else if c as int < 0x800 then 2
                    else if c as int < 0x10000 then 3 else 4)
  {
    var v := c as int;
    if v < 0x80 then [v]
    else if v < 0x800 then [0xC0 + v / 64, 0x80 + v % 64]
    else if v < 0x10000 then [0xE0 + v / 4096, 0x80 + (v / 64) % 64, 0x80 + v % 64]
    else [0xF0 + v / 262144, 0x80 + (v / 4096) % 64, 0x80 + (v / 64) % 64, 0x80 + v % 64]
  }

  /** `s.encode("utf-8")`: the octets of each character in turn. */
  function Encode(s: string): (r: seq<byte>)
    ensures |s| <= |r| <= 4 * |s|
  {
    if s == "" then [] else EncodeScalar(s[0]) + Encode(s[1..])
  }

  /**
   * The first character of a UTF-8 byte string and the number of octets it
   * takes. Overlong forms, surrogates (U+D800 to U+DFFF), values above
   * U+10FFFF, stray continuation octets and truncated sequences are rejected.
   */
  function DecodeScalar(b: seq<byte>): (r: Option<(char, nat)>)
    requires |b| > 0
    ensures r.Some? ==> 1 <= r.value.1 <= |b| && r.value.1 <= 4
  {
    var b0: int := b[0];
    if b0 < 0x80 then Some((b0 as char, 1))
    else if 0xC2 <= b0 < 0xE0 then
      if |b| >= 2 && IsContinuation(b[1]) then
        Some((((b0 - 0xC0) * 64 + (b[1] as int - 0x80)) as char, 2))
      else None
    else if 0xE0 <= b0 < 0xF0 then
      if |b| >= 3 && IsContinuation(b[1]) && IsContinuation(b[2])
         && (b0 != 0xE0 || b[1] >= 0xA0) && (b0 != 0xED || b[1] < 0xA0) then
        Some((((b0 - 0xE0) * 4096 + (b[1] as int - 0x80) * 64 + (b[2] as int - 0x80)) as char, 3))
      else None
    else if 0xF0 <= b0 < 0xF5 then
      if |b| >= 4 && IsContinuation(b[1]) && IsContinuation(b[2]) && IsContinuation(b[3])
         && (b0 != 0xF0 || b[1] >= 0x90) && (b0 != 0xF4 || b[1] < 0x90) then
        Some((((b0 - 0xF0) * 262144 + (b[1] as int - 0x80) * 4096
               + (b[2] as int - 0x80) * 64 + (b[3] as int - 0x80)) as char, 4))
      else None
    else None
  }

  /** `b.decode("utf-8")`: `None` where Python raises `UnicodeDecodeError`. */
  function Decode(b: seq<byte>): (r: Option<string>)
    ensures r.Some? ==> |r.value| <= |b| <= 4 * |r.value|
    decreases |b|
  {
    if b == [] then Some("")
    else match DecodeScalar(b)
      case None => None
      case Some((c, n)) =>
        match Decode(b[n..])
        case None => None
        case Some(rest) => Some([c] + rest)
  }

  /** The text with every U+0000 character removed. */
  function WithoutNulChars(s: string): (r: string)
    ensures |r| <= |s|
    ensures '\0' !in r
    ensures forall c :: c != '\0' ==> (c in r <==> c in s)
  {
    if s == "" then ""
    else if s[0] == '\0' then WithoutNulChars(s[1..])
    else [s[0]] + WithoutNulChars(s[1..])
  }

  lemma DecodeScalarOne(c: char, rest: seq<byte>)
    requires c as int < 0x80
    ensures DecodeScalar(EncodeScalar(c) + rest) == Some((c, 1))
  {
    assert (EncodeScalar(c) + rest)[0] == c as int;
  }

  lemma DecodeScalarTwo(c: char, rest: seq<byte>)
    requires 0x80 <= c as int < 0x800
    ensures DecodeScalar(EncodeScalar(c) + rest) == Some((c, 2))
  {
    var v := c as int;
    var b := EncodeScalar(c) + rest;
    assert b[0] == 0xC0 + v / 64 && b[1] == 0x80 + v % 64;
  }

  lemma DecodeScalarThree(c: char, rest: seq<byte>)
    requires 0x800 <= c as int < 0x10000
    ensures DecodeScalar(EncodeScalar(c) + rest) == Some((c, 3))
  {
    var v := c as int;
    var b := EncodeScalar(c) + rest;
    var q := v / 64;
    assert v == 64 * q + v % 64;
    assert q / 64 == v / 4096;
    assert q == 64 * (v / 4096) + q % 64;
    assert b[0] == 0xE0 + v / 4096 && b[1] == 0x80 + q % 64 && b[2] == 0x80 + v % 64;
  }

  lemma DecodeScalarFour(c: char, rest: seq<byte>)
    requires 0x10000 <= c as int
    ensures DecodeScalar(EncodeScalar(c) + rest) == Some((c, 4))
  {
    var v := c as int;
    var b := EncodeScalar(c) + rest;
    var q := v / 64;
    var p := v / 4096;
    assert v == 64 * q + v % 64;
    assert q / 64 == p;
    assert q == 64 * p + q % 64;
    assert p / 64 == v / 262144;
    assert p == 64 * (v / 262144) + p % 64;
    assert b[0] == 0xF0 + v / 262144 && b[1] == 0x80 + p % 64;
    assert b[2] == 0x80 + q % 64 && b[3] == 0x80 + v % 64;
  }

  /** The first character of a UTF-8 form is read back with the number of octets it took. */
  lemma DecodeScalarEncode(c: char, rest: seq<byte>)
    ensures DecodeScalar(EncodeScalar(c) + rest) == Some((c, |EncodeScalar(c)|))
  {
    var v := c as int;
    if v < 0x80 {
      DecodeScalarOne(c, rest);
    } else if v < 0x800 {
      DecodeScalarTwo(c, rest);
    } else if v < 0x10000 {
      DecodeScalarThree(c, rest);
    } else {
      DecodeScalarFour(c, rest);
    }
  }

  /** Decoding inverts encoding: every text survives a UTF-8 round trip. */
  lemma {:induction false} DecodeEncode(s: string)
    ensures Decode(Encode(s)) == Some(s)
  {
    if s != "" {
      var head := EncodeScalar(s[0]);
      var b := Encode(s);
      assert b == head + Encode(s[1..]);
      DecodeScalarEncode(s[0], Encode(s[1..]));
      assert b[|head|..] == Encode(s[1..]);
      DecodeEncode(s[1..]);
      assert [s[0]] + s[1..] == s;
    }
  }

  lemma EncodeTwoOctets(b0: int, b1: int)
    requires 0xC2 <= b0 < 0xE0 && 0x80 <= b1 < 0xC0
    ensures EncodeScalar(((b0 - 0xC0) * 64 + (b1 - 0x80)) as char) == [b0, b1]
  {
    var v := (b0 - 0xC0) * 64 + (b1 - 0x80);
    assert v / 64 == b0 - 0xC0 && v % 64 == b1 - 0x80;
  }

  lemma EncodeThreeOctets(b0: int, b1: int, b2: int)
    requires 0xE0 <= b0 < 0xF0 && 0x80 <= b1 < 0xC0 && 0x80 <= b2 < 0xC0
    requires (b0 != 0xE0 || b1 >= 0xA0) && (b0 != 0xED || b1 < 0xA0)
    ensures EncodeScalar(((b0 - 0xE0) * 4096 + (b1 - 0x80) * 64 + (b2 - 0x80)) as char) == [b0, b1, b2]
  {
    var x0, x1, x2 := b0 - 0xE0, b1 - 0x80, b2 - 0x80;
    var v := x0 * 4096 + x1 * 64 + x2;
    assert v / 64 == x0 * 64 + x1 && v % 64 == x2;
    assert v / 4096 == x0 && (v / 64) % 64 == x1;
  }

  lemma EncodeFourOctets(b0: int, b1: int, b2: int, b3: int)
    requires 0xF0 <= b0 < 0xF5 && 0x80 <= b1 < 0xC0 && 0x80 <= b2 < 0xC0 && 0x80 <= b3 < 0xC0
    requires (b0 != 0xF0 || b1 >= 0x90) && (b0 != 0xF4 || b1 < 0x90)
    ensures EncodeScalar(((b0 - 0xF0) * 262144 + (b1 - 0x80) * 4096 + (b2 - 0x80) * 64 + (b3 - 0x80)) as char)
         == [b0, b1, b2, b3]
  {
    var x0, x1, x2, x3 := b0 - 0xF0, b1 - 0x80, b2 - 0x80, b3 - 0x80;
    var v := x0 * 262144 + x1 * 4096 + x2 * 64 + x3;
    assert v / 64 == x0 * 4096 + x1 * 64 + x2 && v % 64 == x3;
    assert v / 4096 == x0 * 64 + x1 && (v / 64) % 64 == x2;
    assert v / 262144 == x0 && (v / 4096) % 64 == x1;
  }

  /** Reading one character and writing it back gives the octets it was read from. */
  lemma EncodeDecodeScalar(b: seq<byte>)
    requires |b| > 0 && DecodeScalar(b).Some?
    ensures EncodeScalar(DecodeScalar(b).value.0) == b[..DecodeScalar(b).value.1]
  {
    var n := DecodeScalar(b).value.1;
    if n == 2 {
      EncodeTwoOctets(b[0], b[1]);
      assert b[..2] == [b[0], b[1]];
    } else if n == 3 {
      EncodeThreeOctets(b[0], b[1], b[2]);
      assert b[..3] == [b[0], b[1], b[2]];
    } else if n == 4 {
      EncodeFourOctets(b[0], b[1], b[2], b[3]);
      assert b[..4] == [b[0], b[1], b[2], b[3]];
    } else {
      assert b[..1] == [b[0]];
    }
  }

  lemma EncodeCons(c: char, rest: string)
    ensures Encode([c] + rest) == EncodeScalar(c) + Encode(rest)
  {
    assert ([c] + rest)[0] == c && ([c] + rest)[1..] == rest;
  }

  lemma DecodeStep(b: seq<byte>)
    requires b != [] && Decode(b).Some?
    ensures DecodeScalar(b).Some?
    ensures Decode(b[DecodeScalar(b).value.1..]).Some?
    ensures Decode(b).value == [DecodeScalar(b).value.0] + Decode(b[DecodeScalar(b).value.1..]).value
  {
  }

  /** A byte string decodes only when it is the UTF-8 form of the text it decodes to. */
  lemma {:induction false} EncodeDecode(b: seq<byte>, s: string)
    requires Decode(b) == Some(s)
    ensures Encode(s) == b
    decreases |b|
  {
    if b != [] {
      DecodeStep(b);
      var (c, n) := DecodeScalar(b).value;
      var tail := b[n..];
      var rest := Decode(tail).value;
      SplitAt(b, n);
      EncodeDecode(tail, rest);
      EncodeDecodeScalar(b);
      EncodeCons(c, rest);
    }
  }

  /** UTF-8 is a bijection between texts and the byte strings it accepts. */
  lemma DecodeIff(b: seq<byte>, s: string)
    ensures Decode(b) == Some(s) <==> b == Encode(s)
  {
    DecodeEncode(s);
    if Decode(b) == Some(s) {
      EncodeDecode(b, s);
    }
  }

  /** Only U+0000 has a 0x00 octet in its UTF-8 form, and its form is that one octet. */
  lemma NulOctetOnlyFromNul(c: char)
    ensures 0 in EncodeScalar(c) <==> c == '\0'
    ensures c == '\0' ==> EncodeScalar(c) == [0]
  {
  }

  /** Deleting 0x00 octets from a UTF-8 form deletes exactly the U+0000 characters of the text. */
  lemma {:induction false} EncodeWithoutNul(s: string)
    ensures WithoutNul(Encode(s)) == Encode(WithoutNulChars(s))
  {
    if s != "" {
      var head, tail := EncodeScalar(s[0]), Encode(s[1..]);
      assert Encode(s) == head + tail;
      WithoutNulAppend(head, tail);
      EncodeWithoutNul(s[1..]);
      NulOctetOnlyFromNul(s[0]);
      if s[0] == '\0' {
        assert WithoutNul(head) == [];
      } else {
        WithoutNulIdentity(head);
        var rest := WithoutNulChars(s[1..]);
        assert ([s[0]] + rest)[0] == s[0] && ([s[0]] + rest)[1..] == rest;
      }
    }
  }

  /** Removing U+0000 distributes over concatenation: order and repeats are kept. */
  lemma {:induction false} WithoutNulCharsAppend(a: string, b: string)
    ensures WithoutNulChars(a + b) == WithoutNulChars(a) + WithoutNulChars(b)
  {
    if a == "" {
      assert a + b == b;
    } else {
      assert (a + b)[0] == a[0];
      assert (a + b)[1..] == a[1..] + b;
      WithoutNulCharsAppend(a[1..], b);
    }
  }

  /** A text without U+0000 is left as it is by `WithoutNulChars`. */
  lemma {:induction false} WithoutNulCharsIdentity(s: string)
    requires '\0' !in s
    ensures WithoutNulChars(s) == s
  {
    if s != "" {
      assert s == [s[0]] + s[1..];
      WithoutNulCharsIdentity(s[1..]);
    }
  }

  /** The UTF-8 form of a text holds a 0x00 octet exactly when the text holds U+0000. */
  lemma {:induction false} NulInEncode(s: string)
    ensures 0 in Encode(s) <==> '\0' in s
  {
    if s != "" {
      NulOctetOnlyFromNul(s[0]);
      NulInEncode(s[1..]);
      assert Encode(s) == EncodeScalar(s[0]) + Encode(s[1..]);
      assert s == [s[0]] + s[1..];
    }
  }

  /** U+1F680 ROCKET takes the four octets F0 9F 9A 80. */
  lemma RocketVector()
    ensures EncodeScalar('\U{1F680}') == [0xF0, 0x9F, 0x9A, 0x80]
  {
  }
}
