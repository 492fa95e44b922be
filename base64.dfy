/**
 * The standard base64 encoding of section 4 of RFC 4648: the 64-symbol
 * alphabet `A-Z a-z 0-9 + /`, every 3 octets written as 4 symbols, and a
 * final partial group padded with `=` to a whole quantum of 4 characters.
 */
module Base64 {
  import opened Bytes
  import opened Wrappers

  /** The pad character of section 4 of RFC 4648. */
  const Pad: char := '='

  /** The 64 characters of the base64 alphabet (Table 1 of RFC 4648). */
  predicate IsSymbol(c: char) {
    ('A' <= c <= 'Z') || ('a' <= c <= 'z') || ('0' <= c <= '9') || c == '+' || c == '/'
  }

  /** The value, 0 to 63, that an alphabet character stands for. */
  function Value(c: char): (v: int)
    requires IsSymbol(c)
    ensures 0 <= v < 64
  {
    if 'A' <= c <= 'Z' then c as int - 'A' as int
    else if 'a' <= c <= 'z' then c as int - 'a' as int + 26
    else if '0' <= c <= '9' then c as int - '0' as int + 52
    else if c == '+' then 62
    else 63
  }

  /** The alphabet character that stands for a 6-bit value. */
  function Symbol(v: int): (c: char)
    requires 0 <= v < 64
    ensures IsSymbol(c)
  {
    if v < 26 then ('A' as int + v) as char
    else if v < 52 then ('a' as int + (v - 26)) as char
    else if v < 62 then ('0' as int + (v - 52)) as char
    else if v == 62 then '+'
    else '/'
  }

  /** `Value` inverts `Symbol`. */
  lemma ValueOfSymbol(v: int)
    requires 0 <= v < 64
    ensures Value(Symbol(v)) == v
  {
  }

  /** Three octets (24 bits) as four 6-bit symbols, most significant bits first. */
  function EncodeGroup(a: byte, b: byte, c: byte): string {
    [Symbol(a / 4), Symbol((a % 4) * 16 + b / 16), Symbol((b % 16) * 4 + c / 64), Symbol(c % 64)]
  }

  /** A final group of two octets: three symbols (the low 2 bits zero) and one pad. */
  function EncodeTwo(a: byte, b: byte): string {
    [Symbol(a / 4), Symbol((a % 4) * 16 + b / 16), Symbol((b % 16) * 4), Pad]
  }

  /** A final group of one octet: two symbols (the low 4 bits zero) and two pads. */
  function EncodeOne(a: byte): string {
    [Symbol(a / 4), Symbol((a % 4) * 16), Pad, Pad]
  }

  /**
   * `base64.b64encode(data).decode("ascii")`: 4 * ceil(n / 3) characters
   * for n octets.
   */
  function Encode(data: seq<byte>): (s: string)
    ensures |s| == 4 * ((|data| + 2) / 3)
    decreases |data|
  {
    if |data| >= 3 then
      assert (|data| + 2) / 3 == (|data[3..]| + 2) / 3 + 1;
      EncodeGroup(data[0], data[1], data[2]) + Encode(data[3..])
    else if |data| == 2 then EncodeTwo(data[0], data[1])
    else if |data| == 1 then EncodeOne(data[0])
    else ""
  }

  /**
   * The encoded text uses only the alphabet and `=`, and `=` appears only in
   * its last two positions.
   */
  lemma {:induction false} EncodeAlphabet(data: seq<byte>)
    ensures forall i :: 0 <= i < |Encode(data)| ==> IsSymbol(Encode(data)[i]) || Encode(data)[i] == Pad
    ensures forall i :: 0 <= i < |Encode(data)| - 2 ==> Encode(data)[i] != Pad
    decreases |data|
  {
    if |data| >= 3 {
      EncodeAlphabet(data[3..]);
      var head, tail := EncodeGroup(data[0], data[1], data[2]), Encode(data[3..]);
      assert Encode(data) == head + tail;
      forall i | 0 <= i < |head + tail|
        ensures IsSymbol((head + tail)[i]) || (head + tail)[i] == Pad
        ensures i < |head + tail| - 2 ==> (head + tail)[i] != Pad
      {
        if i >= 4 {
          assert (head + tail)[i] == tail[i - 4];
        }
      }
    }
  }

  /** A whole number of groups is written without any pad. */
  lemma {:induction false} EncodeWholeNoPad(data: seq<byte>)
    ensures |data| % 3 == 0 ==> Pad !in Encode(data)
    decreases |data|
  {
    if |data| >= 3 && |data| % 3 == 0 {
      var rest := data[3..];
      assert |rest| % 3 == 0;
      EncodeWholeNoPad(rest);
      assert Encode(data) == EncodeGroup(data[0], data[1], data[2]) + Encode(rest);
      GroupHasNoPad(data[0], data[1], data[2]);
      LastTwo(EncodeGroup(data[0], data[1], data[2]), Encode(rest));
    }
  }

  /** One leftover octet ends the text with two pads. */
  lemma {:induction false} EncodeOneLeftover(data: seq<byte>)
    ensures var s := Encode(data);
      |data| % 3 == 1 ==> s[|s| - 2] == Pad && s[|s| - 1] == Pad
    decreases |data|
  {
    if |data| >= 3 && |data| % 3 == 1 {
      var rest := data[3..];
      assert |rest| % 3 == 1;
      EncodeOneLeftover(rest);
      var head, tail := EncodeGroup(data[0], data[1], data[2]), Encode(rest);
      assert (|rest| + 2) / 3 >= 1;
      assert Encode(data) == head + tail;
      LastTwo(head, tail);
    }
  }

  /** Two leftover octets end the text with a symbol and a single pad. */
  lemma {:induction false} EncodeTwoLeftover(data: seq<byte>)
    ensures var s := Encode(data);
      |data| % 3 == 2 ==> s[|s| - 2] != Pad && s[|s| - 1] == Pad
    decreases |data|
  {
    if |data| >= 3 && |data| % 3 == 2 {
      var rest := data[3..];
      assert |rest| % 3 == 2;
      EncodeTwoLeftover(rest);
      var head, tail := EncodeGroup(data[0], data[1], data[2]), Encode(rest);
      assert (|rest| + 2) / 3 >= 1;
      assert Encode(data) == head + tail;
      LastTwo(head, tail);
    }
  }

  /**
   * The number of pads is the number of octets the last group lacks: none
   * for a whole number of groups, `==` after one leftover octet, and a
   * single `=` after two.
   */
  lemma EncodePadding(data: seq<byte>)
    ensures var s := Encode(data);
      && (|data| % 3 == 0 ==> Pad !in s)
      && (|data| % 3 == 1 ==> s[|s| - 2] == Pad && s[|s| - 1] == Pad)
      && (|data| % 3 == 2 ==> s[|s| - 2] != Pad && s[|s| - 1] == Pad)
  {
    EncodeWholeNoPad(data);
    EncodeOneLeftover(data);
    EncodeTwoLeftover(data);
  }

  /** A whole group never holds a pad. */
  lemma GroupHasNoPad(a: byte, b: byte, c: byte)
    ensures Pad !in EncodeGroup(a, b, c)
  {
    var g := EncodeGroup(a, b, c);
    assert IsSymbol(g[0]) && IsSymbol(g[1]) && IsSymbol(g[2]) && IsSymbol(g[3]);
  }

  /** The last two elements of a concatenation come from its right part. */
  lemma LastTwo<T>(head: seq<T>, tail: seq<T>)
    ensures |tail| >= 2 ==> (head + tail)[|head + tail| - 2] == tail[|tail| - 2]
    ensures |tail| >= 2 ==> (head + tail)[|head + tail| - 1] == tail[|tail| - 1]
  {
  }

  /** Four alphabet symbols back to the three octets they carry. */
  function DecodeGroup(q: string): (r: Option<seq<byte>>)
    requires |q| == 4
    ensures r.Some? <==> (IsSymbol(q[0]) && IsSymbol(q[1]) && IsSymbol(q[2]) && IsSymbol(q[3]))
    ensures r.Some? ==> |r.value| == 3
  {
    if IsSymbol(q[0]) && IsSymbol(q[1]) && IsSymbol(q[2]) && IsSymbol(q[3]) then
      var v0, v1, v2, v3 := Value(q[0]), Value(q[1]), Value(q[2]), Value(q[3]);
      Some([v0 * 4 + v1 / 16, (v1 % 16) * 16 + v2 / 4, (v2 % 4) * 64 + v3])
    else None
  }

  /**
   * The last quantum of the text: four symbols, three symbols and one pad, or
   * two symbols and two pads. Bits that a shortened group leaves over are
   * dropped, which section 3.5 of RFC 4648 allows a decoder to do.
   */
  function DecodeLast(q: string): (r: Option<seq<byte>>)
    requires |q| == 4
    ensures r.Some? ==> 1 <= |r.value| <= 3
  {
    if q[3] != Pad then DecodeGroup(q)
    else if q[2] != Pad then
      if IsSymbol(q[0]) && IsSymbol(q[1]) && IsSymbol(q[2]) then
        var v0, v1, v2 := Value(q[0]), Value(q[1]), Value(q[2]);
        Some([v0 * 4 + v1 / 16, (v1 % 16) * 16 + v2 / 4])
      else None
    else if IsSymbol(q[0]) && IsSymbol(q[1]) then
      var v0, v1 := Value(q[0]), Value(q[1]);
      Some([v0 * 4 + v1 / 16])
    else None
  }

  /**
   * Strict RFC 4648 decoding: the text is a whole number of 4-character
   * quanta, every character is in the alphabet, and padding appears only in
   * the last quantum, at most two pads. Anything else is rejected.
   */
  function Decode(s: string): (r: Option<seq<byte>>)
    ensures r.Some? ==> |s| % 4 == 0
    ensures r.Some? ==> |s| / 4 * 3 - 2 <= |r.value| <= |s| / 4 * 3
    decreases |s|
  {
    if s == "" then Some([])
    else if |s| % 4 != 0 then None
    else if |s| == 4 then DecodeLast(s)
    else match DecodeGroup(s[..4])
      case None => None
      case Some(head) =>
        match Decode(s[4..])
        case None => None
        case Some(tail) => Some(head + tail)
  }

  lemma DecodeEncodeGroup(a: byte, b: byte, c: byte)
    ensures DecodeGroup(EncodeGroup(a, b, c)) == Some([a, b, c])
  {
    var q := EncodeGroup(a, b, c);
    ValueOfSymbol(a / 4);
    ValueOfSymbol((a % 4) * 16 + b / 16);
    ValueOfSymbol((b % 16) * 4 + c / 64);
    ValueOfSymbol(c % 64);
    assert Value(q[1]) / 16 == a % 4 && Value(q[1]) % 16 == b / 16;
    assert Value(q[2]) / 4 == b % 16 && Value(q[2]) % 4 == c / 64;
  }

  lemma DecodeEncodeThree(a: byte, b: byte, c: byte)
    ensures Decode(EncodeGroup(a, b, c)) == Some([a, b, c])
  {
    var q := EncodeGroup(a, b, c);
    assert |q| == 4 && q[3] != Pad;
    assert DecodeGroup(q) == Some([a, b, c]) by { DecodeEncodeGroup(a, b, c); }
  }

  lemma DecodeEncodeTwo(a: byte, b: byte)
    ensures Decode(EncodeTwo(a, b)) == Some([a, b])
  {
    var q := EncodeTwo(a, b);
    assert |q| == 4 && q[3] == Pad && q[2] != Pad;
    ValueOfSymbol(a / 4);
    ValueOfSymbol((a % 4) * 16 + b / 16);
    ValueOfSymbol((b % 16) * 4);
    assert Value(q[1]) / 16 == a % 4 && Value(q[1]) % 16 == b / 16;
    assert Value(q[2]) / 4 == b % 16;
  }

  lemma DecodeEncodeOne(a: byte)
    ensures Decode(EncodeOne(a)) == Some([a])
  {
    var q := EncodeOne(a);
    assert |q| == 4 && q[3] == Pad && q[2] == Pad;
    ValueOfSymbol(a / 4);
    ValueOfSymbol((a % 4) * 16);
    assert Value(q[1]) / 16 == a % 4;
  }

  /** A text of more than one quantum decodes its first quantum and then the rest. */
  lemma DecodeLonger(head: string, rest: string)
    requires |head| == 4 && |rest| > 0 && |rest| % 4 == 0
    ensures Decode(head + rest) ==
      match DecodeGroup(head)
      case None => None
      case Some(h) => match Decode(rest) case None => None case Some(t) => Some(h + t)
  {
    var s := head + rest;
    assert |s| % 4 == 0 && |s| != 4 && s != "";
    assert s[..4] == head && s[4..] == rest;
  }

  lemma SplitGroup<T>(s: seq<T>)
    requires |s| >= 3
    ensures s == [s[0], s[1], s[2]] + s[3..]
  {
  }

  lemma WholeGroup<T>(s: seq<T>)
    requires |s| == 3
    ensures s == [s[0], s[1], s[2]]
  {
  }

  lemma DecodeEncodeLonger(data: seq<byte>)
    requires |data| > 3
    requires Decode(Encode(data[3..])) == Some(data[3..])
    ensures Decode(Encode(data)) == Some(data)
  {
    var a, b, c, rest := data[0], data[1], data[2], data[3..];
    var head := EncodeGroup(a, b, c);
    var tail := Encode(rest);
    assert |tail| > 0 && |tail| % 4 == 0 by {
      var n := (|rest| + 2) / 3;
      assert n > 0 && |tail| == 4 * n;
    }
    assert Encode(data) == head + tail;
    assert DecodeGroup(head) == Some([a, b, c]) by { DecodeEncodeGroup(a, b, c); }
    DecodeLonger(head, tail);
    SplitGroup(data);
  }

  lemma DecodeEncodeThreeBytes(data: seq<byte>)
    requires |data| == 3
    ensures Decode(Encode(data)) == Some(data)
  {
    var a, b, c := data[0], data[1], data[2];
    var q := EncodeGroup(a, b, c);
    SplitGroup(data);
    WholeGroup(data);
    assert Encode(data[3..]) == "";
    assert Encode(data) == q + "" == q;
    DecodeEncodeThree(a, b, c);
  }

  /** Decoding inverts encoding on every byte string. */
  lemma {:induction false} DecodeEncode(data: seq<byte>)
    ensures Decode(Encode(data)) == Some(data)
    decreases |data|
  {
    if |data| > 3 {
      DecodeEncode(data[3..]);
      DecodeEncodeLonger(data);
    } else if |data| == 3 {
      DecodeEncodeThreeBytes(data);
    } else if |data| == 2 {
      assert data == [data[0], data[1]];
      DecodeEncodeTwo(data[0], data[1]);
    } else if |data| == 1 {
      assert data == [data[0]];
      DecodeEncodeOne(data[0]);
    }
  }

  /** Encoding is injective: two byte strings with the same base64 text are equal. */
  lemma EncodeInjective(a: seq<byte>, b: seq<byte>)
    requires Encode(a) == Encode(b)
    ensures a == b
  {
    DecodeEncode(a);
    DecodeEncode(b);
  }

  /** Test vectors of section 10 of RFC 4648: BASE64("f"), BASE64("fo") and BASE64("foo"). */
  lemma StandardVectors()
    ensures Encode([0x66]) == "Zg=="
    ensures Encode([0x66, 0x6F]) == "Zm8="
    ensures Encode([0x66, 0x6F, 0x6F]) == "Zm9v"
  {
    var foo: seq<byte> := [0x66, 0x6F, 0x6F];
    assert foo[3..] == [];
  }
}
