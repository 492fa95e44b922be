/**
 * The text codec of the client (`judge0_client.utils.base64_utils`):
 * `base64_encode` writes a text as standard base64 of its UTF-8 form, and
 * `base64_decode` reverses it, deleting every 0x00 octet before reading the
 * octets back as UTF-8.
 */
module Base64Utils {
  import opened Bytes
  import opened Wrappers
  import Base64
  import Utf8

  /** Why `base64_decode` fails: `binascii.Error` or `UnicodeDecodeError`. */
  datatype DecodeError = InvalidBase64 | InvalidUtf8

  /**
   * `base64_encode(s)`: RFC 4648 base64 of the UTF-8 octets of `s`. The
   * result is ASCII drawn from the base64 alphabet and `=`, 4 * ceil(n / 3)
   * characters for n UTF-8 octets.
   */
  function Base64Encode(s: string): (r: string)
    ensures |r| == 4 * ((|Utf8.Encode(s)| + 2) / 3)
    ensures forall i :: 0 <= i < |r| ==> Base64.IsSymbol(r[i]) || r[i] == Base64.Pad
    ensures forall i :: 0 <= i < |r| - 2 ==> r[i] != Base64.Pad
  {
    var octets := Utf8.Encode(s);
    Base64.EncodeAlphabet(octets);
    Base64.Encode(octets)
  }

  /**
   * `base64_decode(s)`: base64-decode, delete every 0x00 octet, then decode
   * the remaining octets as UTF-8. Decoding succeeds exactly when the NUL-free
   * octets are the UTF-8 form of some text, and then yields that text, which
   * never holds U+0000.
   */
  function Base64Decode(s: string): (r: Result<string, DecodeError>)
    ensures r.Err? && r.error == InvalidBase64 <==> Base64.Decode(s).None?
    ensures r.Ok? ==> Base64.Decode(s).Some? && Utf8.Encode(r.value) == WithoutNul(Base64.Decode(s).value)
    ensures r.Ok? ==> '\0' !in r.value
    ensures forall t :: Base64.Decode(s).Some? && Utf8.Encode(t) == WithoutNul(Base64.Decode(s).value) ==> r == Ok(t)
  {
    assert forall t :: Base64.Decode(s).Some? && Utf8.Encode(t) == WithoutNul(Base64.Decode(s).value) ==>
      Utf8.Decode(WithoutNul(Base64.Decode(s).value)) == Some(t) by {
      forall t | Base64.Decode(s).Some? && Utf8.Encode(t) == WithoutNul(Base64.Decode(s).value)
        ensures Utf8.Decode(WithoutNul(Base64.Decode(s).value)) == Some(t)
      {
        Utf8.DecodeEncode(t);
      }
    }
    match Base64.Decode(s)
    case None => Err(InvalidBase64)
    case Some(raw) =>
      match Utf8.Decode(WithoutNul(raw))
      case None => Err(InvalidUtf8)
      case Some(text) =>
        Utf8.EncodeDecode(WithoutNul(raw), text);
        Utf8.NulInEncode(text);
        Ok(text)
  }

  /**
   * Decoding the base64 of any octets yields the UTF-8 text of those octets
   * with their NUL octets deleted, and fails only when what is left is not UTF-8.
   */
  lemma DecodeOfAnyOctets(raw: seq<byte>)
    ensures Base64Decode(Base64.Encode(raw)) ==
      (match Utf8.Decode(WithoutNul(raw)) case None => Err(InvalidUtf8) case Some(t) => Ok(t))
  {
    Base64.DecodeEncode(raw);
  }

  /** The round trip of any text gives the text back with its U+0000 characters removed. */
  lemma RoundTrip(s: string)
    ensures Base64Decode(Base64Encode(s)) == Ok(Utf8.WithoutNulChars(s))
  {
    var octets := Utf8.Encode(s);
    Base64.DecodeEncode(octets);
    Utf8.EncodeWithoutNul(s);
    Utf8.DecodeEncode(Utf8.WithoutNulChars(s));
  }

  /** A text without U+0000 survives the round trip unchanged. */
  lemma RoundTripWithoutNul(s: string)
    requires '\0' !in s
    ensures Base64Decode(Base64Encode(s)) == Ok(s)
  {
    RoundTrip(s);
    Utf8.WithoutNulCharsIdentity(s);
  }

  /** Two texts with the same encoding are the same text. */
  lemma EncodeInjective(s: string, t: string)
    ensures Base64Encode(s) == Base64Encode(t) ==> s == t
  {
    if Base64Encode(s) == Base64Encode(t) {
      Base64.EncodeInjective(Utf8.Encode(s), Utf8.Encode(t));
      Utf8.DecodeEncode(s);
      Utf8.DecodeEncode(t);
    }
  }

  lemma StripAbcNulDefNul()
    ensures WithoutNul([0x61, 0x62, 0x63, 0, 0x64, 0x65, 0x66, 0]) == [0x61, 0x62, 0x63, 0x64, 0x65, 0x66]
  {
    var abc: seq<byte>, def: seq<byte> := [0x61, 0x62, 0x63], [0x64, 0x65, 0x66];
    assert [0x61, 0x62, 0x63, 0, 0x64, 0x65, 0x66, 0] == abc + [0] + def + [0];
    WithoutNulAppend(abc + [0] + def, [0]);
    WithoutNulAppend(abc + [0], def);
    WithoutNulAppend(abc, [0]);
    WithoutNulIdentity(abc);
    WithoutNulIdentity(def);
  }

  lemma DecodeAbcdef()
    ensures Utf8.Decode([0x61, 0x62, 0x63, 0x64, 0x65, 0x66]) == Some("abcdef")
  {
    assert Utf8.Encode("abcdef") == [0x61, 0x62, 0x63, 0x64, 0x65, 0x66];
    Utf8.DecodeEncode("abcdef");
  }

  /** The octets `abc\0def\0` come back as the text "abcdef". */
  lemma DecodeDropsNulExample()
    ensures Base64Decode(Base64.Encode([0x61, 0x62, 0x63, 0, 0x64, 0x65, 0x66, 0])) == Ok("abcdef")
  {
    StripAbcNulDefNul();
    DecodeAbcdef();
    DecodeOfAnyOctets([0x61, 0x62, 0x63, 0, 0x64, 0x65, 0x66, 0]);
  }
}
