/** Octets and the operations on byte strings that the codec shares. */
module Bytes {

  /** One octet, as Python's `bytes` elements are. */
  type byte = x: int | 0 <= x < 256

  /** `raw.replace(b"\x00", b"")`: the byte string with every 0x00 octet deleted. */
  function WithoutNul(raw: seq<byte>): (r: seq<byte>)
    ensures |r| <= |raw|
    ensures 0 !in r
    ensures forall x :: x != 0 ==> (x in r <==> x in raw)
  {
    if raw == [] then []
    else if raw[0] == 0 then WithoutNul(raw[1..])
    else [raw[0]] + WithoutNul(raw[1..])
  }

  /** Deleting NUL octets distributes over concatenation. */
  lemma {:induction false} WithoutNulAppend(a: seq<byte>, b: seq<byte>)
    ensures WithoutNul(a + b) == WithoutNul(a) + WithoutNul(b)
  {
    if a == [] {
      assert a + b == b;
    } else {
      assert (a + b)[0] == a[0];
      assert (a + b)[1..] == a[1..] + b;
      WithoutNulAppend(a[1..], b);
    }
  }

  /** A byte string without NUL octets is left as it is. */
  lemma {:induction false} WithoutNulIdentity(raw: seq<byte>)
    requires 0 !in raw
    ensures WithoutNul(raw) == raw
  {
    if raw != [] {
      assert raw == [raw[0]] + raw[1..];
      WithoutNulIdentity(raw[1..]);
    }
  }

  /** A sequence is its prefix followed by its suffix. */
  lemma SplitAt<T>(s: seq<T>, n: nat)
    requires n <= |s|
    ensures s == s[..n] + s[n..]
  {
  }
}
