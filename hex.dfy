/** Base16 text as the library produces it with `Hex.encodeHexString`: two
    lower-case digits per byte, high nibble first (section 8 of RFC 4648).
    `Decode` is the reference inverse: it accepts either letter case, as
    `Character.digit(c, 16)` does for ASCII, and fails on odd length or on a
    character that is not a hexadecimal digit. */
module Hex {
  import opened JavaTypes
  import opened Wrappers

  predicate IsLowerHexDigit(c: char) {
    '0' <= c <= '9' || 'a' <= c <= 'f'
  }

  predicate IsLowerHex(s: string) {
    forall i :: 0 <= i < |s| ==> IsLowerHexDigit(s[i])
  }

  /** The lower-case digit for a nibble. */
  function Digit(n: nat): (c: char)
    requires n < 16
    ensures IsLowerHexDigit(c)
    ensures NibbleValue(c) == Some(n)
  {
    if n < 10 then ('0' as int + n) as char else ('a' as int + n - 10) as char
  }

  /** The value of one hexadecimal digit, or `None` for any other character. */
  function NibbleValue(c: char): (r: Option<nat>)
    ensures r.Some? ==> r.value < 16
    ensures IsLowerHexDigit(c) ==> r.Some?
  {
    if '0' <= c <= '9' then Some(c as int - '0' as int)
    else if 'a' <= c <= 'f' then Some(c as int - 'a' as int + 10)
    else if 'A' <= c <= 'F' then Some(c as int - 'A' as int + 10)
    else None
  }

  /** `Hex.encodeHexString`: each byte becomes its high and then its low nibble. */
  function Encode(bytes: seq<byte>): (s: string)
    ensures |s| == 2 * |bytes|
    ensures IsLowerHex(s)
  {
    if bytes == [] then []
    else [Digit(bytes[0] as int / 16), Digit(bytes[0] as int % 16)] + Encode(bytes[1..])
  }

  /** Hexadecimal text back to bytes; `None` for odd length or a non-digit. */
  function Decode(s: string): (r: Option<seq<byte>>)
    ensures r.Some? ==> 2 * |r.value| == |s|
    ensures |s| % 2 == 1 ==> r.None?
  {
    if |s| == 0 then Some([])
    else if |s| == 1 then None
    else
      var hi := NibbleValue(s[0]);
      var lo := NibbleValue(s[1]);
      var rest := Decode(s[2..]);
      if hi.None? || lo.None? || rest.None? then None
      else Some([(hi.value * 16 + lo.value) as byte] + rest.value)
  }

  /** Decoding the encoder's output gives back the bytes. */
  lemma {:induction false} DecodeEncode(bytes: seq<byte>)
    ensures Decode(Encode(bytes)) == Some(bytes)
  {
    if bytes != [] {
      var s := Encode(bytes);
      var b := bytes[0] as int;
      assert s[2..] == Encode(bytes[1..]);
      DecodeEncode(bytes[1..]);
      assert (b / 16) * 16 + b % 16 == b;
      assert bytes == [bytes[0]] + bytes[1..];
    }
  }

  /** Lower-case hexadecimal text that decodes is exactly the encoding of what
      it decodes to: on lower-case text `Encode` and `Decode` are inverse. */
  lemma {:induction false} EncodeDecode(s: string)
    requires IsLowerHex(s) && Decode(s).Some?
    ensures Encode(Decode(s).value) == s
  {
    if |s| > 0 {
      var bytes := Decode(s).value;
      var hi := NibbleValue(s[0]).value;
      var lo := NibbleValue(s[1]).value;
      assert IsLowerHex(s[2..]) by {
        forall i | 0 <= i < |s[2..]| ensures IsLowerHexDigit(s[2..][i]) {
          assert s[2..][i] == s[i + 2];
        }
      }
      EncodeDecode(s[2..]);
      assert bytes[0] as int == hi * 16 + lo && bytes[1..] == Decode(s[2..]).value;
      assert (hi * 16 + lo) / 16 == hi && (hi * 16 + lo) % 16 == lo;
      assert Digit(hi) == s[0] && Digit(lo) == s[1];
      assert s == [s[0], s[1]] + s[2..];
    }
  }

  /** Distinct byte strings have distinct encodings. */
  lemma EncodeInjective(a: seq<byte>, b: seq<byte>)
    requires Encode(a) == Encode(b)
    ensures a == b
  {
    DecodeEncode(a);
    DecodeEncode(b);
  }
}
