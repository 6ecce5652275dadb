/** Base16 in lower case: Go's `fmt "%x"` of a byte slice, `hex.Encode`,
    and the "%#2.2x" spelling of a single byte (section 8 of RFC 4648,
    lower-case alphabet). */
module Hex {
  import opened Wrappers
  import opened Text

  predicate IsLowerHexDigit(c: char) {
    '0' <= c <= '9' || 'a' <= c <= 'f'
  }

  /** The digit for a nibble, from "0123456789abcdef". */
  function Digit(k: nat): (c: char)
    requires k < 16
    ensures IsLowerHexDigit(c)
  {
    if k < 10 then (k + '0' as int) as char else (k - 10 + 'a' as int) as char
  }

  /** The two digits of one byte, high nibble first. */
  function ByteHex(b: byte): (r: string)
    ensures |r| == 2 && IsLowerHexDigit(r[0]) && IsLowerHexDigit(r[1])
  {
    [Digit(b / 16), Digit(b % 16)]
  }

  /** Lower-case base16 of a byte string: two digits per byte. */
  function Encode(bs: seq<byte>): (r: string)
    ensures |r| == 2 * |bs|
    ensures forall i :: 0 <= i < |r| ==> IsLowerHexDigit(r[i])
  {
    if |bs| == 0 then "" else ByteHex(bs[0]) + Encode(bs[1..])
  }

  /** Encoding commutes with concatenation, so encoding a stream piecewise
      gives the encoding of the whole stream. */
  lemma {:induction false} EncodeAppend(a: seq<byte>, b: seq<byte>)
    ensures Encode(a + b) == Encode(a) + Encode(b)
  {
    if |a| == 0 {
      assert a + b == b;
    } else {
      EncodeAppend(a[1..], b);
      assert (a + b)[0] == a[0] && (a + b)[1..] == a[1..] + b;
      var h := ByteHex(a[0]);
      assert Encode(a + b) == h + Encode(a[1..] + b);
      ConcatAssoc(h, Encode(a[1..]), Encode(b));
    }
  }

  /** The value of one lower-case hex digit. */
  function DigitValue(c: char): (r: Option<nat>)
    ensures r.Some? <==> IsLowerHexDigit(c)
    ensures r.Some? ==> r.value < 16 && Digit(r.value) == c
  {
    if '0' <= c <= '9' then Some(c as int - '0' as int)
    else if 'a' <= c <= 'f' then Some(c as int - 'a' as int + 10)
    else None
  }

  /** The inverse of Encode: pairs of lower-case digits back to bytes. */
  function Decode(s: string): (r: Option<seq<byte>>)
    ensures r.Some? ==> 2 * |r.value| == |s|
  {
    if |s| == 0 then Some([])
    else if |s| == 1 then None
    else
      var h := DigitValue(s[0]);
      var l := DigitValue(s[1]);
      var rest := Decode(s[2..]);
      if h.None? || l.None? || rest.None? then None
      else Some([h.value * 16 + l.value] + rest.value)
  }

  lemma {:induction false} DecodeEncode(bs: seq<byte>)
    ensures Decode(Encode(bs)) == Some(bs)
  {
    if |bs| > 0 {
      var s := Encode(bs);
      assert s[2..] == Encode(bs[1..]);
      DecodeEncode(bs[1..]);
      var b := bs[0];
      assert s[0] == Digit(b / 16) && s[1] == Digit(b % 16);
      DecodeByte(s, b, bs[1..]);
      assert [b] + bs[1..] == bs;
    }
  }

  /** Two digits of a byte, ahead of digits that decode, decode to the byte
      ahead of what those give. */
  lemma DecodeByte(s: string, b: byte, rest: seq<byte>)
    requires |s| >= 2 && s[0] == Digit(b / 16) && s[1] == Digit(b % 16)
    requires Decode(s[2..]) == Some(rest)
    ensures Decode(s) == Some([b] + rest)
  {
    assert DigitValue(Digit(b / 16)) == Some(b / 16);
    assert DigitValue(Digit(b % 16)) == Some(b % 16);
  }

  /** Two digests have equal hex spellings exactly when they are equal. */
  lemma EncodeInjective(a: seq<byte>, b: seq<byte>)
    ensures Encode(a) == Encode(b) <==> a == b
  {
    if Encode(a) == Encode(b) {
      DecodeEncode(a);
      DecodeEncode(b);
    }
  }
}
