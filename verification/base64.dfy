/** Standard base64 with padding (section 4 of RFC 4648), as Go's
    `base64.StdEncoding.Encode` writes it. */
module Base64 {
  import opened Wrappers
  import opened Text

  /** The digit for a sextet: A-Z, a-z, 0-9, '+', '/'. */
  function Char(k: nat): (c: char)
    requires k < 64
    ensures c != '='
  {
    if k < 26 then (k + 'A' as int) as char
    else if k < 52 then (k - 26 + 'a' as int) as char
    else if k < 62 then (k - 52 + '0' as int) as char
    else if k == 62 then '+'
    else '/'
  }

  /** The sextet a base64 digit stands for; None for '=' and foreign runes. */
  function CharValue(c: char): (r: Option<nat>)
    ensures r.Some? ==> r.value < 64 && Char(r.value) == c
  {
    if 'A' <= c <= 'Z' then Some(c as int - 'A' as int)
    else if 'a' <= c <= 'z' then Some(c as int - 'a' as int + 26)
    else if '0' <= c <= '9' then Some(c as int - '0' as int + 52)
    else if c == '+' then Some(62)
    else if c == '/' then Some(63)
    else None
  }

  lemma CharValueOfChar(k: nat)
    requires k < 64
    ensures CharValue(Char(k)) == Some(k)
  {
  }

  /** Three bytes as four digits. */
  function Quad(b0: byte, b1: byte, b2: byte): (r: string)
    ensures |r| == 4 && '=' !in r
  {
    [Char(b0 / 4), Char(b0 % 4 * 16 + b1 / 16), Char(b1 % 16 * 4 + b2 / 64), Char(b2 % 64)]
  }

  /** A final group of two bytes: three digits and one '='. */
  function Tail2(b0: byte, b1: byte): (r: string)
    ensures |r| == 4 && r[3] == '=' && '=' !in r[..3]
  {
    [Char(b0 / 4), Char(b0 % 4 * 16 + b1 / 16), Char(b1 % 16 * 4), '=']
  }

  /** A final group of one byte: two digits and "==". */
  function Tail1(b0: byte): (r: string)
    ensures |r| == 4 && r[2..] == "==" && '=' !in r[..2]
  {
    [Char(b0 / 4), Char(b0 % 4 * 16), '=', '=']
  }

  /** The padded encoding: every three bytes become four digits, and a final
      group of one or two bytes is padded with "==" or "=". */
  function Encode(bs: seq<byte>): (r: string)
    ensures |bs| > 0 ==> |r| >= 4
  {
    if |bs| == 0 then ""
    else if |bs| == 1 then Tail1(bs[0])
    else if |bs| == 2 then Tail2(bs[0], bs[1])
    else Quad(bs[0], bs[1], bs[2]) + Encode(bs[3..])
  }

  /** Four digits for every started group of three bytes. */
  lemma {:induction false} EncodeLength(bs: seq<byte>)
    ensures |Encode(bs)| == EncodedLen(|bs|)
  {
    if |bs| >= 3 {
      EncodeLength(bs[3..]);
      assert EncodedLen(|bs|) == EncodedLen(|bs| - 3) + 4;
    }
  }

  /** Padding never appears before the last two digits. */
  lemma {:induction false} EncodePadOnlyAtEnd(bs: seq<byte>, i: nat)
    requires i < |Encode(bs)| && Encode(bs)[i] == '='
    ensures i >= |Encode(bs)| - 2
  {
    if |bs| >= 3 && i >= 4 {
      assert Encode(bs)[i] == Encode(bs[3..])[i - 4];
      EncodePadOnlyAtEnd(bs[3..], i - 4);
    }
  }

  /** `base64.StdEncoding.EncodedLen`. */
  function EncodedLen(n: nat): nat {
    (n + 2) / 3 * 4
  }

  /** A group of one leftover byte is padded with two '=' at the very end. */
  lemma {:induction false} EncodeEndsInPad(bs: seq<byte>)
    requires |bs| % 3 == 1
    ensures var r := Encode(bs); |r| >= 4 && r[|r| - 2..] == "=="
  {
    if |bs| > 1 {
      EncodeEndsInPad(bs[3..]);
    }
  }

  /** Concatenating encodings is encoding the concatenation, provided the
      first part fills whole three-byte groups. */
  lemma {:induction false} EncodeAppend(a: seq<byte>, b: seq<byte>)
    requires |a| % 3 == 0
    ensures Encode(a + b) == Encode(a) + Encode(b)
    decreases |a|
  {
    if |a| == 0 {
      assert a + b == b;
    } else {
      var tail := a[3..];
      assert |a| == |tail| + 3;
      assert (a + b)[3..] == tail + b;
      EncodeAppend(tail, b);
      calc {
        Encode(a + b);
        Quad(a[0], a[1], a[2]) + Encode(tail + b);
        Quad(a[0], a[1], a[2]) + (Encode(tail) + Encode(b));
        (Quad(a[0], a[1], a[2]) + Encode(tail)) + Encode(b);
        Encode(a) + Encode(b);
      }
    }
  }

  /** Decodes one group of four digits, of which the last one or two may be
      padding. */
  function DecodeQuad(q: string): (r: Option<seq<byte>>)
    requires |q| == 4
    ensures r.Some? ==> 1 <= |r.value| <= 3
  {
    var v0 := CharValue(q[0]);
    var v1 := CharValue(q[1]);
    var v2 := CharValue(q[2]);
    var v3 := CharValue(q[3]);
    if v0.None? || v1.None? then None
    else if q[2] == '=' && q[3] == '=' then
      Some([v0.value * 4 + v1.value / 16])
    else if v2.None? then None
    else if q[3] == '=' then
      Some([v0.value * 4 + v1.value / 16, v1.value % 16 * 16 + v2.value / 4])
    else if v3.None? then None
    else
      Some([v0.value * 4 + v1.value / 16, v1.value % 16 * 16 + v2.value / 4,
            v2.value % 4 * 64 + v3.value])
  }

  /** The inverse of Encode; padding is accepted only in the final group. */
  function Decode(s: string): (r: Option<seq<byte>>)
  {
    if |s| == 0 then Some([])
    else if |s| < 4 then None
    else
      var q := DecodeQuad(s[..4]);
      var rest := Decode(s[4..]);
      if q.None? || rest.None? then None
      else if |q.value| < 3 && |s| > 4 then None
      else Some(q.value + rest.value)
  }

  lemma QuadRoundTrip(b0: byte, b1: byte, b2: byte)
    ensures DecodeQuad(Quad(b0, b1, b2)) == Some([b0, b1, b2])
  {
    CharValueOfChar(b0 / 4);
    CharValueOfChar(b0 % 4 * 16 + b1 / 16);
    CharValueOfChar(b1 % 16 * 4 + b2 / 64);
    CharValueOfChar(b2 % 64);
    assert (b0 % 4 * 16 + b1 / 16) / 16 == b0 % 4;
    assert (b0 % 4 * 16 + b1 / 16) % 16 == b1 / 16;
    assert (b1 % 16 * 4 + b2 / 64) / 4 == b1 % 16;
    assert (b1 % 16 * 4 + b2 / 64) % 4 == b2 / 64;
  }

  lemma Tail2RoundTrip(b0: byte, b1: byte)
    ensures DecodeQuad(Tail2(b0, b1)) == Some([b0, b1])
  {
    CharValueOfChar(b0 / 4);
    CharValueOfChar(b0 % 4 * 16 + b1 / 16);
    CharValueOfChar(b1 % 16 * 4);
    assert (b0 % 4 * 16 + b1 / 16) / 16 == b0 % 4;
    assert (b0 % 4 * 16 + b1 / 16) % 16 == b1 / 16;
    assert (b1 % 16 * 4) / 4 == b1 % 16;
  }

  lemma Tail1RoundTrip(b0: byte)
    ensures DecodeQuad(Tail1(b0)) == Some([b0])
  {
    CharValueOfChar(b0 / 4);
    CharValueOfChar(b0 % 4 * 16);
  }

  /** A final group of one byte decodes back to it. */
  lemma DecodeTail1(b0: byte)
    ensures Decode(Tail1(b0)) == Some([b0])
  {
    var s := Tail1(b0);
    Tail1RoundTrip(b0);
    assert s[..4] == s && s[4..] == "";
    assert [b0] + [] == [b0];
  }

  /** A final group of two bytes decodes back to them. */
  lemma DecodeTail2(b0: byte, b1: byte)
    ensures Decode(Tail2(b0, b1)) == Some([b0, b1])
  {
    var s := Tail2(b0, b1);
    Tail2RoundTrip(b0, b1);
    assert s[..4] == s && s[4..] == "";
    assert [b0, b1] + [] == [b0, b1];
  }

  /** Decoding recovers every byte string from its encoding. */
  lemma {:induction false} DecodeEncode(bs: seq<byte>)
    ensures Decode(Encode(bs)) == Some(bs)
    decreases |bs|
  {
    if |bs| == 1 {
      DecodeTail1(bs[0]);
      assert [bs[0]] == bs;
    } else if |bs| == 2 {
      DecodeTail2(bs[0], bs[1]);
      assert [bs[0], bs[1]] == bs;
    } else if |bs| >= 3 {
      DecodeEncode(bs[3..]);
      DecodeGroup(bs);
    }
  }

  /** A leading whole group decodes back to its three bytes, ahead of
      whatever the rest decodes to. */
  lemma DecodeGroup(bs: seq<byte>)
    requires |bs| >= 3 && Decode(Encode(bs[3..])) == Some(bs[3..])
    ensures Decode(Encode(bs)) == Some(bs)
  {
    var s := Encode(bs);
    var tail := bs[3..];
    var q := Quad(bs[0], bs[1], bs[2]);
    assert s == q + Encode(tail);
    QuadRoundTrip(bs[0], bs[1], bs[2]);
    assert s[..4] == q;
    assert s[4..] == Encode(tail);
    SplitThree(bs);
    DecodeStep(s, [bs[0], bs[1], bs[2]], tail);
  }

  lemma SplitThree(bs: seq<byte>)
    requires |bs| >= 3
    ensures bs == [bs[0], bs[1], bs[2]] + bs[3..]
  {
  }

  /** A first group that decodes to three bytes, followed by digits that
      decode, decodes to the concatenation. */
  lemma DecodeStep(s: string, x: seq<byte>, y: seq<byte>)
    requires |s| >= 4 && DecodeQuad(s[..4]) == Some(x) && |x| == 3 && Decode(s[4..]) == Some(y)
    ensures Decode(s) == Some(x + y)
  {
  }
}
