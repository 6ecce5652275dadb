/** The pieces of Go's `strings` and `strconv` packages the tools rely on,
    over strings modelled as sequences of runes. */
module Text {
  import opened Wrappers

  /** An octet, as Go's `byte`. */
  type byte = x: int | 0 <= x < 256

  const Int64Min: int := -0x8000_0000_0000_0000
  const Int64Max: int := 0x7FFF_FFFF_FFFF_FFFF

  predicate IsInt64(n: int) {
    Int64Min <= n <= Int64Max
  }

  // ---------------------------------------------------------------------
  // Whitespace and trimming (strings.TrimSpace)
  // ---------------------------------------------------------------------

  /** Unicode White_Space, the class Go's `unicode.IsSpace` accepts. */
  predicate IsSpace(c: char) {
    || c == '\t' || c == '\n' || c == '\U{B}' || c == '\U{C}' || c == '\r' || c == ' '
    || c == '\U{85}' || c == '\U{A0}' || c == '\U{1680}'
    || ('\U{2000}' <= c <= '\U{200A}')
    || c == '\U{2028}' || c == '\U{2029}' || c == '\U{202F}' || c == '\U{205F}'
    || c == '\U{3000}'
  }

  /** The first position at or after `i` that does not hold white space. */
  function SkipSpaces(s: string, i: nat): (r: nat)
    requires i <= |s|
    ensures i <= r <= |s|
    ensures forall k :: i <= k < r ==> IsSpace(s[k])
    ensures r == |s| || !IsSpace(s[r])
    decreases |s| - i
  {
    if i < |s| && IsSpace(s[i]) then SkipSpaces(s, i + 1) else i
  }

  /** The end of `s[lo..j]` once its trailing white space is cut off. */
  function BackSpaces(s: string, lo: nat, j: nat): (r: nat)
    requires lo <= j <= |s|
    ensures lo <= r <= j
    ensures forall k :: r <= k < j ==> IsSpace(s[k])
    ensures r == lo || !IsSpace(s[r - 1])
  {
    if j > lo && IsSpace(s[j - 1]) then BackSpaces(s, lo, j - 1) else j
  }

  /** Drops leading white space. */
  function TrimLeft(s: string): (r: string)
    ensures |r| <= |s| && r == s[|s| - |r|..]
    ensures forall i :: 0 <= i < |s| - |r| ==> IsSpace(s[i])
    ensures r == [] || !IsSpace(r[0])
  {
    s[SkipSpaces(s, 0)..]
  }

  /** `strings.TrimSpace`: the longest slice of `s` that neither starts nor
      ends with white space, everything cut off being white space. */
  function TrimSpace(s: string): (r: string)
    ensures var a := |s| - |TrimLeft(s)|;
              a + |r| <= |s| && r == s[a..a + |r|]
              && (forall i :: 0 <= i < a ==> IsSpace(s[i]))
              && (forall i :: a + |r| <= i < |s| ==> IsSpace(s[i]))
    ensures r == [] || (!IsSpace(r[0]) && !IsSpace(r[|r| - 1]))
  {
    var a := SkipSpaces(s, 0);
    s[a..BackSpaces(s, a, |s|)]
  }

  /** A string that starts and ends with a non-space rune is left alone. */
  lemma TrimSpaceKeeps(s: string)
    requires |s| > 0 && !IsSpace(s[0]) && !IsSpace(s[|s| - 1])
    ensures TrimSpace(s) == s
  {
  }

  /** Concatenation regroups freely. */
  lemma ConcatAssoc<T>(a: seq<T>, b: seq<T>, c: seq<T>)
    ensures a + b + c == a + (b + c)
  {
  }

  /** Dropping the head of a non-empty prefix. */
  lemma TailOfCons<T>(a: seq<T>, b: seq<T>)
    requires |a| > 0
    ensures (a + b)[0] == a[0] && (a + b)[1..] == a[1..] + b
  {
  }

  /** Dropping the head shifts every later index down by one. */
  lemma TailIndex<T>(s: seq<T>, i: nat)
    requires 0 < i < |s|
    ensures s[1..][i - 1] == s[i]
  {
  }

  /** Adjacent slices join up. */
  lemma SliceConcat<T>(s: seq<T>, i: nat, j: nat, k: nat)
    requires i <= j <= k <= |s|
    ensures s[i..j] + s[j..k] == s[i..k]
  {
  }

  // ---------------------------------------------------------------------
  // Searching and splitting (strings.IndexRune, strings.Split)
  // ---------------------------------------------------------------------

  /** `strings.IndexRune`: the first position of `c`, or None when absent. */
  function IndexOf(s: string, c: char): (r: Option<nat>)
    ensures r.None? <==> c !in s
    ensures r.Some? ==> r.value < |s| && s[r.value] == c && c !in s[..r.value]
  {
    if |s| == 0 then None
    else if s[0] == c then Some(0)
    else match IndexOf(s[1..], c)
      case None => None
      case Some(i) => assert s[1..][..i] == s[1..i + 1]; Some(i + 1)
  }

  /** The first occurrence of `c` is at `k` when `s[k]` is `c` and nothing
      before it is. */
  lemma IndexOfAt(s: string, c: char, k: nat)
    requires k < |s| && s[k] == c && c !in s[..k]
    ensures IndexOf(s, c) == Some(k)
  {
    assert s[..k + 1][k] == c;
  }

  /** The first occurrence of `c` lies after any prefix that lacks it. */
  lemma IndexOfAfter(a: string, c: char, b: string)
    requires c !in a
    ensures IndexOf(a + [c] + b, c) == Some(|a|)
  {
    var s := a + [c] + b;
    assert s[|a|] == c;
    assert s[..|a|] == a;
  }

  /** `strings.Split(s, string(c))`: the fields between single separators;
      an empty string gives one empty field. */
  function SplitOn(s: string, c: char): (r: seq<string>)
    ensures |r| >= 1
    ensures forall i :: 0 <= i < |r| ==> c !in r[i]
    ensures |r| == 1 <==> c !in s
  {
    if |s| == 0 then [""]
    else
      var rest := SplitOn(s[1..], c);
      if s[0] == c then [""] + rest
      else [[s[0]] + rest[0]] + rest[1..]
  }

  /** `strings.Join(parts, sep)` for a non-empty list. */
  function Join(parts: seq<string>, sep: string): (r: string)
    requires |parts| >= 1
    ensures |parts| == 1 ==> r == parts[0]
  {
    if |parts| == 1 then parts[0] else parts[0] + sep + Join(parts[1..], sep)
  }

  /** Splitting loses nothing: joining the fields back gives the input. */
  lemma {:induction false} JoinSplitOn(s: string, c: char)
    ensures Join(SplitOn(s, c), [c]) == s
  {
    if |s| > 0 {
      var rest := SplitOn(s[1..], c);
      JoinSplitOn(s[1..], c);
      if s[0] == c {
        assert s == [c] + Join(rest, [c]);
      } else if |rest| == 1 {
        assert s == [s[0]] + s[1..];
      } else {
        assert rest == [rest[0]] + rest[1..];
        assert Join(rest, [c]) == rest[0] + [c] + Join(rest[1..], [c]);
        assert s == [s[0]] + s[1..];
      }
    }
  }

  /** A separator-free prefix before a separator is exactly the first field. */
  lemma {:induction false} SplitOnCons(a: string, c: char, b: string)
    requires c !in a
    ensures SplitOn(a + [c] + b, c) == [a] + SplitOn(b, c)
  {
    if |a| == 0 {
      assert a + [c] + b == [c] + b;
      assert (a + [c] + b)[1..] == b;
    } else {
      var s := a + [c] + b;
      SplitOnCons(a[1..], c, b);
      ConcatAssoc(a, [c], b);
      TailOfCons(a, [c] + b);
      ConcatAssoc(a[1..], [c], b);
      var rest := SplitOn(s[1..], c);
      assert rest[0] == a[1..] && rest[1..] == SplitOn(b, c);
      assert s[0] == a[0] && a[0] != c;
      assert [a[0]] + a[1..] == a;
    }
  }

  /** Joining separator-free fields and splitting again gives the fields. */
  lemma {:induction false} SplitJoinOn(parts: seq<string>, c: char)
    requires |parts| >= 1
    requires forall i :: 0 <= i < |parts| ==> c !in parts[i]
    ensures SplitOn(Join(parts, [c]), c) == parts
  {
    if |parts| == 1 {
      assert SplitOn(parts[0], c) == [parts[0]] by {
        JoinSplitOn(parts[0], c);
      }
    } else {
      var tail := parts[1..];
      assert forall i :: 0 <= i < |tail| ==> tail[i] == parts[i + 1];
      SplitJoinOn(tail, c);
      SplitOnCons(parts[0], c, Join(tail, [c]));
    }
  }

  // ---------------------------------------------------------------------
  // Case folding (strings.ToLower, as far as the tools' keywords need)
  // ---------------------------------------------------------------------

  /** Lower-cases ASCII letters and leaves every other rune alone. */
  function ToLowerAscii(s: string): (r: string)
    ensures |r| == |s|
    ensures forall i :: 0 <= i < |s| ==>
      r[i] == (if 'A' <= s[i] <= 'Z' then (s[i] as int + 32) as char else s[i])
  {
    if |s| == 0 then ""
    else [if 'A' <= s[0] <= 'Z' then (s[0] as int + 32) as char else s[0]] + ToLowerAscii(s[1..])
  }

  // ---------------------------------------------------------------------
  // Decimal integers (fmt "%d" and strconv.ParseInt(s, 10, 64))
  // ---------------------------------------------------------------------

  predicate IsDigit(c: char) {
    '0' <= c <= '9'
  }

  function DigitChar(d: nat): (c: char)
    requires d < 10
    ensures IsDigit(c) && c as int - '0' as int == d
  {
    (d + '0' as int) as char
  }

  /** The canonical decimal spelling of a natural number. */
  function NatToDec(n: nat): (r: string)
    ensures |r| >= 1
    ensures forall i :: 0 <= i < |r| ==> IsDigit(r[i])
    ensures r[0] == '0' ==> n == 0
  {
    if n < 10 then [DigitChar(n)] else NatToDec(n / 10) + [DigitChar(n % 10)]
  }

  /** `fmt.Sprintf("%d", n)`. */
  function FormatInt(n: int): (r: string)
    ensures |r| >= 1
    ensures r[0] == '-' <==> n < 0
    ensures forall i :: 0 <= i < |r| ==> IsDigit(r[i]) || (i == 0 && r[i] == '-')
  {
    if n < 0 then "-" + NatToDec(-n) else NatToDec(n)
  }

  /** The value of a non-empty run of decimal digits; None for anything else. */
  function DigitsValue(s: string): (r: Option<nat>)
    ensures r.Some? <==> |s| > 0 && forall i :: 0 <= i < |s| ==> IsDigit(s[i])
    decreases |s|
  {
    if |s| == 0 || !IsDigit(s[|s| - 1]) then None
    else if |s| == 1 then Some(s[0] as int - '0' as int)
    else match DigitsValue(s[..|s| - 1])
      case None => None
      case Some(v) => Some(v * 10 + (s[|s| - 1] as int - '0' as int))
  }

  /** The digits of a number: the text after an optional leading sign. */
  function Unsigned(s: string): string {
    if |s| > 0 && (s[0] == '-' || s[0] == '+') then s[1..] else s
  }

  /** The magnitude `v` with the sign `s` starts with. */
  function Signed(s: string, v: nat): int {
    if |s| > 0 && s[0] == '-' then 0 - v else v
  }

  /** `strconv.ParseInt(s, 10, 64)`: an optional sign, at least one decimal
      digit and nothing else, inside the int64 range. Go separates a syntax
      error from a range error; both are failures here. */
  function ParseInt64(s: string): (r: Option<int>)
    ensures r.Some? ==> IsInt64(r.value)
    ensures r.Some? ==> |s| > 0
    ensures r.Some? <==> (|Unsigned(s)| > 0
                          && (forall i :: 0 <= i < |Unsigned(s)| ==> IsDigit(Unsigned(s)[i]))
                          && IsInt64(Signed(s, DigitsValue(Unsigned(s)).value)))
    ensures r.Some? ==> r.value == Signed(s, DigitsValue(Unsigned(s)).value)
    ensures r.Some? && r.value < 0 ==> s[0] == '-'
  {
    if |s| == 0 then None
    else
      var neg := s[0] == '-';
      var body := if s[0] == '-' || s[0] == '+' then s[1..] else s;
      match DigitsValue(body)
      case None => None
      case Some(v) =>
        var value: int := if neg then 0 - (v as int) else v as int;
        if IsInt64(value) then Some(value) else None
  }

  lemma {:induction false} DigitsValueOfNatToDec(n: nat)
    ensures DigitsValue(NatToDec(n)) == Some(n)
  {
    if n >= 10 {
      DigitsValueOfNatToDec(n / 10);
      var s := NatToDec(n);
      assert s[..|s| - 1] == NatToDec(n / 10);
    }
  }

  /** Reading back what "%d" wrote gives the same number, over all of int64. */
  lemma FormatParseInt(n: int)
    requires IsInt64(n)
    ensures ParseInt64(FormatInt(n)) == Some(n)
  {
    if n < 0 {
      ParseNegative(n);
    } else {
      DigitsValueOfNatToDec(n);
    }
  }

  lemma ParseNegative(n: int)
    requires Int64Min <= n < 0
    ensures ParseInt64(FormatInt(n)) == Some(n)
  {
    var d := NatToDec(-n);
    DigitsValueOfNatToDec(-n);
    var s := FormatInt(n);
    assert s == "-" + d;
    assert s[0] == '-' && s[1..] == d;
  }
}
