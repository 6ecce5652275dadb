/** hexlify's encoders (hexlify/hexlify.go): the C-array dumper, the
    chunked raw-hex and base64 dumper, the checked `write` helper and the
    choice of dumper by mode name. Output is modelled as the strings handed
    to the writer; the writer's replies are a parameter. */
module Hexlify {
  import opened Wrappers
  import opened Text
  import Hex
  import Base64

  /** `_BUFSZ`: the size of the read buffer and of each encoded chunk. */
  const BufSize: nat := 65536

  /** Bytes per line of the C array: `linelen / 5` with `linelen == 80`, so 16. */
  const BytesPerLine: nat := 16

  // ---------------------------------------------------------------------
  // write
  // ---------------------------------------------------------------------

  /** What the underlying writer answered to one `Write`: the count it
      reports and whether it returned an error. */
  datatype Reply = Reply(count: int, failed: bool)

  datatype WriteError = IoError(file: string) | PartialWrite(file: string, expected: int, saw: int)

  /** `write`: an error from the writer, or a count short of (or beyond) the
      buffer's length, is a failure carrying the input's name. */
  function Write(fn: string, reply: Reply, b: string): (r: Option<WriteError>)
    ensures r.None? <==> !reply.failed && reply.count == |b|
    ensures r.Some? ==> r.value.file == fn
    ensures !reply.failed && reply.count != |b| ==> r == Some(PartialWrite(fn, |b|, reply.count))
  {
    if reply.failed then Some(IoError(fn))
    else if |b| != reply.count then Some(PartialWrite(fn, |b|, reply.count))
    else None
  }

  // ---------------------------------------------------------------------
  // The C-array dumper
  // ---------------------------------------------------------------------

  /** `fmt.Sprintf("%#2.2x", c)`: "0x" and two lower-case hex digits. */
  function Lit(c: byte): (r: string)
    ensures |r| == 4
  {
    "0x" + Hex.Encode([c])
  }

  /** One array element as `writeLine` prints it: ", 0xNN". */
  function Item(c: byte): (r: string)
    ensures |r| == 6
  {
    ", " + Lit(c)
  }

  /** `writeLine`: one item for every byte, in order. */
  function Items(b: seq<byte>): (r: string)
    ensures |r| == 6 * |b|
  {
    if |b| == 0 then "" else Item(b[0]) + Items(b[1..])
  }

  /** The text for the byte at position `k` of a C-dumper stream once the
      opening brace is out: a line break before every sixteenth position,
      then ", 0xNN". */
  function Piece(k: nat, c: byte): string {
    (if k % 16 == 0 then "\n\t" else "") + Item(c)
  }

  /** The bytes of `b`, taken to sit at positions k, k+1, ..., each laid
      out by `piece`. */
  function Laid(piece: (nat, byte) -> string, b: seq<byte>, k: nat): string {
    if |b| == 0 then "" else piece(k, b[0]) + Laid(piece, b[1..], k + 1)
  }

  /** The reference layout of a C-dumper stream. */
  function PerByte(b: seq<byte>, k: nat): string {
    Laid(Piece, b, k)
  }

  /** Laying out two runs one after the other is laying out their
      concatenation, the second run's positions following on. */
  lemma {:induction false} LaidAppend(piece: (nat, byte) -> string, a: seq<byte>, b: seq<byte>, k: nat)
    ensures Laid(piece, a + b, k) == Laid(piece, a, k) + Laid(piece, b, k + |a|)
  {
    if |a| == 0 {
      assert a + b == b;
    } else {
      assert (a + b)[0] == a[0] && (a + b)[1..] == a[1..] + b;
      LaidAppend(piece, a[1..], b, k + 1);
      var p := piece(k, a[0]);
      assert Laid(piece, a + b, k) == p + Laid(piece, a[1..] + b, k + 1);
      assert k + 1 + |a[1..]| == k + |a|;
      ConcatAssoc(p, Laid(piece, a[1..], k + 1), Laid(piece, b, k + |a|));
    }
  }

  /** The layout of a stretch of input is that of its first part followed
      by that of the rest, at the rest's own positions. */
  lemma LaidSplit(piece: (nat, byte) -> string, b: seq<byte>, from: nat, j: nat, k: nat)
    requires from <= j <= k <= |b|
    ensures Laid(piece, b[from..k], from) == Laid(piece, b[from..j], from) + Laid(piece, b[j..k], j)
  {
    var d := b[from..j];
    LaidAppend(piece, d, b[j..k], from);
    assert from + |d| == j;
    SliceConcat(b, from, j, k);
  }

  /** Inside one line, `writeLine` is the reference layout. */
  lemma {:induction false} ItemsWithinLine(b: seq<byte>, k: nat)
    requires k % 16 != 0 || |b| == 0
    requires k % 16 + |b| <= 16
    ensures Items(b) == PerByte(b, k)
  {
    if |b| > 0 {
      if |b| > 1 {
        assert (k + 1) % 16 == k % 16 + 1;
      }
      ItemsWithinLine(b[1..], k + 1);
    }
  }

  /** A line break followed by up to sixteen items, starting at a line
      boundary, is the reference layout. */
  lemma FullLine(b: seq<byte>, k: nat)
    requires k % 16 == 0 && 0 < |b| <= 16
    ensures "\n\t" + Items(b) == PerByte(b, k)
  {
    var i := Item(b[0]);
    var r := Items(b[1..]);
    assert r == PerByte(b[1..], k + 1) by {
      AfterBoundary(k);
      ItemsWithinLine(b[1..], k + 1);
    }
    PerByteFirst(b, k);
    LineBreakFirst("\n\t", i, r, PerByte(b, k));
  }

  /** The first byte at a line boundary opens a new line. */
  lemma PerByteFirst(b: seq<byte>, k: nat)
    requires k % 16 == 0 && 0 < |b|
    ensures PerByte(b, k) == "\n\t" + Item(b[0]) + PerByte(b[1..], k + 1)
  {
  }

  lemma LineBreakFirst(nl: string, i: string, r: string, laid: string)
    requires laid == nl + i + r
    ensures nl + (i + r) == laid
  {
    ConcatAssoc(nl, i, r);
  }

  /** One pass of the dumper's loop: a line of up to sixteen bytes starting
      at a multiple of sixteen extends the reference layout, and the next
      line starts at a multiple of sixteen again unless the input ends. */
  lemma CLineStep(b: seq<byte>, from: nat, j: nat, m: nat)
    requires from <= j && j % 16 == 0 && m == (if |b| - j < 16 then |b| - j else 16) && 0 < m
    ensures PerByte(b[from..j], from) + "\n\t" + Items(b[j..j + m]) == PerByte(b[from..j + m], from)
  {
    var line := b[j..j + m];
    assert "\n\t" + Items(line) == PerByte(line, j) by {
      FullLine(line, j);
    }
    assert PerByte(b[from..j + m], from) == PerByte(b[from..j], from) + PerByte(line, j) by {
      LaidSplit(Piece, b, from, j, j + m);
    }
    Regroup(PerByte(b[from..j], from), "\n\t", Items(line), PerByte(line, j), PerByte(b[from..j + m], from));
  }

  lemma Regroup(x: string, nl: string, l: string, p: string, y: string)
    requires nl + l == p && y == x + p
    ensures x + nl + l == y
  {
    ConcatAssoc(x, nl, l);
  }

  /** The position after a line boundary is the second of its line. */
  lemma AfterBoundary(k: nat)
    requires k % 16 == 0
    ensures (k + 1) % 16 == 1
  {
  }

  /** Sixteen bytes on from a line boundary is a line boundary again. */
  lemma NextBoundary(j: nat)
    requires j % 16 == 0
    ensures (j + 16) % 16 == 0
  {
  }

  /** What the first write prints ahead of the first byte. */
  const Open: string := "{\n\t  "

  /** A write's outcome: the text it emitted, the panic of an empty first
      write, or the error of the buffered writer, reported under the
      input's name. */
  datatype CResult = Wrote(out: string) | IndexPanic | WriteFailed(file: string)

  /** The loop of `cDumper.Write`: from a line boundary on, every line is a
      line break and up to sixteen items. */
  method WriteLines(b: seq<byte>, from: nat) returns (out: string)
    requires from <= |b| && (from % 16 == 0 || from == |b|)
    ensures out == PerByte(b[from..], from)
  {
    out := "";
    var j := from;
    while j < |b|
      invariant LinesSoFar(b, from, j, out)
      decreases |b| - j
    {
      var m := if |b| - j < 16 then |b| - j else 16;
      LinesStep(b, from, j, m, out);
      out := out + "\n\t" + Items(b[j..j + m]);
      j := j + m;
    }
    assert b[from..j] == b[from..];
  }

  /** The dumper loop's state: the lines for positions `from` up to `j`
      are out, and `j` is a line boundary unless the input is exhausted. */
  ghost predicate LinesSoFar(b: seq<byte>, from: nat, j: nat, out: string) {
    from <= j <= |b| && (j < |b| ==> j % 16 == 0) && out == PerByte(b[from..j], from)
  }

  lemma LinesStep(b: seq<byte>, from: nat, j: nat, m: nat, out: string)
    requires j < |b| && LinesSoFar(b, from, j, out) && m == (if |b| - j < 16 then |b| - j else 16)
    ensures LinesSoFar(b, from, j + m, out + "\n\t" + Items(b[j..j + m]))
  {
    CLineStep(b, from, j, m);
    if m == 16 {
      NextBoundary(j);
    }
  }

  /** `cDumper.Write`: the first call opens the brace and prints the first
      byte, filling the first line up to sixteen bytes; after that every
      line starts with a line break and holds up to sixteen ", 0xNN" items.
      An empty first call indexes b[0] and panics. Byte j of the call is
      preceded by a line break exactly when j is a multiple of sixteen, so
      every byte appears once, in order, and no line holds more than
      sixteen.

      `sinkFails` says the underlying writer does not take what the
      buffered writer hands it. The text then fails to go out, and the call
      returns the error under the input's name; a call with nothing to
      print hands nothing over and cannot fail. The first line is far
      shorter than the buffer's 4096 bytes, so no error can come before
      the dumper is marked as started. */
  method CWrite(fn: string, started: bool, b: seq<byte>, sinkFails: bool) returns (r: CResult, nowStarted: bool)
    ensures r.IndexPanic? <==> !started && |b| == 0
    ensures r.WriteFailed? <==> sinkFails && |b| > 0
    ensures r.WriteFailed? ==> r.file == fn
    ensures r.Wrote? && !started ==> r.out == Open + Lit(b[0]) + PerByte(b[1..], 1)
    ensures r.Wrote? && started ==> r.out == PerByte(b, 0)
    ensures nowStarted <==> started || |b| > 0
  {
    if started {
      var out := WriteLines(b, 0);
      if sinkFails && |b| > 0 {
        return WriteFailed(fn), true;
      }
      return Wrote(out), true;
    }
    var n := |b|;
    if n == 0 {
      return IndexPanic, started;
    }
    if sinkFails {
      return WriteFailed(fn), true;
    }
    var m := if n < BytesPerLine then n else BytesPerLine;
    var first := Open + Lit(b[0]) + Items(b[1..m]);
    var more := WriteLines(b, m);
    FirstLineThenRest(b, m);
    ConcatAssoc(Open + Lit(b[0]), Items(b[1..m]), more);
    return Wrote(first + more), true;
  }

  /** The first line's items, then the later lines, lay out every byte
      after the first at its own position. */
  lemma FirstLineThenRest(b: seq<byte>, m: nat)
    requires 0 < m <= |b| && m <= 16
    ensures Items(b[1..m]) + PerByte(b[m..], m) == PerByte(b[1..], 1)
  {
    ItemsWithinLine(b[1..m], 1);
    LaidAppend(Piece, b[1..m], b[m..], 1);
    assert b[1..m] + b[m..] == b[1..];
  }

  /** `cDumper.Close`: the closing brace goes through `write`. */
  function CClose(fn: string, reply: Reply): (r: (string, Option<WriteError>))
    ensures r.0 == "\n}\n"
    ensures r.1.None? <==> !reply.failed && reply.count == 3
  {
    ("\n}\n", Write(fn, reply, "\n}\n"))
  }

  // ---------------------------------------------------------------------
  // The chunked raw-hex and base64 dumper
  // ---------------------------------------------------------------------

  datatype Enc = B64 | RawHex

  /** The encoder `NewFlexDumper` installs. */
  function Encode(enc: Enc, bs: seq<byte>): string {
    match enc
    case B64 => Base64.Encode(bs)
    case RawHex => Hex.Encode(bs)
  }

  /** The matching `enclen`: `base64.StdEncoding.EncodedLen` or
      `hex.EncodedLen`. */
  function EncLen(enc: Enc, m: nat): nat {
    match enc
    case B64 => Base64.EncodedLen(m)
    case RawHex => 2 * m
  }

  /** `enclen(m)` is exactly the number of characters the encoder writes,
      so the `buf[:z]` handed to `write` is the whole encoding. */
  lemma EncLenExact(enc: Enc, bs: seq<byte>)
    ensures |Encode(enc, bs)| == EncLen(enc, |bs|)
  {
    if enc == B64 {
      Base64.EncodeLength(bs);
    }
  }

  /** The 3 * _BUFSZ buffer holds the encoding of any chunk of at most
      _BUFSZ bytes, in both modes. */
  lemma BufferFits(enc: Enc, m: nat)
    requires m <= BufSize
    ensures EncLen(enc, m) <= 3 * BufSize
  {
  }

  /** The input cut into consecutive pieces of `size` bytes, the last one
      shorter. */
  function Chunks(b: seq<byte>, size: nat): (r: seq<seq<byte>>)
    requires size > 0
    ensures Flatten(r) == b
    decreases |b|
  {
    if |b| == 0 then []
    else
      var m := if |b| < size then |b| else size;
      assert b[..m] + b[m..] == b;
      [b[..m]] + Chunks(b[m..], size)
  }

  /** Every chunk is non-empty and at most `size` long, and all but the last
      are exactly `size` long. */
  ghost predicate Shaped(r: seq<seq<byte>>, size: nat) {
    && (forall i :: 0 <= i < |r| ==> 0 < |r[i]| <= size)
    && (forall i :: 0 <= i < |r| - 1 ==> |r[i]| == size)
  }

  lemma {:induction false} ChunksShape(b: seq<byte>, size: nat)
    requires size > 0
    ensures Shaped(Chunks(b, size), size)
    decreases |b|
  {
    if |b| > 0 {
      var m := if |b| < size then |b| else size;
      ChunksShape(b[m..], size);
      var r := Chunks(b, size);
      var tail := Chunks(b[m..], size);
      assert r == [b[..m]] + tail;
      assert forall i :: 1 <= i < |r| ==> r[i] == tail[i - 1];
      assert |tail| > 0 ==> m == size;
    }
  }

  function Flatten<T>(ss: seq<seq<T>>): seq<T> {
    if |ss| == 0 then [] else ss[0] + Flatten(ss[1..])
  }

  /** Encoding every chunk separately. */
  function EncodeAll(enc: Enc, cs: seq<seq<byte>>): (r: seq<string>)
    ensures |r| == |cs|
    ensures forall i :: 0 <= i < |cs| ==> r[i] == Encode(enc, cs[i])
  {
    if |cs| == 0 then [] else [Encode(enc, cs[0])] + EncodeAll(enc, cs[1..])
  }

  /** Raw hex of the pieces, concatenated, is raw hex of the whole, however
      the input is cut. */
  lemma {:induction false} HexPiecewise(cs: seq<seq<byte>>)
    ensures Flatten(EncodeAll(RawHex, cs)) == Hex.Encode(Flatten(cs))
  {
    if |cs| > 0 {
      HexPiecewise(cs[1..]);
      Hex.EncodeAppend(cs[0], Flatten(cs[1..]));
      assert EncodeAll(RawHex, cs)[1..] == EncodeAll(RawHex, cs[1..]);
    }
  }

  /** Base64 of the pieces, concatenated, is base64 of the whole when every
      piece but the last is a whole number of three-byte groups. */
  lemma {:induction false} B64Piecewise(cs: seq<seq<byte>>)
    requires forall i :: 0 <= i < |cs| - 1 ==> |cs[i]| % 3 == 0
    ensures Flatten(EncodeAll(B64, cs)) == Base64.Encode(Flatten(cs))
  {
    if |cs| == 1 {
      B64Single(cs);
    } else if |cs| > 1 {
      var tail := cs[1..];
      assert forall i :: 0 <= i < |tail| - 1 ==> tail[i] == cs[i + 1];
      B64Piecewise(tail);
      Base64.EncodeAppend(cs[0], Flatten(tail));
      assert EncodeAll(B64, cs)[1..] == EncodeAll(B64, tail);
      calc {
        Flatten(EncodeAll(B64, cs));
        Base64.Encode(cs[0]) + Flatten(EncodeAll(B64, tail));
        Base64.Encode(cs[0]) + Base64.Encode(Flatten(tail));
        Base64.Encode(cs[0] + Flatten(tail));
        Base64.Encode(Flatten(cs));
      }
    }
  }

  lemma B64Single(cs: seq<seq<byte>>)
    requires |cs| == 1
    ensures Flatten(EncodeAll(B64, cs)) == Base64.Encode(Flatten(cs))
  {
    assert Flatten(cs) == cs[0] + Flatten(cs[1..]);
    assert cs[0] + [] == cs[0];
    var e := EncodeAll(B64, cs);
    assert e == [Base64.Encode(cs[0])];
    assert Flatten(e) == e[0] + Flatten(e[1..]);
    assert e[0] + [] == e[0];
  }

  /** Raw-hex output in chunks of _BUFSZ is the raw hex of the whole input. */
  lemma ChunkedHexIsWholeHex(b: seq<byte>)
    ensures Flatten(EncodeAll(RawHex, Chunks(b, BufSize))) == Hex.Encode(b)
  {
    HexPiecewise(Chunks(b, BufSize));
  }

  /** Cutting between one and two chunks' worth of input gives two chunks. */
  lemma ChunksTwo(b: seq<byte>, size: nat)
    requires 0 < size < |b| <= 2 * size
    ensures Chunks(b, size) == [b[..size], b[size..]]
  {
    var x := b[size..];
    assert Chunks(b, size) == [b[..size]] + Chunks(x, size);
    assert Chunks(x, size) == [x[..|x|]] + Chunks(x[|x|..], size);
    assert x[..|x|] == x;
  }

  lemma FlattenTwo<T>(x: seq<T>, y: seq<T>)
    ensures Flatten([x, y]) == x + y
  {
    assert [x, y][1..] == [y];
    assert Flatten([y]) == y + Flatten([y][1..]);
  }

  /** A chunk size one more than a multiple of three puts "==" inside the
      concatenated base64 as soon as the input spills into a second chunk. */
  lemma {:induction false} PadsMidStream(b: seq<byte>, size: nat)
    requires size % 3 == 1 && 0 < size < |b| <= 2 * size
    ensures Flatten(EncodeAll(B64, Chunks(b, size))) != Base64.Encode(b)
  {
    ChunksTwo(b, size);
    var e0 := Base64.Encode(b[..size]);
    var e1 := Base64.Encode(b[size..]);
    Base64.EncodeEndsInPad(b[..size]);
    assert EncodeAll(B64, [b[..size], b[size..]]) == [e0, e1];
    FlattenTwo(e0, e1);
    var out := e0 + e1;
    assert |e1| >= 4;
    var i := |e0| - 2;
    assert out[i] == e0[i] == '=';
    if out == Base64.Encode(b) {
      Base64.EncodePadOnlyAtEnd(b, i);
    }
  }

  /** As written: base64 in chunks of _BUFSZ = 65536 bytes, which is not a
      multiple of three, pads the first chunk of a 65537-byte input with
      "==" in the middle of the output, so the output is not the base64 of
      the input. */
  lemma ChunkedB64PadsMidStream(b: seq<byte>)
    requires |b| == BufSize + 1
    ensures Flatten(EncodeAll(B64, Chunks(b, BufSize))) != Base64.Encode(b)
  {
    PadsMidStream(b, BufSize);
  }

  /** The chunk size evidently intended: a multiple of three for base64 (so
      that padding can only end the output), _BUFSZ for raw hex. */
  function ChunkSize(enc: Enc): (r: nat)
    ensures 0 < r <= BufSize
    ensures enc == B64 ==> r % 3 == 0
  {
    match enc
    case B64 => BufSize - 1
    case RawHex => BufSize
  }

  /** With the corrected chunk size, the output of either mode is the
      encoding of the whole input. */
  lemma ChunkedIsWhole(enc: Enc, b: seq<byte>)
    ensures Flatten(EncodeAll(enc, Chunks(b, ChunkSize(enc)))) == Encode(enc, b)
  {
    var cs := Chunks(b, ChunkSize(enc));
    if enc == B64 {
      ChunksShape(b, ChunkSize(enc));
      B64Piecewise(cs);
    } else {
      HexPiecewise(cs);
    }
  }

  /** `flexdump.Write` with the corrected chunk size: encode each chunk
      into the buffer and `write` exactly `enclen(m)` characters of it;
      the first failed write ends the call with that error. `sent` is what
      was handed to the writer, the failed piece included. */
  method FlexWrite(fn: string, enc: Enc, b: seq<byte>, replies: nat -> Reply)
    returns (sent: seq<string>, err: Option<WriteError>)
    ensures |sent| <= |Chunks(b, ChunkSize(enc))|
    ensures sent == EncodeAll(enc, Chunks(b, ChunkSize(enc))[..|sent|])
    ensures forall i :: 0 <= i < |sent| - 1 ==> Write(fn, replies(i), sent[i]).None?
    ensures err.None? ==> |sent| == |Chunks(b, ChunkSize(enc))|
                          && (forall i :: 0 <= i < |sent| ==> Write(fn, replies(i), sent[i]).None?)
                          && Flatten(sent) == Encode(enc, b)
    ensures err.Some? ==> |sent| > 0 && err == Write(fn, replies(|sent| - 1), sent[|sent| - 1])
  {
    sent, err := FlexLoop(fn, enc, b, replies);
    ghost var cs := Chunks(b, ChunkSize(enc));
    assert FlexOutcome(fn, enc, replies, cs, sent, err);
    if err.None? {
      assert Chunks(b, ChunkSize(enc))[..|sent|] == Chunks(b, ChunkSize(enc));
      ChunkedIsWhole(enc, b);
    } else {
      assert forall i :: 0 <= i < |sent| - 1 ==> sent[..|sent| - 1][i] == sent[i];
    }
  }

  /** One chunk encoded into the output buffer, of which the first
      `enclen(m)` characters are written: exactly the chunk's encoding. */
  method EncodePiece(enc: Enc, chunk: seq<byte>) returns (piece: string)
    requires |chunk| <= BufSize
    ensures piece == Encode(enc, chunk)
    ensures |piece| <= 3 * BufSize
  {
    var z := EncLen(enc, |chunk|);
    BufferFits(enc, |chunk|);
    var buf := Encode(enc, chunk);
    EncLenExact(enc, chunk);
    piece := buf[..z];
    assert piece == buf;
  }

  /** The loop of `flexdump.Write`. */
  method FlexLoop(fn: string, enc: Enc, b: seq<byte>, replies: nat -> Reply)
    returns (sent: seq<string>, err: Option<WriteError>)
    ensures FlexOutcome(fn, enc, replies, Chunks(b, ChunkSize(enc)), sent, err)
  {
    var size := ChunkSize(enc);
    ghost var cs := Chunks(b, size);
    sent := [];
    var rest := b;
    var n := |b|;
    while n > 0
      invariant n == |rest|
      invariant SentSoFar(fn, enc, replies, cs, rest, size, sent)
      decreases n
    {
      var m := if n < size then n else size;
      var piece := EncodePiece(enc, rest[..m]);
      var e := Write(fn, replies(|sent|), piece);
      if e.Some? {
        FlexFail(fn, enc, replies, cs, rest, size, m, sent, piece, e);
        return sent + [piece], e;
      }
      FlexStep(fn, enc, replies, cs, rest, size, m, sent, piece);
      sent := sent + [piece];
      n := n - m;
      rest := rest[m..];
    }
    FlexDone(fn, enc, replies, cs, rest, size, sent);
    return sent, None;
  }

  /** What the flexdump loop leaves: the pieces sent are the encodings of
      the first chunks, in order; with no error every chunk was sent and
      taken whole, and with an error every piece but the failed last one
      was. */
  ghost predicate FlexOutcome(fn: string, enc: Enc, replies: nat -> Reply, cs: seq<seq<byte>>,
                              sent: seq<string>, err: Option<WriteError>) {
    && |sent| <= |cs| && sent == EncodeAll(enc, cs[..|sent|])
    && (err.None? ==> |sent| == |cs| && AllAccepted(fn, replies, sent))
    && (err.Some? ==> |sent| > 0 && AllAccepted(fn, replies, sent[..|sent| - 1])
                      && err == Write(fn, replies(|sent| - 1), sent[|sent| - 1]))
  }

  /** A loop that ran out of input sent every chunk. */
  lemma FlexDone(fn: string, enc: Enc, replies: nat -> Reply, cs: seq<seq<byte>>, rest: seq<byte>,
                 size: nat, sent: seq<string>)
    requires |rest| == 0 && SentSoFar(fn, enc, replies, cs, rest, size, sent)
    ensures FlexOutcome(fn, enc, replies, cs, sent, None)
  {
    assert cs[|sent|..] == [];
  }

  /** The state of the flexdump loop: `rest` is the input not yet cut,
      whose chunks are those of the whole input after the ones sent, and
      every piece sent so far is the encoding of its chunk and was taken
      whole by the writer. */
  ghost predicate SentSoFar(fn: string, enc: Enc, replies: nat -> Reply, cs: seq<seq<byte>>,
                            rest: seq<byte>, size: nat, sent: seq<string>) {
    size > 0 && |sent| <= |cs| && Chunks(rest, size) == cs[|sent|..]
    && sent == EncodeAll(enc, cs[..|sent|]) && AllAccepted(fn, replies, sent)
  }

  /** One pass of the flexdump loop: the chunk cut off the front of the
      remaining input is the next chunk, and its encoding extends what was
      sent. */
  lemma FlexCut(enc: Enc, cs: seq<seq<byte>>, k: nat, rest: seq<byte>, size: nat, m: nat, sent: seq<string>)
    requires 0 < size && 0 < |rest| && m == (if |rest| < size then |rest| else size)
    requires k <= |cs| && Chunks(rest, size) == cs[k..]
    requires sent == EncodeAll(enc, cs[..k])
    ensures k < |cs| && cs[k] == rest[..m] && Chunks(rest[m..], size) == cs[k + 1..]
    ensures sent + [Encode(enc, rest[..m])] == EncodeAll(enc, cs[..k + 1])
  {
    ChunksCons(rest, size, m);
    assert cs[k..][0] == rest[..m];
    assert cs[k..][1..] == cs[k + 1..];
    assert cs[..k + 1] == cs[..k] + [cs[k]];
    EncodeAllSnoc(enc, cs[..k], cs[k]);
  }

  /** A pass whose write succeeds keeps the loop's state. */
  lemma FlexStep(fn: string, enc: Enc, replies: nat -> Reply, cs: seq<seq<byte>>, rest: seq<byte>,
                 size: nat, m: nat, sent: seq<string>, piece: string)
    requires 0 < size && 0 < |rest| && m == (if |rest| < size then |rest| else size)
    requires SentSoFar(fn, enc, replies, cs, rest, size, sent)
    requires piece == Encode(enc, rest[..m]) && Write(fn, replies(|sent|), piece).None?
    ensures SentSoFar(fn, enc, replies, cs, rest[m..], size, sent + [piece])
  {
    FlexCut(enc, cs, |sent|, rest, size, m, sent);
    AcceptedSnoc(fn, replies, sent, piece);
  }

  /** A pass whose write fails has sent one more encoded chunk, after
      pieces that were all taken whole. */
  lemma FlexFail(fn: string, enc: Enc, replies: nat -> Reply, cs: seq<seq<byte>>, rest: seq<byte>,
                 size: nat, m: nat, sent: seq<string>, piece: string, e: Option<WriteError>)
    requires 0 < size && 0 < |rest| && m == (if |rest| < size then |rest| else size)
    requires SentSoFar(fn, enc, replies, cs, rest, size, sent)
    requires piece == Encode(enc, rest[..m])
    requires e.Some? && e == Write(fn, replies(|sent|), piece)
    ensures FlexOutcome(fn, enc, replies, cs, sent + [piece], e)
  {
    FlexCut(enc, cs, |sent|, rest, size, m, sent);
    assert (sent + [piece])[..|sent|] == sent;
  }

  /** Every write of `sent` took the whole piece without an error. */
  ghost predicate AllAccepted(fn: string, replies: nat -> Reply, sent: seq<string>) {
    forall i :: 0 <= i < |sent| ==> Write(fn, replies(i), sent[i]).None?
  }

  lemma AcceptedSnoc(fn: string, replies: nat -> Reply, sent: seq<string>, piece: string)
    requires AllAccepted(fn, replies, sent) && Write(fn, replies(|sent|), piece).None?
    ensures AllAccepted(fn, replies, sent + [piece])
  {
    var s' := sent + [piece];
    forall i | 0 <= i < |s'|
      ensures Write(fn, replies(i), s'[i]).None?
    {
      if i < |sent| { assert s'[i] == sent[i]; }
    }
  }

  lemma ChunksCons(rest: seq<byte>, size: nat, m: nat)
    requires 0 < size && 0 < |rest| && m == (if |rest| < size then |rest| else size)
    ensures Chunks(rest, size) == [rest[..m]] + Chunks(rest[m..], size)
  {
  }

  lemma {:induction false} EncodeAllSnoc(enc: Enc, cs: seq<seq<byte>>, c: seq<byte>)
    ensures EncodeAll(enc, cs + [c]) == EncodeAll(enc, cs) + [Encode(enc, c)]
  {
    if |cs| > 0 {
      assert (cs + [c])[1..] == cs[1..] + [c];
      EncodeAllSnoc(enc, cs[1..], c);
    } else {
      assert cs + [c] == [c];
    }
  }

  /** `flexdump.Close`: a final newline, whose write error is dropped: the
      close succeeds whatever the writer answers, unlike `cDumper.Close`. */
  function FlexClose(reply: Reply): (r: (string, Option<WriteError>))
    ensures r.0 == "\n"
    ensures r.1.None?
  {
    ("\n", None)
  }

  // ---------------------------------------------------------------------
  // Mode names
  // ---------------------------------------------------------------------

  datatype Dumper = CArray | FlexB64 | FlexHex | HexDump

  /** The switch on `strings.ToLower(args[0])`; None is the fatal "unknown
      encoding type". No mode name contains a letter whose Unicode lower
      case differs from its ASCII one, so ASCII case folding decides the
      same way. */
  function ModeOf(name: string): (r: Option<Dumper>)
    ensures r.Some? <==> ToLowerAscii(name) in {"b64", "base64", "c", "struct", "hex", "x", "dump", "d", "hexdump"}
    ensures r == Some(FlexB64) <==> ToLowerAscii(name) in {"b64", "base64"}
    ensures r == Some(CArray) <==> ToLowerAscii(name) in {"c", "struct"}
    ensures r == Some(FlexHex) <==> ToLowerAscii(name) in {"hex", "x"}
    ensures r == Some(HexDump) <==> ToLowerAscii(name) in {"dump", "d", "hexdump"}
  {
    var mode := ToLowerAscii(name);
    if mode == "b64" || mode == "base64" then Some(FlexB64)
    else if mode == "c" || mode == "struct" then Some(CArray)
    else if mode == "hex" || mode == "x" then Some(FlexHex)
    else if mode == "dump" || mode == "d" || mode == "hexdump" then Some(HexDump)
    else None
  }

  lemma {:induction false} ToLowerAsciiIdempotent(s: string)
    ensures ToLowerAscii(ToLowerAscii(s)) == ToLowerAscii(s)
  {
    var t := ToLowerAscii(s);
    assert forall i :: 0 <= i < |t| ==> !('A' <= t[i] <= 'Z');
  }

  /** The mode name's case does not matter. */
  lemma ModeCaseInsensitive(name: string)
    ensures ModeOf(ToLowerAscii(name)) == ModeOf(name)
  {
    ToLowerAsciiIdempotent(name);
  }
}
