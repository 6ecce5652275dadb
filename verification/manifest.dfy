/** ghash's manifest format: the header line `#!ghash <algo> <version>`
    and one `hexsum|size|path` line per file (ghash/main.go), and how the
    verifier takes a line apart again (`parseLine` in ghash/verify.go). */
module Manifest {
  import opened Wrappers
  import opened Text
  import Hex
  import opened Fs
  import opened Hashes

  const Magic: string := "#!ghash"

  // ---------------------------------------------------------------------
  // Header
  // ---------------------------------------------------------------------

  /** The header line the generator prints, without its newline. */
  function HeaderLine(algo: string, version: string): string {
    Magic + " " + algo + " " + version
  }

  datatype HeaderError = NotEnoughFields | NotGhash | UnsupportedAlgo(name: string)

  /** The verifier's check of the first line: split on single spaces, at
      least three fields, the magic first and a known algorithm second. */
  function CheckHeader(line: string): (r: Result<Ctor, HeaderError>)
    ensures r.Ok? <==> var f := SplitOn(line, ' ');
                       |f| >= 3 && f[0] == Magic && f[1] in Table
    ensures r.Ok? ==> r.value == Table[SplitOn(line, ' ')[1]]
  {
    var fields := SplitOn(line, ' ');
    if |fields| < 3 then Err(NotEnoughFields)
    else if fields[0] != Magic then Err(NotGhash)
    else match Lookup(fields[1])
      case None => Err(UnsupportedAlgo(fields[1]))
      case Some(ctor) => Ok(ctor)
  }

  /** Whatever the version string, the header written for any algorithm in
      the table is accepted and selects that algorithm's constructor. */
  lemma HeaderAccepted(algo: string, version: string)
    requires algo in Table
    ensures CheckHeader(HeaderLine(algo, version)) == Ok(Table[algo])
  {
    assert ' ' !in algo;
    assert ' ' !in Magic;
    SplitOnCons(algo, ' ', version);
    assert HeaderLine(algo, version) == Magic + " " + (algo + " " + version);
    SplitOnCons(Magic, ' ', algo + " " + version);
  }

  // ---------------------------------------------------------------------
  // Record lines as written
  // ---------------------------------------------------------------------

  /** One record as the generator prints it, without the newline: lower-case
      hex digest, decimal size and the raw path. The path is never quoted. */
  function RecordLine(sum: seq<byte>, size: int, path: string): (r: string)
    ensures |r| == 2 * |sum| + |FormatInt(size)| + |path| + 2
    ensures r[..2 * |sum|] == Hex.Encode(sum) && r[2 * |sum|] == '|'
    ensures r[|r| - |path|..] == path
  {
    Hex.Encode(sum) + "|" + FormatInt(size) + "|" + path
  }

  // ---------------------------------------------------------------------
  // Splitting a record line (the part of parseLine before any stat)
  // ---------------------------------------------------------------------

  /** Why a line was refused; the last three arise only after hashing. */
  datatype FailureKind =
    | MalformedChecksum
    | MalformedFileSize
    | MalformedSize
    | MalformedFilename
    | StatFailed(file: string)
    | NotAFile(file: string)
    | SizeMismatch(file: string, expected: int, saw: int)
    | CantHash(file: string)
    | HashSizeMismatch(file: string, expected: int, saw: int)
    | Modified(file: string)

  /** A per-line failure: the prefix it is reported under and its cause. */
  datatype Failure = Failure(prefix: string, kind: FailureKind)

  /** The three fields of a record line, a refusal, or the index-out-of-range
      panic of `fn[0]` on an empty file name. */
  datatype Split = Fields(csum: string, size: int, file: string) | Bad(kind: FailureKind) | Panic

  /** Field splitting as parseLine does it: trim the line; the checksum is
      what precedes the first '|'; the size what lies between it and the
      next '|'; the file name all the rest, unquoted when it starts with '"'. */
  function SplitRecord(line: string): (r: Split)
    ensures r.Panic? || r.Fields? || r.Bad?
    ensures r.Bad? ==> r.kind in {MalformedChecksum, MalformedFileSize, MalformedSize, MalformedFilename}
    ensures '|' !in TrimSpace(line) ==> r == Bad(MalformedChecksum)
    ensures r.Fields? ==> '|' !in r.csum && |r.csum| < |TrimSpace(line)|
                          && r.csum == TrimSpace(line)[..|r.csum|]
    ensures r.Fields? ==> IsInt64(r.size)
  {
    SplitTrimmed(TrimSpace(line))
  }

  /** Field splitting of an already trimmed line. */
  function SplitTrimmed(l: string): (r: Split)
    ensures r.Bad? ==> r.kind in {MalformedChecksum, MalformedFileSize, MalformedSize, MalformedFilename}
    ensures '|' !in l ==> r == Bad(MalformedChecksum)
    ensures r.Fields? ==> '|' !in r.csum && |r.csum| < |l| && r.csum == l[..|r.csum|]
    ensures r.Fields? ==> IsInt64(r.size)
  {
    match IndexOf(l, '|')
    case None => Bad(MalformedChecksum)
    case Some(i) =>
      var csum := l[..i];
      var rest := l[i + 1..];
      match IndexOf(rest, '|')
      case None => Bad(MalformedFileSize)
      case Some(j) =>
        match ParseInt64(rest[..j])
        case None => Bad(MalformedSize)
        case Some(size) =>
          NameField(csum, size, rest[j + 1..])
  }

  /** The last step of splitting: `fn[0]` is read before anything else,
      and a leading '"' asks for unquoting. */
  function NameField(csum: string, size: int, fn: string): (r: Split)
    ensures r.Panic? <==> |fn| == 0
    ensures |fn| > 0 && fn[0] != '"' ==> r == Fields(csum, size, fn)
    ensures |fn| > 0 && fn[0] == '"' ==> (r == Bad(MalformedFilename) <==> Unquote(fn).None?)
    ensures |fn| > 0 && fn[0] == '"' && Unquote(fn).Some? ==> r == Fields(csum, size, Unquote(fn).value)
    ensures r.Fields? ==> r.csum == csum && r.size == size
  {
    if |fn| == 0 then Panic
    else if fn[0] == '"' then
      match Unquote(fn)
      case None => Bad(MalformedFilename)
      case Some(name) => Fields(csum, size, name)
    else Fields(csum, size, fn)
  }

  /** A line with a single '|' lacks the size field's terminator. */
  lemma SplitOneBar(line: string, i: nat)
    requires var l := TrimSpace(line); i < |l| && l[i] == '|' && '|' !in l[..i] && '|' !in l[i + 1..]
    ensures SplitRecord(line) == Bad(MalformedFileSize)
  {
    IndexOfAt(TrimSpace(line), '|', i);
  }

  /** With `i` the first '|' and `j` the second, the checksum is what precedes
      `i`, the size field what lies between them, and the name all that
      follows `j`; a size field that is not an int64 is refused. */
  lemma SplitTwoBars(line: string, i: nat, j: nat)
    requires var l := TrimSpace(line);
             i < j < |l| && l[i] == '|' && l[j] == '|' && '|' !in l[..i] && '|' !in l[i + 1..j]
    ensures var l := TrimSpace(line);
            ParseInt64(l[i + 1..j]).None? ==> SplitRecord(line) == Bad(MalformedSize)
    ensures var l := TrimSpace(line);
            ParseInt64(l[i + 1..j]).Some? ==>
              SplitRecord(line) == NameField(l[..i], ParseInt64(l[i + 1..j]).value, l[j + 1..])
  {
    SplitBarsTrimmed(TrimSpace(line), i, j);
  }

  lemma SplitBarsTrimmed(l: string, i: nat, j: nat)
    requires i < j < |l| && l[i] == '|' && l[j] == '|' && '|' !in l[..i] && '|' !in l[i + 1..j]
    ensures ParseInt64(l[i + 1..j]).None? ==> SplitTrimmed(l) == Bad(MalformedSize)
    ensures ParseInt64(l[i + 1..j]).Some? ==>
              SplitTrimmed(l) == NameField(l[..i], ParseInt64(l[i + 1..j]).value, l[j + 1..])
  {
    IndexOfAt(l, '|', i);
    var rest := l[i + 1..];
    var k := j - i - 1;
    assert rest[..k] == l[i + 1..j];
    assert rest[k] == l[j];
    IndexOfAt(rest, '|', k);
    assert rest[k + 1..] == l[j + 1..];
  }

  // ---------------------------------------------------------------------
  // strconv.Unquote for double-quoted names
  // ---------------------------------------------------------------------

  /** The rune a single-character escape after a backslash stands for inside
      double quotes; None for escapes this model does not decode. */
  function EscapeValue(c: char): Option<char> {
    if c == 'a' then Some('\U{7}')
    else if c == 'b' then Some('\U{8}')
    else if c == 'f' then Some('\U{C}')
    else if c == 'n' then Some('\n')
    else if c == 'r' then Some('\r')
    else if c == 't' then Some('\t')
    else if c == 'v' then Some('\U{B}')
    else if c == '\\' then Some('\\')
    else if c == '"' then Some('"')
    else None
  }

  /** Decodes the text after an opening quote: runes up to the closing quote,
      which must be the last rune; a raw newline is refused. */
  function UnquoteBody(t: string): (r: Option<string>)
    ensures r.Some? ==> |r.value| < |t|
  {
    if |t| == 0 then None
    else if t[0] == '"' then (if |t| == 1 then Some("") else None)
    else if t[0] == '\n' then None
    else if t[0] == '\\' then
      if |t| < 2 then None
      else match (EscapeValue(t[1]), UnquoteBody(t[2..]))
        case (Some(c), Some(rest)) => Some([c] + rest)
        case _ => None
    else match UnquoteBody(t[1..])
      case Some(rest) => Some([t[0]] + rest)
      case None => None
  }

  /** `strconv.Unquote` of a string that starts with a double quote. */
  function Unquote(s: string): (r: Option<string>)
    ensures r.Some? ==> |s| >= 2 && s[0] == '"' && s[|s| - 1] == '"'
  {
    if |s| < 2 || s[0] != '"' then None
    else
      var r := UnquoteBody(s[1..]);
      if r.Some? then UnquoteEndsInQuote(s[1..]); r else r
  }

  lemma {:induction false} UnquoteEndsInQuote(t: string)
    requires UnquoteBody(t).Some?
    ensures |t| >= 1 && t[|t| - 1] == '"'
  {
    if t[0] == '\\' {
      UnquoteEndsInQuote(t[2..]);
    } else if t[0] != '"' {
      UnquoteEndsInQuote(t[1..]);
    }
  }

  // ---------------------------------------------------------------------
  // parseLine: splitting plus the cheap stat checks
  // ---------------------------------------------------------------------

  /** What the verifier's producer hands to a worker. */
  datatype Datum = Datum(file: string, size: int, expsum: string, errPrefix: string)

  datatype LineResult = Parsed(datum: Datum) | Malformed(failure: Failure) | Panicked

  /** `parseLine(line, errpref)`: split the fields, then require the named
      path to `stat` as a regular file of exactly the recorded size, all
      before any hashing. The datum's error prefix is left empty. */
  function ParseLine(fs: FileSystem, line: string, errpref: string): (r: LineResult)
    ensures r.Panicked? <==> SplitRecord(line).Panic?
    ensures r.Malformed? ==> r.failure.prefix == errpref
    ensures r.Parsed? ==> r.datum.errPrefix == ""
    ensures r.Parsed? ==> SplitRecord(line) == Fields(r.datum.expsum, r.datum.size, r.datum.file)
    ensures r.Parsed? ==> var st := Stat(fs, r.datum.file);
                          st.Some? && st.value.node.kind == Regular && st.value.node.size == r.datum.size
    ensures SplitRecord(line).Bad? ==> r == Malformed(Failure(errpref, SplitRecord(line).kind))
    ensures SplitRecord(line).Fields? ==>
              var f := SplitRecord(line);
              Stat(fs, f.file).None? ==> r == Malformed(Failure(errpref, StatFailed(f.file)))
    ensures SplitRecord(line).Fields? ==>
              var f := SplitRecord(line); var st := Stat(fs, f.file);
              st.Some? && st.value.node.kind != Regular ==> r == Malformed(Failure(errpref, NotAFile(f.file)))
    ensures SplitRecord(line).Fields? ==>
              var f := SplitRecord(line); var st := Stat(fs, f.file);
              st.Some? && st.value.node.kind == Regular && st.value.node.size != f.size ==>
                r == Malformed(Failure(errpref, SizeMismatch(f.file, f.size, st.value.node.size)))
    ensures SplitRecord(line).Fields? ==>
              var f := SplitRecord(line); var st := Stat(fs, f.file);
              st.Some? && st.value.node.kind == Regular && st.value.node.size == f.size ==>
                r == Parsed(Datum(f.file, f.size, f.csum, ""))
  {
    match SplitRecord(line)
    case Panic => Panicked
    case Bad(kind) => Malformed(Failure(errpref, kind))
    case Fields(csum, size, fn) =>
      match Stat(fs, fn)
      case None => Malformed(Failure(errpref, StatFailed(fn)))
      case Some(fi) =>
        if fi.node.kind != Regular then Malformed(Failure(errpref, NotAFile(fn)))
        else if fi.node.size != size then Malformed(Failure(errpref, SizeMismatch(fn, size, fi.node.size)))
        else Parsed(Datum(fn, size, csum, ""))
  }

  // ---------------------------------------------------------------------
  // Round trips
  // ---------------------------------------------------------------------

  /** A line whose checksum and size fields hold no '|' and which trimming
      leaves alone splits back into exactly those fields. */
  lemma SplitFields(c: string, size: int, f: string)
    requires '|' !in c && IsInt64(size)
    ensures SplitTrimmed(c + "|" + FormatInt(size) + "|" + f) == NameField(c, size, f)
  {
    var d := FormatInt(size);
    var line := c + "|" + d + "|" + f;
    var tail := d + "|" + f;
    assert line == c + ['|'] + tail;
    IndexOfAfter(c, '|', tail);
    assert line[..|c|] == c;
    assert line[|c| + 1..] == tail;
    assert '|' !in d by {
      forall i | 0 <= i < |d| ensures d[i] != '|' {
        assert IsDigit(d[i]) || d[i] == '-';
      }
    }
    assert tail == d + ['|'] + f;
    IndexOfAfter(d, '|', f);
    assert tail[..|d|] == d && tail[|d| + 1..] == f;
    FormatParseInt(size);
  }

  /** Trimming leaves a record alone when its path does not end in white
      space, and a hex digest never holds the '|' separator. */
  lemma RecordUntrimmed(sum: seq<byte>, size: int, path: string)
    requires |path| == 0 || !IsSpace(path[|path| - 1])
    ensures TrimSpace(RecordLine(sum, size, path)) == RecordLine(sum, size, path)
    ensures '|' !in Hex.Encode(sum)
  {
    var h := Hex.Encode(sum);
    var line := RecordLine(sum, size, path);
    assert '|' !in h by {
      forall i | 0 <= i < |h| ensures h[i] != '|' {
        assert Hex.IsLowerHexDigit(h[i]);
      }
    }
    assert line[0] == (if |h| > 0 then h[0] else '|');
    if |h| > 0 { assert Hex.IsLowerHexDigit(h[0]); }
    assert line[|line| - 1] == if |path| == 0 then '|' else path[|path| - 1];
    TrimSpaceKeeps(line);
  }

  /** Parsing a written record gives back its checksum, size and path when
      the path is non-empty, does not start with '"' and does not end in
      white space. */
  lemma RecordRoundTrip(sum: seq<byte>, size: int, path: string)
    requires IsInt64(size)
    requires |path| > 0 && path[0] != '"' && !IsSpace(path[|path| - 1])
    ensures SplitRecord(RecordLine(sum, size, path)) == Fields(Hex.Encode(sum), size, path)
  {
    RecordUntrimmed(sum, size, path);
    SplitFields(Hex.Encode(sum), size, path);
  }

  /** As written, a path that looks quoted does not survive: the name `"a"`
      is written raw and read back as `a`. */
  lemma QuotedPathRewritten(sum: seq<byte>, size: int)
    requires IsInt64(size)
    ensures SplitRecord(RecordLine(sum, size, "\"a\"")) == Fields(Hex.Encode(sum), size, "a")
  {
    var p := "\"a\"";
    RecordUntrimmed(sum, size, p);
    SplitFields(Hex.Encode(sum), size, p);
    UnquoteOfQuotedA();
  }

  lemma UnquoteOfQuotedA()
    ensures Unquote("\"a\"") == Some("a")
  {
    assert "\"a\""[1..] == "a\"";
    assert "a\""[1..] == "\"";
    assert UnquoteBody("\"") == Some("");
    assert ['a'] + "" == "a";
    assert "a\""[0] == 'a';
    assert UnquoteBody("a\"") == Some("a");
  }

  /** As written, an empty path is written as `hex|size|`, and reading that
      line back indexes the empty name and panics. */
  lemma EmptyPathPanics(sum: seq<byte>, size: int)
    requires IsInt64(size)
    ensures SplitRecord(RecordLine(sum, size, "")) == Panic
  {
    RecordUntrimmed(sum, size, "");
    SplitFields(Hex.Encode(sum), size, "");
  }

  // ---------------------------------------------------------------------
  // Corrected codec: quote the paths the parser cannot take back raw
  // ---------------------------------------------------------------------

  /** Backslash, double quote and newline escaped as `strconv.Quote` would. */
  function Escape(p: string): (r: string)
    ensures '\n' !in r
  {
    if |p| == 0 then "" else EscapeChar(p[0]) + Escape(p[1..])
  }

  /** One rune of the quoted text. */
  function EscapeChar(c: char): (r: string)
    ensures '\n' !in r
  {
    if c == '\\' then "\\\\"
    else if c == '"' then "\\\""
    else if c == '\n' then "\\n"
    else [c]
  }

  /** Unquoting reads one escaped rune back ahead of the rest. */
  lemma UnquoteEscapeChar(c: char, rest: string, q: string)
    requires UnquoteBody(rest) == Some(q)
    ensures UnquoteBody(EscapeChar(c) + rest) == Some([c] + q)
  {
    var t := EscapeChar(c) + rest;
    if c == '\\' || c == '"' || c == '\n' {
      assert t[0] == '\\' && t[2..] == rest;
    } else {
      assert t[0] == c && t[1..] == rest;
    }
  }

  function Quote(p: string): (r: string)
    ensures |r| >= 2 && r[0] == '"' && r[|r| - 1] == '"'
    ensures '\n' !in r
  {
    "\"" + Escape(p) + "\""
  }

  lemma {:induction false} UnquoteBodyEscape(p: string)
    ensures UnquoteBody(Escape(p) + "\"") == Some(p)
  {
    if |p| == 0 {
      assert Escape(p) + "\"" == "\"";
    } else {
      var rest := Escape(p[1..]) + "\"";
      UnquoteBodyEscape(p[1..]);
      assert Escape(p) + "\"" == EscapeChar(p[0]) + rest;
      UnquoteEscapeChar(p[0], rest, p[1..]);
      assert [p[0]] + p[1..] == p;
    }
  }

  /** Quoting is undone by unquoting, for every path. */
  lemma UnquoteQuote(p: string)
    ensures Unquote(Quote(p)) == Some(p)
  {
    assert Quote(p)[1..] == Escape(p) + "\"";
    UnquoteBodyEscape(p);
  }

  /** The paths the parser would not read back verbatim: empty, starting
      with '"', ending in white space, or holding a line break. */
  predicate NeedsQuoting(p: string) {
    |p| == 0 || p[0] == '"' || IsSpace(p[|p| - 1]) || '\n' in p
  }

  /** The record writer with quoting: a path that needs it is written quoted,
      every other path raw. */
  function RecordLineQuoted(sum: seq<byte>, size: int, path: string): (r: string)
    ensures !NeedsQuoting(path) ==> r == RecordLine(sum, size, path)
    ensures '\n' !in r
  {
    var written := if NeedsQuoting(path) then Quote(path) else path;
    var r := RecordLine(sum, size, written);
    assert '\n' !in written;
    assert '\n' !in Hex.Encode(sum) + "|" + FormatInt(size) + "|" by {
      var h := Hex.Encode(sum);
      var d := FormatInt(size);
      forall i | 0 <= i < |h| ensures h[i] != '\n' {
        assert Hex.IsLowerHexDigit(h[i]);
      }
      forall i | 0 <= i < |d| ensures d[i] != '\n' {
        assert IsDigit(d[i]) || d[i] == '-';
      }
    }
    r
  }

  /** With quoting, every record parses back to exactly its digest, size
      and path. */
  lemma RecordQuotedRoundTrip(sum: seq<byte>, size: int, path: string)
    requires IsInt64(size)
    ensures SplitRecord(RecordLineQuoted(sum, size, path)) == Fields(Hex.Encode(sum), size, path)
  {
    if NeedsQuoting(path) {
      var q := Quote(path);
      RecordUntrimmed(sum, size, q);
      SplitFields(Hex.Encode(sum), size, q);
      UnquoteQuote(path);
    } else {
      RecordRoundTrip(sum, size, path);
    }
  }
}
