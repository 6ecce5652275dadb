/** ghash's verify mode (`doVerify` and `verifyFile` in ghash/verify.go):
    check the header, parse and stat every record line, hash the files that
    pass, and turn the collected failures into an exit code.

    The producer, the workers and the error harvester run concurrently in
    the source; here the lines are taken in file order and every failure is
    recorded in that order. The failures the source collects are the same;
    only their interleaving differs. */
module Verify {
  import opened Wrappers
  import opened Text
  import Hex
  import opened Fs
  import opened Hashes
  import opened Manifest

  // ---------------------------------------------------------------------
  // Hashing a file and comparing digests
  // ---------------------------------------------------------------------

  /** `hashFile`: open the name (following links), read every byte and
      return the digest together with the number of bytes read. */
  function HashFile(fs: FileSystem, path: string, ctor: Ctor, digest: Digester): (r: Option<(seq<byte>, nat)>)
    ensures r.Some? ==> Stat(fs, path).Some? && Stat(fs, path).value.node.contents.Some?
    ensures r.Some? ==> var c := Stat(fs, path).value.node.contents.value;
                        r.value == (digest(ctor, c), |c|)
    ensures r.None? ==> Stat(fs, path).None? || Stat(fs, path).value.node.contents.None?
  {
    match Stat(fs, path)
    case None => None
    case Some(fi) =>
      match fi.node.contents
      case None => None
      case Some(c) => Some((digest(ctor, c), |c|))
  }

  /** How many positions two equally long strings differ in; every position
      is visited, whatever the earlier ones held. */
  function Mismatches(x: string, y: string): (r: nat)
    requires |x| == |y|
    ensures r <= |x|
  {
    if |x| == 0 then 0
    else (if x[0] != y[0] then 1 else 0) + Mismatches(x[1..], y[1..])
  }

  lemma {:induction false} MismatchesZero(x: string, y: string)
    requires |x| == |y|
    ensures Mismatches(x, y) == 0 <==> x == y
  {
    if |x| > 0 {
      MismatchesZero(x[1..], y[1..]);
      assert x == [x[0]] + x[1..] && y == [y[0]] + y[1..];
    }
  }

  /** `subtle.ConstantTimeCompare`: 1 exactly when the two strings are equal,
      0 otherwise; unequal lengths give 0 at once. */
  function ConstantTimeCompare(x: string, y: string): (r: int)
    ensures r == 0 || r == 1
    ensures r == 1 <==> x == y
  {
    if |x| != |y| then 0
    else
      MismatchesZero(x, y);
      if Mismatches(x, y) == 0 then 1 else 0
  }

  /** `verifyFile`: hash the file, then compare the number of bytes hashed
      with the recorded size, and only then compare the lower-case hex of the
      digest with the recorded checksum. Every failure carries the datum's
      error prefix. */
  function VerifyFile(fs: FileSystem, d: Datum, ctor: Ctor, digest: Digester): (r: Option<Failure>)
    ensures r.Some? ==> r.value.prefix == d.errPrefix
    ensures HashFile(fs, d.file, ctor, digest).None? ==> r == Some(Failure(d.errPrefix, CantHash(d.file)))
    ensures r.None? <==> var h := HashFile(fs, d.file, ctor, digest);
                         h.Some? && h.value.1 == d.size && Hex.Encode(h.value.0) == d.expsum
    ensures var h := HashFile(fs, d.file, ctor, digest);
            h.Some? && h.value.1 != d.size ==>
              r == Some(Failure(d.errPrefix, HashSizeMismatch(d.file, d.size, h.value.1)))
    ensures var h := HashFile(fs, d.file, ctor, digest);
            h.Some? && h.value.1 == d.size && Hex.Encode(h.value.0) != d.expsum ==>
              r == Some(Failure(d.errPrefix, Modified(d.file)))
  {
    match HashFile(fs, d.file, ctor, digest)
    case None => Some(Failure(d.errPrefix, CantHash(d.file)))
    case Some((sum, sz)) =>
      if d.size != sz then Some(Failure(d.errPrefix, HashSizeMismatch(d.file, d.size, sz)))
      else if ConstantTimeCompare(Hex.Encode(sum), d.expsum) != 1 then
        Some(Failure(d.errPrefix, Modified(d.file)))
      else None
  }

  /** An accepted file's recorded checksum decodes to exactly the digest of
      its contents, and a checksum that is not lower-case hex is never
      accepted. */
  lemma AcceptedMeansSameDigest(fs: FileSystem, d: Datum, ctor: Ctor, digest: Digester)
    requires VerifyFile(fs, d, ctor, digest).None?
    ensures Hex.Decode(d.expsum) == Some(HashFile(fs, d.file, ctor, digest).value.0)
    ensures forall i :: 0 <= i < |d.expsum| ==> Hex.IsLowerHexDigit(d.expsum[i])
  {
    Hex.DecodeEncode(HashFile(fs, d.file, ctor, digest).value.0);
  }

  // ---------------------------------------------------------------------
  // Scanning the record lines
  // ---------------------------------------------------------------------

  /** The error prefix of a data line: the manifest's name and the line's
      number. */
  function LinePrefix(nm: string, num: int): (r: string)
    ensures |r| > |nm| + 2 && r[..|nm| + 2] == nm + ": "
    ensures IsInt64(num) ==> ParseInt64(r[|nm| + 2..]) == Some(num)
  {
    var r := nm + ": " + FormatInt(num);
    assert r[..|nm| + 2] == nm + ": ";
    assert r[|nm| + 2..] == FormatInt(num);
    if IsInt64(num) then FormatParseInt(num); r else r
  }

  /** What one data line adds: nothing, one failure, or a crash. */
  datatype LineOutcome = Clean | Failed(failure: Failure) | LineCrash

  /** One data line: parse it under its numbered prefix; a datum that passes
      is handed to `verifyFile`. */
  function CheckLine(fs: FileSystem, ctor: Ctor, digest: Digester, nm: string, num: int, line: string): (r: LineOutcome)
    ensures r.LineCrash? <==> SplitRecord(line).Panic?
    ensures ParseLine(fs, line, LinePrefix(nm, num)).Malformed? ==>
              r == Failed(ParseLine(fs, line, LinePrefix(nm, num)).failure)
    ensures ParseLine(fs, line, LinePrefix(nm, num)).Parsed? ==>
              (r == Clean <==> VerifyFile(fs, ParseLine(fs, line, LinePrefix(nm, num)).datum, ctor, digest).None?)
    ensures ParseLine(fs, line, LinePrefix(nm, num)).Parsed? ==>
              var v := VerifyFile(fs, ParseLine(fs, line, LinePrefix(nm, num)).datum, ctor, digest);
              v.Some? ==> r == Failed(v.value)
  {
    match ParseLine(fs, line, LinePrefix(nm, num))
    case Panicked => LineCrash
    case Malformed(f) => Failed(f)
    case Parsed(d) =>
      match VerifyFile(fs, d, ctor, digest)
      case None => Clean
      case Some(f) => Failed(f)
  }

  /** The check of one numbered data line of a manifest. */
  function LineCheck(fs: FileSystem, ctor: Ctor, digest: Digester, nm: string): (int, string) -> LineOutcome {
    (num: int, line: string) => CheckLine(fs, ctor, digest, nm, num, line)
  }

  /** Each data line's outcome, the lines numbered upwards from `num`. */
  function Outcomes(check: (int, string) -> LineOutcome, lines: seq<string>, num: int): (r: seq<LineOutcome>)
    ensures |r| == |lines|
  {
    if |lines| == 0 then []
    else [check(num, lines[0])] + Outcomes(check, lines[1..], num + 1)
  }

  /** The i-th line of a run is checked under the number `num + i`. */
  lemma {:induction false} OutcomeAt(check: (int, string) -> LineOutcome, lines: seq<string>, num: int, i: nat)
    requires i < |lines|
    ensures Outcomes(check, lines, num)[i] == check(num + i, lines[i])
  {
    if i > 0 {
      OutcomeAt(check, lines[1..], num + 1, i - 1);
      assert lines[1..][i - 1] == lines[i];
    }
  }

  /** The failures of a run of lines, or a crash when one of them panics. */
  datatype ScanResult = Scanned(errs: seq<Failure>) | ScanCrash

  /** The producer loop over the line outcomes: a failing line adds its
      failure and the loop goes on with the next line; a panic ends it. */
  function Collect(os: seq<LineOutcome>): (r: ScanResult)
    ensures r.ScanCrash? <==> LineCrash in os
    ensures r.Scanned? ==> |r.errs| <= |os|
  {
    if |os| == 0 then Scanned([])
    else
      assert os == [os[0]] + os[1..];
      match os[0]
      case LineCrash => ScanCrash
      case Clean => Collect(os[1..])
      case Failed(f) =>
        match Collect(os[1..])
        case ScanCrash => ScanCrash
        case Scanned(errs) => Scanned([f] + errs)
  }

  /** Collecting two runs one after the other is collecting their
      concatenation: no failure stops the scan of the lines after it. */
  lemma {:induction false} CollectAppend(a: seq<LineOutcome>, b: seq<LineOutcome>)
    ensures Collect(a + b) ==
              if Collect(a).ScanCrash? || Collect(b).ScanCrash? then ScanCrash
              else Scanned(Collect(a).errs + Collect(b).errs)
  {
    if |a| == 0 {
      assert a + b == b;
    } else {
      assert (a + b)[0] == a[0] && (a + b)[1..] == a[1..] + b;
      CollectAppend(a[1..], b);
      if a[0].Failed? && Collect(a[1..]).Scanned? && Collect(b).Scanned? {
        var f := a[0].failure;
        assert [f] + (Collect(a[1..]).errs + Collect(b).errs)
            == ([f] + Collect(a[1..]).errs) + Collect(b).errs;
      }
    }
  }

  /** Lines that are all clean leave nothing to report. */
  lemma {:induction false} CollectAllClean(os: seq<LineOutcome>)
    requires forall i :: 0 <= i < |os| ==> os[i] == Clean
    ensures Collect(os) == Scanned([])
  {
    if |os| > 0 {
      assert forall i :: 0 <= i < |os[1..]| ==> os[1..][i] == os[i + 1];
      CollectAllClean(os[1..]);
    }
  }

  /** Every failing line contributes its own failure, in line order. */
  lemma {:induction false} CollectFailuresInOrder(os: seq<LineOutcome>, k: nat)
    requires k < |os| && os[k].Failed? && Collect(os).Scanned?
    ensures os[k].failure in Collect(os).errs
  {
    assert os == os[..k] + [os[k]] + os[k + 1..];
    CollectAppend(os[..k] + [os[k]], os[k + 1..]);
    CollectAppend(os[..k], [os[k]]);
    assert Collect([os[k]]) == Scanned([os[k].failure]) by {
      assert [os[k]][1..] == [];
    }
  }

  // ---------------------------------------------------------------------
  // doVerify
  // ---------------------------------------------------------------------

  datatype DieReason = CantReadFirstLine | BadHeader(err: HeaderError)

  /** `doVerify`'s possible ends: a fatal message before any record is
      looked at, a panic while scanning, or the collected failures. */
  datatype VerifyRun = Died(reason: DieReason) | Crashed | Finished(errs: seq<Failure>)

  /** `doVerify` over the manifest's lines: the header must pass before any
      record line is touched; record lines are numbered from 2. */
  function DoVerify(fs: FileSystem, digest: Digester, nm: string, lines: seq<string>): (r: VerifyRun)
    ensures |lines| == 0 ==> r == Died(CantReadFirstLine)
    ensures |lines| > 0 && CheckHeader(lines[0]).Err? ==> r == Died(BadHeader(CheckHeader(lines[0]).error))
    ensures r.Finished? ==> |r.errs| <= |lines| - 1
  {
    if |lines| == 0 then Died(CantReadFirstLine)
    else match CheckHeader(lines[0])
      case Err(e) => Died(BadHeader(e))
      case Ok(ctor) =>
        match Collect(Outcomes(LineCheck(fs, ctor, digest, nm), lines[1..], 2))
        case ScanCrash => Crashed
        case Scanned(errs) => Finished(errs)
  }

  /** A run that gets past the header reports exactly what collecting the
      data lines' outcomes gives. */
  lemma FinishedCollects(fs: FileSystem, digest: Digester, nm: string, lines: seq<string>)
    requires DoVerify(fs, digest, nm, lines).Finished?
    ensures |lines| > 0 && CheckHeader(lines[0]).Ok?
    ensures Collect(Outcomes(LineCheck(fs, CheckHeader(lines[0]).value, digest, nm), lines[1..], 2))
            == Scanned(DoVerify(fs, digest, nm, lines).errs)
  {
  }

  /** A line that does not parse fails its check with the parse failure. */
  lemma MalformedFails(fs: FileSystem, ctor: Ctor, digest: Digester, nm: string, num: int, line: string)
    requires ParseLine(fs, line, LinePrefix(nm, num)).Malformed?
    ensures LineCheck(fs, ctor, digest, nm)(num, line) == Failed(ParseLine(fs, line, LinePrefix(nm, num)).failure)
  {
  }

  /** A line that parses fails its check exactly when verifying its datum
      fails, and with that failure. */
  lemma ParsedChecked(fs: FileSystem, ctor: Ctor, digest: Digester, nm: string, num: int, line: string)
    requires ParseLine(fs, line, LinePrefix(nm, num)).Parsed?
    requires VerifyFile(fs, ParseLine(fs, line, LinePrefix(nm, num)).datum, ctor, digest).Some?
    ensures LineCheck(fs, ctor, digest, nm)(num, line)
            == Failed(VerifyFile(fs, ParseLine(fs, line, LinePrefix(nm, num)).datum, ctor, digest).value)
  {
  }

  /** A line whose check fails has its failure among those collected. */
  lemma FailedLineCollected(check: (int, string) -> LineOutcome, lines: seq<string>, num: int, i: nat,
                            n: int, line: string, f: Failure)
    requires i < |lines| && n == num + i && line == lines[i] && check(n, line) == Failed(f)
    requires Collect(Outcomes(check, lines, num)).Scanned?
    ensures f in Collect(Outcomes(check, lines, num)).errs
  {
    OutcomeAt(check, lines, num, i);
    CollectFailuresInOrder(Outcomes(check, lines, num), i);
  }

  /** Data line k (counting the header as line 1) whose check fails has its
      failure among the errors collected from the data lines. */
  lemma LineReported(check: (int, string) -> LineOutcome, lines: seq<string>, k: nat, f: Failure,
                     errs: seq<Failure>)
    requires 1 <= k < |lines| && Collect(Outcomes(check, lines[1..], 2)) == Scanned(errs)
    requires check(k + 1, lines[k]) == Failed(f)
    ensures f in errs
  {
    TailIndex(lines, k);
    FailedLineCollected(check, lines[1..], 2, k - 1, k + 1, lines[k], f);
  }

  /** Line k of the manifest (counting the header as line 1) that fails to
      parse is reported, under the prefix "<name>: k", whatever the other
      lines hold. */
  lemma MalformedLineReported(fs: FileSystem, digest: Digester, nm: string, lines: seq<string>, k: nat)
    requires 1 <= k < |lines|
    requires ParseLine(fs, lines[k], LinePrefix(nm, k + 1)).Malformed?
    requires DoVerify(fs, digest, nm, lines).Finished?
    ensures ParseLine(fs, lines[k], LinePrefix(nm, k + 1)).failure in DoVerify(fs, digest, nm, lines).errs
    ensures ParseLine(fs, lines[k], LinePrefix(nm, k + 1)).failure.prefix == LinePrefix(nm, k + 1)
  {
    FinishedCollects(fs, digest, nm, lines);
    MalformedFails(fs, CheckHeader(lines[0]).value, digest, nm, k + 1, lines[k]);
    LineReported(LineCheck(fs, CheckHeader(lines[0]).value, digest, nm), lines, k,
                 ParseLine(fs, lines[k], LinePrefix(nm, k + 1)).failure, DoVerify(fs, digest, nm, lines).errs);
  }

  /** Line k of the manifest that parses but whose file no longer hashes to
      the recorded checksum is reported as modified, whatever the other lines
      hold. As parseLine leaves the datum's error prefix empty, the report
      carries no file name or line number in its prefix. */
  lemma ModifiedFileReported(fs: FileSystem, digest: Digester, nm: string, lines: seq<string>, k: nat)
    requires 1 <= k < |lines|
    requires ParseLine(fs, lines[k], LinePrefix(nm, k + 1)).Parsed?
    requires DoVerify(fs, digest, nm, lines).Finished?
    requires var d := ParseLine(fs, lines[k], LinePrefix(nm, k + 1)).datum;
             var h := HashFile(fs, d.file, CheckHeader(lines[0]).value, digest);
             h.Some? && h.value.1 == d.size && Hex.Encode(h.value.0) != d.expsum
    ensures Failure("", Modified(ParseLine(fs, lines[k], LinePrefix(nm, k + 1)).datum.file))
            in DoVerify(fs, digest, nm, lines).errs
  {
    FinishedCollects(fs, digest, nm, lines);
    ParsedLineReported(fs, digest, nm, lines, k);
  }

  /** Line k of the manifest that parses but fails verification is reported
      with the failure verifying its datum gives. */
  lemma ParsedLineReported(fs: FileSystem, digest: Digester, nm: string, lines: seq<string>, k: nat)
    requires 1 <= k < |lines|
    requires ParseLine(fs, lines[k], LinePrefix(nm, k + 1)).Parsed?
    requires DoVerify(fs, digest, nm, lines).Finished?
    requires VerifyFile(fs, ParseLine(fs, lines[k], LinePrefix(nm, k + 1)).datum,
                        CheckHeader(lines[0]).value, digest).Some?
    ensures VerifyFile(fs, ParseLine(fs, lines[k], LinePrefix(nm, k + 1)).datum,
                       CheckHeader(lines[0]).value, digest).value in DoVerify(fs, digest, nm, lines).errs
  {
    FinishedCollects(fs, digest, nm, lines);
    var ctor := CheckHeader(lines[0]).value;
    ParsedChecked(fs, ctor, digest, nm, k + 1, lines[k]);
    LineReported(LineCheck(fs, ctor, digest, nm), lines, k,
                 VerifyFile(fs, ParseLine(fs, lines[k], LinePrefix(nm, k + 1)).datum, ctor, digest).value,
                 DoVerify(fs, digest, nm, lines).errs);
  }

  // ---------------------------------------------------------------------
  // Exit code
  // ---------------------------------------------------------------------

  /** The exit code as written, `1 & len(errs)` on a 64-bit int. */
  function ExitCodeAsWritten(n: nat): (r: int)
    requires n <= Int64Max
  {
    ((n as bv64) & 1) as int
  }

  /** As written, the code is the parity of the number of failures. */
  lemma ExitCodeAsWrittenIsParity(n: nat)
    requires n <= Int64Max
    ensures ExitCodeAsWritten(n) == n % 2
  {
  }

  /** Two failed files still exit with 0, the code for success. */
  lemma TwoFailuresExitZero()
    ensures ExitCodeAsWritten(2) == 0
  {
    ExitCodeAsWrittenIsParity(2);
  }

  /** The exit code evidently intended: 0 with no failures, 1 with any. */
  function ExitCode(n: nat): (r: int)
    ensures r == 0 <==> n == 0
    ensures r == 0 || r == 1
  {
    if n == 0 then 0 else 1
  }

  /** The exit status of a verify run, with the corrected failure count:
      a fatal message exits with 1, and a panic in the goroutine that reads
      the lines ends the process with the status 2 the Go runtime uses for
      an unrecovered panic. */
  function RunExitCode(run: VerifyRun): (r: int)
    ensures r == 0 <==> run.Finished? && |run.errs| == 0
    ensures run.Finished? && |run.errs| > 0 ==> r == 1
    ensures run.Died? ==> r == 1
    ensures run.Crashed? ==> r == 2
  {
    match run
    case Finished(errs) => ExitCode(|errs|)
    case Died(_) => 1
    case Crashed => 2
  }
}
