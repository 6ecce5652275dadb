/** ghash's generate mode (`main` in ghash/main.go) for named files: look
    the algorithm up, print the header, hash every file the dispatcher
    sends, print one record per hashed file, and exit 1 when anything went
    wrong. Records are written with the quoting writer, so that every
    written manifest verifies against the filesystem it was made from. */
module Ghash {
  import opened Wrappers
  import opened Text
  import Hex
  import opened Fs
  import opened Hashes
  import opened Manifest
  import opened Verify
  import opened Process

  datatype Death = InsufficientArgs | UnknownAlgo(name: string)

  /** A generate run: a fatal message before any output, or the lines
      written (each followed by a newline) and the exit status. */
  datatype Run = Fatal(reason: Death) | Ran(lines: seq<string>, exit: int)

  /** The worker action: hash the file; a file that cannot be hashed is the
      action's error. */
  function HashAction(fs: FileSystem, ctor: Ctor, digest: Digester): Info -> Option<FailureKind> {
    (fi: Info) => if HashFile(fs, fi.path, ctor, digest).None? then Some(CantHash(fi.path)) else None
  }

  /** The record for one hashed file. */
  function RecordOf(fs: FileSystem, ctor: Ctor, digest: Digester, fi: Info): (r: string)
    requires HashFile(fs, fi.path, ctor, digest).Some?
  {
    var h := HashFile(fs, fi.path, ctor, digest).value;
    RecordLineQuoted(h.0, h.1, fi.path)
  }

  /** The records the writer prints, one per enqueued file that hashed. */
  function Records(fs: FileSystem, ctor: Ctor, digest: Digester, q: seq<Info>): (r: seq<string>)
    ensures |r| <= |q|
  {
    if |q| == 0 then []
    else
      (if HashFile(fs, q[0].path, ctor, digest).Some? then [RecordOf(fs, ctor, digest, q[0])] else [])
      + Records(fs, ctor, digest, q[1..])
  }

  /** `main` without `-r`: at least one argument, a known algorithm (checked
      before anything is written), then the header and the records; exit 1
      exactly when the dispatcher reported an error. */
  function Generate(fs: FileSystem, follow: bool, digest: Digester, halgo: string, version: string,
                    args: seq<string>): (r: Run)
    ensures |args| == 0 ==> r == Fatal(InsufficientArgs)
    ensures |args| > 0 && halgo !in Table ==> r == Fatal(UnknownAlgo(halgo))
    ensures r.Ran? ==> |r.lines| >= 1 && r.lines[0] == HeaderLine(halgo, version)
    ensures r.Ran? ==> (r.exit == 0 <==> ProcessArgs(fs, follow, args, HashAction(fs, Table[halgo], digest)).None?)
    ensures r.Ran? ==> r.exit == 0 || r.exit == 1
  {
    if |args| < 1 then Fatal(InsufficientArgs)
    else match Lookup(halgo)
      case None => Fatal(UnknownAlgo(halgo))
      case Some(ctor) =>
        var q := Enqueued(Produce(fs, follow, map[], args).0);
        var failed := ProcessArgs(fs, follow, args, HashAction(fs, ctor, digest)).Some?;
        Ran([HeaderLine(halgo, version)] + Records(fs, ctor, digest, q), if failed then 1 else 0)
  }

  /** The writer prints a record for every file that hashed and for nothing
      else; with the failed files, every enqueued file is accounted for. */
  lemma {:induction false} RecordsExact(fs: FileSystem, ctor: Ctor, digest: Digester, q: seq<Info>)
    ensures forall i :: 0 <= i < |q| && HashFile(fs, q[i].path, ctor, digest).Some? ==>
              RecordOf(fs, ctor, digest, q[i]) in Records(fs, ctor, digest, q)
    ensures forall l :: l in Records(fs, ctor, digest, q) ==>
              exists x :: x in q && HashFile(fs, x.path, ctor, digest).Some? && l == RecordOf(fs, ctor, digest, x)
    ensures |Records(fs, ctor, digest, q)| + FailureCount(q, HashAction(fs, ctor, digest)) == |q|
  {
    if |q| > 0 {
      var tail := q[1..];
      RecordsExact(fs, ctor, digest, tail);
      var r := Records(fs, ctor, digest, q);
      var rest := Records(fs, ctor, digest, tail);
      var hashed := HashFile(fs, q[0].path, ctor, digest).Some?;
      var head := if hashed then [RecordOf(fs, ctor, digest, q[0])] else [];
      assert r == head + rest;
      forall i | 0 <= i < |q| && HashFile(fs, q[i].path, ctor, digest).Some?
        ensures RecordOf(fs, ctor, digest, q[i]) in r
      {
        if i > 0 {
          assert q[i] == tail[i - 1];
        }
      }
      forall l | l in r
        ensures exists x :: x in q && HashFile(fs, x.path, ctor, digest).Some? && l == RecordOf(fs, ctor, digest, x)
      {
        if l in rest {
          var x :| x in tail && HashFile(fs, x.path, ctor, digest).Some? && l == RecordOf(fs, ctor, digest, x);
          assert x in q;
        } else {
          assert q[0] in q;
        }
      }
    }
  }

  /** Generation writes, after the header, the record of every file sent
      to the workers that hashed, and no other line. */
  lemma GenerateWritesRecords(fs: FileSystem, follow: bool, digest: Digester, halgo: string, version: string,
                              args: seq<string>)
    requires Generate(fs, follow, digest, halgo, version, args).Ran?
    ensures var lines := Generate(fs, follow, digest, halgo, version, args).lines;
            var q := Enqueued(Produce(fs, follow, map[], args).0); var ctor := Table[halgo];
            forall i :: 0 <= i < |q| && HashFile(fs, q[i].path, ctor, digest).Some? ==>
              RecordOf(fs, ctor, digest, q[i]) in lines[1..]
    ensures var lines := Generate(fs, follow, digest, halgo, version, args).lines;
            var q := Enqueued(Produce(fs, follow, map[], args).0); var ctor := Table[halgo];
            forall l :: l in lines[1..] ==>
              exists x :: x in q && HashFile(fs, x.path, ctor, digest).Some? && l == RecordOf(fs, ctor, digest, x)
  {
    var q := Enqueued(Produce(fs, follow, map[], args).0);
    var ctor := Table[halgo];
    var lines := Generate(fs, follow, digest, halgo, version, args).lines;
    assert lines[1..] == Records(fs, ctor, digest, q);
    RecordsExact(fs, ctor, digest, q);
  }

  // ---------------------------------------------------------------------
  // A written manifest verifies
  // ---------------------------------------------------------------------

  /** The filesystem agrees with itself: what a read yields is as long as
      the size `stat` reports, and that size fits an int64. */
  ghost predicate Consistent(fs: FileSystem) {
    forall p :: p in fs.nodes && fs.nodes[p].contents.Some? ==>
      fs.nodes[p].size == |fs.nodes[p].contents.value| && IsInt64(fs.nodes[p].size)
  }

  /** The record of a regular file, read back by the verifier over the same
      filesystem, passes every check. */
  lemma RecordVerifies(fs: FileSystem, ctor: Ctor, digest: Digester, nm: string, num: int, fi: Info)
    requires Consistent(fs)
    requires Stat(fs, fi.path) == Some(fi) && fi.node.kind == Regular
    requires HashFile(fs, fi.path, ctor, digest).Some?
    ensures CheckLine(fs, ctor, digest, nm, num, RecordOf(fs, ctor, digest, fi)) == Clean
  {
    var h := HashFile(fs, fi.path, ctor, digest).value;
    var line := RecordOf(fs, ctor, digest, fi);
    RecordQuotedRoundTrip(h.0, h.1, fi.path);
    assert SplitRecord(line) == Fields(Hex.Encode(h.0), h.1, fi.path);
    var d := Datum(fi.path, h.1, Hex.Encode(h.0), "");
    assert ParseLine(fs, line, LinePrefix(nm, num)) == Parsed(d);
    assert VerifyFile(fs, d, ctor, digest).None?;
  }

  /** The verifier finds nothing wrong with the line, whatever its number. */
  ghost predicate CleanLine(fs: FileSystem, ctor: Ctor, digest: Digester, nm: string, line: string) {
    forall num :: CheckLine(fs, ctor, digest, nm, num, line) == Clean
  }

  /** Every record written for a run of regular files passes the verifier. */
  lemma {:induction false} RecordsVerify(fs: FileSystem, ctor: Ctor, digest: Digester, nm: string, q: seq<Info>)
    requires Consistent(fs)
    requires AllRegular(fs, q)
    ensures forall l :: l in Records(fs, ctor, digest, q) ==> CleanLine(fs, ctor, digest, nm, l)
  {
    if |q| > 0 {
      var tail := q[1..];
      assert forall i :: 0 <= i < |tail| ==> tail[i] == q[i + 1];
      RecordsVerify(fs, ctor, digest, nm, tail);
      if HashFile(fs, q[0].path, ctor, digest).Some? {
        forall num
          ensures CheckLine(fs, ctor, digest, nm, num, RecordOf(fs, ctor, digest, q[0])) == Clean
        {
          RecordVerifies(fs, ctor, digest, nm, num, q[0]);
        }
        assert Records(fs, ctor, digest, q) == [RecordOf(fs, ctor, digest, q[0])] + Records(fs, ctor, digest, tail);
      } else {
        assert Records(fs, ctor, digest, q) == [] + Records(fs, ctor, digest, tail);
      }
    }
  }

  /** Each file is a regular file, as `stat` sees it. */
  ghost predicate AllRegular(fs: FileSystem, q: seq<Info>) {
    forall i :: 0 <= i < |q| ==> Stat(fs, q[i].path) == Some(q[i]) && q[i].node.kind == Regular
  }

  /** Every file the producer enqueues is a regular file. */
  lemma EnqueuedRegular(fs: FileSystem, follow: bool, args: seq<string>)
    ensures AllRegular(fs, Enqueued(Produce(fs, follow, map[], args).0))
  {
    var acts := Produce(fs, follow, map[], args).0;
    var q := Enqueued(acts);
    forall i | 0 <= i < |q|
      ensures Stat(fs, q[i].path) == Some(q[i]) && q[i].node.kind == Regular
    {
      assert q[i] in q;
      var k :| 0 <= k < |acts| && acts[k] == Enqueue(q[i]);
    }
  }

  /** Data lines that all pass the verifier, numbered from 2, collect no
      failure. */
  lemma CleanLinesPass(fs: FileSystem, ctor: Ctor, digest: Digester, nm: string, data: seq<string>)
    requires forall l :: l in data ==> CleanLine(fs, ctor, digest, nm, l)
    ensures Collect(Outcomes(LineCheck(fs, ctor, digest, nm), data, 2)) == Scanned([])
  {
    var os := Outcomes(LineCheck(fs, ctor, digest, nm), data, 2);
    forall i | 0 <= i < |os|
      ensures os[i] == Clean
    {
      assert data[i] in data;
      assert CleanLine(fs, ctor, digest, nm, data[i]);
      OutcomeAt(LineCheck(fs, ctor, digest, nm), data, 2, i);
    }
    CollectAllClean(os);
  }

  /** Generating a manifest and verifying it over the same filesystem finds
      nothing wrong, whatever the manifest's name and the version string. */
  lemma GenerateThenVerify(fs: FileSystem, follow: bool, digest: Digester, halgo: string, version: string,
                           args: seq<string>, nm: string)
    requires Consistent(fs)
    requires Generate(fs, follow, digest, halgo, version, args).Ran?
    ensures DoVerify(fs, digest, nm, Generate(fs, follow, digest, halgo, version, args).lines) == Finished([])
  {
    var ctor := Table[halgo];
    var q := Enqueued(Produce(fs, follow, map[], args).0);
    EnqueuedRegular(fs, follow, args);
    var lines := Generate(fs, follow, digest, halgo, version, args).lines;
    HeaderAccepted(halgo, version);
    assert lines[1..] == Records(fs, ctor, digest, q);
    RecordsVerify(fs, ctor, digest, nm, q);
    CleanLinesPass(fs, ctor, digest, nm, Records(fs, ctor, digest, q));
  }
}
