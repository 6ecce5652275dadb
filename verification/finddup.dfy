/** finddup (finddup/finddup.go): checksum every file the walker reports,
    group the files by the lower-case hex of their checksum, and print each
    group of two or more, newest file first, either as an indented list of
    names or as `rm -f` commands that keep only the newest file.

    The walk callback runs concurrently in the source and `dups` is a
    concurrent map whose `Range` order is unspecified; here the files are
    taken in walk order and the groups in the order their checksums were
    first met. */
module Finddup {
  import opened Wrappers
  import opened Text
  import Hex
  import opened Fs
  import opened Hashes
  import opened Sorting

  // ---------------------------------------------------------------------
  // Checksums
  // ---------------------------------------------------------------------

  /** `hasher`: blake3 keyed with thirty-two zero bytes. */
  const Hasher: Ctor := Keyed(Blake3, ZeroKey)

  /** `checksum`: open the name, following links, and hash every byte it
      yields; None when opening or mapping the file fails. */
  function Checksum(fs: FileSystem, digest: Digester, path: string): Option<seq<byte>> {
    match Stat(fs, path)
    case None => None
    case Some(fi) =>
      match fi.node.contents
      case None => None
      case Some(c) => Some(digest(Hasher, c))
  }

  /** A walked file together with `fmt.Sprintf("%x", cs)` of its checksum. */
  datatype Summed = Summed(sum: string, fi: Info)

  /** The walk callback applied to every file in walk order: each file with
      its hex checksum, or the name of the first file that cannot be
      checksummed. */
  function SumAll(fs: FileSystem, digest: Digester, files: seq<Info>): (r: Result<seq<Summed>, string>)
    ensures r.Ok? <==> forall i :: 0 <= i < |files| ==> Checksum(fs, digest, files[i].path).Some?
    ensures r.Ok? ==> |r.value| == |files|
    ensures r.Ok? ==> forall i :: 0 <= i < |files| ==>
              r.value[i] == Summed(Hex.Encode(Checksum(fs, digest, files[i].path).value), files[i])
  {
    if |files| == 0 then Ok([])
    else
      var tail := files[1..];
      AllSummableCons(fs, digest, files);
      match Checksum(fs, digest, files[0].path)
      case None => Err(files[0].path)
      case Some(cs) =>
        match SumAll(fs, digest, tail)
        case Err(p) => Err(p)
        case Ok(rest) =>
          SummedCons(fs, digest, files, rest);
          Ok([Summed(Hex.Encode(cs), files[0])] + rest)
  }

  /** Every file of a non-empty walk can be checksummed exactly when its
      first file and every later one can. */
  lemma AllSummableCons(fs: FileSystem, digest: Digester, files: seq<Info>)
    requires |files| > 0
    ensures (forall i :: 0 <= i < |files| ==> Checksum(fs, digest, files[i].path).Some?)
            <==> (Checksum(fs, digest, files[0].path).Some?
                  && forall i :: 0 <= i < |files[1..]| ==> Checksum(fs, digest, files[1..][i].path).Some?)
  {
    assert forall i :: 0 < i < |files| ==> files[i] == files[1..][i - 1];
  }

  /** Putting the first file's entry ahead of the entries of the rest gives
      an entry for every file. */
  lemma SummedCons(fs: FileSystem, digest: Digester, files: seq<Info>, rest: seq<Summed>)
    requires |files| > 0 && Checksum(fs, digest, files[0].path).Some?
    requires |rest| == |files| - 1
    requires forall i :: 0 <= i < |files[1..]| ==> Checksum(fs, digest, files[1..][i].path).Some?
    requires forall i :: 0 <= i < |files[1..]| ==>
               rest[i] == Summed(Hex.Encode(Checksum(fs, digest, files[1..][i].path).value), files[1..][i])
    ensures var r := [Summed(Hex.Encode(Checksum(fs, digest, files[0].path).value), files[0])] + rest;
            forall i :: 0 <= i < |files| ==>
              Checksum(fs, digest, files[i].path).Some?
              && r[i] == Summed(Hex.Encode(Checksum(fs, digest, files[i].path).value), files[i])
  {
    var r := [Summed(Hex.Encode(Checksum(fs, digest, files[0].path).value), files[0])] + rest;
    forall i | 0 < i < |files|
      ensures Checksum(fs, digest, files[i].path).Some?
      ensures r[i] == Summed(Hex.Encode(Checksum(fs, digest, files[i].path).value), files[i])
    {
      assert files[i] == files[1..][i - 1] && r[i] == rest[i - 1];
    }
  }

  /** The error names the first file, in walk order, that cannot be
      checksummed. */
  lemma {:induction false} SumAllFirstFailure(fs: FileSystem, digest: Digester, files: seq<Info>)
    requires SumAll(fs, digest, files).Err?
    ensures exists i :: (0 <= i < |files| && files[i].path == SumAll(fs, digest, files).error
              && Checksum(fs, digest, files[i].path).None?
              && forall j :: 0 <= j < i ==> Checksum(fs, digest, files[j].path).Some?)
  {
    if Checksum(fs, digest, files[0].path).Some? {
      var tail := files[1..];
      SumAllFirstFailure(fs, digest, tail);
      var k :| 0 <= k < |tail| && tail[k].path == SumAll(fs, digest, tail).error
               && Checksum(fs, digest, tail[k].path).None?
               && forall j :: 0 <= j < k ==> Checksum(fs, digest, tail[j].path).Some?;
      assert files[k + 1] == tail[k];
      assert forall j :: 1 <= j <= k ==> files[j] == tail[j - 1];
    }
  }

  // ---------------------------------------------------------------------
  // Grouping (the `dups` map)
  // ---------------------------------------------------------------------

  /** One entry of `dups`: a hex checksum and the files appended under it. */
  datatype Group = Group(sum: string, files: seq<Info>)

  /** `LoadOrStore` then `append`: the file joins the entry of its checksum,
      created empty the first time that checksum is met. Entries keep the
      order in which their checksums were first met. */
  function Bucket(groups: seq<Group>, s: Summed): (r: seq<Group>)
    ensures |r| == |groups| || r == groups + [Group(s.sum, [s.fi])]
  {
    if |groups| == 0 then [Group(s.sum, [s.fi])]
    else if groups[0].sum == s.sum then [Group(s.sum, groups[0].files + [s.fi])] + groups[1..]
    else [groups[0]] + Bucket(groups[1..], s)
  }

  /** `dups` once the walk is over: every file bucketed, in walk order. */
  function GroupAll(ss: seq<Summed>): seq<Group> {
    if |ss| == 0 then [] else Bucket(GroupAll(ss[..|ss| - 1]), ss[|ss| - 1])
  }

  /** The reference definition of a group: the files of `ss` whose checksum
      is `k`, in walk order. */
  function Members(ss: seq<Summed>, k: string): seq<Info> {
    if |ss| == 0 then []
    else Members(ss[..|ss| - 1], k) + (if ss[|ss| - 1].sum == k then [ss[|ss| - 1].fi] else [])
  }

  /** `dups.Load(k)`. */
  function FindGroup(groups: seq<Group>, k: string): (r: Option<seq<Info>>)
    ensures r.Some? ==> exists i :: 0 <= i < |groups| && groups[i] == Group(k, r.value)
  {
    if |groups| == 0 then None
    else if groups[0].sum == k then Some(groups[0].files)
    else match FindGroup(groups[1..], k)
      case None => None
      case Some(fs) =>
        var i :| 0 <= i < |groups[1..]| && groups[1..][i] == Group(k, fs);
        assert groups[i + 1] == groups[1..][i];
        Some(fs)
  }

  /** The files under `k`, none when there is no entry. */
  function FilesOf(groups: seq<Group>, k: string): seq<Info> {
    match FindGroup(groups, k)
    case None => []
    case Some(fs) => fs
  }

  /** No two entries share a checksum, as the keys of a map. */
  ghost predicate DistinctSums(groups: seq<Group>) {
    forall i, j :: 0 <= i < j < |groups| ==> groups[i].sum != groups[j].sum
  }

  /** The file is appended to the entry of its own checksum. */
  lemma {:induction false} BucketFind(groups: seq<Group>, s: Summed)
    ensures FindGroup(Bucket(groups, s), s.sum) == Some(FilesOf(groups, s.sum) + [s.fi])
  {
    if |groups| > 0 && groups[0].sum != s.sum {
      BucketFind(groups[1..], s);
      var r := Bucket(groups, s);
      assert r[0] == groups[0] && r[1..] == Bucket(groups[1..], s);
      assert FilesOf(groups, s.sum) == FilesOf(groups[1..], s.sum);
    } else if |groups| > 0 {
      var r := Bucket(groups, s);
      assert r[0] == Group(s.sum, groups[0].files + [s.fi]);
      assert FilesOf(groups, s.sum) == groups[0].files;
    } else {
      assert FilesOf(groups, s.sum) == [];
      assert Bucket(groups, s) == [Group(s.sum, [s.fi])];
      assert [] + [s.fi] == [s.fi];
    }
  }

  /** Every other entry is as it was. */
  lemma {:induction false} BucketKeeps(groups: seq<Group>, s: Summed, k: string)
    requires k != s.sum
    ensures FindGroup(Bucket(groups, s), k) == FindGroup(groups, k)
  {
    if |groups| > 0 && groups[0].sum != s.sum {
      BucketKeeps(groups[1..], s, k);
      var r := Bucket(groups, s);
      assert r[0] == groups[0] && r[1..] == Bucket(groups[1..], s);
    } else if |groups| > 0 {
      assert Bucket(groups, s)[1..] == groups[1..];
    }
  }

  /** Bucketing keeps the checksums distinct. */
  lemma {:induction false} BucketDistinct(groups: seq<Group>, s: Summed)
    requires DistinctSums(groups)
    ensures DistinctSums(Bucket(groups, s))
    ensures forall g :: g in Bucket(groups, s) ==> g.sum == s.sum || g in groups
  {
    if |groups| > 0 && groups[0].sum != s.sum {
      var tail := groups[1..];
      assert DistinctSums(tail) by {
        forall i, j | 0 <= i < j < |tail|
          ensures tail[i].sum != tail[j].sum
        {
          assert tail[i] == groups[i + 1] && tail[j] == groups[j + 1];
        }
      }
      BucketDistinct(tail, s);
      var r := Bucket(groups, s);
      assert r == [groups[0]] + Bucket(tail, s);
      forall i, j | 0 <= i < j < |r|
        ensures r[i].sum != r[j].sum
      {
        if i == 0 {
          assert r[j] == Bucket(tail, s)[j - 1];
          assert r[j] in Bucket(tail, s);
          if r[j].sum != s.sum {
            var k :| 0 <= k < |tail| && tail[k] == r[j];
            assert groups[k + 1] == r[j];
          }
        }
      }
    } else if |groups| > 0 {
      var r := Bucket(groups, s);
      forall i, j | 0 <= i < j < |r|
        ensures r[i].sum != r[j].sum
      {
        assert r[j] == groups[j];
        if i > 0 {
          assert r[i] == groups[i];
        }
      }
    }
  }

  /** The checksums in `dups` are distinct. */
  lemma {:induction false} GroupAllDistinct(ss: seq<Summed>)
    ensures DistinctSums(GroupAll(ss))
  {
    if |ss| > 0 {
      GroupAllDistinct(ss[..|ss| - 1]);
      BucketDistinct(GroupAll(ss[..|ss| - 1]), ss[|ss| - 1]);
    }
  }

  /** Each checksum's entry holds exactly the files with that checksum, in
      walk order, and a checksum no file has has no entry. */
  lemma {:induction false} GroupAllMembers(ss: seq<Summed>, k: string)
    ensures FindGroup(GroupAll(ss), k) == NonEmpty(Members(ss, k))
  {
    if |ss| > 0 {
      var p := ss[..|ss| - 1];
      var s := ss[|ss| - 1];
      GroupAllMembers(p, k);
      MembersStep(GroupAll(p), GroupAll(ss), Members(p, k), Members(ss, k), s, k);
    }
  }

  /** Bucketing one more file keeps an entry equal to its members. */
  lemma MembersStep(g: seq<Group>, g2: seq<Group>, m: seq<Info>, m2: seq<Info>, s: Summed, k: string)
    requires FindGroup(g, k) == NonEmpty(m) && g2 == Bucket(g, s)
    requires m2 == m + (if s.sum == k then [s.fi] else [])
    ensures FindGroup(g2, k) == NonEmpty(m2)
  {
    if s.sum == k {
      BucketFind(g, s);
      assert FilesOf(g, k) == m;
    } else {
      assert m2 == m;
      BucketKeeps(g, s, k);
    }
  }

  /** A group as `Load` reports it: absent when it would be empty. */
  function NonEmpty(m: seq<Info>): Option<seq<Info>> {
    if |m| == 0 then None else Some(m)
  }

  /** A file is among the members of `k` exactly when it was walked with
      checksum `k`. */
  lemma {:induction false} InMembers(ss: seq<Summed>, k: string, x: Info)
    ensures x in Members(ss, k) <==> exists i :: 0 <= i < |ss| && ss[i] == Summed(k, x)
  {
    if |ss| > 0 {
      var p := ss[..|ss| - 1];
      InMembers(p, k, x);
      assert forall i :: 0 <= i < |p| ==> p[i] == ss[i];
      if x in Members(ss, k) && x !in Members(p, k) {
        assert ss[|ss| - 1] == Summed(k, x);
      }
      if exists i :: 0 <= i < |ss| && ss[i] == Summed(k, x) {
        var i :| 0 <= i < |ss| && ss[i] == Summed(k, x);
        if i < |p| {
          assert p[i] == Summed(k, x);
        }
      }
    }
  }

  /** In a map with distinct keys, looking up an entry's key finds it. */
  lemma {:induction false} FindEntry(groups: seq<Group>, i: nat)
    requires DistinctSums(groups) && i < |groups|
    ensures FindGroup(groups, groups[i].sum) == Some(groups[i].files)
  {
    if i > 0 {
      var tail := groups[1..];
      assert DistinctSums(tail) by {
        forall a, b | 0 <= a < b < |tail|
          ensures tail[a].sum != tail[b].sum
        {
          assert tail[a] == groups[a + 1] && tail[b] == groups[b + 1];
        }
      }
      assert groups[0].sum != groups[i].sum;
      FindEntry(tail, i - 1);
    }
  }

  /** Every file of a run lands in one entry only: the entry of its own
      checksum, among the files walked with that checksum. */
  lemma FileInOwnGroup(fs: FileSystem, digest: Digester, walked: seq<Info>, g: Group, x: Info)
    requires SumAll(fs, digest, walked).Ok?
    requires g in GroupAll(SumAll(fs, digest, walked).value) && x in g.files
    ensures x in walked
    ensures Checksum(fs, digest, x.path).Some? && g.sum == Hex.Encode(Checksum(fs, digest, x.path).value)
  {
    var ss := SumAll(fs, digest, walked).value;
    var groups := GroupAll(ss);
    GroupAllDistinct(ss);
    var i :| 0 <= i < |groups| && groups[i] == g;
    FindEntry(groups, i);
    GroupAllMembers(ss, g.sum);
    InMembers(ss, g.sum, x);
    var j :| 0 <= j < |ss| && ss[j] == Summed(g.sum, x);
    assert walked[j] == x;
  }

  /** Every walked file is in the entry of its checksum. */
  lemma FileHasGroup(fs: FileSystem, digest: Digester, walked: seq<Info>, j: nat)
    requires SumAll(fs, digest, walked).Ok? && j < |walked|
    ensures var ss := SumAll(fs, digest, walked).value;
            FindGroup(GroupAll(ss), ss[j].sum).Some? && walked[j] in FindGroup(GroupAll(ss), ss[j].sum).value
  {
    var ss := SumAll(fs, digest, walked).value;
    InMembers(ss, ss[j].sum, walked[j]);
    GroupAllMembers(ss, ss[j].sum);
  }

  // ---------------------------------------------------------------------
  // Printing (the `Range` callback)
  // ---------------------------------------------------------------------

  /** `byMtime`: the sort key, most recent first. */
  function Mtime(fi: Info): int {
    fi.node.mtime
  }

  function Paths(v: seq<Info>): (r: seq<string>)
    ensures |r| == |v| && forall i :: 0 <= i < |v| ==> r[i] == v[i].path
  {
    seq(|v|, i requires 0 <= i < |v| => v[i].path)
  }

  /** `"\n# %s\n"`: an empty line, then the checksum as a comment. */
  function Header(k: string): string {
    "\n# " + k + "\n"
  }

  /** Lines, each followed by a newline, as successive `Printf("...\n")`
      calls write them. */
  function Terminated(lines: seq<string>): (r: string)
    ensures |lines| > 0 ==> |r| > 0
  {
    if |lines| == 0 then "" else lines[0] + "\n" + Terminated(lines[1..])
  }

  /** `names`: the first path, then every other path after a newline and
      four spaces. */
  function Names(ps: seq<string>): string
    requires |ps| >= 1
  {
    ps[0] + MoreNames(ps[1..])
  }

  function MoreNames(ps: seq<string>): string {
    if |ps| == 0 then "" else "\n    " + ps[0] + MoreNames(ps[1..])
  }

  /** `Printf("    %s\n", names(v))`. */
  function NamesText(ps: seq<string>): string
    requires |ps| >= 1
  {
    "    " + Names(ps) + "\n"
  }

  /** Every path indented by four spaces. */
  function Indented(ps: seq<string>): (r: seq<string>)
    ensures |r| == |ps| && forall i :: 0 <= i < |ps| ==> r[i] == "    " + ps[i]
  {
    seq(|ps|, i requires 0 <= i < |ps| => "    " + ps[i])
  }

  /** The shell-mode commands: the newest file's removal commented out,
      every other file removed, each path single-quoted. */
  function ShellCommands(ps: seq<string>): (r: seq<string>)
    requires |ps| >= 1
    ensures |r| == |ps|
    ensures r[0] == "# rm -f " + Quote(ps[0])
    ensures forall i :: 1 <= i < |ps| ==> r[i] == "rm -f " + Quote(ps[i])
  {
    ["# rm -f " + Quote(ps[0])] + seq(|ps| - 1, i requires 0 <= i < |ps| - 1 => "rm -f " + Quote(ps[i + 1]))
  }

  /** What `Range` prints for one entry: nothing for a single file;
      otherwise, after sorting the files newest first, the header and then
      the shell commands or the indented names. */
  function Entry(shell: bool, g: Group): (r: string)
    ensures r == "" <==> |g.files| < 2
  {
    if |g.files| < 2 then ""
    else
      var ps := Paths(SortDesc(g.files, Mtime));
      Header(g.sum) + (if shell then Terminated(ShellCommands(ps)) else NamesText(ps))
  }

  /** `dups.Range` over the entries. */
  function Report(shell: bool, groups: seq<Group>): string {
    if |groups| == 0 then "" else Entry(shell, groups[0]) + Report(shell, groups[1..])
  }

  // ---------------------------------------------------------------------
  // The line layout
  // ---------------------------------------------------------------------

  /** Terminated lines are the lines joined by newlines, plus a final one. */
  lemma {:induction false} TerminatedJoin(lines: seq<string>)
    ensures Terminated(lines) == Join(lines + [""], "\n")
  {
    if |lines| > 0 {
      TerminatedJoin(lines[1..]);
      var l := lines + [""];
      assert l[0] == lines[0] && l[1..] == lines[1..] + [""];
      ConcatAssoc(lines[0], "\n", Terminated(lines[1..]));
    } else {
      assert lines + [""] == [""];
    }
  }

  /** Newline-free lines, terminated, split back at the newlines into the
      lines and the empty rest after the last newline. */
  lemma TerminatedSplit(lines: seq<string>)
    requires forall i :: 0 <= i < |lines| ==> '\n' !in lines[i]
    ensures SplitOn(Terminated(lines), '\n') == lines + [""]
  {
    TerminatedJoin(lines);
    var l := lines + [""];
    assert forall i :: 0 <= i < |l| ==> '\n' !in l[i] by {
      forall i | 0 <= i < |l|
        ensures '\n' !in l[i]
      {
        if i < |lines| {
          assert l[i] == lines[i];
        }
      }
    }
    SplitJoinOn(l, '\n');
  }

  /** `names` is the indented paths joined by newlines (less the first
      indent). */
  lemma {:induction false} NamesJoin(ps: seq<string>)
    requires |ps| >= 1
    ensures "    " + Names(ps) == Join(Indented(ps), "\n")
  {
    if |ps| > 1 {
      var tail := ps[1..];
      NamesJoin(tail);
      var ind := Indented(ps);
      assert ind[1..] == Indented(tail);
      assert MoreNames(tail) == "\n    " + tail[0] + MoreNames(tail[1..]);
      assert Names(tail) == tail[0] + MoreNames(tail[1..]);
      NamesStep("    ", ps[0], "\n", tail[0], MoreNames(tail[1..]));
    } else {
      assert ps[1..] == [];
    }
  }

  lemma NamesStep(ind: string, a: string, nl: string, b: string, rest: string)
    requires ind == "    " && nl == "\n"
    ensures ind + (a + ("\n    " + b + rest)) == ind + a + nl + (ind + (b + rest))
  {
    assert "\n    " == nl + ind;
    ConcatAssoc(nl, ind, b);
    ConcatAssoc(nl + ind + b, rest, "");
    assert ind + (a + ("\n    " + b + rest)) == ind + a + nl + (ind + (b + rest));
  }

  /** The names listing is one line per file, each path indented by four
      spaces. */
  lemma NamesAreLines(ps: seq<string>)
    requires |ps| >= 1
    ensures NamesText(ps) == Terminated(Indented(ps))
  {
    NamesJoin(ps);
    TerminatedJoin(Indented(ps));
    JoinLast(Indented(ps), "\n");
  }

  /** Joining with an empty last part ends in the separator. */
  lemma {:induction false} JoinLast(parts: seq<string>, sep: string)
    requires |parts| >= 1
    ensures Join(parts + [""], sep) == Join(parts, sep) + sep
  {
    var l := parts + [""];
    assert l[0] == parts[0] && l[1..] == parts[1..] + [""];
    if |parts| > 1 {
      JoinLast(parts[1..], sep);
      ConcatAssoc(parts[0] + sep, Join(parts[1..], sep), sep);
    } else {
      assert l[1..] == [""];
    }
  }

  /** Read back at its newlines, a names listing gives one indented path
      per line, as long as no path holds a newline. */
  lemma NamesLines(ps: seq<string>)
    requires |ps| >= 1 && forall i :: 0 <= i < |ps| ==> '\n' !in ps[i]
    ensures SplitOn(NamesText(ps), '\n') == Indented(ps) + [""]
  {
    NamesAreLines(ps);
    var ind := Indented(ps);
    forall i | 0 <= i < |ind|
      ensures '\n' !in ind[i]
    {
      assert ind[i] == "    " + ps[i];
    }
    TerminatedSplit(ind);
  }

  /** Read back at its newlines, the shell-mode text is one command per
      file: the newest file's `rm -f` commented out, an `rm -f` for every
      other file, as long as no path holds a newline. */
  lemma ShellLines(ps: seq<string>)
    requires |ps| >= 1 && forall i :: 0 <= i < |ps| ==> '\n' !in ps[i]
    ensures SplitOn(Terminated(ShellCommands(ps)), '\n') == ShellCommands(ps) + [""]
  {
    var cs := ShellCommands(ps);
    forall i | 0 <= i < |cs|
      ensures '\n' !in cs[i]
    {
      QuoteNoNewline(ps[i]);
    }
    TerminatedSplit(cs);
  }

  /** A reported entry: the header line with the checksum, then one line
      per file of the group, in an order newest first, as commands in shell
      mode and as indented names otherwise. */
  lemma EntryShape(shell: bool, g: Group)
    requires |g.files| >= 2
    ensures exists v :: multiset(v) == multiset(g.files) && SortedDesc(v, Mtime)
              && Entry(shell, g) == Header(g.sum)
                   + Terminated(if shell then ShellCommands(Paths(v)) else Indented(Paths(v)))
  {
    var v := SortDesc(g.files, Mtime);
    NamesAreLines(Paths(v));
  }

  /** `Range` prints the entries in order, each with its own text; an
      entry of one file prints nothing. */
  lemma {:induction false} ReportAppend(shell: bool, a: seq<Group>, b: seq<Group>)
    ensures Report(shell, a + b) == Report(shell, a) + Report(shell, b)
  {
    if |a| == 0 {
      assert a + b == b;
    } else {
      TailOfCons(a, b);
      ReportAppend(shell, a[1..], b);
      ConcatAssoc(Entry(shell, a[0]), Report(shell, a[1..]), Report(shell, b));
    }
  }

  // ---------------------------------------------------------------------
  // Shell quoting
  // ---------------------------------------------------------------------

  /** The runes the shell treats specially when they are not quoted. */
  predicate IsShellMeta(c: char) {
    c == ' ' || c == '\t' || c == '\n' || c == ';' || c == '&' || c == '|' || c == '<' || c == '>'
    || c == '(' || c == ')' || c == '$' || c == '`' || c == '"' || c == '*' || c == '?' || c == '['
  }

  /** How a POSIX shell reads one word (section 2.2, "Quoting", of the
      Shell Command Language): a single-quoted run stands for itself, a
      backslash quotes the next rune, any other plain rune stands for
      itself. An unterminated quote, a trailing backslash or an unquoted
      rune the shell treats specially means the text is not read as that
      one literal word: None. */
  function ShellWord(s: string): (r: Option<string>)
    decreases |s|
  {
    if |s| == 0 then Some("")
    else if s[0] == '\'' then
      match IndexOf(s[1..], '\'')
      case None => None
      case Some(i) =>
        match ShellWord(s[i + 2..])
        case None => None
        case Some(w) => Some(s[1..i + 1] + w)
    else if s[0] == '\\' then
      if |s| < 2 then None
      else match ShellWord(s[2..])
        case None => None
        case Some(w) => Some([s[1]] + w)
    else if IsShellMeta(s[0]) then None
    else match ShellWord(s[1..])
      case None => None
      case Some(w) => Some([s[0]] + w)
  }

  /** `'%s'` as written: the path between single quotes, whatever it holds. */
  function QuoteAsWritten(p: string): string {
    "'" + p + "'"
  }

  /** A path containing a single quote ends the quoted run early. */
  lemma AsWrittenQuoteBreaks()
    ensures ShellWord(QuoteAsWritten("a'b")) != Some("a'b")
  {
    var s := QuoteAsWritten("a'b");
    assert s == "'a'b'";
    assert s[1..] == "a'b'";
    assert IndexOf("a'b'", '\'') == Some(1);
    assert s[3..] == "b'";
    assert ShellWord("'") == None by {
      assert IndexOf("'"[1..], '\'') == None;
    }
    assert ShellWord("b'") == None by {
      assert "b'"[1..] == "'";
    }
  }

  /** Single quoting that survives a quote in the path: each `'` closes the
      quoted run, is written as `\'`, and a new run opens. */
  function Quote(p: string): (r: string)
    ensures |r| >= 2 && r[0] == '\''
    decreases |p|
  {
    match IndexOf(p, '\'')
    case None => "'" + p + "'"
    case Some(i) => "'" + p[..i] + "'\\'" + Quote(p[i + 1..])
  }

  /** Without a single quote in the path, the quoting is the one written. */
  lemma QuoteMatchesAsWritten(p: string)
    requires '\'' !in p
    ensures Quote(p) == QuoteAsWritten(p)
  {
  }

  lemma {:induction false} QuoteNoNewline(p: string)
    requires '\n' !in p
    ensures '\n' !in Quote(p)
    decreases |p|
  {
    match IndexOf(p, '\'')
    case None =>
    case Some(i) =>
      QuoteNoNewline(p[i + 1..]);
      PrefixLacks(p, i, '\n');
      NotInConcat('\n', "'", p[..i], "'\\'", Quote(p[i + 1..]));
  }

  /** A rune missing from a sequence is missing from each prefix. */
  lemma PrefixLacks(p: string, i: nat, c: char)
    requires i <= |p| && c !in p
    ensures c !in p[..i]
  {
    assert forall k :: 0 <= k < i ==> p[..i][k] == p[k];
  }

  /** A rune in none of four parts is not in their concatenation. */
  lemma NotInConcat(c: char, w: string, x: string, y: string, z: string)
    requires c !in w && c !in x && c !in y && c !in z
    ensures c !in w + x + y + z
  {
  }

  /** The shell reads a quoted path back as exactly that path, one word. */
  lemma {:induction false} QuoteRoundTrip(p: string)
    ensures ShellWord(Quote(p)) == Some(p)
    decreases |p|
  {
    match IndexOf(p, '\'')
    case None =>
      PlainQuoted(p);
    case Some(i) =>
      QuoteRoundTrip(p[i + 1..]);
      QuoteStep(p, i, p[i + 1..]);
  }

  /** A path without a single quote is one quoted run. */
  lemma PlainQuoted(p: string)
    requires '\'' !in p
    ensures ShellWord(Quote(p)) == Some(p)
  {
    QuotedRun(p, "");
    assert "'" + p + "'" + "" == Quote(p);
    assert ShellWord("") == Some("");
    assert p + "" == p;
  }

  /** A quoted run, the escaped quote, and the rest read back in turn. */
  lemma QuoteStep(p: string, i: nat, rest: string)
    requires i < |p| && IndexOf(p, '\'') == Some(i) && rest == p[i + 1..]
    requires ShellWord(Quote(rest)) == Some(rest)
    ensures ShellWord(Quote(p)) == Some(p)
  {
    var t := "\\'" + Quote(rest);
    EscapedQuote(Quote(rest), rest);
    QuotedRun(p[..i], t);
    QuoteSplit(p, i, rest, Quote(rest), t);
    Rejoin(p, i, '\'');
  }

  /** A sequence is its prefix, the element at the cut, and the rest. */
  lemma Rejoin<T>(p: seq<T>, i: nat, x: T)
    requires i < |p| && p[i] == x
    ensures p[..i] + ([x] + p[i + 1..]) == p
  {
    assert p == p[..i] + [p[i]] + p[i + 1..];
  }

  /** A quoted run with no quote inside reads as itself, then the rest. */
  lemma QuotedRun(a: string, t: string)
    requires '\'' !in a
    ensures ShellWord("'" + a + "'" + t) ==
              match ShellWord(t) case None => None case Some(w) => Some(a + w)
  {
    var s := "'" + a + "'" + t;
    Bracketed('\'', a, t, s);
    IndexOfAfter(a, '\'', t);
    QuotedOnce(s, |a|);
  }

  /** The pieces of `[q] + a + [q] + t`, as slices. */
  lemma Bracketed<T>(q: T, a: seq<T>, t: seq<T>, s: seq<T>)
    requires s == [q] + a + [q] + t
    ensures |s| == |a| + 2 + |t| && s[0] == q
    ensures s[1..] == a + [q] + t && s[|a| + 2..] == t && s[1..|a| + 1] == a
  {
    assert s[1..] == a + [q] + t;
  }

  /** The shell's reading of a word that opens with a quoted run. */
  lemma QuotedOnce(s: string, i: nat)
    requires |s| > 0 && s[0] == '\'' && IndexOf(s[1..], '\'') == Some(i)
    ensures i + 2 <= |s|
    ensures ShellWord(s) == match ShellWord(s[i + 2..]) case None => None case Some(w) => Some(s[1..i + 1] + w)
  {
  }

  /** A backslash-quoted quote reads as a quote, then the rest. */
  lemma EscapedQuote(q: string, w: string)
    requires ShellWord(q) == Some(w)
    ensures ShellWord("\\'" + q) == Some("'" + w)
  {
    var s := "\\'" + q;
    assert s[0] == '\\' && s[1] == '\'' && s[2..] == q;
  }

  lemma QuoteSplit(p: string, i: nat, rest: string, q: string, t: string)
    requires i < |p| && IndexOf(p, '\'') == Some(i) && rest == p[i + 1..] && q == Quote(rest) && t == "\\'" + q
    ensures Quote(p) == "'" + p[..i] + "'" + t
  {
    ConcatAssoc("'" + p[..i], "'", "\\'");
    assert "'" + "\\'" == "'\\'";
    ConcatAssoc("'" + p[..i] + "'", "\\'", q);
  }

  // ---------------------------------------------------------------------
  // The program
  // ---------------------------------------------------------------------

  datatype Death = NoArgs | WalkFailed(message: string) | ChecksumFailed(path: string)

  /** A run: a fatal message before any output, or the text printed. */
  datatype Run = Fatal(reason: Death) | Printed(out: string)

  /** `main` once the flags are parsed: at least one directory; the walk
      (whose own failure is the external walker's `walkErr`) checksums
      every file, and any failure is fatal before anything is printed; then
      every entry of `dups` is reported. */
  function Finddup(fs: FileSystem, digest: Digester, shell: bool, args: seq<string>,
                   walked: seq<Info>, walkErr: Option<string>): (r: Run)
    ensures |args| == 0 ==> r == Fatal(NoArgs)
    ensures |args| > 0 && walkErr.Some? ==> r == Fatal(WalkFailed(walkErr.value))
    ensures r.Printed? <==> (|args| > 0 && walkErr.None?
              && forall i :: 0 <= i < |walked| ==> Checksum(fs, digest, walked[i].path).Some?)
    ensures r.Fatal? && r.reason.ChecksumFailed? ==>
              exists i :: 0 <= i < |walked| && walked[i].path == r.reason.path
                && Checksum(fs, digest, walked[i].path).None?
  {
    if |args| == 0 then Fatal(NoArgs)
    else if walkErr.Some? then Fatal(WalkFailed(walkErr.value))
    else match SumAll(fs, digest, walked)
      case Err(p) => SumAllFirstFailure(fs, digest, walked); Fatal(ChecksumFailed(p))
      case Ok(ss) => Printed(Report(shell, GroupAll(ss)))
  }

  /** Two walked files with the same checksum are reported together: the
      printed text is the report of the entries before their common one,
      that entry's text, which is not empty, and the report of the entries
      after it. */
  lemma DuplicatesReported(fs: FileSystem, digest: Digester, shell: bool, args: seq<string>,
                           walked: seq<Info>, i: nat, j: nat)
    requires Finddup(fs, digest, shell, args, walked, None).Printed?
    requires i < j < |walked|
    requires Checksum(fs, digest, walked[i].path) == Checksum(fs, digest, walked[j].path)
    ensures var gs := GroupAll(SumAll(fs, digest, walked).value);
            exists x :: (0 <= x < |gs| && walked[i] in gs[x].files && walked[j] in gs[x].files
              && Entry(shell, gs[x]) != ""
              && Finddup(fs, digest, shell, args, walked, None).out
                 == Report(shell, gs[..x]) + Entry(shell, gs[x]) + Report(shell, gs[x + 1..]))
  {
    var ss := SumAll(fs, digest, walked).value;
    var gs := GroupAll(ss);
    assert ss[i].fi == walked[i] && ss[j].fi == walked[j] && ss[i].sum == ss[j].sum;
    SameSumSameGroup(ss, i, j);
    var x :| 0 <= x < |gs| && ss[i].fi in gs[x].files && ss[j].fi in gs[x].files && |gs[x].files| >= 2;
    PrintedReport(fs, digest, shell, args, walked);
    ReportAround(shell, gs, x);
    assert Entry(shell, gs[x]) != "";
  }

  /** A printed run prints the report of every entry. */
  lemma PrintedReport(fs: FileSystem, digest: Digester, shell: bool, args: seq<string>, walked: seq<Info>)
    requires Finddup(fs, digest, shell, args, walked, None).Printed?
    ensures SumAll(fs, digest, walked).Ok?
    ensures Finddup(fs, digest, shell, args, walked, None).out
            == Report(shell, GroupAll(SumAll(fs, digest, walked).value))
  {
  }

  /** The report is the entries before the x-th, the x-th, and those after. */
  lemma ReportAround(shell: bool, gs: seq<Group>, x: nat)
    requires x < |gs|
    ensures Report(shell, gs) == Report(shell, gs[..x]) + Entry(shell, gs[x]) + Report(shell, gs[x + 1..])
  {
    assert gs == gs[..x] + [gs[x]] + gs[x + 1..];
    ReportAppend(shell, gs[..x] + [gs[x]], gs[x + 1..]);
    ReportAppend(shell, gs[..x], [gs[x]]);
    assert Report(shell, [gs[x]]) == Entry(shell, gs[x]) + Report(shell, []);
  }

  /** Two walk positions with the same checksum share one entry, which
      therefore holds at least two files. */
  lemma SameSumSameGroup(ss: seq<Summed>, i: nat, j: nat)
    requires i < j < |ss| && ss[i].sum == ss[j].sum
    ensures exists x :: (0 <= x < |GroupAll(ss)| && ss[i].fi in GroupAll(ss)[x].files
              && ss[j].fi in GroupAll(ss)[x].files && |GroupAll(ss)[x].files| >= 2)
  {
    var k := ss[i].sum;
    GroupAllMembers(ss, k);
    MembersCount(ss, k, i, j);
    var m := Members(ss, k);
    InMembers(ss, k, ss[i].fi);
    InMembers(ss, k, ss[j].fi);
    var x :| 0 <= x < |GroupAll(ss)| && GroupAll(ss)[x] == Group(k, m);
  }

  /** Two walk positions with the same checksum put two files under it. */
  lemma {:induction false} MembersCount(ss: seq<Summed>, k: string, i: nat, j: nat)
    requires i < j < |ss| && ss[i].sum == k && ss[j].sum == k
    ensures |Members(ss, k)| >= 2
  {
    var p := ss[..|ss| - 1];
    if j < |ss| - 1 {
      assert p[i] == ss[i] && p[j] == ss[j];
      MembersCount(p, k, i, j);
    } else {
      InMembers(p, k, ss[i].fi);
      assert p[i] == ss[i];
    }
  }
}
