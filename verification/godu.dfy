/** godu (godu/main.go): the disk usage of the named trees. The walker's
    stream of regular files is counted once per inode (hard links after the
    first are skipped), each counted file's size is added to the longest
    argument that is a prefix of its path, and the totals (or, with `-a`,
    the files themselves) are printed largest first, optionally followed by
    their sum. Sizes are Go `uint64` values, so every addition wraps modulo
    2^64. */
module Godu {
  import opened Wrappers
  import opened Text
  import opened Fs
  import opened Sorting

  /** 2^64: the modulus of Go's `uint64` arithmetic. */
  const Wrap: nat := 0x1_0000_0000_0000_0000

  /** `uint64(fi.Size())`: the two's-complement reinterpretation of the
      signed size. */
  function U64(n: int): (r: nat)
    ensures r < Wrap
    ensures 0 <= n < Wrap ==> r == n
    ensures n < 0 && -n <= Wrap ==> r == Wrap + n
  {
    n % 0x1_0000_0000_0000_0000
  }

  lemma {:induction false} ModMultiple(q: nat, t: nat)
    ensures (q * Wrap + t) % 0x1_0000_0000_0000_0000 == t % 0x1_0000_0000_0000_0000
  {
    if q > 0 {
      ModMultiple(q - 1, t);
      assert q * Wrap + t == ((q - 1) * Wrap + t) + Wrap;
    }
  }

  /** Wrapping an operand first does not change a wrapped sum. */
  lemma ModAddLeft(x: nat, y: nat)
    ensures (x % 0x1_0000_0000_0000_0000 + y) % 0x1_0000_0000_0000_0000 == (x + y) % 0x1_0000_0000_0000_0000
  {
    var q := x / Wrap;
    assert x == q * Wrap + x % 0x1_0000_0000_0000_0000;
    ModMultiple(q, x % 0x1_0000_0000_0000_0000 + y);
    assert x + y == q * Wrap + (x % 0x1_0000_0000_0000_0000 + y);
  }

  /** Adding the same amount to two numbers equal modulo 2^64 keeps them
      equal modulo 2^64. */
  lemma ModAddSame(x: nat, y: nat, c: nat)
    requires x % 0x1_0000_0000_0000_0000 == y % 0x1_0000_0000_0000_0000
    ensures (x + c) % 0x1_0000_0000_0000_0000 == (y + c) % 0x1_0000_0000_0000_0000
  {
    ModAddLeft(x, c);
    ModAddLeft(y, c);
  }

  // ---------------------------------------------------------------------
  // Hard links
  // ---------------------------------------------------------------------

  /** `linkmap`: the first name seen for each multiply linked inode. */
  type LinkMap = map<InodeKey, string>

  /** The `hardlinked` closure: a file with one link is never a repeat;
      otherwise it is a repeat exactly when its inode was seen before, and
      the first sighting records the name. */
  function Hardlinked(lm: LinkMap, fi: Info): (r: (bool, LinkMap))
    ensures fi.node.nlink == 1 ==> !r.0 && r.1 == lm
    ensures fi.node.nlink != 1 ==> (r.0 <==> fi.node.key in lm)
    ensures r.1.Keys == lm.Keys + (if fi.node.nlink == 1 then {} else {fi.node.key})
    ensures forall k :: k in lm ==> r.1[k] == lm[k]
    ensures fi.node.nlink != 1 && !r.0 ==> r.1[fi.node.key] == fi.path
  {
    if fi.node.nlink == 1 then (false, lm)
    else if fi.node.key in lm then (true, lm)
    else (false, lm[fi.node.key := fi.path])
  }

  /** The harvest loop's filter over the walker's files: the files it
      counts, in order, and the link map it leaves behind. */
  function Harvest(ws: seq<Info>): (r: (seq<Info>, LinkMap))
    ensures |r.0| <= |ws|
  {
    if |ws| == 0 then ([], map[])
    else
      var prev := Harvest(ws[..|ws| - 1]);
      var h := Hardlinked(prev.1, ws[|ws| - 1]);
      (prev.0 + (if h.0 then [] else [ws[|ws| - 1]]), h.1)
  }

  /** The reference rule: the file at `i` counts when it has one link or
      when no earlier multiply linked file shares its inode. */
  predicate Counts(ws: seq<Info>, i: nat)
    requires i < |ws|
  {
    ws[i].node.nlink == 1
    || forall j :: 0 <= j < i && ws[j].node.nlink != 1 ==> ws[j].node.key != ws[i].node.key
  }

  /** The counted files of `ws`, in order, by the reference rule. */
  function Firsts(ws: seq<Info>): (r: seq<Info>)
    ensures |r| <= |ws|
  {
    if |ws| == 0 then []
    else Firsts(ws[..|ws| - 1]) + (if Counts(ws, |ws| - 1) then [ws[|ws| - 1]] else [])
  }

  /** What the link map holds after `ws`: exactly the inodes of its multiply
      linked files, each with the name of its first such file. */
  ghost predicate LinkMapOf(ws: seq<Info>, lm: LinkMap) {
    LinkKeys(ws, lm) && LinkNames(ws, lm)
  }

  ghost predicate LinkKeys(ws: seq<Info>, lm: LinkMap) {
    forall k :: k in lm <==> exists j :: 0 <= j < |ws| && ws[j].node.nlink != 1 && ws[j].node.key == k
  }

  ghost predicate LinkNames(ws: seq<Info>, lm: LinkMap) {
    forall j :: 0 <= j < |ws| && ws[j].node.nlink != 1 && Counts(ws, j) ==> ws[j].node.key in lm && lm[ws[j].node.key] == ws[j].path
  }

  /** The harvest counts exactly the files the reference rule counts, and
      its link map names each multiply linked inode after its first file. */
  lemma {:induction false} HarvestCountsFirsts(ws: seq<Info>)
    ensures Harvest(ws).0 == Firsts(ws)
    ensures LinkMapOf(ws, Harvest(ws).1)
  {
    if |ws| > 0 {
      HarvestCountsFirsts(ws[..|ws| - 1]);
      HarvestStep(ws);
    }
  }

  lemma HarvestStep(ws: seq<Info>)
    requires |ws| > 0
    requires Harvest(ws[..|ws| - 1]).0 == Firsts(ws[..|ws| - 1])
    requires LinkMapOf(ws[..|ws| - 1], Harvest(ws[..|ws| - 1]).1)
    ensures Harvest(ws).0 == Firsts(ws)
    ensures LinkMapOf(ws, Harvest(ws).1)
  {
    var lm := Harvest(ws[..|ws| - 1]).1;
    RepeatIffSeen(ws, lm);
    LinkKeysStep(ws, lm);
    LinkNamesStep(ws, lm);
  }

  /** Whether a file counts is decided by the files before it. */
  lemma CountsOfPrefix(ws: seq<Info>, j: nat)
    requires j < |ws| - 1
    ensures Counts(ws, j) <==> Counts(ws[..|ws| - 1], j)
  {
    var p := ws[..|ws| - 1];
    assert forall i :: 0 <= i <= j ==> p[i] == ws[i];
  }

  lemma RepeatIffSeen(ws: seq<Info>, lm: LinkMap)
    requires |ws| > 0 && LinkMapOf(ws[..|ws| - 1], lm)
    ensures !Hardlinked(lm, ws[|ws| - 1]).0 <==> Counts(ws, |ws| - 1)
  {
    var p := ws[..|ws| - 1];
    var x := ws[|ws| - 1];
    if x.node.nlink != 1 && x.node.key in lm {
      var j :| 0 <= j < |p| && p[j].node.nlink != 1 && p[j].node.key == x.node.key;
      assert ws[j] == p[j];
    }
    if x.node.nlink != 1 && x.node.key !in lm {
      forall j | 0 <= j < |ws| - 1 && ws[j].node.nlink != 1
        ensures ws[j].node.key != x.node.key
      {
        assert p[j] == ws[j];
      }
    }
  }

  lemma LinkKeysStep(ws: seq<Info>, lm: LinkMap)
    requires |ws| > 0 && LinkMapOf(ws[..|ws| - 1], lm)
    ensures LinkKeys(ws, Hardlinked(lm, ws[|ws| - 1]).1)
  {
    var p := ws[..|ws| - 1];
    var h := Hardlinked(lm, ws[|ws| - 1]);
    forall k
      ensures k in h.1 <==> exists j :: 0 <= j < |ws| && ws[j].node.nlink != 1 && ws[j].node.key == k
    {
      if k in lm {
        var j :| 0 <= j < |p| && p[j].node.nlink != 1 && p[j].node.key == k;
        assert ws[j] == p[j];
      }
      if exists j :: 0 <= j < |ws| && ws[j].node.nlink != 1 && ws[j].node.key == k {
        var j :| 0 <= j < |ws| && ws[j].node.nlink != 1 && ws[j].node.key == k;
        if j < |p| {
          assert p[j] == ws[j];
        }
      }
    }
  }

  lemma LinkNamesStep(ws: seq<Info>, lm: LinkMap)
    requires |ws| > 0 && LinkMapOf(ws[..|ws| - 1], lm)
    requires LinkKeys(ws, Hardlinked(lm, ws[|ws| - 1]).1)
    ensures LinkNames(ws, Hardlinked(lm, ws[|ws| - 1]).1)
  {
    var p := ws[..|ws| - 1];
    var h := Hardlinked(lm, ws[|ws| - 1]);
    RepeatIffSeen(ws, lm);
    forall j | 0 <= j < |ws| && ws[j].node.nlink != 1 && Counts(ws, j)
      ensures ws[j].node.key in h.1 && h.1[ws[j].node.key] == ws[j].path
    {
      if j < |p| {
        CountsOfPrefix(ws, j);
        assert p[j] == ws[j];
      }
    }
  }

  // ---------------------------------------------------------------------
  // Attribution to the longest argument
  // ---------------------------------------------------------------------

  /** `strings.HasPrefix(s, a)`. */
  predicate IsPrefix(a: string, s: string) {
    |a| <= |s| && s[..|a|] == a
  }

  /** `byLen`'s sort key. */
  function Len(s: string): int {
    |s|
  }

  /** The inner loop: the first argument, in the order given, that is a
      prefix of the path. */
  function Owner(args: seq<string>, path: string): (r: Option<string>)
    ensures r.Some? ==> r.value in args && IsPrefix(r.value, path)
    ensures r.None? <==> forall a :: a in args ==> !IsPrefix(a, path)
  {
    if |args| == 0 then None
    else if IsPrefix(args[0], path) then Some(args[0])
    else Owner(args[1..], path)
  }

  /** In a list sorted by decreasing length, the first prefix found is a
      longest one. */
  lemma {:induction false} FirstPrefixIsLongest(args: seq<string>, path: string)
    requires SortedDesc(args, Len)
    requires Owner(args, path).Some?
    ensures forall a :: a in args && IsPrefix(a, path) ==> |a| <= |Owner(args, path).value|
  {
    if IsPrefix(args[0], path) {
      HeadIsLongest(args);
    } else {
      var tail := args[1..];
      SortedTail(args);
      FirstPrefixIsLongest(tail, path);
      var o := Owner(tail, path).value;
      assert Owner(args, path).value == o;
      forall a | a in args && IsPrefix(a, path)
        ensures |a| <= |o|
      {
        var j :| 0 <= j < |args| && args[j] == a;
        assert j != 0;
        assert tail[j - 1] == a;
      }
    }
  }

  lemma HeadIsLongest(args: seq<string>)
    requires |args| > 0 && SortedDesc(args, Len)
    ensures forall a :: a in args ==> |a| <= |args[0]|
  {
    forall a | a in args
      ensures Len(args[0]) >= Len(a)
    {
      HeadIsMax(args, Len, a);
    }
  }

  lemma SortedTail(args: seq<string>)
    requires |args| > 0 && SortedDesc(args, Len)
    ensures SortedDesc(args[1..], Len)
  {
    var tail := args[1..];
    assert forall i :: 0 <= i < |tail| ==> tail[i] == args[i + 1];
  }

  /** `o` is a longest argument that is a prefix of the path, or None when
      no argument is. */
  ghost predicate LongestPrefix(args: seq<string>, path: string, o: Option<string>) {
    (o.None? <==> forall a :: a in args ==> !IsPrefix(a, path))
    && (o.Some? ==> o.value in args && IsPrefix(o.value, path)
                    && forall a :: a in args && IsPrefix(a, path) ==> |a| <= |o.value|)
  }

  /** After `sort.Sort(byLen(args))`, every file goes to the longest
      argument that is a textual prefix of its path. */
  lemma OwnerIsLongestPrefix(args: seq<string>, path: string)
    ensures LongestPrefix(args, path, Owner(SortDesc(args, Len), path))
  {
    var sorted := SortDesc(args, Len);
    assert forall a :: a in args <==> a in sorted by {
      forall a
        ensures a in args <==> a in sorted
      {
        assert a in args <==> a in multiset(args);
        assert a in sorted <==> a in multiset(sorted);
      }
    }
    if Owner(sorted, path).Some? {
      FirstPrefixIsLongest(sorted, path);
    }
  }

  // ---------------------------------------------------------------------
  // Per-argument totals
  // ---------------------------------------------------------------------

  /** One printed row: a name and a size. */
  datatype Row = Row(name: string, size: nat)

  function Size(r: Row): int {
    r.size
  }

  /** The `sizes` map, kept as a list in insertion order; Go's map has no
      order of its own. `Find` is the map lookup. */
  function Find(acc: seq<Row>, nm: string): (r: Option<nat>)
    ensures r.Some? <==> exists i :: 0 <= i < |acc| && acc[i].name == nm
  {
    if |acc| == 0 then None
    else if acc[0].name == nm then Some(acc[0].size)
    else
      var r := Find(acc[1..], nm);
      assert forall i :: 0 < i < |acc| ==> acc[i] == acc[1..][i - 1];
      r
  }

  ghost predicate DistinctNames(acc: seq<Row>) {
    forall i, j :: 0 <= i < j < |acc| ==> acc[i].name != acc[j].name
  }

  /** `sizes[nm] += sz` in `uint64`: a missing entry counts as zero. */
  function AddTo(acc: seq<Row>, nm: string, sz: nat): (r: seq<Row>)
    ensures |r| == |acc| || r == acc + [Row(nm, sz % 0x1_0000_0000_0000_0000)]
  {
    if |acc| == 0 then [Row(nm, sz % 0x1_0000_0000_0000_0000)]
    else if acc[0].name == nm then [Row(nm, (acc[0].size + sz) % 0x1_0000_0000_0000_0000)] + acc[1..]
    else [acc[0]] + AddTo(acc[1..], nm, sz)
  }

  /** `sizes[nm]`, zero when absent. */
  function Current(acc: seq<Row>, nm: string): (r: nat)
    ensures Find(acc, nm).Some? ==> r == Find(acc, nm).value
    ensures Find(acc, nm).None? ==> r == 0
  {
    match Find(acc, nm)
    case None => 0
    case Some(v) => v
  }

  /** The entry added to holds the wrapped sum. */
  lemma {:induction false} AddToFind(acc: seq<Row>, nm: string, sz: nat)
    ensures Find(AddTo(acc, nm, sz), nm) == Some((Current(acc, nm) + sz) % 0x1_0000_0000_0000_0000)
  {
    if |acc| > 0 && acc[0].name != nm {
      var tail := acc[1..];
      AddToFind(tail, nm, sz);
      var r := AddTo(acc, nm, sz);
      assert r[0] == acc[0] && r[1..] == AddTo(tail, nm, sz);
      assert Find(r, nm) == Find(AddTo(tail, nm, sz), nm);
      assert Current(acc, nm) == Current(tail, nm);
    } else {
      AddToFindHere(acc, nm, sz);
    }
  }

  lemma AddToFindHere(acc: seq<Row>, nm: string, sz: nat)
    requires |acc| == 0 || acc[0].name == nm
    ensures Find(AddTo(acc, nm, sz), nm) == Some((Current(acc, nm) + sz) % 0x1_0000_0000_0000_0000)
  {
    var c := Current(acc, nm);
    if |acc| > 0 {
      assert c == acc[0].size;
    } else {
      assert c == 0;
    }
  }

  /** Every other entry is as it was. */
  lemma {:induction false} AddToKeeps(acc: seq<Row>, nm: string, sz: nat, other: string)
    requires other != nm
    ensures Find(AddTo(acc, nm, sz), other) == Find(acc, other)
  {
    if |acc| > 0 && acc[0].name != nm {
      AddToKeeps(acc[1..], nm, sz, other);
      assert AddTo(acc, nm, sz)[1..] == AddTo(acc[1..], nm, sz);
    } else if |acc| > 0 {
      assert AddTo(acc, nm, sz)[1..] == acc[1..];
    }
  }

  /** Adding keeps the names distinct, as the keys of a map are. */
  lemma {:induction false} AddToDistinct(acc: seq<Row>, nm: string, sz: nat)
    requires DistinctNames(acc)
    ensures DistinctNames(AddTo(acc, nm, sz))
  {
    var r := AddTo(acc, nm, sz);
    if |acc| > 0 && acc[0].name != nm {
      var tail := acc[1..];
      assert DistinctNames(tail) by {
        assert forall i :: 0 <= i < |tail| ==> tail[i] == acc[i + 1];
      }
      AddToDistinct(tail, nm, sz);
      var rest := AddTo(tail, nm, sz);
      assert r == [acc[0]] + rest;
      assert Find(tail, acc[0].name).None? by {
        assert forall j :: 0 <= j < |tail| ==> tail[j].name == acc[j + 1].name;
      }
      AddToKeeps(tail, nm, sz, acc[0].name);
      forall i | 0 < i < |r|
        ensures r[i].name != acc[0].name
      {
        assert rest[i - 1] == r[i];
      }
    } else if |acc| > 0 {
      assert forall i :: 0 < i < |r| ==> r[i] == acc[i];
    }
  }

  /** The per-argument totals over the counted files, in arrival order;
      files under no argument add to nothing. */
  function Totals(args: seq<string>, files: seq<Info>): (r: seq<Row>)
  {
    if |files| == 0 then []
    else
      var prev := Totals(args, files[..|files| - 1]);
      var f := files[|files| - 1];
      match Owner(args, f.path)
      case None => prev
      case Some(nm) => AddTo(prev, nm, U64(f.node.size))
  }

  /** Each argument has at most one row, as a map has one entry per key. */
  lemma {:induction false} TotalsDistinct(args: seq<string>, files: seq<Info>)
    ensures DistinctNames(Totals(args, files))
  {
    if |files| > 0 {
      var p := files[..|files| - 1];
      TotalsDistinct(args, p);
      var f := files[|files| - 1];
      match Owner(args, f.path)
      case None =>
      case Some(nm) => AddToDistinct(Totals(args, p), nm, U64(f.node.size));
    }
  }

  /** The reference total of an argument: the exact sum of the sizes of
      the files it owns. */
  function OwnedSum(args: seq<string>, files: seq<Info>, a: string): nat {
    if |files| == 0 then 0
    else
      var f := files[|files| - 1];
      OwnedSum(args, files[..|files| - 1], a) + (if Owner(args, f.path) == Some(a) then U64(f.node.size) else 0)
  }

  lemma OwnsSnoc(args: seq<string>, files: seq<Info>, a: string)
    requires |files| > 0
    ensures Owns(args, files, a) <==> Owns(args, files[..|files| - 1], a) || Owner(args, files[|files| - 1].path) == Some(a)
  {
    var p := files[..|files| - 1];
    assert forall i :: 0 <= i < |p| ==> p[i] == files[i];
    if Owns(args, files, a) {
      var i :| 0 <= i < |files| && Owner(args, files[i].path) == Some(a);
      if i < |p| {
        assert Owner(args, p[i].path) == Some(a);
      }
    }
  }

  lemma {:induction false} UnownedSumZero(args: seq<string>, files: seq<Info>, a: string)
    requires !Owns(args, files, a)
    ensures OwnedSum(args, files, a) == 0
  {
    if |files| > 0 {
      var p := files[..|files| - 1];
      assert forall i :: 0 <= i < |p| ==> p[i] == files[i];
      UnownedSumZero(args, p, a);
    }
  }

  /** Whether any of the files belongs to the argument. */
  predicate Owns(args: seq<string>, files: seq<Info>, a: string) {
    exists i :: 0 <= i < |files| && Owner(args, files[i].path) == Some(a)
  }

  /** An argument has a row exactly when it owns a file, and its row holds
      the sum of its files' sizes, wrapped to 64 bits. */
  lemma {:induction false} TotalsAreOwnedSums(args: seq<string>, files: seq<Info>, a: string)
    ensures Owns(args, files, a) ==> Find(Totals(args, files), a) == Some(OwnedSum(args, files, a) % 0x1_0000_0000_0000_0000)
    ensures !Owns(args, files, a) ==> Find(Totals(args, files), a).None?
  {
    if |files| > 0 {
      TotalsAreOwnedSums(args, files[..|files| - 1], a);
      OwnsSnoc(args, files, a);
      TotalsStep(args, files, a);
    }
  }

  /** Adding to an entry that holds the wrapped sum so far, or to a missing
      one when nothing was summed, leaves the wrapped new sum. */
  lemma AddOwned(prev: seq<Row>, t: seq<Row>, a: string, sz: nat, before: nat, sum: nat, present: bool)
    requires t == AddTo(prev, a, sz) && sum == before + sz
    requires present ==> Find(prev, a) == Some(before % 0x1_0000_0000_0000_0000)
    requires !present ==> Find(prev, a).None? && before == 0
    ensures Find(t, a) == Some(sum % 0x1_0000_0000_0000_0000)
  {
    AddToFind(prev, a, sz);
    WrappedStep(Find(t, a), Current(prev, a), sz, before, sum, present);
  }

  /** The arithmetic of one step: the entry held the wrapped sum so far
      (zero when there was none), so it now holds the wrapped new sum. */
  lemma WrappedStep(found: Option<nat>, c: nat, sz: nat, before: nat, sum: nat, present: bool)
    requires found == Some((c + sz) % 0x1_0000_0000_0000_0000) && sum == before + sz
    requires present ==> c == before % 0x1_0000_0000_0000_0000
    requires !present ==> c == 0 && before == 0
    ensures found == Some(sum % 0x1_0000_0000_0000_0000)
  {
    if present {
      ModAddLeft(before, sz);
    }
  }

  lemma TotalsStep(args: seq<string>, files: seq<Info>, a: string)
    requires |files| > 0
    requires Owns(args, files[..|files| - 1], a) ==>
      Find(Totals(args, files[..|files| - 1]), a) == Some(OwnedSum(args, files[..|files| - 1], a) % 0x1_0000_0000_0000_0000)
    requires !Owns(args, files[..|files| - 1], a) ==> Find(Totals(args, files[..|files| - 1]), a).None?
    requires Owns(args, files, a) <==> Owns(args, files[..|files| - 1], a) || Owner(args, files[|files| - 1].path) == Some(a)
    ensures Owns(args, files, a) ==> Find(Totals(args, files), a) == Some(OwnedSum(args, files, a) % 0x1_0000_0000_0000_0000)
    ensures !Owns(args, files, a) ==> Find(Totals(args, files), a).None?
  {
    if Owner(args, files[|files| - 1].path) == Some(a) {
      OwnStep(args, files, a);
    } else {
      OtherStep(args, files, a);
    }
  }

  /** The last file belongs to `a`: its size joins `a`'s total. */
  lemma OwnStep(args: seq<string>, files: seq<Info>, a: string)
    requires |files| > 0 && Owner(args, files[|files| - 1].path) == Some(a)
    requires Owns(args, files[..|files| - 1], a) ==>
      Find(Totals(args, files[..|files| - 1]), a) == Some(OwnedSum(args, files[..|files| - 1], a) % 0x1_0000_0000_0000_0000)
    requires !Owns(args, files[..|files| - 1], a) ==> Find(Totals(args, files[..|files| - 1]), a).None?
    ensures Find(Totals(args, files), a) == Some(OwnedSum(args, files, a) % 0x1_0000_0000_0000_0000)
  {
    var p := files[..|files| - 1];
    var sz := U64(files[|files| - 1].node.size);
    var prev := Totals(args, p);
    var before := OwnedSum(args, p, a);
    assert Totals(args, files) == AddTo(prev, a, sz);
    if !Owns(args, p, a) {
      UnownedSumZero(args, p, a);
    }
    AddOwned(prev, Totals(args, files), a, sz, before, OwnedSum(args, files, a), Owns(args, p, a));
  }

  /** The last file does not belong to `a`: `a`'s entry is unchanged. */
  lemma OtherStep(args: seq<string>, files: seq<Info>, a: string)
    requires |files| > 0 && Owner(args, files[|files| - 1].path) != Some(a)
    ensures Find(Totals(args, files), a) == Find(Totals(args, files[..|files| - 1]), a)
    ensures OwnedSum(args, files, a) == OwnedSum(args, files[..|files| - 1], a)
  {
    var p := files[..|files| - 1];
    var f := files[|files| - 1];
    match Owner(args, f.path)
    case None =>
    case Some(nm) => AddToKeeps(Totals(args, p), nm, U64(f.node.size), a);
  }

  // ---------------------------------------------------------------------
  // Sums of rows
  // ---------------------------------------------------------------------

  function Sum(rows: seq<Row>): nat {
    if |rows| == 0 then 0 else rows[0].size + Sum(rows[1..])
  }

  lemma {:induction false} SumConcat(a: seq<Row>, b: seq<Row>)
    ensures Sum(a + b) == Sum(a) + Sum(b)
  {
    if |a| > 0 {
      assert (a + b)[1..] == a[1..] + b;
      SumConcat(a[1..], b);
    } else {
      assert a + b == b;
    }
  }

  /** Reordering rows does not change their sum. */
  lemma {:induction false} SumPermutation(a: seq<Row>, b: seq<Row>)
    requires multiset(a) == multiset(b)
    ensures Sum(a) == Sum(b)
    decreases |a|
  {
    if |a| > 0 {
      var x := a[0];
      assert x in multiset(b);
      var j :| 0 <= j < |b| && b[j] == x;
      var rest := b[..j] + b[j + 1..];
      RemoveAt(b, j);
      assert a == [x] + a[1..];
      assert multiset(a[1..]) == multiset(a) - multiset{x};
      SumPermutation(a[1..], rest);
      SumRemoveAt(b, j);
      assert Sum(a) == x.size + Sum(a[1..]);
    } else {
      assert |b| == |multiset(b)| == 0;
    }
  }

  lemma RemoveAt(s: seq<Row>, j: nat)
    requires j < |s|
    ensures multiset(s[..j] + s[j + 1..]) == multiset(s) - multiset{s[j]}
  {
    assert s == s[..j] + [s[j]] + s[j + 1..];
  }

  lemma {:induction false} SumRemoveAt(s: seq<Row>, j: nat)
    requires j < |s|
    ensures Sum(s) == s[j].size + Sum(s[..j] + s[j + 1..])
  {
    if j == 0 {
      assert s[..0] + s[1..] == s[1..];
    } else {
      var tail := s[1..];
      SumRemoveAt(tail, j - 1);
      var r := s[..j] + s[j + 1..];
      assert r[0] == s[0] && r[1..] == tail[..j - 1] + tail[j..];
      assert tail[j - 1] == s[j];
    }
  }

  /** The total of the rows equals the sum of the sizes of the files that
      fall under some argument, wrapped to 64 bits: no file is counted twice
      and none under an argument is lost. */
  lemma {:induction false} TotalsSumAttributed(args: seq<string>, files: seq<Info>)
    ensures Sum(Totals(args, files)) % 0x1_0000_0000_0000_0000 == AttributedSum(args, files) % 0x1_0000_0000_0000_0000
  {
    if |files| > 0 {
      var p := files[..|files| - 1];
      var f := files[|files| - 1];
      TotalsSumAttributed(args, p);
      if Owner(args, f.path).Some? {
        var prev := Totals(args, p);
        var sz := U64(f.node.size);
        var nm := Owner(args, f.path).value;
        AddToSum(prev, nm, sz);
        ModAddSame(Sum(prev), AttributedSum(args, p), sz);
        assert Totals(args, files) == AddTo(prev, nm, sz);
        assert AttributedSum(args, files) == AttributedSum(args, p) + sz;
      } else {
        assert Totals(args, files) == Totals(args, p);
        assert AttributedSum(args, files) == AttributedSum(args, p);
      }
    } else {
      assert Totals(args, files) == [];
    }
  }

  /** The exact sum of the sizes of the files under some argument. */
  function AttributedSum(args: seq<string>, files: seq<Info>): nat {
    if |files| == 0 then 0
    else
      var f := files[|files| - 1];
      AttributedSum(args, files[..|files| - 1]) + (if Owner(args, f.path).Some? then U64(f.node.size) else 0)
  }

  /** Adding to one entry adds to the sum, modulo 2^64. */
  lemma {:induction false} AddToSum(acc: seq<Row>, nm: string, sz: nat)
    ensures Sum(AddTo(acc, nm, sz)) % 0x1_0000_0000_0000_0000 == (Sum(acc) + sz) % 0x1_0000_0000_0000_0000
  {
    if |acc| == 0 {
      var r := AddTo(acc, nm, sz);
      assert Sum(r) == sz % 0x1_0000_0000_0000_0000 + Sum([]);
      ModAddLeft(sz, 0);
    } else if acc[0].name == nm {
      AddToSumHere(acc, nm, sz);
    } else {
      AddToSum(acc[1..], nm, sz);
      AddToSumLater(acc, nm, sz);
    }
  }

  lemma AddToSumHere(acc: seq<Row>, nm: string, sz: nat)
    requires |acc| > 0 && acc[0].name == nm
    ensures Sum(AddTo(acc, nm, sz)) % 0x1_0000_0000_0000_0000 == (Sum(acc) + sz) % 0x1_0000_0000_0000_0000
  {
    var r := AddTo(acc, nm, sz);
    var s := Sum(acc[1..]);
    var a0 := acc[0].size;
    assert r[1..] == acc[1..];
    assert Sum(r) == (a0 + sz) % 0x1_0000_0000_0000_0000 + s;
    ModAddLeft(a0 + sz, s);
    assert Sum(acc) + sz == a0 + sz + s;
  }

  lemma AddToSumLater(acc: seq<Row>, nm: string, sz: nat)
    requires |acc| > 0 && acc[0].name != nm
    requires Sum(AddTo(acc[1..], nm, sz)) % 0x1_0000_0000_0000_0000 == (Sum(acc[1..]) + sz) % 0x1_0000_0000_0000_0000
    ensures Sum(AddTo(acc, nm, sz)) % 0x1_0000_0000_0000_0000 == (Sum(acc) + sz) % 0x1_0000_0000_0000_0000
  {
    var rest := AddTo(acc[1..], nm, sz);
    var r := AddTo(acc, nm, sz);
    var s := Sum(acc[1..]);
    var a0 := acc[0].size;
    assert r[1..] == rest;
    assert Sum(r) == Sum(rest) + a0;
    ModAddSame(Sum(rest), s + sz, a0);
    assert Sum(acc) + sz == s + sz + a0;
  }

  // ---------------------------------------------------------------------
  // Printing
  // ---------------------------------------------------------------------

  /** `-h`, `-k` or neither. */
  datatype SizeMode = Human | Kilo | Bytes

  /** The `size` closure. `utils.HumanizeSize` lives in another library and
      is a parameter. */
  function SizeText(mode: SizeMode, humanize: nat -> string, z: nat): (r: string)
    ensures mode == Bytes ==> DigitsValue(r) == Some(z)
    ensures mode == Kilo ==> DigitsValue(r) == Some(z / 1024)
    ensures mode == Human ==> r == humanize(z)
  {
    match mode
    case Human => humanize(z)
    case Kilo => DigitsValueOfNatToDec(z / 1024); NatToDec(z / 1024)
    case Bytes => DigitsValueOfNatToDec(z); NatToDec(z)
  }

  /** `n` blanks. */
  function Spaces(n: nat): (r: string)
    ensures |r| == n
    ensures forall i :: 0 <= i < n ==> r[i] == ' '
  {
    if n == 0 then "" else " " + Spaces(n - 1)
  }

  /** `%12s`: right-aligned in at least twelve columns. */
  function Pad12(s: string): (r: string)
    ensures |r| == if |s| < 12 then 12 else |s|
    ensures r[|r| - |s|..] == s
    ensures forall i :: 0 <= i < |r| - |s| ==> r[i] == ' '
  {
    if |s| < 12 then Spaces(12 - |s|) + s else s
  }

  function RowLine(mode: SizeMode, humanize: nat -> string, r: Row): (line: string)
    ensures |line| >= 13 + |r.name|
    ensures line[|line| - |r.name| - 1..] == " " + r.name
    ensures line[..|line| - |r.name| - 1] == Pad12(SizeText(mode, humanize, r.size))
  {
    var p := Pad12(SizeText(mode, humanize, r.size));
    var line := p + (" " + r.name);
    assert line[|p|..] == " " + r.name && line[..|p|] == p;
    line
  }

  /** The print loop: one line per row, accumulating the `uint64` total. */
  method PrintRows(mode: SizeMode, humanize: nat -> string, rows: seq<Row>)
    returns (lines: seq<string>, tot: nat)
    ensures LinesOf(mode, humanize, rows, lines)
    ensures tot == Sum(rows) % 0x1_0000_0000_0000_0000
  {
    lines := [];
    tot := 0;
    var i := 0;
    while i < |rows|
      invariant 0 <= i <= |rows|
      invariant LinesOf(mode, humanize, rows[..i], lines)
      invariant Tallied(rows, i, tot)
    {
      tot := Tally(rows, i, tot);
      LinesSnoc(mode, humanize, rows, i, lines);
      lines := lines + [RowLine(mode, humanize, rows[i])];
      i := i + 1;
    }
    assert rows[..i] == rows;
  }

  /** `tot += uint64(rows[i].size)`, wrapping at 2^64. */
  method Tally(rows: seq<Row>, i: nat, tot: nat) returns (next: nat)
    requires i < |rows| && Tallied(rows, i, tot)
    ensures Tallied(rows, i + 1, next)
  {
    WrapStep(rows, i, tot);
    next := (tot + rows[i].size) % 0x1_0000_0000_0000_0000;
  }

  /** `tot` is the wrapped sum of the first `i` rows' sizes. */
  ghost predicate Tallied(rows: seq<Row>, i: nat, tot: nat) {
    i <= |rows| && tot == Sum(rows[..i]) % 0x1_0000_0000_0000_0000
  }

  /** `lines` are the printed lines of `rows`, one each. */
  ghost predicate LinesOf(mode: SizeMode, humanize: nat -> string, rows: seq<Row>, lines: seq<string>) {
    |lines| == |rows| && forall i {:trigger lines[i]} :: 0 <= i < |rows| ==> lines[i] == RowLine(mode, humanize, rows[i])
  }

  lemma LinesSnoc(mode: SizeMode, humanize: nat -> string, rows: seq<Row>, n: nat, lines: seq<string>)
    requires n < |rows| && LinesOf(mode, humanize, rows[..n], lines)
    ensures LinesOf(mode, humanize, rows[..n + 1], lines + [RowLine(mode, humanize, rows[n])])
  {
    var ls := lines + [RowLine(mode, humanize, rows[n])];
    forall i | 0 <= i < n + 1
      ensures ls[i] == RowLine(mode, humanize, rows[..n + 1][i])
    {
      if i < n {
        assert ls[i] == lines[i] && rows[..n][i] == rows[i];
      }
    }
  }

  /** One more row adds its size to the wrapped running total. */
  lemma WrapStep(rows: seq<Row>, i: nat, tot: nat)
    requires i < |rows| && Tallied(rows, i, tot)
    ensures Tallied(rows, i + 1, (tot + rows[i].size) % 0x1_0000_0000_0000_0000)
  {
    SumConcat(rows[..i], [rows[i]]);
    assert rows[..i + 1] == rows[..i] + [rows[i]];
    assert Sum([rows[i]]) == rows[i].size;
    ModAddLeft(Sum(rows[..i]), rows[i].size);
  }

  // ---------------------------------------------------------------------
  // The program
  // ---------------------------------------------------------------------

  datatype Options = Options(all: bool, total: bool, mode: SizeMode)

  datatype DuDeath = NoArgs | WalkFailed(message: string)

  /** A run: a fatal message before any output, or the rows in printed
      order with the lines written. */
  datatype DuRun = DuFatal(reason: DuDeath) | Listed(rows: seq<Row>, lines: seq<string>)

  /** The rows before sorting: every counted file with `-a`, the
      per-argument totals otherwise. */
  function Unsorted(all: bool, args: seq<string>, counted: seq<Info>): (r: seq<Row>)
    ensures all ==> |r| == |counted|
    ensures all ==> forall i :: 0 <= i < |r| ==> r[i] == Row(counted[i].path, U64(counted[i].node.size))
    ensures !all ==> r == Totals(args, counted)
  {
    if all then seq(|counted|, i requires 0 <= i < |counted| => Row(counted[i].path, U64(counted[i].node.size)))
    else Totals(args, counted)
  }

  /** The lines printed for `rows`: one per row in order, then the TOTAL
      line with the wrapped sum when `-t` was given. */
  ghost predicate Printed(opts: Options, humanize: nat -> string, rows: seq<Row>, lines: seq<string>) {
    |lines| == |rows| + (if opts.total then 1 else 0)
    && LinesOf(opts.mode, humanize, rows, lines[..|rows|])
    && (opts.total ==> lines[|rows|] == Pad12(SizeText(opts.mode, humanize, Sum(rows) % 0x1_0000_0000_0000_0000)) + " TOTAL")
  }

  /** The output loop and the optional TOTAL line. */
  method Output(opts: Options, humanize: nat -> string, rows: seq<Row>) returns (lines: seq<string>)
    ensures Printed(opts, humanize, rows, lines)
  {
    var tot;
    lines, tot := PrintRows(opts.mode, humanize, rows);
    assert lines[..|rows|] == lines;
    if opts.total {
      lines := lines + [Pad12(SizeText(opts.mode, humanize, tot)) + " TOTAL"];
      assert lines[..|rows|] == lines[..|rows|];
    }
  }

  /** `main` after flag parsing. The walker's output (its files in arrival
      order and its error strings) is a parameter. */
  method Du(opts: Options, humanize: nat -> string, args: seq<string>, walked: seq<Info>, errs: seq<string>)
    returns (run: DuRun)
    ensures |args| == 0 ==> run == DuFatal(NoArgs)
    ensures |args| > 0 && |errs| > 0 ==> run == DuFatal(WalkFailed(Join(errs, "\n")))
    ensures |args| > 0 && |errs| == 0 ==> run.Listed?
    ensures run.Listed? ==> SortedDesc(run.rows, Size)
    ensures run.Listed? ==> multiset(run.rows) == multiset(Unsorted(opts.all, SortDesc(args, Len), Firsts(walked)))
    ensures run.Listed? ==> Printed(opts, humanize, run.rows, run.lines)
  {
    if |args| == 0 {
      return DuFatal(NoArgs);
    }
    var sorted := SortDesc(args, Len);
    var counted := Harvest(walked).0;
    HarvestCountsFirsts(walked);
    if |errs| > 0 {
      return DuFatal(WalkFailed(Join(errs, "\n")));
    }
    var rows := SortDesc(Unsorted(opts.all, sorted, counted), Size);
    var lines := Output(opts, humanize, rows);
    return Listed(rows, lines);
  }

  /** Without `-a`, the TOTAL line reports the sum of the sizes of the
      counted files that fall under some argument, wrapped to 64 bits. */
  lemma ListedTotal(args: seq<string>, walked: seq<Info>, rows: seq<Row>)
    requires multiset(rows) == multiset(Unsorted(false, SortDesc(args, Len), Firsts(walked)))
    ensures Sum(rows) % 0x1_0000_0000_0000_0000 == AttributedSum(SortDesc(args, Len), Firsts(walked)) % 0x1_0000_0000_0000_0000
  {
    var sorted := SortDesc(args, Len);
    SumPermutation(rows, Totals(sorted, Firsts(walked)));
    TotalsSumAttributed(sorted, Firsts(walked));
  }

  /** With `-k`, a row shows its size divided by 1024, rounded down. */
  lemma KilobyteRow(humanize: nat -> string, r: Row)
    ensures DigitsValue(TrimLeft(RowLine(Kilo, humanize, r)[..|RowLine(Kilo, humanize, r)| - |r.name| - 1])) == Some(r.size / 1024)
  {
    var t := SizeText(Kilo, humanize, r.size);
    var line := RowLine(Kilo, humanize, r);
    assert line[..|line| - |r.name| - 1] == Pad12(t);
    PadTrims(t);
  }

  /** Trimming the padding off a padded digit string gives it back. */
  lemma PadTrims(t: string)
    requires |t| > 0 && IsDigit(t[0])
    ensures TrimLeft(Pad12(t)) == t
  {
    assert !IsSpace(t[0]);
    if |t| < 12 {
      assert Pad12(t) == Spaces(12 - |t|) + t;
      SpacesThenTrim(12 - |t|, t);
    } else {
      assert Pad12(t) == t;
    }
  }

  /** Leading spaces before a non-space rune are exactly what TrimLeft cuts. */
  lemma SpacesThenTrim(n: nat, t: string)
    requires |t| > 0 && !IsSpace(t[0])
    ensures TrimLeft(Spaces(n) + t) == t
  {
    var s := Spaces(n) + t;
    var k := SkipSpaces(s, 0);
    assert s[n] == t[0];
    assert s[n..] == t;
  }
}
