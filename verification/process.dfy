/** ghash's dispatcher for named files (`processArgs` and `symlinkResolver`
    in ghash/process.go): a single producer lstat's each argument, remembers
    every inode it has met, optionally resolves symbolic links, and sends
    only regular files on to the workers; everything else becomes a
    diagnostic or is dropped silently.

    The producer is modelled as a fold over the argument list that threads
    the tracker. The workers apply a caller-supplied action to every sent
    file; their concurrency is not modelled. */
module Process {
  import opened Wrappers
  import opened Text
  import opened Fs

  // ---------------------------------------------------------------------
  // The inode tracker
  // ---------------------------------------------------------------------

  /** The resolver's `seen` map from (Dev, Rdev, Ino) to the first record
      stored under it. */
  type Tracker = map<InodeKey, Info>

  /** Every record is stored under its own key, which is how the tracker
      is filled. */
  ghost predicate WellKeyed(t: Tracker) {
    forall k :: k in t ==> t[k].node.key == k
  }

  /** `isEntrySeen`: store the record under its key when the key is new and
      answer false; otherwise keep what is stored and answer whether the
      stored record has the same identity (which it always has). */
  function IsEntrySeen(t: Tracker, fi: Info): (r: (bool, Tracker))
    requires WellKeyed(t)
    ensures r.0 <==> fi.node.key in t
    ensures r.1.Keys == t.Keys + {fi.node.key}
    ensures forall k :: k in t ==> r.1[k] == t[k]
    ensures fi.node.key !in t ==> r.1[fi.node.key] == fi
    ensures WellKeyed(r.1)
  {
    var key := fi.node.key;
    if key !in t then (false, t[key := fi])
    else
      var x := t[key];
      // the source compares fi.Rdev with itself, so only Dev and Ino matter
      (x.node.key.dev == key.dev && key.rdev == key.rdev && key.ino == key.ino, t)
  }

  /** Offering a run of records one after another: the first record with a
      given key is the one the tracker keeps, later offers change nothing. */
  function OfferAll(t: Tracker, fis: seq<Info>): (r: Tracker)
    requires WellKeyed(t)
    ensures WellKeyed(r)
    ensures forall k :: k in t ==> k in r && r[k] == t[k]
    ensures forall j :: 0 <= j < |fis| ==> fis[j].node.key in r
    decreases |fis|
  {
    if |fis| == 0 then t
    else
      var r := OfferAll(IsEntrySeen(t, fis[0]).1, fis[1..]);
      assert forall j :: 1 <= j < |fis| ==> fis[1..][j - 1] == fis[j];
      r
  }

  /** First writer wins: after a run of offers, a key that was new holds the
      first record offered under it. */
  lemma {:induction false} FirstWriterWins(t: Tracker, fis: seq<Info>, i: nat)
    requires WellKeyed(t)
    requires i < |fis| && fis[i].node.key !in t
    requires forall j :: 0 <= j < i ==> fis[j].node.key != fis[i].node.key
    ensures fis[i].node.key in OfferAll(t, fis) && OfferAll(t, fis)[fis[i].node.key] == fis[i]
    decreases i
  {
    var t1 := IsEntrySeen(t, fis[0]).1;
    if i == 0 {
      assert fis[0].node.key in t1 && t1[fis[0].node.key] == fis[0];
    } else {
      assert fis[i].node.key !in t1;
      assert fis[1..][i - 1] == fis[i];
      FirstWriterWins(t1, fis[1..], i - 1);
    }
  }

  // ---------------------------------------------------------------------
  // One argument
  // ---------------------------------------------------------------------

  /** The messages the producer sends on the error channel. `ResolveFailed`
      stands for the error that `resolve` returns, which the producer wraps
      with a malformed format call. */
  datatype Diagnostic =
    | LstatFailed(name: string)
    | SkippingSymlink(name: string)
    | ResolveFailed(name: string)
    | SkippingDir(name: string)
    | SkippingNonFile(name: string)

  /** What the producer does with one argument. */
  datatype Action = Enqueue(fi: Info) | Report(diag: Diagnostic) | Skip

  datatype Resolution = Unresolved(diag: Diagnostic) | Dropped | Target(name: string, fi: Info)

  /** `resolve`: follow the link to its final name and stat that; the target
      is offered to the tracker, and an inode already seen or a target that
      is not a regular file is dropped without a message. */
  function Resolve(fs: FileSystem, t: Tracker, nm: string): (r: (Resolution, Tracker))
    requires WellKeyed(t)
    ensures WellKeyed(r.1) && t.Keys <= r.1.Keys
    ensures forall k :: k in t ==> r.1[k] == t[k]
    ensures r.0.Target? ==> r.0.fi.node.kind == Regular && r.0.fi.node.key !in t && r.0.fi.node.key in r.1
    ensures r.0.Target? ==> Stat(fs, r.0.fi.path) == Some(r.0.fi)
    ensures EvalSymlinks(fs, nm).None? ==> r == (Unresolved(ResolveFailed(nm)), t)
    ensures EvalSymlinks(fs, nm).Some? && Stat(fs, EvalSymlinks(fs, nm).value).None? ==>
              r == (Unresolved(ResolveFailed(EvalSymlinks(fs, nm).value)), t)
    ensures EvalSymlinks(fs, nm).Some? && Stat(fs, EvalSymlinks(fs, nm).value).Some? ==>
              var newnm := EvalSymlinks(fs, nm).value; var fi := Stat(fs, newnm).value;
              && r.1 == t[fi.node.key := if fi.node.key in t then t[fi.node.key] else fi]
              && (fi.node.key !in t && fi.node.kind == Regular ==> r.0 == Target(newnm, fi))
              && (fi.node.key in t || fi.node.kind != Regular ==> r.0 == Dropped)
  {
    match EvalSymlinks(fs, nm)
    case None => (Unresolved(ResolveFailed(nm)), t)
    case Some(newnm) =>
      match Stat(fs, newnm)
      case None => (Unresolved(ResolveFailed(newnm)), t)
      case Some(fi) =>
        var (seen, t1) := IsEntrySeen(t, fi);
        if seen || fi.node.kind != Regular then (Dropped, t1) else (Target(newnm, fi), t1)
  }

  /** The closing switch on the file type. */
  function Classify(nm: string, fi: Info): (r: Action)
    ensures r.Enqueue? <==> fi.node.kind == Regular
    ensures r.Enqueue? ==> r.fi == fi
    ensures r.Skip? == false
    ensures fi.node.kind == Directory ==> r == Report(SkippingDir(nm))
    ensures fi.node.kind != Directory && fi.node.kind != Regular ==> r == Report(SkippingNonFile(nm))
  {
    match fi.node.kind
    case Directory => Report(SkippingDir(nm))
    case Regular => Enqueue(fi)
    case _ => Report(SkippingNonFile(nm))
  }

  /** The producer loop's body for one name. */
  function Decide(fs: FileSystem, follow: bool, t: Tracker, nm: string): (r: (Action, Tracker))
    requires WellKeyed(t)
    ensures WellKeyed(r.1) && t.Keys <= r.1.Keys
    ensures forall k :: k in t ==> r.1[k] == t[k]
    ensures r.0.Enqueue? ==> r.0.fi.node.kind == Regular && r.0.fi.node.key !in t && r.0.fi.node.key in r.1
    ensures r.0.Enqueue? ==> Stat(fs, r.0.fi.path) == Some(r.0.fi)
    ensures nm !in fs.nodes ==> r == (Report(LstatFailed(nm)), t)
    ensures nm in fs.nodes && fs.nodes[nm].key in t ==> r == (Skip, t)
    ensures nm in fs.nodes && fs.nodes[nm].key !in t && fs.nodes[nm].kind == Symlink && !follow ==>
              r.0 == Report(SkippingSymlink(nm))
    ensures nm in fs.nodes && fs.nodes[nm].kind == Directory ==> r.0 != Enqueue(Info(nm, fs.nodes[nm]))
    ensures nm in fs.nodes && fs.nodes[nm].key !in t && fs.nodes[nm].kind == Regular ==>
              r.0 == Enqueue(Info(nm, fs.nodes[nm]))
    ensures nm in fs.nodes && fs.nodes[nm].key !in t && fs.nodes[nm].kind == Directory ==>
              r.0 == Report(SkippingDir(nm))
    ensures nm in fs.nodes && fs.nodes[nm].key !in t && fs.nodes[nm].kind == Other ==>
              r.0 == Report(SkippingNonFile(nm))
    ensures nm in fs.nodes && fs.nodes[nm].key !in t && fs.nodes[nm].kind == Symlink && follow ==>
              var res := Resolve(fs, t[fs.nodes[nm].key := Info(nm, fs.nodes[nm])], nm).0;
              && (res.Unresolved? ==> r.0 == Report(res.diag))
              && (res.Dropped? ==> r.0 == Skip)
              && (res.Target? ==> r.0 == Enqueue(res.fi))
  {
    match Lstat(fs, nm)
    case None => (Report(LstatFailed(nm)), t)
    case Some(fi) =>
      var (seen, t1) := IsEntrySeen(t, fi);
      if seen then (Skip, t1)
      else if fi.node.kind == Symlink then
        if !follow then (Report(SkippingSymlink(nm)), t1)
        else
          var (res, t2) := Resolve(fs, t1, nm);
          match res
          case Unresolved(d) => (Report(d), t2)
          case Dropped => (Skip, t2)
          case Target(newnm, target) => (Classify(newnm, target), t2)
      else (Classify(nm, fi), t1)
  }

  /** A followed link whose target inode was met before, through any name,
      or whose target is not a regular file, is dropped without a message. */
  lemma FollowedLinkDropped(fs: FileSystem, t: Tracker, nm: string)
    requires WellKeyed(t)
    requires nm in fs.nodes && fs.nodes[nm].kind == Symlink && fs.nodes[nm].key !in t
    requires EvalSymlinks(fs, nm).Some? && Stat(fs, EvalSymlinks(fs, nm).value).Some?
    requires var target := Stat(fs, EvalSymlinks(fs, nm).value).value;
             target.node.key in t || target.node.kind != Regular
    ensures Decide(fs, true, t, nm).0 == Skip
  {
  }

  // ---------------------------------------------------------------------
  // The whole argument list
  // ---------------------------------------------------------------------

  /** The producer loop: one action per argument, the tracker threaded from
      one to the next. */
  function Produce(fs: FileSystem, follow: bool, t: Tracker, args: seq<string>): (r: (seq<Action>, Tracker))
    requires WellKeyed(t)
    ensures |r.0| == |args|
    ensures WellKeyed(r.1) && t.Keys <= r.1.Keys
    ensures forall k :: k in t ==> r.1[k] == t[k]
    ensures forall i :: 0 <= i < |args| && args[i] !in fs.nodes ==> r.0[i] == Report(LstatFailed(args[i]))
    ensures forall i :: 0 <= i < |r.0| && r.0[i].Enqueue? ==>
              r.0[i].fi.node.kind == Regular && r.0[i].fi.node.key !in t && r.0[i].fi.node.key in r.1
    ensures forall i :: 0 <= i < |r.0| && r.0[i].Enqueue? ==> Stat(fs, r.0[i].fi.path) == Some(r.0[i].fi)
    ensures forall i, j :: 0 <= i < j < |r.0| && r.0[i].Enqueue? && r.0[j].Enqueue? ==>
              r.0[i].fi.node.key != r.0[j].fi.node.key
    decreases |args|
  {
    if |args| == 0 then ([], t)
    else
      var (a, t1) := Decide(fs, follow, t, args[0]);
      var (rest, t2) := Produce(fs, follow, t1, args[1..]);
      assert forall i :: 1 <= i < |args| ==> args[1..][i - 1] == args[i];
      ([a] + rest, t2)
  }

  /** The inode keys the producer's work on one name can add to the
      tracker: the name's own, and, for a followed link, its target's. */
  ghost function Touched(fs: FileSystem, follow: bool, nm: string): set<InodeKey> {
    if nm !in fs.nodes then {}
    else if follow && fs.nodes[nm].kind == Symlink && EvalSymlinks(fs, nm).Some?
            && Stat(fs, EvalSymlinks(fs, nm).value).Some? then
      {fs.nodes[nm].key, Stat(fs, EvalSymlinks(fs, nm).value).value.node.key}
    else {fs.nodes[nm].key}
  }

  /** The keys a run of names can add to the tracker. */
  ghost function TouchedAll(fs: FileSystem, follow: bool, args: seq<string>): set<InodeKey>
    decreases |args|
  {
    if |args| == 0 then {} else Touched(fs, follow, args[0]) + TouchedAll(fs, follow, args[1..])
  }

  /** One name adds no key but the ones it reaches. */
  lemma DecideTouches(fs: FileSystem, follow: bool, t: Tracker, nm: string)
    requires WellKeyed(t)
    ensures Decide(fs, follow, t, nm).1.Keys <= t.Keys + Touched(fs, follow, nm)
  {
  }

  /** The producer's tracker after a run of names holds no key that none
      of them reaches. */
  lemma {:induction false} ProduceTouches(fs: FileSystem, follow: bool, t: Tracker, args: seq<string>)
    requires WellKeyed(t)
    ensures Produce(fs, follow, t, args).1.Keys <= t.Keys + TouchedAll(fs, follow, args)
    decreases |args|
  {
    if |args| > 0 {
      DecideTouches(fs, follow, t, args[0]);
      ProduceTouches(fs, follow, Decide(fs, follow, t, args[0]).1, args[1..]);
    }
  }

  /** The i-th action is what the loop body decides for the i-th name, with
      the tracker the names before it left. */
  lemma {:induction false} ProduceAt(fs: FileSystem, follow: bool, t: Tracker, args: seq<string>, i: nat)
    requires WellKeyed(t) && i < |args|
    ensures Produce(fs, follow, t, args).0[i] == Decide(fs, follow, Produce(fs, follow, t, args[..i]).1, args[i]).0
    decreases i
  {
    var t1 := Decide(fs, follow, t, args[0]).1;
    var rest := Produce(fs, follow, t1, args[1..]).0;
    assert Produce(fs, follow, t, args).0 == [Decide(fs, follow, t, args[0]).0] + rest;
    if i == 0 {
      assert args[..0] == [];
    } else {
      var pre := args[..i];
      assert pre[0] == args[0] && pre[1..] == args[1..][..i - 1];
      assert Produce(fs, follow, t, pre).1 == Produce(fs, follow, t1, pre[1..]).1;
      ProduceAt(fs, follow, t1, args[1..], i - 1);
      assert args[1..][i - 1] == args[i];
    }
  }

  /** A name that is not a link, and whose inode neither the starting
      tracker nor any earlier name reaches, is handled by its type: a
      regular file is sent to the workers, a directory or any other object
      is reported. */
  lemma FreshArgumentHandled(fs: FileSystem, follow: bool, t: Tracker, args: seq<string>, i: nat)
    requires WellKeyed(t) && i < |args| && args[i] in fs.nodes && fs.nodes[args[i]].kind != Symlink
    requires fs.nodes[args[i]].key !in t.Keys + TouchedAll(fs, follow, args[..i])
    ensures fs.nodes[args[i]].kind == Regular ==>
              Produce(fs, follow, t, args).0[i] == Enqueue(Info(args[i], fs.nodes[args[i]]))
    ensures fs.nodes[args[i]].kind == Directory ==>
              Produce(fs, follow, t, args).0[i] == Report(SkippingDir(args[i]))
    ensures fs.nodes[args[i]].kind == Other ==>
              Produce(fs, follow, t, args).0[i] == Report(SkippingNonFile(args[i]))
  {
    ProduceAt(fs, follow, t, args, i);
    ProduceTouches(fs, follow, t, args[..i]);
  }

  /** Everything the producer sends to the workers, in order. */
  function Enqueued(actions: seq<Action>): (r: seq<Info>)
    ensures |r| <= |actions|
    ensures forall x :: x in r ==> Enqueue(x) in actions
  {
    if |actions| == 0 then []
    else (if actions[0].Enqueue? then [actions[0].fi] else []) + Enqueued(actions[1..])
  }

  /** Everything the producer sends to the error channel, in order. */
  function Diagnostics(actions: seq<Action>): (r: seq<Diagnostic>)
    ensures |r| == 0 <==> NoReports(actions)
    ensures forall i :: 0 <= i < |actions| && actions[i].Report? ==> actions[i].diag in r
    ensures forall d :: d in r ==> Report(d) in actions
  {
    if |actions| == 0 then []
    else
      var rest := Diagnostics(actions[1..]);
      assert forall i :: 1 <= i < |actions| ==> actions[1..][i - 1] == actions[i];
      (if actions[0].Report? then [actions[0].diag] else []) + rest
  }

  /** Every record is a regular file and no two share an inode key. */
  ghost predicate DistinctRegular(q: seq<Info>) {
    && (forall i :: 0 <= i < |q| ==> q[i].node.kind == Regular)
    && (forall i, j :: 0 <= i < j < |q| ==> q[i].node.key != q[j].node.key)
  }

  /** No two records sent to the workers share an inode, and each is a
      regular file: a file reached through a hard link, a repeated name or a
      followed link is hashed once. */
  lemma {:induction false} EnqueuedDistinct(fs: FileSystem, follow: bool, t: Tracker, args: seq<string>)
    requires WellKeyed(t)
    ensures DistinctRegular(Enqueued(Produce(fs, follow, t, args).0))
  {
    EnqueuedOfDistinct(Produce(fs, follow, t, args).0);
  }

  lemma {:induction false} EnqueuedOfDistinct(actions: seq<Action>)
    requires forall i :: 0 <= i < |actions| && actions[i].Enqueue? ==> actions[i].fi.node.kind == Regular
    requires forall i, j :: 0 <= i < j < |actions| && actions[i].Enqueue? && actions[j].Enqueue? ==>
               actions[i].fi.node.key != actions[j].fi.node.key
    ensures DistinctRegular(Enqueued(actions))
  {
    if |actions| > 0 {
      var tail := actions[1..];
      assert forall i :: 0 <= i < |tail| ==> tail[i] == actions[i + 1];
      EnqueuedOfDistinct(tail);
      var q := Enqueued(actions);
      var qt := Enqueued(tail);
      if actions[0].Enqueue? {
        assert q == [actions[0].fi] + qt;
        forall i, j | 0 <= i < j < |q|
          ensures q[i].node.key != q[j].node.key
        {
          assert q[j] == qt[j - 1];
          if i == 0 {
            assert q[j] in qt;
            assert Enqueue(q[j]) in tail;
            var k :| 0 <= k < |tail| && tail[k] == Enqueue(q[j]);
            assert actions[k + 1] == Enqueue(q[j]);
          } else {
            assert q[i] == qt[i - 1];
          }
        }
        forall i | 0 <= i < |q|
          ensures q[i].node.kind == Regular
        {
          if i > 0 {
            assert q[i] == qt[i - 1];
          }
        }
      } else {
        assert q == [] + qt;
      }
    }
  }

  /** What ends up on the error channel: a diagnostic from the producer or
      an error from applying the action to an enqueued file. */
  datatype ProcError<E> = Diag(diag: Diagnostic) | Failed(err: E)

  /** The errors the workers add: one per enqueued file the action fails on. */
  function ApplyErrors<E>(q: seq<Info>, apply: Info -> Option<E>): (r: seq<ProcError<E>>)
    ensures |r| == 0 <==> AllSucceed(q, apply)
  {
    if |q| == 0 then []
    else
      var rest := ApplyErrors(q[1..], apply);
      assert forall i :: 1 <= i < |q| ==> q[1..][i - 1] == q[i];
      (if apply(q[0]).Some? then [Failed(apply(q[0]).value)] else []) + rest
  }

  /** How many of the files the action fails on. */
  ghost function FailureCount<E>(q: seq<Info>, apply: Info -> Option<E>): (n: nat)
    ensures n <= |q|
  {
    if |q| == 0 then 0 else (if apply(q[0]).Some? then 1 else 0) + FailureCount(q[1..], apply)
  }

  function AsErrors<E>(ds: seq<Diagnostic>): (r: seq<ProcError<E>>)
    ensures |r| == |ds| && forall i :: 0 <= i < |ds| ==> r[i] == Diag(ds[i])
  {
    seq(|ds|, i requires 0 <= i < |ds| => Diag(ds[i]))
  }

  ghost predicate NoReports(acts: seq<Action>) {
    forall i :: 0 <= i < |acts| ==> !acts[i].Report?
  }

  ghost predicate AllSucceed<E>(q: seq<Info>, apply: Info -> Option<E>) {
    forall i :: 0 <= i < |q| ==> apply(q[i]).None?
  }

  /** `processArgs`: None (nil) when neither the producer nor any worker
      reported anything, otherwise every reported error (their join). */
  function ProcessArgs<E>(fs: FileSystem, follow: bool, args: seq<string>, apply: Info -> Option<E>): (r: Option<seq<ProcError<E>>>)
    ensures r.None? <==> NoReports(Produce(fs, follow, map[], args).0)
                         && AllSucceed(Enqueued(Produce(fs, follow, map[], args).0), apply)
    ensures r.Some? ==> |r.value| > 0
  {
    var acts := Produce(fs, follow, map[], args).0;
    var ds := Diagnostics(acts);
    var ws := ApplyErrors(Enqueued(acts), apply);
    var errs := AsErrors(ds) + ws;
    assert |errs| == |ds| + |ws|;
    if |errs| > 0 then Some(errs) else None
  }

  /** The workers' errors are exactly the failures of the action: one for
      every enqueued file it fails on, and nothing else. */
  lemma {:induction false} ApplyErrorsExact<E>(q: seq<Info>, apply: Info -> Option<E>)
    ensures forall i :: 0 <= i < |q| && apply(q[i]).Some? ==> Failed(apply(q[i]).value) in ApplyErrors(q, apply)
    ensures forall e :: e in ApplyErrors(q, apply) ==> e.Failed? && exists x :: x in q && apply(x) == Some(e.err)
    ensures |ApplyErrors(q, apply)| == FailureCount(q, apply)
  {
    if |q| > 0 {
      var tail := q[1..];
      ApplyErrorsExact(tail, apply);
      var r := ApplyErrors(q, apply);
      var rest := ApplyErrors(tail, apply);
      var head: seq<ProcError<E>> := if apply(q[0]).Some? then [Failed(apply(q[0]).value)] else [];
      assert r == head + rest;
      forall i | 0 <= i < |q| && apply(q[i]).Some?
        ensures Failed(apply(q[i]).value) in r
      {
        if i > 0 {
          assert q[i] == tail[i - 1];
        }
      }
      forall e | e in r
        ensures e.Failed? && exists x :: x in q && apply(x) == Some(e.err)
      {
        if e in rest {
          var x :| x in tail && apply(x) == Some(e.err);
          assert x in q;
        } else {
          assert apply(q[0]) == Some(e.err);
        }
      }
    }
  }

  /** The error `processArgs` returns is the join of every diagnostic the
      producer sent and every failure of the action on a file sent to the
      workers, and holds nothing else. */
  lemma ProcessArgsJoin<E>(fs: FileSystem, follow: bool, args: seq<string>, apply: Info -> Option<E>)
    ensures var acts := Produce(fs, follow, map[], args).0; var r := ProcessArgs(fs, follow, args, apply);
            forall i :: 0 <= i < |acts| && acts[i].Report? ==> r.Some? && Diag(acts[i].diag) in r.value
    ensures var q := Enqueued(Produce(fs, follow, map[], args).0); var r := ProcessArgs(fs, follow, args, apply);
            forall i :: 0 <= i < |q| && apply(q[i]).Some? ==> r.Some? && Failed(apply(q[i]).value) in r.value
    ensures var acts := Produce(fs, follow, map[], args).0; var r := ProcessArgs(fs, follow, args, apply);
            r.Some? ==> |r.value| == |Diagnostics(acts)| + FailureCount(Enqueued(acts), apply)
    ensures var acts := Produce(fs, follow, map[], args).0; var r := ProcessArgs(fs, follow, args, apply);
            r.Some? ==> forall e :: e in r.value ==>
                          if e.Diag? then Report(e.diag) in acts
                          else exists x :: x in Enqueued(acts) && apply(x) == Some(e.err)
  {
    var acts := Produce(fs, follow, map[], args).0;
    var q := Enqueued(acts);
    var ds := Diagnostics(acts);
    ApplyErrorsExact(q, apply);
    JoinOf(ds, ApplyErrors(q, apply), ProcessArgs(fs, follow, args, apply));
  }

  /** The errors joined from a run of diagnostics and a run of failures. */
  lemma JoinOf<E>(ds: seq<Diagnostic>, ws: seq<ProcError<E>>, r: Option<seq<ProcError<E>>>)
    requires forall e :: e in ws ==> e.Failed?
    requires r == if |AsErrors<E>(ds) + ws| > 0 then Some(AsErrors<E>(ds) + ws) else None
    ensures forall d :: d in ds ==> r.Some? && Diag(d) in r.value
    ensures forall e :: e in ws ==> r.Some? && e in r.value
    ensures r.Some? ==> |r.value| == |ds| + |ws|
    ensures r.Some? ==> forall e :: e in r.value ==> if e.Diag? then e.diag in ds else e in ws
  {
    var all := AsErrors<E>(ds) + ws;
    forall d | d in ds
      ensures r.Some? && Diag(d) in r.value
    {
      var i :| 0 <= i < |ds| && ds[i] == d;
      assert all[i] == Diag(d);
    }
    forall e | e in all
      ensures if e.Diag? then e.diag in ds else e in ws
    {
      var i :| 0 <= i < |all| && all[i] == e;
      if i < |ds| {
        assert e == Diag(ds[i]);
      } else {
        assert e == ws[i - |ds|];
      }
    }
  }

  /** An argument that cannot be lstat'ed makes the whole call fail, and the
      producer still goes on to the arguments after it. */
  lemma LstatFailureReported<E>(fs: FileSystem, follow: bool, args: seq<string>, apply: Info -> Option<E>, i: nat)
    requires i < |args| && args[i] !in fs.nodes
    ensures Produce(fs, follow, map[], args).0[i] == Report(LstatFailed(args[i]))
    ensures |Produce(fs, follow, map[], args).0| == |args|
    ensures ProcessArgs(fs, follow, args, apply).Some?
  {
    var acts := Produce(fs, follow, map[], args).0;
    assert acts[i].Report?;
  }
}
