/** The filesystem as the tools observe it: what `lstat`, `stat`,
    `filepath.EvalSymlinks` and reading a file return, as finite maps.
    Every operating-system call in the tools is a lookup here. */
module Fs {
  import opened Wrappers
  import opened Text

  /** The file-type bits of a mode that the tools branch on. */
  datatype Kind = Regular | Directory | Symlink | Other

  /** The identity of a filesystem object whatever name reaches it. */
  datatype InodeKey = InodeKey(dev: nat, rdev: nat, ino: nat)

  /** One filesystem object: its identity and type, the size `stat` reports,
      its link count and modification time, and the bytes a read of it
      yields (None when opening or mapping it fails). */
  datatype Node = Node(key: InodeKey, kind: Kind, size: int, nlink: nat, mtime: int,
                       contents: Option<seq<byte>>)

  /** `fio.Info`: a node together with the name used to reach it. */
  datatype Info = Info(path: string, node: Node)

  /** `nodes` answers `lstat` for every existing name; `links` holds, for the
      symbolic links whose chain resolves, the final target's name. */
  datatype FileSystem = FileSystem(nodes: map<string, Node>, links: map<string, string>)

  /** `lstat`: does not follow a final symbolic link. */
  function Lstat(fs: FileSystem, p: string): (r: Option<Info>)
    ensures r.Some? <==> p in fs.nodes
    ensures r.Some? ==> r.value == Info(p, fs.nodes[p])
  {
    if p in fs.nodes then Some(Info(p, fs.nodes[p])) else None
  }

  /** `filepath.EvalSymlinks`: the name with every link resolved; a broken
      or cyclic chain is an error (None). */
  function EvalSymlinks(fs: FileSystem, p: string): (r: Option<string>)
    ensures r.Some? ==> p in fs.nodes
  {
    if p !in fs.nodes then None
    else if fs.nodes[p].kind != Symlink then Some(p)
    else if p in fs.links then Some(fs.links[p])
    else None
  }

  /** `stat` (and `os.Open`): follows a symbolic link to its target but
      reports under the name asked for. */
  function Stat(fs: FileSystem, p: string): (r: Option<Info>)
    ensures r.Some? ==> r.value.path == p
    ensures p in fs.nodes && fs.nodes[p].kind != Symlink ==> r == Lstat(fs, p)
  {
    match EvalSymlinks(fs, p)
    case None => None
    case Some(t) => if t in fs.nodes then Some(Info(p, fs.nodes[t])) else None
  }
}
