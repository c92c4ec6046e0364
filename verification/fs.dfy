/**
  An abstract filesystem standing in for the calls the core makes through `std::fs`:
  `metadata`, `read_dir`, `create_dir`, `OpenOptions::open` and `remove_file`.

  The tree is a map from absolute path to node. Failures that the kernel may report for
  reasons outside the model (permissions, I/O errors, races) come from a fault oracle:
  a map from an operation and a path to the error kind that call reports.
*/
module Fs {
  import opened Wrappers

  type Path = string

  /** The `std::io::ErrorKind`s the core distinguishes, plus a catch-all. */
  datatype ErrorKind = NotFound | PermissionDenied | AlreadyExists | InvalidInput | OtherKind

  /** A node: a regular file, or a directory with the names of its entries. */
  datatype Node = File | Dir(entries: set<string>)

  /** The filesystem calls the fault oracle can make fail. */
  datatype Op = Stat | ReadDir | MkDir | Open | Unlink

  datatype FileSystem = FileSystem(nodes: map<Path, Node>, faults: map<(Op, Path), ErrorKind>)

  /** The effect of one filesystem call: what it returned and the filesystem afterwards. */
  datatype Effect<T> = Effect(result: Result<T, ErrorKind>, fs: FileSystem)

  /** True when the oracle makes `op` on `p` fail. */
  predicate Faulty(fs: FileSystem, op: Op, p: Path)
  {
    (op, p) in fs.faults
  }

  /** `fs::metadata`: the node at `p`, `NotFound` when there is none, or the oracle's error. */
  function Metadata(fs: FileSystem, p: Path): (r: Result<Node, ErrorKind>)
    ensures !Faulty(fs, Stat, p) ==> (r.Ok? <==> p in fs.nodes)
    ensures r.Ok? ==> p in fs.nodes && r.value == fs.nodes[p]
    ensures r.Err? && !Faulty(fs, Stat, p) ==> r.error == NotFound
  {
    if Faulty(fs, Stat, p) then Err(fs.faults[(Stat, p)])
    else if p in fs.nodes then Ok(fs.nodes[p])
    else Err(NotFound)
  }

  /**
    `fs::read_dir(p)` followed by one `next()`: whether the directory yields an entry.
    Only called on a path whose metadata said it is a directory.
  */
  function ReadDirHasEntry(fs: FileSystem, p: Path): (r: Result<bool, ErrorKind>)
    requires p in fs.nodes && fs.nodes[p].Dir?
    ensures !Faulty(fs, ReadDir, p) ==> r == Ok(fs.nodes[p].entries != {})
    ensures Faulty(fs, ReadDir, p) ==> r.Err?
  {
    if Faulty(fs, ReadDir, p) then Err(fs.faults[(ReadDir, p)])
    else Ok(fs.nodes[p].entries != {})
  }

  /** `fs::create_dir`: creates an empty directory at a path that holds nothing. */
  function CreateDir(fs: FileSystem, p: Path): (r: Effect<()>)
    ensures r.result.Ok? <==> !Faulty(fs, MkDir, p) && p !in fs.nodes
    ensures r.result.Ok? ==> r.fs.nodes == fs.nodes[p := Dir({})] && r.fs.faults == fs.faults
    ensures r.result.Err? ==> r.fs == fs
    ensures r.result.Err? && !Faulty(fs, MkDir, p) ==> r.result.error == AlreadyExists
  {
    if Faulty(fs, MkDir, p) then Effect(Err(fs.faults[(MkDir, p)]), fs)
    else if p in fs.nodes then Effect(Err(AlreadyExists), fs)
    else Effect(Ok(()), fs.(nodes := fs.nodes[p := Dir({})]))
  }

  /** The access and creation flags of `std::fs::OpenOptions`. */
  datatype OpenOptions = OpenOptions(
    read: bool, write: bool, append: bool, truncate: bool, create: bool, createNew: bool)

  /**
    The flag validation `OpenOptions::open` performs on Unix before any system call: an
    open with no access mode at all, or one that may create or truncate a file without
    write or append access, is refused with `InvalidInput` (EINVAL).
  */
  predicate ValidOpenOptions(o: OpenOptions)
  {
    && (o.read || o.write || o.append)
    && (o.write || o.append || !(o.truncate || o.create || o.createNew))
    && !(o.append && o.truncate && !o.createNew)
  }

  /** `OpenOptions::open`, keeping only what it does to the node at `p`. */
  function OpenFile(fs: FileSystem, o: OpenOptions, p: Path): (r: Effect<()>)
    ensures r.result.Err? ==> r.fs == fs
    ensures !ValidOpenOptions(o) ==> r.result == Err(InvalidInput)
    ensures r.result.Ok? ==> p in r.fs.nodes && r.fs.faults == fs.faults
    ensures r.result.Ok? && o.createNew ==> p !in fs.nodes && r.fs.nodes == fs.nodes[p := File]
    ensures ValidOpenOptions(o) && o.createNew && !Faulty(fs, Open, p) ==>
      (r.result.Ok? <==> p !in fs.nodes) && (r.result.Err? ==> r.result.error == AlreadyExists)
  {
    if !ValidOpenOptions(o) then Effect(Err(InvalidInput), fs)
    else if Faulty(fs, Open, p) then Effect(Err(fs.faults[(Open, p)]), fs)
    else if o.createNew then
      if p in fs.nodes then Effect(Err(AlreadyExists), fs)
      else Effect(Ok(()), fs.(nodes := fs.nodes[p := File]))
    else if p in fs.nodes then
      if fs.nodes[p].Dir? && (o.write || o.append) then Effect(Err(OtherKind), fs)
      else Effect(Ok(()), fs)
    else if o.create then Effect(Ok(()), fs.(nodes := fs.nodes[p := File]))
    else Effect(Err(NotFound), fs)
  }

  /** `fs::remove_file`: removes a file; a missing path or a directory is an error. */
  function RemoveFile(fs: FileSystem, p: Path): (r: Effect<()>)
    ensures r.result.Ok? <==> !Faulty(fs, Unlink, p) && p in fs.nodes && fs.nodes[p].File?
    ensures r.result.Ok? ==> r.fs.nodes == fs.nodes - {p} && r.fs.faults == fs.faults
    ensures r.result.Err? ==> r.fs == fs
  {
    if Faulty(fs, Unlink, p) then Effect(Err(fs.faults[(Unlink, p)]), fs)
    else if p !in fs.nodes then Effect(Err(NotFound), fs)
    else if fs.nodes[p].Dir? then Effect(Err(OtherKind), fs)
    else Effect(Ok(()), fs.(nodes := fs.nodes - {p}))
  }
}
