/**
  The start-up of the journal daemon (`journal/src/main.rs`): take the lock file
  `/run/easyinit-journal.lock` with create-if-absent semantics, classify the failure,
  and remove the lock again on the way out.
*/
module Journal {
  import opened Wrappers
  import opened Fs

  const LockPath: Path := "/run/easyinit-journal.lock"

  /** `SetupError`: the lock is held by someone else, or another I/O error. */
  datatype SetupError = AlreadyLocked | IO(kind: ErrorKind)

  /** The outcome of a step and the filesystem afterwards. */
  datatype Setup = Setup(result: Result<(), SetupError>, fs: FileSystem)

  /** The options as written: `create_new(true).write(false)`, and no read or append access. */
  const LockOptionsAsWritten := OpenOptions(
    read := false, write := false, append := false, truncate := false, create := false, createNew := true)

  /** The options with the write access `create_new` needs. */
  const LockOptions := LockOptionsAsWritten.(write := true)

  /** `add_lock` with the given open options: AlreadyExists means the lock is held. */
  function AddLockWith(fs: FileSystem, o: OpenOptions): (r: Setup)
    ensures r.result.Err? ==> r.fs == fs
    ensures !ValidOpenOptions(o) ==> r == Setup(Err(IO(InvalidInput)), fs)
    // an existing file is always reported as a held lock, never as an I/O error
    ensures r.result != Err(IO(AlreadyExists))
    ensures ValidOpenOptions(o) && o.createNew && !Faulty(fs, Open, LockPath) ==>
      (r.result.Ok? <==> LockPath !in fs.nodes) && (r.result.Err? ==> r.result == Err(AlreadyLocked))
    ensures r.result.Ok? && o.createNew ==> r.fs.nodes == fs.nodes[LockPath := File]
  {
    var attempt := OpenFile(fs, o, LockPath);
    match attempt.result
    case Ok(_) => Setup(Ok(()), attempt.fs)
    case Err(k) => Setup(Err(if k == AlreadyExists then AlreadyLocked else IO(k)), attempt.fs)
  }

  /**
    `add_lock` exactly as written. The open is refused before it reaches the filesystem,
    because an open that may create a file needs write or append access.
  */
  function AddLockAsWritten(fs: FileSystem): (r: Setup)
    ensures r == Setup(Err(IO(InvalidInput)), fs)
  {
    AddLockWith(fs, LockOptionsAsWritten)
  }

  /** `add_lock` with write access: creates the lock file only when it does not exist. */
  function AddLock(fs: FileSystem): (r: Setup)
    ensures !Faulty(fs, Open, LockPath) ==> (r.result.Ok? <==> LockPath !in fs.nodes)
    ensures r.result.Ok? ==> LockPath !in fs.nodes && r.fs == fs.(nodes := fs.nodes[LockPath := File])
    ensures r.result.Err? ==> r.fs == fs
    ensures !Faulty(fs, Open, LockPath) && LockPath in fs.nodes ==> r.result == Err(AlreadyLocked)
    ensures Faulty(fs, Open, LockPath) ==>
      var k := fs.faults[(Open, LockPath)];
      r.result == Err(if k == AlreadyExists then AlreadyLocked else IO(k))
  {
    AddLockWith(fs, LockOptions)
  }

  /** `exit_cleanup`: removes the lock file and ignores a failed removal. */
  function ExitCleanup(fs: FileSystem): (r: FileSystem)
    ensures r.faults == fs.faults
    ensures forall p :: p != LockPath ==> (p in r.nodes <==> p in fs.nodes)
    ensures forall p :: p != LockPath && p in r.nodes ==> r.nodes[p] == fs.nodes[p]
    ensures !Faulty(fs, Unlink, LockPath) && LockPath in fs.nodes && fs.nodes[LockPath].File? ==> LockPath !in r.nodes
    ensures Faulty(fs, Unlink, LockPath) ==> r == fs
  {
    RemoveFile(fs, LockPath).fs
  }

  /** The body of `main` with a given `add_lock`: return early on its error, else clean up. */
  function MainWith(locked: Setup): (r: Setup)
    ensures r.result == locked.result
    ensures locked.result.Err? ==> r.fs == locked.fs
    ensures forall p :: p != LockPath ==> (p in r.fs.nodes <==> p in locked.fs.nodes)
    ensures forall p :: p != LockPath && p in r.fs.nodes ==> r.fs.nodes[p] == locked.fs.nodes[p]
    ensures r.fs.faults == locked.fs.faults
    ensures (locked.result.Ok? && !Faulty(locked.fs, Unlink, LockPath)
             && LockPath in locked.fs.nodes && locked.fs.nodes[LockPath].File?) ==> LockPath !in r.fs.nodes
  {
    match locked.result
    case Err(e) => Setup(Err(e), locked.fs)
    case Ok(u) => Setup(Ok(u), ExitCleanup(locked.fs))
  }

  /** `main` with the corrected `add_lock`. */
  function JournalMain(fs: FileSystem): (r: Setup)
    ensures r.result.Err? ==> r.fs == fs
    ensures !Faulty(fs, Open, LockPath) ==> (r.result.Ok? <==> LockPath !in fs.nodes)
  {
    MainWith(AddLock(fs))
  }

  /** `main` exactly as written. */
  function JournalMainAsWritten(fs: FileSystem): (r: Setup)
    ensures r == Setup(Err(IO(InvalidInput)), fs)
  {
    MainWith(AddLockAsWritten(fs))
  }

  /** The `Termination` report of `SetupError`. */
  function Report(e: SetupError): (code: nat)
    ensures code == 2 <==> e == AlreadyLocked
    ensures code == 101 <==> e.IO?
  {
    match e
    case AlreadyLocked => 2
    case IO(_) => 101
  }

  /**
    The exit status of `main` as written: it returns `Result<(), Box<dyn Error>>`, whose
    `Termination` gives 0 on `Ok` and 1 on any `Err`, so `Report` is never consulted.
  */
  function ExitStatusAsWritten(r: Result<(), SetupError>): (code: nat)
    ensures code == 0 <==> r.Ok?
    ensures r.Err? ==> code == 1
  {
    if r.Ok? then 0 else 1
  }

  /** The exit status with `SetupError`'s own report used for errors. */
  function ExitStatus(r: Result<(), SetupError>): (code: nat)
    ensures code == 0 <==> r.Ok?
    ensures r.Err? ==> code == Report(r.error)
  {
    match r
    case Ok(_) => 0
    case Err(e) => Report(e)
  }

  /** A filesystem that makes no call on the lock file fail. */
  predicate LockCallsSucceed(fs: FileSystem)
  {
    !Faulty(fs, Open, LockPath) && !Faulty(fs, Unlink, LockPath)
  }

  /** With no lock file, a journal run creates the lock and removes it: the filesystem is as before. */
  lemma LockRoundTrip(fs: FileSystem)
    requires LockCallsSucceed(fs) && LockPath !in fs.nodes
    ensures JournalMain(fs) == Setup(Ok(()), fs)
  {
    var locked := AddLock(fs);
    assert locked.fs.nodes[LockPath] == File;
    assert ExitCleanup(locked.fs).nodes == fs.nodes;
  }

  /** With the lock file present, a second journal exits with 2 and leaves the lock file alone. */
  lemma SecondJournalExitsWithTwo(fs: FileSystem)
    requires LockCallsSucceed(fs) && LockPath in fs.nodes
    ensures JournalMain(fs) == Setup(Err(AlreadyLocked), fs)
    ensures ExitStatus(JournalMain(fs).result) == 2
    ensures LockPath in JournalMain(fs).fs.nodes
  {
  }

  /** As written, every run fails with an I/O error before touching the filesystem. */
  lemma AsWrittenNeverLocks(fs: FileSystem)
    ensures JournalMainAsWritten(fs) == Setup(Err(IO(InvalidInput)), fs)
    ensures ExitStatusAsWritten(JournalMainAsWritten(fs).result) == 1
  {
  }

  /** As written, a held lock exits with 1, the same status as any I/O failure. */
  lemma AsWrittenLockedExitsWithOne()
    ensures ExitStatusAsWritten(Err(AlreadyLocked)) == ExitStatusAsWritten(Err(IO(OtherKind))) == 1
    ensures Report(AlreadyLocked) == 2
  {
  }
}
