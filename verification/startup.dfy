/**
  The required-mount sequencer of `system/src/startup.rs`: before each required tmpfs
  mount the mount point is checked (created when missing, refused when it is not an
  empty directory), then the mount is requested, and every failure ends the boot.
*/
module Startup {
  import opened Wrappers
  import opened Fs

  /** The `MsFlags` the sequencer passes to `mount(2)`. */
  datatype MsFlag = MS_MGC_VAL | MS_NOEXEC | MS_NOSUID | MS_NODEV | MS_RELATIME

  /** An errno returned by `mount(2)`, by its Linux number. */
  datatype Errno = Errno(code: nat)

  /** "No such device": the running kernel does not know the filesystem type. */
  const ENODEV := Errno(19)

  /** The arguments of one `mount(2)` call (the source is always `None` here). */
  datatype MountRequest = MountRequest(
    source: Option<string>, target: Path, fstype: Option<string>, flags: set<MsFlag>, data: Option<string>)

  /** The mount driver: what `mount(2)` answers to a request. The kernel is not modelled. */
  type MountDriver = MountRequest -> Result<(), Errno>

  /** Why `ensure_mountpoint_safe` refused a path. */
  datatype MountpointError =
    | NotADirectory(path: Path)   // exists but is not a directory
    | NotEmpty(path: Path)        // a directory with at least one entry
    | Io(kind: ErrorKind)         // an error from metadata, read_dir or create_dir

  /** A panic that stops the boot, with the message it carries. */
  datatype Panic =
    | UnsafeMountpoint(target: Path, cause: MountpointError)  // "Failed to ensure ... is safe to mount on"
    | KernelUnsupported(fstype: string)                       // "Kernel does not support ... filesystem"
    | UnhandledErrno(errno: Errno)                            // "Unhandled errno: ..."

  /** One required mount: the request, and the filesystem name used in its failure message. */
  datatype MountStep = MountStep(request: MountRequest, errorLabel: string)

  /** What the sequencer did, in order. */
  datatype Event =
    | Checked(path: Path, safe: bool)
    | Mounted(request: MountRequest, outcome: Result<(), Errno>)

  /** The end state of the sequencer: the filesystem, the events, and the panic if it stopped. */
  datatype Boot = Boot(fs: FileSystem, trace: seq<Event>, panic: Option<Panic>)

  const Tmp: Path := "/tmp"
  const Run: Path := "/run"
  const TmpfsFlags: set<MsFlag> := {MS_MGC_VAL, MS_NOEXEC, MS_NOSUID, MS_NODEV, MS_RELATIME}
  const TmpRequest := MountRequest(None, Tmp, Some("tmpfs"), TmpfsFlags, Some("usrquota"))
  const RunRequest := MountRequest(None, Run, Some("tmpfs"), TmpfsFlags, None)

  /** The two steps exactly as written: `/run`'s failure message names "sysfs". */
  const NeededMountsAsWritten: seq<MountStep> := [MountStep(TmpRequest, "tmpfs"), MountStep(RunRequest, "sysfs")]

  /** The two steps with each failure message naming the filesystem type actually requested. */
  const NeededMounts: seq<MountStep> := [MountStep(TmpRequest, "tmpfs"), MountStep(RunRequest, "tmpfs")]

  /** A filesystem that makes no call on `p` fail. */
  predicate NoFaultsAt(fs: FileSystem, p: Path)
  {
    !Faulty(fs, Stat, p) && !Faulty(fs, ReadDir, p) && !Faulty(fs, MkDir, p)
  }

  /** The outcome of the mount-point check and the filesystem afterwards. */
  datatype Check = Check(result: Result<(), MountpointError>, fs: FileSystem)

  /**
    `ensure_mountpoint_safe`: succeeds only when `p` ends up an empty directory, creating
    it when it is missing, and changes nothing on any other outcome.
  */
  function EnsureMountpointSafe(fs: FileSystem, p: Path): (r: Check)
    // success leaves an empty directory at p
    ensures r.result.Ok? ==> p in r.fs.nodes && r.fs.nodes[p] == Dir({})
    // nothing is modified except by creating a missing mount point
    ensures r.result.Err? ==> r.fs == fs
    ensures r.result.Ok? && p in fs.nodes ==> r.fs == fs
    ensures r.fs != fs ==> p !in fs.nodes && r.fs.nodes == fs.nodes[p := Dir({})] && r.fs.faults == fs.faults
    // a metadata error other than NotFound is propagated and nothing is created
    ensures Faulty(fs, Stat, p) && fs.faults[(Stat, p)] != NotFound ==>
      r == Check(Err(Io(fs.faults[(Stat, p)])), fs)
    // a read_dir error on an existing directory is propagated
    ensures !Faulty(fs, Stat, p) && p in fs.nodes && fs.nodes[p].Dir? && Faulty(fs, ReadDir, p) ==>
      r == Check(Err(Io(fs.faults[(ReadDir, p)])), fs)
    // a create_dir error on a missing mount point is propagated and nothing is created
    ensures !Faulty(fs, Stat, p) && p !in fs.nodes && Faulty(fs, MkDir, p) ==>
      r == Check(Err(Io(fs.faults[(MkDir, p)])), fs)
    // the complete decision when no call on p fails
    ensures NoFaultsAt(fs, p) ==>
      (r.result.Ok? <==> (p !in fs.nodes || fs.nodes[p] == Dir({})))
    ensures NoFaultsAt(fs, p) && p in fs.nodes && fs.nodes[p].File? ==> r.result == Err(NotADirectory(p))
    ensures NoFaultsAt(fs, p) && p in fs.nodes && fs.nodes[p].Dir? && fs.nodes[p].entries != {} ==>
      r.result == Err(NotEmpty(p))
  {
    match Metadata(fs, p)
    case Ok(node) =>
      if !node.Dir? then Check(Err(NotADirectory(p)), fs)
      else (
        match ReadDirHasEntry(fs, p)
        case Err(k) => Check(Err(Io(k)), fs)
        case Ok(nonEmpty) => if nonEmpty then Check(Err(NotEmpty(p)), fs) else Check(Ok(()), fs))
    case Err(k) =>
      if k == NotFound then
        var c := CreateDir(fs, p);
        (match c.result
         case Ok(_) => Check(Ok(()), c.fs)
         case Err(k') => Check(Err(Io(k')), fs))
      else Check(Err(Io(k)), fs)
  }

  /**
    `handle_needed_fs_errors`: every errno ends the boot. ENODEV names the filesystem
    label it was given; any other errno is reported as unhandled.
  */
  function HandleNeededFsErrors(e: Errno, mountpoint: Path, fstype: string): (p: Panic)
    ensures p.KernelUnsupported? <==> e == ENODEV
    ensures p.KernelUnsupported? ==> p.fstype == fstype
    ensures p.UnhandledErrno? ==> p.errno == e
    ensures !p.UnsafeMountpoint?
  {
    if e == ENODEV then KernelUnsupported(fstype) else UnhandledErrno(e)
  }

  /** The events of a run in which every step is checked safe and then mounted. */
  function SuccessTrace(steps: seq<MountStep>): (t: seq<Event>)
    ensures |t| == 2 * |steps|
    ensures forall i :: 0 <= i < |steps| ==>
      t[2 * i] == Checked(steps[i].request.target, true) && t[2 * i + 1] == Mounted(steps[i].request, Ok(()))
  {
    if steps == [] then []
    else [Checked(steps[0].request.target, true), Mounted(steps[0].request, Ok(()))] + SuccessTrace(steps[1..])
  }

  /** Step `step` was refused by its mount-point check, which raised `p`. */
  predicate CheckFailure(step: MountStep, ev: Event, p: Panic)
  {
    ev == Checked(step.request.target, false) && p.UnsafeMountpoint? && p.target == step.request.target
  }

  /** Step `step`'s mount was refused by the driver, and `p` is the panic that follows. */
  predicate MountFailure(step: MountStep, ev: Event, p: Panic)
  {
    && ev.Mounted? && ev.request == step.request && ev.outcome.Err?
    && p == HandleNeededFsErrors(ev.outcome.error, step.request.target, step.errorLabel)
  }

  /**
    A run that stopped at step `k`: every earlier step was checked and mounted, and the
    last event is how step `k` failed (its check, or its mount after a passing check).
  */
  predicate FailedAt(steps: seq<MountStep>, t: seq<Event>, p: Panic, k: int)
  {
    && 0 <= k < |steps|
    && 2 * k < |t|
    && t[..2 * k] == SuccessTrace(steps)[..2 * k]
    && ((|t| == 2 * k + 1 && CheckFailure(steps[k], t[2 * k], p))
        || (&& |t| == 2 * k + 2
            && t[2 * k] == Checked(steps[k].request.target, true)
            && MountFailure(steps[k], t[2 * k + 1], p)))
  }

  predicate FailedRun(steps: seq<MountStep>, t: seq<Event>, p: Panic)
  {
    exists k :: 0 <= k < |steps| && FailedAt(steps, t, p, k)
  }

  /** The mount points the steps name. */
  function Targets(steps: seq<MountStep>): set<Path>
  {
    set s | s in steps :: s.request.target
  }

  /** `after` keeps every node of `before` and adds only empty directories at `targets`. */
  predicate OnlyCreatesMountpoints(before: FileSystem, after: FileSystem, targets: set<Path>)
  {
    && after.faults == before.faults
    && (forall p :: p in before.nodes ==> p in after.nodes && after.nodes[p] == before.nodes[p])
    && (forall p :: p in after.nodes && p !in before.nodes ==> after.nodes[p] == Dir({}) && p in targets)
  }

  /** Every step's mount point is an empty directory in `fs`. */
  predicate MountpointsReady(fs: FileSystem, steps: seq<MountStep>)
  {
    forall k :: 0 <= k < |steps| ==>
      steps[k].request.target in fs.nodes && fs.nodes[steps[k].request.target] == Dir({})
  }

  /** No two steps mount on the same path. */
  predicate DistinctTargets(steps: seq<MountStep>)
  {
    forall i, j :: 0 <= i < j < |steps| ==> steps[i].request.target != steps[j].request.target
  }

  /** Every mount outcome `t` records is what the driver answers to that request. */
  predicate MountsFaithful(driver: MountDriver, t: seq<Event>)
  {
    forall i :: 0 <= i < |t| && t[i].Mounted? ==> t[i].outcome == driver(t[i].request)
  }

  /** Every check `t` records, and the path an unsafe-mount-point panic names, is one of `targets`. */
  predicate ChecksWithin(t: seq<Event>, panic: Option<Panic>, targets: set<Path>)
  {
    && (forall i :: 0 <= i < |t| && t[i].Checked? ==> t[i].path in targets)
    && (panic.Some? && panic.value.UnsafeMountpoint? ==> panic.value.target in targets)
  }

  /**
    Every check `t` records has the verdict `ensure_mountpoint_safe` gives on `fs`, and an
    unsafe-mount-point panic carries the error it gives there.
  */
  predicate ChecksFaithful(fs: FileSystem, t: seq<Event>, panic: Option<Panic>)
  {
    && (forall i :: 0 <= i < |t| && t[i].Checked? ==> t[i].safe == EnsureMountpointSafe(fs, t[i].path).result.Ok?)
    && (panic.Some? && panic.value.UnsafeMountpoint? ==>
          EnsureMountpointSafe(fs, panic.value.target).result == Err(panic.value.cause))
  }

  /** The mount-point check depends only on what the filesystem holds and injects at that path. */
  lemma CheckIsLocal(a: FileSystem, b: FileSystem, p: Path)
    requires forall op: Op ::
               && (Faulty(a, op, p) <==> Faulty(b, op, p))
               && (Faulty(a, op, p) ==> a.faults[(op, p)] == b.faults[(op, p)])
    requires (p in a.nodes <==> p in b.nodes) && (p in a.nodes ==> a.nodes[p] == b.nodes[p])
    ensures EnsureMountpointSafe(a, p).result == EnsureMountpointSafe(b, p).result
  {
  }

  /** The mount-point check creates nothing but an empty directory at the path it checks. */
  lemma CheckOnlyCreatesTarget(fs: FileSystem, p: Path)
    ensures OnlyCreatesMountpoints(fs, EnsureMountpointSafe(fs, p).fs, {p})
  {
  }

  lemma OnlyCreatesMountpointsTrans(a: FileSystem, b: FileSystem, c: FileSystem, t1: set<Path>, t2: set<Path>)
    requires OnlyCreatesMountpoints(a, b, t1) && OnlyCreatesMountpoints(b, c, t2)
    ensures OnlyCreatesMountpoints(a, c, t1 + t2)
  {
  }

  /** Two events prepended to a failed run keep its agreement with the success trace. */
  lemma TracePrefix(head: seq<Event>, t: seq<Event>, ok: seq<Event>, n: nat)
    requires n <= |t| && n <= |ok| && t[..n] == ok[..n]
    ensures (head + t)[..|head| + n] == (head + ok)[..|head| + n]
  {
    assert (head + t)[..|head| + n] == head + t[..n];
    assert (head + ok)[..|head| + n] == head + ok[..n];
  }

  /**
    Runs the steps in order. Each target is checked before its mount is requested; the
    first failure panics and nothing after it is attempted.
  */
  function RunSteps(steps: seq<MountStep>, fs: FileSystem, driver: MountDriver): (r: Boot)
    // success is exactly: every step checked safe, then mounted, in declared order
    ensures r.panic.None? <==> r.trace == SuccessTrace(steps)
    // a failure ends the run at the failing step; every earlier step completed
    ensures r.panic.Some? ==> FailedRun(steps, r.trace, r.panic.value)
    ensures OnlyCreatesMountpoints(fs, r.fs, Targets(steps))
    // a completed run leaves every mount point an empty directory, created if it was missing
    ensures r.panic.None? ==> MountpointsReady(r.fs, steps)
    // what the trace records is what happened: the driver's answers, the checks' verdicts
    ensures MountsFaithful(driver, r.trace)
    ensures ChecksWithin(r.trace, r.panic, Targets(steps))
    ensures DistinctTargets(steps) ==> ChecksFaithful(fs, r.trace, r.panic)
    decreases |steps|
  {
    if steps == [] then Boot(fs, [], None)
    else
      var step := steps[0];
      var c := EnsureMountpointSafe(fs, step.request.target);
      if c.result.Err? then
        CheckFailureRun(steps, fs, driver);
        Boot(c.fs, [Checked(step.request.target, false)], Some(UnsafeMountpoint(step.request.target, c.result.error)))
      else if driver(step.request).Err? then
        MountFailureRun(steps, fs, driver);
        Boot(c.fs, [Checked(step.request.target, true), Mounted(step.request, driver(step.request))],
             Some(HandleNeededFsErrors(driver(step.request).error, step.request.target, step.errorLabel)))
      else
        var rest := RunSteps(steps[1..], c.fs, driver);
        assert RunSpec(steps[1..], c.fs, driver, rest);
        CompletedStepRun(steps, fs, driver, rest);
        Boot(rest.fs, CompletedStep(step) + rest.trace, rest.panic)
  }

  /** What `RunSteps` promises of the boot `r` it returns for `steps`, run on `fs` with `driver`. */
  predicate RunSpec(steps: seq<MountStep>, fs: FileSystem, driver: MountDriver, r: Boot)
  {
    && (r.panic.None? <==> r.trace == SuccessTrace(steps))
    && (r.panic.Some? ==> FailedRun(steps, r.trace, r.panic.value))
    && OnlyCreatesMountpoints(fs, r.fs, Targets(steps))
    && (r.panic.None? ==> MountpointsReady(r.fs, steps))
    && MountsFaithful(driver, r.trace)
    && ChecksWithin(r.trace, r.panic, Targets(steps))
    && (DistinctTargets(steps) ==> ChecksFaithful(fs, r.trace, r.panic))
  }

  /** A run whose first mount point fails its check stops there, with the check's error. */
  lemma CheckFailureRun(steps: seq<MountStep>, fs: FileSystem, driver: MountDriver)
    requires |steps| > 0 && EnsureMountpointSafe(fs, steps[0].request.target).result.Err?
    ensures var target := steps[0].request.target;
      var c := EnsureMountpointSafe(fs, target);
      RunSpec(steps, fs, driver, Boot(c.fs, [Checked(target, false)], Some(UnsafeMountpoint(target, c.result.error))))
  {
    var target := steps[0].request.target;
    var c := EnsureMountpointSafe(fs, target);
    var b := Boot(c.fs, [Checked(target, false)], Some(UnsafeMountpoint(target, c.result.error)));
    assert b.trace[0] != SuccessTrace(steps)[0];
    assert FailedAt(steps, b.trace, b.panic.value, 0);
    assert steps[0] in steps;
  }

  /** A run whose first mount the driver refuses stops there, with the panic for its errno. */
  lemma MountFailureRun(steps: seq<MountStep>, fs: FileSystem, driver: MountDriver)
    requires |steps| > 0 && EnsureMountpointSafe(fs, steps[0].request.target).result.Ok?
    requires driver(steps[0].request).Err?
    ensures var step := steps[0];
      var c := EnsureMountpointSafe(fs, step.request.target);
      RunSpec(steps, fs, driver,
              Boot(c.fs, [Checked(step.request.target, true), Mounted(step.request, driver(step.request))],
                   Some(HandleNeededFsErrors(driver(step.request).error, step.request.target, step.errorLabel))))
  {
    var step := steps[0];
    var target := step.request.target;
    var c := EnsureMountpointSafe(fs, target);
    CheckOnlyCreatesTarget(fs, target);
    var b := Boot(c.fs, [Checked(target, true), Mounted(step.request, driver(step.request))],
                  Some(HandleNeededFsErrors(driver(step.request).error, target, step.errorLabel)));
    assert b.trace[1] != SuccessTrace(steps)[1];
    assert FailedAt(steps, b.trace, b.panic.value, 0);
    assert steps[0] in steps;
  }

  /** A first step that passes, followed by a run of the later steps, is a run of them all. */
  lemma CompletedStepRun(steps: seq<MountStep>, fs: FileSystem, driver: MountDriver, rest: Boot)
    requires |steps| > 0 && StepPasses(steps[0], fs, driver)
    requires RunSpec(steps[1..], EnsureMountpointSafe(fs, steps[0].request.target).fs, driver, rest)
    ensures RunSpec(steps, fs, driver, Boot(rest.fs, CompletedStep(steps[0]) + rest.trace, rest.panic))
  {
    var target := steps[0].request.target;
    var c := EnsureMountpointSafe(fs, target);
    CheckOnlyCreatesTarget(fs, target);
    TargetsTail(steps);
    var head := CompletedStep(steps[0]);
    assert head + SuccessTrace(steps[1..]) == SuccessTrace(steps);
    OnlyCreatesMountpointsTrans(fs, c.fs, rest.fs, {target}, Targets(steps[1..]));
    assert (head + rest.trace)[2..] == rest.trace;
    MountsFaithfulCons(steps[0], driver, rest.trace);
    ChecksWithinCons(steps, rest.trace, rest.panic);
    if DistinctTargets(steps) {
      DistinctTail(steps);
      ChecksFaithfulCons(steps, fs, c.fs, rest.trace, rest.panic);
    }
    if rest.panic.Some? {
      FailedRunCons(steps, rest.trace, rest.panic.value);
    } else {
      ReadyCons(steps, c.fs, rest.fs);
    }
  }

  /** The first mount point, ready before the later steps ran, is still ready after them. */
  lemma ReadyCons(steps: seq<MountStep>, cfs: FileSystem, rfs: FileSystem)
    requires |steps| > 0
    requires steps[0].request.target in cfs.nodes && cfs.nodes[steps[0].request.target] == Dir({})
    requires OnlyCreatesMountpoints(cfs, rfs, Targets(steps[1..])) && MountpointsReady(rfs, steps[1..])
    ensures MountpointsReady(rfs, steps)
  {
    forall k | 0 < k < |steps|
      ensures steps[k].request.target in rfs.nodes && rfs.nodes[steps[k].request.target] == Dir({})
    {
      assert steps[1..][k - 1] == steps[k];
    }
  }

  /** A failed run of the later steps, after a first step that completed, is a failed run. */
  lemma FailedRunCons(steps: seq<MountStep>, t: seq<Event>, p: Panic)
    requires |steps| > 0 && FailedRun(steps[1..], t, p)
    ensures FailedRun(steps, [Checked(steps[0].request.target, true), Mounted(steps[0].request, Ok(()))] + t, p)
  {
    var head := [Checked(steps[0].request.target, true), Mounted(steps[0].request, Ok(()))];
    var b := head + t;
    assert head + SuccessTrace(steps[1..]) == SuccessTrace(steps);
    var k :| 0 <= k < |steps[1..]| && FailedAt(steps[1..], t, p, k);
    TracePrefix(head, t, SuccessTrace(steps[1..]), 2 * k);
    assert steps[k + 1] == steps[1..][k];
    assert b[..2 * (k + 1)] == SuccessTrace(steps)[..2 * (k + 1)];
    assert b[2 * (k + 1)] == t[2 * k];
    assert |t| == 2 * k + 2 ==> b[2 * (k + 1) + 1] == t[2 * k + 1];
    assert FailedAt(steps, b, p, k + 1);
  }

  /** The events of a step that passed its check and whose mount was accepted. */
  function CompletedStep(step: MountStep): (head: seq<Event>)
    ensures |head| == 2 && head[0].Checked? && head[0].safe && head[1].Mounted? && head[1].outcome.Ok?
  {
    [Checked(step.request.target, true), Mounted(step.request, Ok(()))]
  }

  /** The mount points of the later steps are mount points of the whole list. */
  lemma TargetsTail(steps: seq<MountStep>)
    requires |steps| > 0
    ensures Targets(steps) == {steps[0].request.target} + Targets(steps[1..])
  {
    assert steps[0] in steps;
    forall q | q in Targets(steps[1..]) ensures q in Targets(steps) {
      var s :| s in steps[1..] && s.request.target == q;
      assert s in steps;
    }
  }

  /** The later steps of a list with distinct mount points have distinct mount points. */
  lemma DistinctTail(steps: seq<MountStep>)
    requires |steps| > 0 && DistinctTargets(steps)
    ensures DistinctTargets(steps[1..])
    ensures steps[0].request.target !in Targets(steps[1..])
  {
    forall i, j | 0 <= i < j < |steps[1..]|
      ensures steps[1..][i].request.target != steps[1..][j].request.target
    {
      assert steps[1..][i] == steps[i + 1] && steps[1..][j] == steps[j + 1];
    }
    forall s | s in steps[1..]
      ensures s.request.target != steps[0].request.target
    {
      var j :| 0 <= j < |steps[1..]| && steps[1..][j] == s;
      assert steps[j + 1] == s;
    }
  }

  /** Prepending the events of an accepted mount keeps the record of mounts faithful. */
  lemma MountsFaithfulCons(step: MountStep, driver: MountDriver, t: seq<Event>)
    requires driver(step.request).Ok? && MountsFaithful(driver, t)
    ensures MountsFaithful(driver, CompletedStep(step) + t)
  {
    var answer := driver(step.request);
    assert answer.value == ();
    assert answer == Ok(());
    assert forall i :: 2 <= i < |CompletedStep(step) + t| ==> (CompletedStep(step) + t)[i] == t[i - 2];
  }

  /** Prepending the events of a step keeps the checks within the steps' mount points. */
  lemma ChecksWithinCons(steps: seq<MountStep>, t: seq<Event>, panic: Option<Panic>)
    requires |steps| > 0 && ChecksWithin(t, panic, Targets(steps[1..]))
    ensures ChecksWithin(CompletedStep(steps[0]) + t, panic, Targets(steps))
  {
    TargetsTail(steps);
    assert forall i :: 2 <= i < |CompletedStep(steps[0]) + t| ==> (CompletedStep(steps[0]) + t)[i] == t[i - 2];
  }

  /**
    The first step only creates its own mount point, so the later checks, which are of
    other paths, give on the starting filesystem the verdicts they gave after it.
  */
  lemma ChecksFaithfulCons(steps: seq<MountStep>, fs: FileSystem, cfs: FileSystem, t: seq<Event>, panic: Option<Panic>)
    requires |steps| > 0 && DistinctTargets(steps)
    requires EnsureMountpointSafe(fs, steps[0].request.target).result.Ok?
    requires OnlyCreatesMountpoints(fs, cfs, {steps[0].request.target})
    requires ChecksWithin(t, panic, Targets(steps[1..])) && ChecksFaithful(cfs, t, panic)
    ensures ChecksFaithful(fs, CompletedStep(steps[0]) + t, panic)
  {
    DistinctTail(steps);
    forall q | q in Targets(steps[1..])
      ensures EnsureMountpointSafe(fs, q).result == EnsureMountpointSafe(cfs, q).result
    {
      CheckIsLocal(fs, cfs, q);
    }
    assert forall i :: 2 <= i < |CompletedStep(steps[0]) + t| ==> (CompletedStep(steps[0]) + t)[i] == t[i - 2];
  }

  /** The step's mount point passes its check on `fs` and the driver accepts its mount. */
  predicate StepPasses(step: MountStep, fs: FileSystem, driver: MountDriver)
  {
    EnsureMountpointSafe(fs, step.request.target).result.Ok? && driver(step.request).Ok?
  }

  /**
    A faithfully recorded run that failed at step `k` failed at the first step that does
    not pass, and its panic is the one that step's check or mount gives.
  */
  lemma RunStopsAtFirstFailure(steps: seq<MountStep>, fs: FileSystem, driver: MountDriver,
                               t: seq<Event>, p: Panic, k: int)
    requires FailedAt(steps, t, p, k)
    requires MountsFaithful(driver, t) && ChecksFaithful(fs, t, Some(p))
    ensures forall j :: 0 <= j < k ==> StepPasses(steps[j], fs, driver)
    ensures !StepPasses(steps[k], fs, driver)
    ensures var c := EnsureMountpointSafe(fs, steps[k].request.target).result;
      c.Err? ==> p == UnsafeMountpoint(steps[k].request.target, c.error)
    ensures var c := EnsureMountpointSafe(fs, steps[k].request.target).result;
      c.Ok? ==> p == HandleNeededFsErrors(driver(steps[k].request).error, steps[k].request.target, steps[k].errorLabel)
  {
    forall j | 0 <= j < k
      ensures StepPasses(steps[j], fs, driver)
    {
      assert t[2 * j] == t[..2 * k][2 * j] == SuccessTrace(steps)[2 * j];
      assert t[2 * j + 1] == t[..2 * k][2 * j + 1] == SuccessTrace(steps)[2 * j + 1];
    }
    if |t| == 2 * k + 2 {
      assert t[2 * k + 1].outcome == driver(steps[k].request);
    }
  }

  /** A faithfully recorded run completes exactly when every step passes. */
  lemma RunSucceedsIff(steps: seq<MountStep>, fs: FileSystem, driver: MountDriver,
                       t: seq<Event>, panic: Option<Panic>)
    requires RunOutcome(steps, t, panic)
    requires MountsFaithful(driver, t) && ChecksFaithful(fs, t, panic)
    ensures panic.None? <==> forall k :: 0 <= k < |steps| ==> StepPasses(steps[k], fs, driver)
  {
    if panic.None? {
      forall k | 0 <= k < |steps|
        ensures StepPasses(steps[k], fs, driver)
      {
        assert t[2 * k] == Checked(steps[k].request.target, true);
        assert t[2 * k + 1] == Mounted(steps[k].request, Ok(()));
      }
    } else {
      var k :| 0 <= k < |steps| && FailedAt(steps, t, panic.value, k);
      RunStopsAtFirstFailure(steps, fs, driver, t, panic.value, k);
    }
  }

  /**
    `mount_needed_fs`, with each failure message naming the requested filesystem type. The
    boot completes exactly when `/tmp` and `/run` pass their checks and both mounts are
    accepted, and what it records is what the checks and the driver answered.
  */
  function MountNeededFs(fs: FileSystem, driver: MountDriver): (r: Boot)
    ensures r.panic.None? <==>
      && EnsureMountpointSafe(fs, Tmp).result.Ok? && driver(TmpRequest).Ok?
      && EnsureMountpointSafe(fs, Run).result.Ok? && driver(RunRequest).Ok?
    // a completed boot leaves `/tmp` and `/run` empty directories, created if they were missing
    ensures r.panic.None? ==> Tmp in r.fs.nodes && r.fs.nodes[Tmp] == Dir({}) && Run in r.fs.nodes && r.fs.nodes[Run] == Dir({})
    ensures MountsFaithful(driver, r.trace) && ChecksFaithful(fs, r.trace, r.panic)
  {
    TwoStepBoot(NeededMounts, fs, driver);
    RunSteps(NeededMounts, fs, driver)
  }

  /**
    `mount_needed_fs` exactly as written, with "sysfs" in `/run`'s failure message. It
    completes under exactly the same conditions as the relabelled sequencer.
  */
  function MountNeededFsAsWritten(fs: FileSystem, driver: MountDriver): (r: Boot)
    ensures r.panic.None? <==>
      && EnsureMountpointSafe(fs, Tmp).result.Ok? && driver(TmpRequest).Ok?
      && EnsureMountpointSafe(fs, Run).result.Ok? && driver(RunRequest).Ok?
    // a completed boot leaves `/tmp` and `/run` empty directories, created if they were missing
    ensures r.panic.None? ==> Tmp in r.fs.nodes && r.fs.nodes[Tmp] == Dir({}) && Run in r.fs.nodes && r.fs.nodes[Run] == Dir({})
    ensures MountsFaithful(driver, r.trace) && ChecksFaithful(fs, r.trace, r.panic)
  {
    TwoStepBoot(NeededMountsAsWritten, fs, driver);
    RunSteps(NeededMountsAsWritten, fs, driver)
  }

  /**
    A run of the two required mounts, `/tmp` then `/run`, whatever their failure labels:
    it completes exactly when both checks pass and both mounts are accepted, then leaves
    both mount points empty directories, and it records what the checks and the driver answered.
  */
  lemma TwoStepBoot(steps: seq<MountStep>, fs: FileSystem, driver: MountDriver)
    requires |steps| == 2 && steps[0].request == TmpRequest && steps[1].request == RunRequest
    ensures var r := RunSteps(steps, fs, driver);
      && (r.panic.None? <==>
            && EnsureMountpointSafe(fs, Tmp).result.Ok? && driver(TmpRequest).Ok?
            && EnsureMountpointSafe(fs, Run).result.Ok? && driver(RunRequest).Ok?)
      && (r.panic.None? ==> Tmp in r.fs.nodes && r.fs.nodes[Tmp] == Dir({}) && Run in r.fs.nodes && r.fs.nodes[Run] == Dir({}))
      && MountsFaithful(driver, r.trace) && ChecksFaithful(fs, r.trace, r.panic)
  {
    assert steps[0].request.target == Tmp && steps[1].request.target == Run;
    assert DistinctTargets(steps) by { assert Tmp[1] != Run[1]; }
    var r := RunSteps(steps, fs, driver);
    RunSucceedsIff(steps, fs, driver, r.trace, r.panic);
    assert StepPasses(steps[0], fs, driver) && StepPasses(steps[1], fs, driver) ==>
      forall k :: 0 <= k < |steps| ==> StepPasses(steps[k], fs, driver);
  }

  /**
    How the boot fails, from its inputs alone: the first of the four steps that fails
    decides the panic.
  */
  lemma BootPanic(fs: FileSystem, driver: MountDriver)
    ensures var r := MountNeededFs(fs, driver);
      var tmp, run := EnsureMountpointSafe(fs, Tmp).result, EnsureMountpointSafe(fs, Run).result;
      && (tmp.Err? ==> r.panic == Some(UnsafeMountpoint(Tmp, tmp.error)))
      && (tmp.Ok? && driver(TmpRequest).Err? ==>
            r.panic == Some(HandleNeededFsErrors(driver(TmpRequest).error, Tmp, "tmpfs")))
      && (tmp.Ok? && driver(TmpRequest).Ok? && run.Err? ==> r.panic == Some(UnsafeMountpoint(Run, run.error)))
      && (tmp.Ok? && driver(TmpRequest).Ok? && run.Ok? && driver(RunRequest).Err? ==>
            r.panic == Some(HandleNeededFsErrors(driver(RunRequest).error, Run, "tmpfs")))
  {
    var r := MountNeededFs(fs, driver);
    if r.panic.Some? {
      var k :| 0 <= k < |NeededMounts| && FailedAt(NeededMounts, r.trace, r.panic.value, k);
      RunStopsAtFirstFailure(NeededMounts, fs, driver, r.trace, r.panic.value, k);
    }
  }

  /** Every step of the corrected table names, in its failure message, the type it requests. */
  predicate LabelsMatchRequests(steps: seq<MountStep>)
  {
    forall i :: 0 <= i < |steps| ==> steps[i].request.fstype == Some(steps[i].errorLabel)
  }

  /** Two step lists that make the same requests, whatever their failure labels. */
  predicate SameRequests(s1: seq<MountStep>, s2: seq<MountStep>)
  {
    |s1| == |s2| && forall i :: 0 <= i < |s1| ==> s1[i].request == s2[i].request
  }

  /**
    The failure labels only reach the ENODEV message: runs of two step lists with the same
    requests record the same events, leave the same filesystem, and panic alike except for
    the type a kernel-support panic names.
  */
  lemma {:induction false} RelabelledRun(s1: seq<MountStep>, s2: seq<MountStep>, fs: FileSystem, driver: MountDriver)
    requires SameRequests(s1, s2)
    ensures var r1, r2 := RunSteps(s1, fs, driver), RunSteps(s2, fs, driver);
      && r1.trace == r2.trace && r1.fs == r2.fs
      && (r1.panic.None? <==> r2.panic.None?)
      && (r1.panic.Some? && !r1.panic.value.KernelUnsupported? ==> r1.panic == r2.panic)
      && (r1.panic.Some? && r1.panic.value.KernelUnsupported? ==> r2.panic.Some? && r2.panic.value.KernelUnsupported?)
    decreases |s1|
  {
    if s1 != [] {
      assert s1[0].request == s2[0].request;
      var c := EnsureMountpointSafe(fs, s1[0].request.target);
      if c.result.Ok? && driver(s1[0].request).Ok? {
        assert SameRequests(s1[1..], s2[1..]) by {
          forall i | 0 <= i < |s1[1..]|
            ensures s1[1..][i].request == s2[1..][i].request
          {
            assert s1[1..][i] == s1[i + 1] && s2[1..][i] == s2[i + 1];
          }
        }
        RelabelledRun(s1[1..], s2[1..], c.fs, driver);
      }
    }
  }

  /**
    The sequencer as written boots exactly like the relabelled one: same events, same
    filesystem, same panic, except that its kernel-support panic may name another type.
    Every lemma stated here of `MountNeededFs` about events and the filesystem therefore
    holds of `MountNeededFsAsWritten` too.
  */
  lemma AsWrittenBootsAlike(fs: FileSystem, driver: MountDriver)
    ensures var w, c := MountNeededFsAsWritten(fs, driver), MountNeededFs(fs, driver);
      && w.trace == c.trace && w.fs == c.fs
      && (w.panic.None? <==> c.panic.None?)
      && (w.panic.Some? && !w.panic.value.KernelUnsupported? ==> w.panic == c.panic)
      && (w.panic.Some? && w.panic.value.KernelUnsupported? ==> c.panic.Some? && c.panic.value.KernelUnsupported?)
  {
    RelabelledRun(NeededMountsAsWritten, NeededMounts, fs, driver);
  }

  /** The four events of a boot in which both required mounts succeed. */
  const FullBoot: seq<Event> :=
    [Checked(Tmp, true), Mounted(TmpRequest, Ok(())), Checked(Run, true), Mounted(RunRequest, Ok(()))]

  /** The four events of the full boot are the success trace of the two required mounts. */
  lemma FullBootIsSuccess()
    ensures SuccessTrace(NeededMounts) == FullBoot
  {
    assert NeededMounts[1..][1..] == [];
  }

  /**
    The boot follows the fixed order `/tmp` check, `/tmp` mount, `/run` check, `/run`
    mount: every event but the last is the one the full boot has at that position, and
    the boot completes exactly when all four happen.
  */
  lemma MountOrder(fs: FileSystem, driver: MountDriver)
    ensures var r := MountNeededFs(fs, driver);
      && (r.panic.None? <==> r.trace == FullBoot)
      && 1 <= |r.trace| <= 4
      && (forall i :: 0 <= i < |r.trace| - 1 ==> r.trace[i] == FullBoot[i])
  {
    var r := MountNeededFs(fs, driver);
    FullBootIsSuccess();
    RunFollowsSuccess(NeededMounts, r.trace, r.panic);
  }

  /**
    Every mount request is immediately preceded by a passing check of its own target: the
    check `ensure_mountpoint_safe` makes on that path passes, and the recorded outcome is
    the driver's answer.
  */
  lemma CheckGuardsMount(fs: FileSystem, driver: MountDriver, i: nat)
    requires i < |MountNeededFs(fs, driver).trace| && MountNeededFs(fs, driver).trace[i].Mounted?
    ensures var r := MountNeededFs(fs, driver);
      && i > 0 && r.trace[i - 1] == Checked(r.trace[i].request.target, true)
      && EnsureMountpointSafe(fs, r.trace[i].request.target).result.Ok?
      && r.trace[i].outcome == driver(r.trace[i].request)
  {
    var r := MountNeededFs(fs, driver);
    RunChecksBeforeMount(NeededMounts, r.trace, r.panic, i);
  }

  /** `/run` is only checked, at the third position, after `/tmp` was checked and mounted. */
  lemma TmpBeforeRun(fs: FileSystem, driver: MountDriver, i: nat)
    requires var t := MountNeededFs(fs, driver).trace;
      i < |t| && t[i].Checked? && t[i].path == Run
    ensures var r := MountNeededFs(fs, driver);
      i == 2 && r.trace[..2] == FullBoot[..2]
  {
    var r := MountNeededFs(fs, driver);
    var k := RunCheckPosition(NeededMounts, r.trace, r.panic, i);
    FullBootIsSuccess();
  }

  /** A mount point that fails its check panics the boot before any mount is requested. */
  lemma UnsafeTmpStopsBoot(fs: FileSystem, driver: MountDriver)
    requires EnsureMountpointSafe(fs, Tmp).result.Err?
    ensures var r := MountNeededFs(fs, driver);
      && r.trace == [Checked(Tmp, false)]
      && r.panic == Some(UnsafeMountpoint(Tmp, EnsureMountpointSafe(fs, Tmp).result.error))
      && r.fs == fs
  {
  }

  /**
    A mount the driver refuses is always fatal: it is the last thing the boot does, and
    the panic is the one `handle_needed_fs_errors` gives for the driver's errno.
  */
  lemma {:induction false} MountErrorIsFatal(fs: FileSystem, driver: MountDriver, i: nat)
    requires var r := MountNeededFs(fs, driver);
      i < |r.trace| && r.trace[i].Mounted? && driver(r.trace[i].request).Err?
    ensures var r := MountNeededFs(fs, driver);
      && r.trace[i].outcome == driver(r.trace[i].request)
      && i == |r.trace| - 1
      && r.panic == Some(HandleNeededFsErrors(driver(r.trace[i].request).error, r.trace[i].request.target, "tmpfs"))
      && (r.panic.value.KernelUnsupported? <==> driver(r.trace[i].request).error == ENODEV)
      && (r.panic.value.UnhandledErrno? <==> driver(r.trace[i].request).error != ENODEV)
  {
    var r := MountNeededFs(fs, driver);
    FailedMountEndsRun(NeededMounts, r.trace, r.panic, i);
    var k :| 0 <= k < |NeededMounts| && FailedAt(NeededMounts, r.trace, r.panic.value, k);
    FailedAtLastEvent(NeededMounts, r.trace, r.panic.value, k);
  }

  /** The last event of a failed run is the failure, and it determines the panic. */
  lemma FailedAtLastEvent(steps: seq<MountStep>, t: seq<Event>, p: Panic, k: int)
    requires FailedAt(steps, t, p, k)
    ensures t[|t| - 1].Checked? ==> p.UnsafeMountpoint?
    ensures t[|t| - 1].Mounted? ==>
      && t[|t| - 1].outcome.Err?
      && p == HandleNeededFsErrors(t[|t| - 1].outcome.error, steps[k].request.target, steps[k].errorLabel)
  {
  }

  /**
    The success trace records no refused mount and no unsafe mount point, and each mount
    comes right after the passing check of its own target.
  */
  lemma {:induction false} SuccessTraceShape(steps: seq<MountStep>, i: nat)
    requires i < |SuccessTrace(steps)|
    ensures var t := SuccessTrace(steps);
      && (t[i].Mounted? ==> t[i].outcome.Ok? && i > 0 && t[i - 1] == Checked(t[i].request.target, true))
      && (t[i].Checked? ==> t[i].safe)
    decreases |steps|
  {
    if i >= 2 {
      SuccessTraceShape(steps[1..], i - 2);
      assert SuccessTrace(steps)[i] == SuccessTrace(steps[1..])[i - 2];
      if i >= 3 {
        assert SuccessTrace(steps)[i - 1] == SuccessTrace(steps[1..])[i - 3];
      }
    }
  }

  /** The traces `RunSteps` can produce: the success trace, or a run failed at some step. */
  predicate RunOutcome(steps: seq<MountStep>, t: seq<Event>, panic: Option<Panic>)
  {
    if panic.None? then t == SuccessTrace(steps) else FailedRun(steps, t, panic.value)
  }

  /**
    Every run follows the success trace: all its events but the last are the ones the
    success trace has at that position, and it completes exactly when it is the success trace.
  */
  lemma RunFollowsSuccess(steps: seq<MountStep>, t: seq<Event>, panic: Option<Panic>)
    requires RunOutcome(steps, t, panic)
    ensures panic.None? <==> t == SuccessTrace(steps)
    ensures |steps| > 0 ==> 1 <= |t|
    ensures |t| <= 2 * |steps|
    ensures forall i :: 0 <= i < |t| - 1 ==> t[i] == SuccessTrace(steps)[i]
  {
    if panic.Some? {
      var k :| 0 <= k < |steps| && FailedAt(steps, t, panic.value, k);
      forall i | 0 <= i < |t| - 1
        ensures t[i] == SuccessTrace(steps)[i]
      {
        FailedAtPrefix(steps, t, panic.value, k, i);
      }
      FailedAtDiffers(steps, t, panic.value, k);
    }
  }

  /** Before its last event, a failed run agrees with the success trace. */
  lemma FailedAtPrefix(steps: seq<MountStep>, t: seq<Event>, p: Panic, k: int, i: nat)
    requires FailedAt(steps, t, p, k) && i < |t| - 1
    ensures t[i] == SuccessTrace(steps)[i]
  {
    if i < 2 * k {
      assert t[..2 * k][i] == SuccessTrace(steps)[..2 * k][i];
    }
  }

  /** The last event of a failed run is not the success trace's event at that position. */
  lemma FailedAtDiffers(steps: seq<MountStep>, t: seq<Event>, p: Panic, k: int)
    requires FailedAt(steps, t, p, k)
    ensures t != SuccessTrace(steps)
  {
    var n := |t|;
    if n <= |SuccessTrace(steps)| {
      SuccessTraceShape(steps, n - 1);
      assert t[n - 1] != SuccessTrace(steps)[n - 1];
    }
  }

  /** A check in the success trace is the check of step `k`, at position `2k`. */
  lemma {:induction false} SuccessTraceCheckAt(steps: seq<MountStep>, i: nat) returns (k: nat)
    requires i < |SuccessTrace(steps)| && SuccessTrace(steps)[i].Checked?
    ensures k < |steps| && i == 2 * k && SuccessTrace(steps)[i].path == steps[k].request.target
    decreases |steps|
  {
    if i < 2 {
      k := 0;
    } else {
      assert SuccessTrace(steps)[i] == SuccessTrace(steps[1..])[i - 2];
      var j := SuccessTraceCheckAt(steps[1..], i - 2);
      k := j + 1;
      assert steps[1..][j] == steps[k];
    }
  }

  /**
    In any run, the check at position `i` is that of step `k` with `i == 2k`, and every
    earlier step was checked and mounted.
  */
  lemma RunCheckPosition(steps: seq<MountStep>, t: seq<Event>, panic: Option<Panic>, i: nat) returns (k: nat)
    requires RunOutcome(steps, t, panic)
    requires i < |t| && t[i].Checked?
    ensures k < |steps| && i == 2 * k && t[i].path == steps[k].request.target
    ensures t[..i] == SuccessTrace(steps)[..i]
  {
    RunFollowsSuccess(steps, t, panic);
    if i < |t| - 1 || panic.None? {
      assert t[i] == SuccessTrace(steps)[i];
      k := SuccessTraceCheckAt(steps, i);
    } else {
      k :| 0 <= k < |steps| && FailedAt(steps, t, panic.value, k);
      assert t[..i] == t[..2 * k];
    }
  }

  /** In any run, every mount comes right after the passing check of its own target. */
  lemma RunChecksBeforeMount(steps: seq<MountStep>, t: seq<Event>, panic: Option<Panic>, i: nat)
    requires RunOutcome(steps, t, panic)
    requires i < |t| && t[i].Mounted?
    ensures i > 0 && t[i - 1] == Checked(t[i].request.target, true)
  {
    RunFollowsSuccess(steps, t, panic);
    if i < |t| - 1 || panic.None? {
      SuccessTraceShape(steps, i);
      if i < |t| - 1 {
        assert t[i - 1] == SuccessTrace(steps)[i - 1];
      }
    } else {
      var k :| 0 <= k < |steps| && FailedAt(steps, t, panic.value, k);
    }
  }

  /** In any run, a refused mount is the last event, and the panic is the one its errno gives. */
  lemma FailedMountEndsRun(steps: seq<MountStep>, t: seq<Event>, panic: Option<Panic>, i: nat)
    requires RunOutcome(steps, t, panic)
    requires i < |t| && t[i].Mounted? && t[i].outcome.Err?
    ensures i == |t| - 1 && panic.Some?
    ensures panic.value.KernelUnsupported? <==> t[i].outcome.error == ENODEV
    ensures panic.value.UnhandledErrno? <==> t[i].outcome.error != ENODEV
  {
    if panic.None? {
      SuccessTraceShape(steps, i);
    } else {
      var k :| 0 <= k < |steps| && FailedAt(steps, t, panic.value, k);
      if i < 2 * k {
        assert t[..2 * k][i] == SuccessTrace(steps)[..2 * k][i];
        SuccessTraceShape(steps, i);
      } else {
        FailedAtLastEvent(steps, t, panic.value, k);
      }
    }
  }

  /**
    With the corrected table, an ENODEV panic names the filesystem type that the failing
    mount actually requested.
  */
  lemma {:induction false} KernelUnsupportedNamesRequestedType(fs: FileSystem, driver: MountDriver)
    ensures var r := MountNeededFs(fs, driver);
      r.panic.Some? && r.panic.value.KernelUnsupported? ==>
        && r.trace[|r.trace| - 1].Mounted?
        && r.trace[|r.trace| - 1].outcome == Err(ENODEV)
        && r.trace[|r.trace| - 1].request.fstype == Some(r.panic.value.fstype)
  {
    var r := MountNeededFs(fs, driver);
    assert LabelsMatchRequests(NeededMounts);
    if r.panic.Some? && r.panic.value.KernelUnsupported? {
      var k :| 0 <= k < |NeededMounts| && FailedAt(NeededMounts, r.trace, r.panic.value, k);
    }
  }

  /** The driver a kernel without tmpfs support would be for `/run` only. */
  function RunUnsupported(req: MountRequest): Result<(), Errno>
  {
    if req.target == Run then Err(ENODEV) else Ok(())
  }

  /**
    As written, a kernel refusing `/run`'s tmpfs mount with ENODEV produces a panic that
    blames "sysfs", a type that was never requested.
  */
  lemma RunEnodevBlamesSysfs()
    ensures var r := MountNeededFsAsWritten(FileSystem(map[], map[]), RunUnsupported);
      && r.panic == Some(KernelUnsupported("sysfs"))
      && r.trace == [Checked(Tmp, true), Mounted(TmpRequest, Ok(())), Checked(Run, true), Mounted(RunRequest, Err(ENODEV))]
      && RunRequest.fstype == Some("tmpfs")
  {
    var fs0 := FileSystem(map[], map[]);
    var fs1 := FileSystem(map[Tmp := Dir({})], map[]);
    var fs2 := FileSystem(map[Tmp := Dir({}), Run := Dir({})], map[]);
    var steps := NeededMountsAsWritten;
    assert EnsureMountpointSafe(fs0, Tmp) == Check(Ok(()), fs1);
    assert EnsureMountpointSafe(fs1, Run) == Check(Ok(()), fs2);
    assert steps[1..][1..] == [];
    var last := Boot(fs2, [Checked(Run, true), Mounted(RunRequest, Err(ENODEV))], Some(KernelUnsupported("sysfs")));
    assert RunSteps(steps[1..], fs1, RunUnsupported) == last;
    assert RunSteps(steps, fs0, RunUnsupported).trace
        == [Checked(Tmp, true), Mounted(TmpRequest, Ok(()))] + last.trace;
  }

  /** Scenario: `/tmp` present and empty, `/run` missing, every mount succeeds. */
  lemma BootWithMissingRun()
    ensures var r := MountNeededFs(FileSystem(map[Tmp := Dir({})], map[]), _ => Ok(()));
      && r.panic.None?
      && r.fs.nodes == map[Tmp := Dir({}), Run := Dir({})]
      && r.trace[3] == Mounted(MountRequest(None, Run, Some("tmpfs"),
                                            {MS_MGC_VAL, MS_NOEXEC, MS_NOSUID, MS_NODEV, MS_RELATIME}, None), Ok(()))
  {
    var fs1 := FileSystem(map[Tmp := Dir({})], map[]);
    var fs2 := FileSystem(map[Tmp := Dir({}), Run := Dir({})], map[]);
    var driver: MountDriver := _ => Ok(());
    var steps := NeededMounts;
    assert EnsureMountpointSafe(fs1, Tmp) == Check(Ok(()), fs1);
    assert EnsureMountpointSafe(fs1, Run) == Check(Ok(()), fs2);
    assert steps[1..][1..] == [];
    var last := RunSteps(steps[1..], fs1, driver);
    assert RunSteps(steps[1..][1..], fs2, driver) == Boot(fs2, [], None);
    assert last == Boot(fs2, [Checked(Run, true), Mounted(RunRequest, Ok(()))], None);
    assert RunSteps(steps, fs1, driver).trace == [Checked(Tmp, true), Mounted(TmpRequest, Ok(()))] + last.trace;
  }

  /** Scenario: `/tmp` holds a stray entry, so the boot panics before any mount. */
  lemma BootWithNonEmptyTmp(driver: MountDriver)
    ensures var r := MountNeededFs(FileSystem(map[Tmp := Dir({"stray"})], map[]), driver);
      && r.panic == Some(UnsafeMountpoint(Tmp, NotEmpty(Tmp)))
      && (forall i :: 0 <= i < |r.trace| ==> !r.trace[i].Mounted?)
  {
  }
}
