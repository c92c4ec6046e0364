# easyinit core, modelled in Dafny

This project models the start-up core of easyinit, a PID-1 init system for Linux, together
with the option handling of its `configure.py` build script. Each module follows one source
file:

- `Startup` (`system/src/startup.rs`): the required-mount sequencer. Before each tmpfs mount
  of `/tmp` and `/run`, `ensure_mountpoint_safe` checks the mount point. It creates a missing
  mount point, and it refuses a path that is a file or a directory with entries. Only then is
  `mount(2)` requested. Any failure ends the boot with a panic. A run is recorded as a trace of
  `Checked` and `Mounted` events. `MountNeededFs` is the sequencer with `/run`'s failure
  message corrected to name `tmpfs`; `MountNeededFsAsWritten` is the code as written. The
  lemmas about a boot are stated for `MountNeededFs`, and `AsWrittenBootsAlike` shows that
  both record the same events, leave the same filesystem and panic alike except for the
  type a kernel-support panic names.
- `CrashFile` (`config/src/crash_file_gen.rs`): crash-report names of the form
  `dir ++ "easyinit-" ++ date ++ "-" ++ id ++ ".crash"`. The allocator probes ids upward from 0,
  saturating at `u32::MAX`, and returns the first name the existence check reports absent.
  `Decimal` models `u32::to_string` and `saturating_add`.
- `Journal` (`journal/src/main.rs`): the journal daemon takes the lock file
  `/run/easyinit-journal.lock` with create-if-absent semantics. It classifies the failure as
  "already locked" or I/O, removes the lock on the way out, and maps errors to exit statuses.
- `Signals` (`utils/src/signals.rs`): the never-block mask, which is every signal except
  SIGBUS, SIGFPE, SIGILL and SIGSEGV. Also `sig_ignore` and `basic_signal_handling`, over a
  disposition table.
- `Utils` (`utils/src/lib.rs`): the `log::Level` to syslog `Priority` conversion and the
  backtrace environment correction.
- `Configure` and `ConfParse` (`configure.py`):
  - `Configure` models the `OptionalFeature` argparse action. It registers five spellings of
    each option (`--x`, `--enable-x`, `--with-x`, `--disable-x`, `--without-x`) and maps them to
    True, False, or no change.
  - `ConfParse` models `parse_conf` and `Conf`, which turn `KEY=value` entries into a
    configuration.

The shared modules are `Wrappers`, which holds `Option` and `Result`, and `Fs`. `Fs` is an
abstract filesystem: a map from paths to files and directories, plus a fault oracle that
makes a given operation on a given path fail with a given error kind. On top of it, `Fs`
models the parts of Rust's `std::fs` that the core uses: `metadata`, `read_dir`,
`create_dir`, `OpenOptions::open` and `remove_file`. The mount driver is a parameter of type
`MountRequest -> Result<(), Errno>`, and the existence check is a parameter of type
`string -> Probe`.

The model follows the code:

- Only `/tmp` and `/run` are mounted.
- The date is produced by `/bin/date +%Y-%m-%d`, although the module comment says `YY-MM-DD`.
- The journal's exit statuses are those the code actually produces (see Findings).

## Model

| member | source | states |
|---|---|---|
| `Startup.EnsureMountpointSafe` | system/src/startup.rs:55-76 | success exactly when the path is missing or an empty directory (no faults); a file is NotADirectory, a directory with entries NotEmpty; metadata errors other than NotFound propagate, and so do `read_dir` errors on a directory and `create_dir` errors on a missing path; only a missing mount point is created, as an empty directory, and nothing changes on failure |
| `Startup.CheckIsLocal` | system/src/startup.rs:55-76 | the verdict depends only on the node at the checked path and the faults injected there: two filesystems that agree on those give the same verdict, whatever they hold or inject elsewhere |
| `Startup.HandleNeededFsErrors` | system/src/startup.rs:40-50 | every errno becomes a panic; the kernel-support message exactly for ENODEV, naming the `fstype` argument (the `label` argument, the mount point, appears in neither message); any other errno is reported as unhandled with that errno |
| `Startup.RunSteps` | system/src/startup.rs:15-38 | a run completes exactly when its trace is check-then-mount of every step in order; otherwise it stopped at some step k after completing every earlier step, with the panic that failure gives; every recorded mount outcome is the driver's answer to that request; checks name only the steps' targets, and with distinct targets every recorded check is the verdict `ensure_mountpoint_safe` gives on the starting filesystem and an unsafe-mount-point panic carries its error; the filesystem only gains empty directories at the mount points, and after a completed run every mount point is an empty directory, created if it was missing |
| `Startup.RunStopsAtFirstFailure` | system/src/startup.rs:15-50 | a faithfully recorded run that failed stopped at the first step whose check fails or whose mount the driver refuses, and its panic is the check's error or the `handle_needed_fs_errors` panic for the driver's errno |
| `Startup.RunSucceedsIff` | system/src/startup.rs:15-38 | a faithfully recorded run completes exactly when every step's check passes and the driver accepts every mount |
| `Startup.MountNeededFs` | system/src/startup.rs:15-38 | the relabelled boot completes exactly when `/tmp` and `/run` pass their checks on the starting filesystem and the driver accepts both mounts; a completed boot leaves both as empty directories, created if they were missing; every recorded check and mount outcome is what the check and the driver answered |
| `Startup.MountNeededFsAsWritten` | system/src/startup.rs:15-38 | the same completion condition, the same empty `/tmp` and `/run` after a completed boot, and the same faithfulness for the sequencer exactly as written |
| `Startup.TwoStepBoot` | system/src/startup.rs:15-38 | a run of the `/tmp` then `/run` requests, whatever its failure labels, completes exactly when both checks pass and both mounts are accepted, leaves both mount points empty directories when it completes, and records what the checks and the driver answered |
| `Startup.BootPanic` | system/src/startup.rs:15-50 | the panic from the inputs alone: an unsafe `/tmp` gives its check error; a refused `/tmp` mount the errno panic; then the same for `/run`, in that order |
| `Startup.RelabelledRun` | system/src/startup.rs:27-37 | step lists with the same requests record the same events and leave the same filesystem; they panic alike, except for the type a kernel-support panic names |
| `Startup.AsWrittenBootsAlike` | system/src/startup.rs:15-38 | the as-written boot records the same events, leaves the same filesystem and panics alike as the relabelled one, except for the type a kernel-support panic names |
| `Startup.FailedRunCons` | system/src/startup.rs:18-37 | a completed first step followed by a failed run of the rest is a failed run of the whole sequence |
| `Startup.RunFollowsSuccess` | system/src/startup.rs:15-38 | every event but the last agrees with the all-success trace, and a run completes exactly when it equals that trace |
| `Startup.RunChecksBeforeMount` | system/src/startup.rs:18-37 | in any recorded run outcome, every mount request is immediately preceded by a passing check of its own target |
| `Startup.RunCheckPosition` | system/src/startup.rs:18-37 | the check at position i is the check of step k with i = 2k, and every earlier step was checked and mounted |
| `Startup.FailedMountEndsRun` | system/src/startup.rs:27-50 | in any recorded run outcome, a mount recorded as refused is the last event of the run; the run panics, with the kernel-support message exactly when the errno is ENODEV |
| `Startup.MountOrder` | system/src/startup.rs:15-38 | for the relabelled boot: it is a prefix of check /tmp, mount /tmp, check /run, mount /run, differing at most in its last event; it completes exactly when all four happen |
| `Startup.CheckGuardsMount` | system/src/startup.rs:18-37 | for the relabelled boot: no mount is requested without a passing check of its target just before; that check passes on the starting filesystem, and the recorded outcome is the driver's answer |
| `Startup.TmpBeforeRun` | system/src/startup.rs:18-29 | for the relabelled boot: `/run` is checked only as the third event, after `/tmp` was checked and mounted |
| `Startup.UnsafeTmpStopsBoot` | system/src/startup.rs:18 | for the relabelled boot: an unsafe `/tmp` panics the boot before any mount with the check's error, and the filesystem is unchanged |
| `Startup.MountErrorIsFatal` | system/src/startup.rs:27-46 | for the relabelled boot: a mount the driver refuses is recorded with the driver's answer and is the last event; the panic is the one `handle_needed_fs_errors` gives for that errno, KernelUnsupported exactly for ENODEV and UnhandledErrno otherwise |
| `Startup.KernelUnsupportedNamesRequestedType` | system/src/startup.rs:30-44 | with the corrected labels, an ENODEV panic names the filesystem type the failing mount requested |
| `Startup.RunEnodevBlamesSysfs` | system/src/startup.rs:30-37 | as written, ENODEV on `/run`'s tmpfs mount panics with "sysfs" |
| `Startup.BootWithMissingRun` | system/src/startup.rs:29-37 | for the relabelled boot: with `/tmp` empty and `/run` missing, the boot creates `/run` and issues the tmpfs mount with the five flags and no data |
| `Startup.BootWithNonEmptyTmp` | system/src/startup.rs:63-66 | for the relabelled boot: a stray entry in `/tmp` panics with NotEmpty and no mount is requested |
| `Startup.CheckOnlyCreatesTarget` | system/src/startup.rs:69-73 | the mount-point check creates nothing but an empty directory at the path it checks |
| `Fs.Metadata` | system/src/startup.rs:58 | the node at a path, NotFound for a missing one, or the injected fault |
| `Fs.ReadDirHasEntry` | system/src/startup.rs:63-64 | for an existing directory: whether it has at least one entry, or the injected `read_dir` error |
| `Fs.CreateDir` | system/src/startup.rs:70 | succeeds exactly on a missing path without a fault and adds an empty directory there; otherwise nothing changes |
| `Fs.OpenFile` | journal/src/main.rs:16 | invalid flag combinations are refused with InvalidInput before the filesystem is touched; `create_new` succeeds exactly on a missing path and adds a file; failures change nothing |
| `Fs.RemoveFile` | journal/src/main.rs:36 | succeeds exactly on an existing file without a fault and removes only it |
| `CrashFile.TrimEndNewlines` | config/src/crash_file_gen.rs:35 | the result is a prefix of the input, does not end in a newline, and only newlines were removed |
| `CrashFile.Prefix` | config/src/crash_file_gen.rs:32-37 | `easyinit-`, the date without trailing newlines, then `-` |
| `CrashFile.Candidate` | config/src/crash_file_gen.rs:52-55 | directory, prefix, decimal id and `.crash`, concatenated with no separator |
| `CrashFile.CandidateInjective` | config/src/crash_file_gen.rs:52-55 | different ids give different candidate names |
| `CrashFile.GetAvailableFile` | config/src/crash_file_gen.rs:41-72 | a returned path is the candidate of the least id whose candidate is absent; a PermissionDenied abort comes after every lower id was taken; the loop spins only when every id up to `u32::MAX` is taken |
| `CrashFile.GenFilename` | config/src/crash_file_gen.rs:26-39 | a failing `date` is propagated; otherwise the result is an allocation, sound for the prefix built from its output: the least absent candidate, a PermissionDenied abort after every lower id was taken, or the spin once every id up to `u32::MAX` is taken |
| `CrashFile.AllocationUnique` | config/src/crash_file_gen.rs:41-72 | two sound outcomes for the same directory, prefix and existence check are equal, so the allocation is determined by its inputs |
| `CrashFile.FiveReportsGiveFifth` | config/src/crash_file_gen.rs:26-72 | with reports 0 to 4 of 2024-01-01 present, the allocator names `easyinit-2024-01-01-5.crash` |
| `Decimal.ToDecimal` | config/src/crash_file_gen.rs:67 | the rendering is canonical: digits only, no leading zero |
| `Decimal.ValueOfToDecimal` | config/src/crash_file_gen.rs:67 | reading back a rendered number gives the number |
| `Decimal.ToDecimalValueOf` | config/src/crash_file_gen.rs:67 | rendering the value of a canonical digit string gives the string back |
| `Decimal.ToDecimalInjective` | config/src/crash_file_gen.rs:67 | different ids render differently |
| `Decimal.SaturatingAdd` | config/src/crash_file_gen.rs:66 | the sum when it fits in 32 bits, `u32::MAX` otherwise |
| `Journal.AddLockAsWritten` | journal/src/main.rs:15-25 | as written, the open is refused with InvalidInput, so the result is always an I/O error and the filesystem is untouched |
| `Journal.AddLockWith` | journal/src/main.rs:15-25 | for any open options: refused options give IO(InvalidInput) untouched; AlreadyExists is always AlreadyLocked, never IO; with `create_new` and no fault it succeeds exactly when the lock file is absent and creates only it; failures change nothing |
| `Journal.AddLock` | journal/src/main.rs:15-25 | with `write(true)` (corrected, see Findings): succeeds exactly when the lock file is absent (no faults), and creates it; an existing lock is AlreadyLocked; other errors are IO; failures change nothing |
| `Journal.ExitCleanup` | journal/src/main.rs:34-38 | removes the lock file, ignores a failed removal, and touches no other path |
| `Journal.JournalMain` | journal/src/main.rs:6-13 | with `write(true)` (corrected, see Findings): a failed lock returns early and changes nothing; without faults the run succeeds exactly when no lock file exists |
| `Journal.JournalMainAsWritten` | journal/src/main.rs:6-16 | as written, every run returns IO(InvalidInput) and leaves the filesystem untouched |
| `Journal.MainWith` | journal/src/main.rs:6-13 | the lock's result is returned; after a failed lock nothing else happens; after a successful one the cleanup touches no path but the lock file and removes it when it can |
| `Journal.Report` | journal/src/main.rs:52-60 | 2 exactly for AlreadyLocked, 101 exactly for an I/O error |
| `Journal.ExitStatusAsWritten` | journal/src/main.rs:6 | 0 exactly on success, and 1 for every error |
| `Journal.ExitStatus` | journal/src/main.rs:52-60 | with `SetupError`'s report used for errors (corrected, see Findings): 0 exactly on success, otherwise the error's own report |
| `Journal.LockRoundTrip` | journal/src/main.rs:6-38 | with `write(true)` (corrected, see Findings): a run with no lock file creates it and removes it again, leaving the filesystem as before |
| `Journal.SecondJournalExitsWithTwo` | journal/src/main.rs:15-60 | with `write(true)` and `SetupError`'s report (corrected, see Findings): with the lock file present, a second journal exits with 2 and leaves the lock file and everything else untouched |
| `Journal.AsWrittenNeverLocks` | journal/src/main.rs:16 | as written, every run fails with InvalidInput before touching the filesystem, and exits with 1 |
| `Journal.AsWrittenLockedExitsWithOne` | journal/src/main.rs:6-13 | as written, a held lock exits with 1, the same status as any I/O failure |
| `Signals.SignalsFrom` | utils/src/signals.rs:12 | the signals numbered from `lo` up, and how many there are |
| `Signals.AllSignals` | utils/src/signals.rs:12 | every modelled signal is in the full set |
| `Signals.NeverBlockMask` | utils/src/signals.rs:11-18 | a signal is in the mask exactly when it is not one of the four hardware faults |
| `Signals.NeverBlockMaskSize` | utils/src/signals.rs:11-18 | the mask holds every signal but four, the hardware faults |
| `Signals.SigactionCall` | utils/src/signals.rs:31-34 | fails exactly for SIGKILL and SIGSTOP; otherwise installs the action for that signal only and returns the previous one |
| `Signals.SigIgnore` | utils/src/signals.rs:27-36 | installs ignore with SA_NOCLDWAIT and a full mask for that signal only, and returns the previous action |
| `Signals.SigIgnoreUndo` | utils/src/signals.rs:24-36 | reinstalling the returned action restores every signal's action |
| `Signals.BasicSignalHandling` | utils/src/signals.rs:5-22 | never panics; SIGUSR1 and SIGUSR2 end up ignored and every other signal keeps its action |
| `Signals.BasicSignalHandlingIdempotent` | utils/src/signals.rs:5-22 | running the policy again changes nothing |
| `Utils.Code` | utils/src/lib.rs:27-43 | the discriminant is below 8 |
| `Utils.FromCode` | utils/src/lib.rs:27-43 | the priority whose discriminant is the given code |
| `Utils.CodesMatchSyslog` | utils/src/lib.rs:29-43 | each discriminant is the RFC 5424 severity code of the same name, and codes map back to their priority |
| `Utils.FromLevel` | utils/src/lib.rs:44-54 | Error, Warn and Info map one-to-one to Error, Warning and Informational; Debug and Trace both map to Debug; no level maps to anything more urgent than Error |
| `Utils.FromLevelMonotone` | utils/src/lib.rs:44-54 | a more verbose level never gets a more urgent priority |
| `Utils.CorrectEnv` | utils/src/lib.rs:17-24 | `RUST_LIB_BACKTRACE` is removed, `RUST_BACKTRACE` is `full`, every other variable is unchanged |
| `Utils.CorrectEnvIdempotent` | utils/src/lib.rs:17-24 | correcting twice is correcting once |
| `Configure.LstripDashes` | configure.py:100 | the result is a suffix of the input that does not start with a dash, and only dashes were removed |
| `Configure.Variants` | configure.py:103-109 | five spellings, the option string itself first, and every prefixed spelling ends in the option string without its leading dashes |
| `Configure.VariantsClassified` | configure.py:128-133 | the second and third spellings enable and the fourth and fifth disable, none both |
| `Configure.ExpandOptionStrings` | configure.py:101-109 | five strings per option string, option string i contributing its five spellings at positions 5i to 5i + 4 in declaration order, and a string is registered exactly when it is one of the five spellings of some declared option string |
| `Configure.NewOptionalFeature` | configure.py:87-124 | IndexError exactly when no option string is given; otherwise the feature name is the first option without dashes, with the expanded strings |
| `Configure.Call` | configure.py:128-134 | a registered enabling string sets `dest` to True, a registered disabling one to False; an unregistered string, or a registered one that does neither, changes nothing; no other attribute changes |
| `Configure.Join` | configure.py:136-138 | the joined length is the strings' total length plus one separator between neighbours; every string sits at its own start, after each earlier string and its separator, and a separator comes right before every string but the first |
| `Configure.FormatUsage` | configure.py:136-138 | the usage text is the registered option strings, in order, joined by ` \| ` |
| `Configure.PrefixesDistinct` | configure.py:130-133 | each of the four prefixed spellings is classified as enabling or disabling, never both, although `--with-` begins `--without-` |
| `Configure.VariantRegistered` | configure.py:103-109 | each spelling of a declared option string is registered |
| `Configure.EnablingVariantsSetTrue` | configure.py:128-131 | `--enable-t` and `--with-t` set the feature to True for every declared option |
| `Configure.DisablingVariantsSetFalse` | configure.py:128-133 | `--disable-t` and `--without-t` set the feature to False for every declared option |
| `Configure.BareOptionKeepsDefault` | configure.py:128-134 | the bare option string is registered but leaves the namespace alone |
| `Configure.LongOptionExpansion` | configure.py:100-109 | a feature declared as `--t` registers exactly `--t`, `--enable-t`, `--with-t`, `--disable-t`, `--without-t`, in that order |
| `Configure.LongOptionUsage` | configure.py:136-138 | the usage text of a feature declared as `--t` is its five spellings joined with ` \| ` |
| `ConfParse.Lower` | configure.py:165 | same length, and each character lowered |
| `ConfParse.FirstEq` | configure.py:164 | the index of the first `=`, or none exactly when there is no `=` |
| `ConfParse.SplitEntry` | configure.py:164-165 | IndexError exactly when the entry has no `=` |
| `ConfParse.SplitEntryRoundTrip` | configure.py:164-165 | `k=v` with no `=` in `k` splits into lowered `k` and `v`, with `=` allowed inside `v` |
| `ConfParse.SplitEntryReassembles` | configure.py:164-165 | a split entry is its raw key, `=`, and its value, and the key is that raw key lowered |
| `ConfParse.Options` | configure.py:161-165 | IndexError exactly when some entry has no `=` |
| `ConfParse.OptionsKeys` | configure.py:162-165 | the dictionary's keys are exactly the keys of the entries |
| `ConfParse.OptionsLastWins` | configure.py:162-165 | each key holds the value of its last entry, so later duplicates override earlier ones |
| `ConfParse.OptionsSnoc` | configure.py:163-165 | appending `k=v` sets lowered `k` to `v` and leaves the other keys alone |
| `ConfParse.NewConf` | configure.py:151-159 | TypeError exactly for a `self` key; `rustc` and `cargo` default to "rustc" and "cargo"; other keys become additional options, which stay None when there are none |
| `ConfParse.ParseConf` | configure.py:161-166 | an entry without `=` makes the parse fail with IndexError |
| `ConfParse.ParseConfLastRustcWins` | configure.py:151-166 | the compiler is the value of the last `rustc` entry, whatever the key's case |
| `ConfParse.ParseConfDefaultRustc` | configure.py:151-166 | without a `rustc` entry the compiler stays "rustc" |
| `ConfParse.ConfDefaults` | configure.py:151-166 | no entries give the defaults and no additional options |
| `ConfParse.ParseConfExample` | configure.py:151-166 | `RUSTC=a`, `rustc=b`, `Jobs=j` give compiler `b`, cargo "cargo" and additional options `{jobs: j}` |
| `ConfParse.MissingEqualsIsIndexError` | configure.py:164-165 | the entry `rustc` aborts the parse with IndexError |
| `ConfParse.SelfKeyIsTypeError` | configure.py:151-166 | the entry `SELF=x` reaches the constructor as a second `self` and raises TypeError |

## Left out

- The parent directories of a path are not tracked in the filesystem. Creating `/run` does not add an entry to `/`, and `create_dir` fails only by injected fault or because the path exists.
- The kernel side of `mount(2)` is left out. The driver is a parameter, and a successful mount does not change the modelled filesystem.
- Only the two required mounts in the source are modelled. The `/usr` mount mentioned in the doc comment is not in the code.
- `Startup.EnsureMountpointSafe`: when reading the first directory entry fails (`entries.next()` gives `Some(Err(_))`), the source reports the directory as not empty. The model has no per-entry read errors: a directory with entries is NotEmpty and one without is empty.
- `Startup.RunChecksBeforeMount` is stated over any recorded run outcome, so it does not by itself tie the events to the driver or to the check. `Startup.RunSteps` (recorded outcomes are the driver's answers, recorded checks are `ensure_mountpoint_safe`'s verdicts) and `Startup.CheckGuardsMount` make that link.
- `Startup.FailedMountEndsRun` is likewise stated over any recorded run outcome. `Startup.MountErrorIsFatal` restates it for the boot in terms of the driver's answer.
- `Startup.EnsureMountpointSafe`: the error messages' text (`"{path:?} is not empty"`) is reduced to the error variant and the path.
- The `expect` and `panic!` messages are modelled as `Panic` variants carrying their arguments, not as strings.
- `String::from_utf8_lossy` on `date`'s output is left out. The date output is a string input, and the command's own exit status, which the source does not inspect, is not modelled.
- `CrashFile.GetAvailableFile`: the outcome `Spins` stands for the endless loop that occurs once the id is stuck at `u32::MAX` and that candidate is taken. It assumes the existence check answers the same way for the same path every time. The race between the check and the later use of the name is not modelled.
- The non-`coreutils` `gen_filename`, which is `todo!()`, is left out.
- The tokio runtime around the journal's `main` and the empty `Journal` and `Entry` structs are left out.
- `sig_running` is left out because it is created and never used. The never-block mask is computed but never applied to any call in the source, and the model does the same.
- Signals are Linux signal numbers 1 to 64 and carry no semantics. The rejection of SIGKILL and SIGSTOP by `sigaction(2)` is the only kernel rule modelled.
- `Signals.AllSignals`: the full set is the numbers 1 to 64. glibc's `sigfillset`, behind `SigSet::all()`, also leaves out 32 and 33, which it reserves for itself, so there the mask has 58 signals. `Signals.NeverBlockMaskSize` therefore states the mask's size relative to the full set.
- `Utils.CorrectEnv`: the thread-safety requirement of the `unsafe` function is not modelled.
- `ConfParse.Lower`: Python's `str.lower()` is modelled for ASCII letters only.
- `Configure.NewOptionalFeature`: `OptionalFeature.__init__` passes `deprecated=` to `argparse.Action.__init__`, a keyword only Python 3.13 and later accept. On Python 3.11 and 3.12, which `tomllib` also allows, every construction raises TypeError. The model assumes Python 3.13 or later.
- The `warn()` calls for unknown variables in `Conf.__init__` are left out.
- `Configure.Call`: only boolean and `None` attribute values are modelled. The parser and `values` arguments are ignored, as they are in the source.
- `ConfParse.ParseConf`: its own contract states only the error case. The successful case is stated by `ConfParse.NewConf`, `ConfParse.OptionsKeys`, `ConfParse.OptionsLastWins` and the `ParseConf` lemmas.
- `get_version`, `is_systemd`, the argument parser set-up, `main` and `generate_makefile` in `configure.py` are outside the modelled core. So are the shutdown, panic-handler and kernel command-line crates.

## Findings

| source | as written | input that shows it | evidently intended | confidence | as-written member | corrected member |
|---|---|---|---|---|---|---|
| system/src/startup.rs:37 | `/run` is mounted as `tmpfs`, but its error handler is passed `"sysfs"` | a kernel answering ENODEV to the `/run` tmpfs mount: the panic says the kernel lacks "sysfs" | the message names `tmpfs`, the type requested, as the `/tmp` handler does | high; not executed | `Startup.RunEnodevBlamesSysfs` | `Startup.KernelUnsupportedNamesRequestedType` |
| journal/src/main.rs:16 | `OpenOptions::new().create_new(true).write(false)` sets no access mode; Rust's `std` refuses creation without write or append access with EINVAL before any system call | any filesystem: `add_lock` returns `IO(InvalidInput)` and the lock file is never created | `create_new(true).write(true)`, giving create-if-absent semantics on the lock file | high; not executed | `Journal.AsWrittenNeverLocks` | `Journal.LockRoundTrip` |
| journal/src/main.rs:6 | `main` returns `Result<(), Box<dyn Error>>`, so the `SetupError` report of lines 52-60 is never used and every error exits with 1 | a lock file already present: exit status 1, the same as any I/O failure | exit status 2 for a held lock and 101 for I/O errors, through `SetupError`'s report; since `Box<dyn Error>` still exits with 1 whatever the error, this needs `main` to call `report()` on the `SetupError` explicitly | medium; not executed | `Journal.AsWrittenLockedExitsWithOne` | `Journal.SecondJournalExitsWithTwo` |
