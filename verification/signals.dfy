/**
  The signal policy of `utils/src/signals.rs`: the set of signals that must never be
  blocked, and the disposition table after SIGUSR1 and SIGUSR2 are set to be ignored.
  Signals are Linux signal numbers 1 to 64; the table is the process's `sigaction` state.
*/
module Signals {
  import opened Wrappers

  const NSIG: int := 65

  /** A signal number. */
  type Signal = s: int | 1 <= s < NSIG witness 1

  const SIGILL: Signal := 4
  const SIGBUS: Signal := 7
  const SIGFPE: Signal := 8
  const SIGKILL: Signal := 9
  const SIGUSR1: Signal := 10
  const SIGSEGV: Signal := 11
  const SIGUSR2: Signal := 12
  const SIGSTOP: Signal := 19

  /** The synchronous hardware-fault signals, which must never be blocked. */
  const HardwareFaults: set<Signal> := {SIGBUS, SIGFPE, SIGILL, SIGSEGV}

  /** The signals numbered `lo` and above. */
  function SignalsFrom(lo: int): (s: set<Signal>)
    requires 1 <= lo <= NSIG
    ensures forall sig: Signal :: sig in s <==> lo <= sig
    ensures |s| == NSIG - lo
    decreases NSIG - lo
  {
    if lo == NSIG then {} else {lo as Signal} + SignalsFrom(lo + 1)
  }

  /** `SigSet::all()`: every signal. */
  function AllSignals(): (s: set<Signal>)
    ensures forall sig: Signal :: sig in s
    ensures |s| == 64
  {
    SignalsFrom(1)
  }

  /** The mask `basic_signal_handling` computes: every signal but the hardware faults. */
  function NeverBlockMask(): (m: set<Signal>)
    ensures forall sig: Signal :: sig in m <==> sig !in HardwareFaults
  {
    AllSignals() - HardwareFaults
  }

  /** Exactly four signals, the hardware faults, are left out of the full set. */
  lemma NeverBlockMaskSize()
    ensures |NeverBlockMask()| == |AllSignals()| - 4
  {
    FaultCount();
    SubsetDifferenceSize(AllSignals(), HardwareFaults);
  }

  lemma FaultCount()
    ensures |HardwareFaults| == 4
  {
  }

  lemma SubsetDifferenceSize(a: set<Signal>, b: set<Signal>)
    requires b <= a
    ensures |a - b| == |a| - |b|
  {
    assert a == (a - b) + b;
    assert (a - b) * b == {};
  }

  /** `SigHandler`: default action, ignore, or a handler function (named by an index). */
  datatype Handler = SigDfl | SigIgn | Handler(id: nat)

  /** The `SaFlags` the model needs. */
  datatype SaFlag = SA_NOCLDWAIT | SA_RESTART | SA_SIGINFO

  /** `SigAction`: handler, flags, and the mask blocked while the handler runs. */
  datatype SigAction = SigAction(handler: Handler, flags: set<SaFlag>, mask: set<Signal>)

  const DefaultAction := SigAction(SigDfl, {}, {})

  /** The action `sig_ignore` installs: ignore, with SA_NOCLDWAIT and every signal masked. */
  const IgnoreAction := SigAction(SigIgn, {SA_NOCLDWAIT}, AllSignals())

  /** The disposition table; a signal with no entry has the default action. */
  type SigTable = map<Signal, SigAction>

  function ActionOf(t: SigTable, sig: Signal): SigAction
  {
    if sig in t then t[sig] else DefaultAction
  }

  /** An errno from `sigaction(2)`. */
  datatype Errno = EINVAL

  /** The result of `sigaction`: the previous action and the new table, or an errno. */
  datatype Installed = Installed(previous: SigAction, table: SigTable)

  /**
    `sigaction(sig, act)`: replaces one entry and returns the one it replaced. The actions
    of SIGKILL and SIGSTOP cannot be changed (EINVAL).
  */
  function SigactionCall(t: SigTable, sig: Signal, act: SigAction): (r: Result<Installed, Errno>)
    ensures r.Err? <==> sig == SIGKILL || sig == SIGSTOP
    ensures r.Ok? ==> r.value.previous == ActionOf(t, sig)
    ensures r.Ok? ==> ActionOf(r.value.table, sig) == act
    ensures r.Ok? ==> forall s: Signal :: s != sig ==> ActionOf(r.value.table, s) == ActionOf(t, s)
  {
    if sig == SIGKILL || sig == SIGSTOP then Err(EINVAL)
    else Ok(Installed(ActionOf(t, sig), t[sig := act]))
  }

  /** `sig_ignore`: installs the ignore action and returns the previous action. */
  function SigIgnore(t: SigTable, sig: Signal): (r: Result<Installed, Errno>)
    ensures r.Err? <==> sig == SIGKILL || sig == SIGSTOP
    ensures r.Ok? ==> r.value.previous == ActionOf(t, sig) && ActionOf(r.value.table, sig) == IgnoreAction
    ensures r.Ok? ==> forall s: Signal :: s != sig ==> ActionOf(r.value.table, s) == ActionOf(t, s)
  {
    SigactionCall(t, sig, IgnoreAction)
  }

  /** Reinstalling the action `sig_ignore` returned restores every signal's action. */
  lemma SigIgnoreUndo(t: SigTable, sig: Signal)
    requires SigIgnore(t, sig).Ok?
    ensures var ignored := SigIgnore(t, sig).value;
      var restored := SigactionCall(ignored.table, sig, ignored.previous);
      && restored.Ok?
      && restored.value.previous == IgnoreAction
      && forall s: Signal :: ActionOf(restored.value.table, s) == ActionOf(t, s)
  {
  }

  /** How `basic_signal_handling` ends: the new table, or a panic from `unwrap`. */
  datatype Handling = Handled(table: SigTable) | UnwrapPanic(errno: Errno)

  /**
    `basic_signal_handling`: computes the never-block mask (which is then dropped) and
    sets SIGUSR1 and SIGUSR2 to be ignored; a failing `sig_ignore` panics.
  */
  function BasicSignalHandling(t: SigTable): (r: Handling)
    ensures r.Handled?
    ensures ActionOf(r.table, SIGUSR1) == IgnoreAction && ActionOf(r.table, SIGUSR2) == IgnoreAction
    ensures forall s: Signal :: s != SIGUSR1 && s != SIGUSR2 ==> ActionOf(r.table, s) == ActionOf(t, s)
  {
    var _ := NeverBlockMask();
    match SigIgnore(t, SIGUSR1)
    case Err(e) => UnwrapPanic(e)
    case Ok(first) =>
      match SigIgnore(first.table, SIGUSR2)
      case Err(e) => UnwrapPanic(e)
      case Ok(second) => Handled(second.table)
  }

  /** Running the policy twice leaves the same table as running it once. */
  lemma BasicSignalHandlingIdempotent(t: SigTable)
    ensures var once := BasicSignalHandling(t).table;
      forall s: Signal :: ActionOf(BasicSignalHandling(once).table, s) == ActionOf(once, s)
  {
  }
}
