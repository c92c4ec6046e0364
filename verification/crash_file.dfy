/**
  The crash-report filename allocator of `config/src/crash_file_gen.rs`: candidate names
  `dir ++ prefix ++ id ++ ".crash"` are probed for `id = 0, 1, 2, ...` and the first one
  the existence check reports absent is returned.
*/
module CrashFile {
  import opened Wrappers
  import opened Fs
  import opened Decimal

  const CrashFileExtension: string := ".crash"

  /** What `std::fs::exists` reports for a path: `Ok(true)`, `Ok(false)` or an error. */
  datatype Probe = Present | Absent | ProbeError(kind: ErrorKind)

  /** The existence check, as an oracle over the full candidate string. */
  type ExistsOracle = string -> Probe

  /** The probe loop moves past a candidate on `Ok(true)` and on any error but PermissionDenied. */
  predicate Taken(p: Probe)
  {
    p.Present? || (p.ProbeError? && p.kind != PermissionDenied)
  }

  /** How the probe loop ends. */
  datatype Allocation =
    | Allocated(path: string, id: nat)  // returned `Ok(path)`
    | PermissionAbort(id: nat)          // `unreachable!` on PermissionDenied
    | Spins                             // the id is stuck at `u32::MAX` and that candidate is taken: the loop never ends

  /** The trailing `\n` characters `trim_end_matches('\x0a')` removes. */
  function TrimEndNewlines(s: string): (r: string)
    ensures r <= s
    ensures r == [] || r[|r| - 1] != '\n'
    ensures forall i :: |r| <= i < |s| ==> s[i] == '\n'
  {
    if s != [] && s[|s| - 1] == '\n' then TrimEndNewlines(s[..|s| - 1]) else s
  }

  /** The prefix `gen_filename` builds: `easyinit-`, the date without trailing newlines, `-`. */
  function Prefix(date: string): (p: string)
    ensures |p| == 10 + |TrimEndNewlines(date)|
    ensures p[..9] == "easyinit-" && p[|p| - 1] == '-'
    ensures p[9..|p| - 1] == TrimEndNewlines(date)
  {
    "easyinit-" + TrimEndNewlines(date) + "-"
  }

  /** The candidate for `id`: the pieces are concatenated with no separator added. */
  function Candidate(dir: string, prefix: string, id: nat): (c: string)
    ensures |c| == |dir| + |prefix| + |ToDecimal(id)| + 6
    ensures c[..|dir|] == dir
    ensures c[|dir|..|dir| + |prefix|] == prefix
    ensures c[|dir| + |prefix|..|c| - 6] == ToDecimal(id)
    ensures c[|c| - 6..] == CrashFileExtension
  {
    dir + prefix + ToDecimal(id) + CrashFileExtension
  }

  /** Candidates for different ids are different paths. */
  lemma CandidateInjective(dir: string, prefix: string, i: nat, j: nat)
    ensures Candidate(dir, prefix, i) == Candidate(dir, prefix, j) ==> i == j
  {
    if Candidate(dir, prefix, i) == Candidate(dir, prefix, j) {
      ToDecimalInjective(i, j);
    }
  }

  /** Every id below `n` names a candidate the loop moves past. */
  ghost predicate AllTakenBelow(dir: string, prefix: string, probe: ExistsOracle, n: nat)
  {
    forall j: nat :: j < n ==> Taken(probe(Candidate(dir, prefix, j)))
  }

  /** `id` is the least id whose candidate is reported absent. */
  ghost predicate IsFirstFree(dir: string, prefix: string, probe: ExistsOracle, id: nat)
  {
    && id <= U32_MAX
    && probe(Candidate(dir, prefix, id)) == Absent
    && AllTakenBelow(dir, prefix, probe, id)
  }

  /** What the probe loop may end with, given what the existence check reports. */
  ghost predicate AllocationSound(dir: string, prefix: string, probe: ExistsOracle, r: Allocation)
  {
    match r
    case Allocated(path, id) => path == Candidate(dir, prefix, id) && IsFirstFree(dir, prefix, probe, id)
    case PermissionAbort(id) =>
      && id <= U32_MAX
      && probe(Candidate(dir, prefix, id)) == ProbeError(PermissionDenied)
      && AllTakenBelow(dir, prefix, probe, id)
    case Spins => AllTakenBelow(dir, prefix, probe, U32_MAX + 1)
  }

  /**
    `get_available_file`: probes ids upwards from 0, saturating at `u32::MAX`, and returns
    the first candidate reported absent.
  */
  method GetAvailableFile(dir: string, prefix: string, probe: ExistsOracle) returns (r: Allocation)
    ensures AllocationSound(dir, prefix, probe, r)
  {
    var id: nat := 0;
    while true
      invariant id <= U32_MAX
      invariant AllTakenBelow(dir, prefix, probe, id)
      decreases U32_MAX - id
    {
      var out := dir + prefix + ToDecimal(id) + CrashFileExtension;
      assert out == Candidate(dir, prefix, id);
      match probe(out)
      case Absent =>
        return Allocated(out, id);
      case ProbeError(PermissionDenied) =>
        return PermissionAbort(id);
      case _ =>
        if id == U32_MAX {
          // saturating_add leaves the id at u32::MAX: the same taken candidate is probed forever
          return Spins;
        }
        id := SaturatingAdd(id, 1);
    }
  }

  /** `gen_filename` with the output of `/bin/date +%Y-%m-%d` as an input. */
  method GenFilename(dir: string, dateOutput: Result<string, ErrorKind>, probe: ExistsOracle)
    returns (r: Result<Allocation, ErrorKind>)
    ensures dateOutput.Err? ==> r == Err(dateOutput.error)
    ensures dateOutput.Ok? ==> r.Ok?
    ensures r.Ok? ==> AllocationSound(dir, Prefix(dateOutput.value), probe, r.value)
  {
    match dateOutput
    case Err(k) =>
      return Err(k);
    case Ok(date) =>
      var a := GetAvailableFile(dir, Prefix(date), probe);
      return Ok(a);
  }

  /**
    The existence check decides how the probe loop ends: two sound outcomes for the same
    directory, prefix and check are the same outcome. With `GetAvailableFile` always
    returning a sound one, the allocation is a function of its inputs.
  */
  lemma {:induction false} AllocationUnique(dir: string, prefix: string, probe: ExistsOracle, a: Allocation, b: Allocation)
    requires AllocationSound(dir, prefix, probe, a) && AllocationSound(dir, prefix, probe, b)
    ensures a == b
  {
    match a
    case Allocated(_, i) => StopsAt(dir, prefix, probe, b, i);
    case PermissionAbort(i) => StopsAt(dir, prefix, probe, b, i);
    case Spins =>
  }

  /** A sound outcome stops at any id `i` that the loop does not move past once all below are taken. */
  lemma StopsAt(dir: string, prefix: string, probe: ExistsOracle, b: Allocation, i: nat)
    requires AllocationSound(dir, prefix, probe, b)
    requires i <= U32_MAX && !Taken(probe(Candidate(dir, prefix, i))) && AllTakenBelow(dir, prefix, probe, i)
    ensures b.Allocated? || b.PermissionAbort?
    ensures b.Allocated? ==> b.id == i && b.path == Candidate(dir, prefix, i)
    ensures b.PermissionAbort? ==> b.id == i
  {
  }

  /** At most one id is the first free one. */
  lemma FirstFreeUnique(dir: string, prefix: string, probe: ExistsOracle, a: nat, b: nat)
    requires IsFirstFree(dir, prefix, probe, a) && IsFirstFree(dir, prefix, probe, b)
    ensures a == b
  {
  }

  /** A log directory already holding the crash reports 0 to 4 of 2024-01-01. */
  function FiveReportsProbe(path: string): Probe
  {
    if path in {"/var/log/easyinit-2024-01-01-0.crash", "/var/log/easyinit-2024-01-01-1.crash",
                "/var/log/easyinit-2024-01-01-2.crash", "/var/log/easyinit-2024-01-01-3.crash",
                "/var/log/easyinit-2024-01-01-4.crash"}
    then Present else Absent
  }

  const ExampleDir: string := "/var/log/"
  const ExamplePrefix: string := "easyinit-2024-01-01-"

  lemma ExamplePrefixFromDate()
    ensures Prefix("2024-01-01\n") == ExamplePrefix
  {
    assert TrimEndNewlines("2024-01-01") == "2024-01-01";
  }

  lemma ExampleCandidate(j: nat)
    requires j < 10
    ensures Candidate(ExampleDir, ExamplePrefix, j) == "/var/log/easyinit-2024-01-01-" + [DigitChar(j)] + ".crash"
  {
    assert ToDecimal(j) == [DigitChar(j)];
  }

  lemma FirstFiveTaken(j: nat)
    requires j < 5
    ensures FiveReportsProbe(Candidate(ExampleDir, ExamplePrefix, j)) == Present
  {
    var c := Candidate(ExampleDir, ExamplePrefix, j);
    ExampleCandidate(j);
    if j == 0 { assert c == "/var/log/easyinit-2024-01-01-0.crash"; }
    else if j == 1 { assert c == "/var/log/easyinit-2024-01-01-1.crash"; }
    else if j == 2 { assert c == "/var/log/easyinit-2024-01-01-2.crash"; }
    else if j == 3 { assert c == "/var/log/easyinit-2024-01-01-3.crash"; }
    else { assert c == "/var/log/easyinit-2024-01-01-4.crash"; }
  }

  lemma FifthFree()
    ensures Candidate(ExampleDir, ExamplePrefix, 5) == "/var/log/easyinit-2024-01-01-5.crash"
    ensures FiveReportsProbe("/var/log/easyinit-2024-01-01-5.crash") == Absent
  {
    ExampleCandidate(5);
  }

  /**
    With reports 0 to 4 of 2024-01-01 present under `/var/log/`, the allocator names
    report 5 (`date` printing "2024-01-01" and a newline).
  */
  lemma FiveReportsGiveFifth(r: Allocation)
    requires AllocationSound(ExampleDir, Prefix("2024-01-01\n"), FiveReportsProbe, r)
    ensures r == Allocated("/var/log/easyinit-2024-01-01-5.crash", 5)
  {
    ExamplePrefixFromDate();
    var dir, prefix := ExampleDir, ExamplePrefix;
    forall j: nat | j < 5
      ensures Taken(FiveReportsProbe(Candidate(dir, prefix, j)))
    {
      FirstFiveTaken(j);
    }
    FifthFree();
    assert IsFirstFree(dir, prefix, FiveReportsProbe, 5);
    match r
    case Allocated(path, id) => FirstFreeUnique(dir, prefix, FiveReportsProbe, id, 5);
    case PermissionAbort(id) => assert false;
    case Spins => assert false;
  }
}
