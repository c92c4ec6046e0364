/**
  The shared helpers of `utils/src/lib.rs`: the syslog priority a `log::Level` is
  written with, and the backtrace environment correction.
*/
module Utils {

  /** `log::Level`, from least to most verbose. */
  datatype Level = Error | Warn | Info | Debug | Trace

  /** The `log` crate's discriminant of a level: Error is 1, Trace is 5. */
  function Verbosity(l: Level): nat
  {
    match l
    case Error => 1
    case Warn => 2
    case Info => 3
    case Debug => 4
    case Trace => 5
  }

  /** `Priority`, in declaration order. */
  datatype Priority = Emergency | Alert | Critical | Error | Warning | Notice | Informational | Debug

  /** The `#[repr(u8)]` discriminant of a priority: its position in the declaration. */
  function Code(p: Priority): (c: nat)
    ensures c < 8
  {
    match p
    case Emergency => 0
    case Alert => 1
    case Critical => 2
    case Error => 3
    case Warning => 4
    case Notice => 5
    case Informational => 6
    case Debug => 7
  }

  /** The severity names of section 6.2.1 of RFC 5424, indexed by numerical code. */
  const SyslogSeverities: seq<string> := [
    "Emergency", "Alert", "Critical", "Error", "Warning", "Notice", "Informational", "Debug"]

  /** The name of a priority's variant in the source. */
  function Name(p: Priority): string
  {
    match p
    case Emergency => "Emergency"
    case Alert => "Alert"
    case Critical => "Critical"
    case Error => "Error"
    case Warning => "Warning"
    case Notice => "Notice"
    case Informational => "Informational"
    case Debug => "Debug"
  }

  /** The priority with a given code. */
  function FromCode(c: nat): (p: Priority)
    requires c < 8
    ensures Code(p) == c
  {
    [Emergency, Alert, Critical, Priority.Error, Warning, Notice, Informational, Priority.Debug][c]
  }

  /** Discriminants and RFC 5424 severity codes agree, and every code has exactly one priority. */
  lemma CodesMatchSyslog(p: Priority)
    ensures SyslogSeverities[Code(p)] == Name(p)
    ensures FromCode(Code(p)) == p
  {
  }

  /** `impl From<log::Level> for Priority`. */
  function FromLevel(l: Level): (p: Priority)
    ensures Code(Priority.Error) <= Code(p)
    ensures p != Emergency && p != Alert && p != Critical && p != Notice
    ensures l == Level.Error <==> p == Priority.Error
    ensures l == Warn <==> p == Warning
    ensures l == Info <==> p == Informational
    ensures l == Level.Debug || l == Trace <==> p == Priority.Debug
  {
    match l
    case Error => Priority.Error
    case Warn => Warning
    case Info => Informational
    case Debug => Priority.Debug
    case Trace => Priority.Debug
  }

  /** A more verbose level never gets a more urgent (numerically smaller) priority. */
  lemma FromLevelMonotone(a: Level, b: Level)
    requires Verbosity(a) <= Verbosity(b)
    ensures Code(FromLevel(a)) <= Code(FromLevel(b))
  {
  }

  /** The process environment. */
  type Env = map<string, string>

  /** `correct_env`: removes `RUST_LIB_BACKTRACE` and sets `RUST_BACKTRACE` to `full`. */
  function CorrectEnv(env: Env): (r: Env)
    ensures "RUST_LIB_BACKTRACE" !in r
    ensures "RUST_BACKTRACE" in r && r["RUST_BACKTRACE"] == "full"
    ensures forall k :: k != "RUST_LIB_BACKTRACE" && k != "RUST_BACKTRACE" ==>
      (k in r <==> k in env) && (k in r ==> r[k] == env[k])
  {
    (env - {"RUST_LIB_BACKTRACE"})["RUST_BACKTRACE" := "full"]
  }

  /** Correcting an already corrected environment changes nothing. */
  lemma CorrectEnvIdempotent(env: Env)
    ensures CorrectEnv(CorrectEnv(env)) == CorrectEnv(env)
  {
  }
}
