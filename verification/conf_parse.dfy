/** The parsing of `configure.py`'s `KEY=value` entries into a `Conf`. */
module ConfParse {
  import opened Wrappers
  import opened Configure

  /** ASCII `str.lower()` of one character. */
  function LowerChar(c: char): char
  {
    if 'A' <= c <= 'Z' then (c as int - 'A' as int + 'a' as int) as char else c
  }

  /** `s.lower()`, for ASCII letters. */
  function Lower(s: string): (r: string)
    ensures |r| == |s|
    ensures forall i :: 0 <= i < |s| ==> r[i] == LowerChar(s[i])
  {
    if s == [] then [] else [LowerChar(s[0])] + Lower(s[1..])
  }

  /** The index of the first `=` in `s`, if any. */
  function FirstEq(s: string): (r: Option<nat>)
    ensures r.None? <==> '=' !in s
    ensures r.Some? ==> r.value < |s| && s[r.value] == '=' && '=' !in s[..r.value]
  {
    if s == [] then None
    else if s[0] == '=' then Some(0)
    else match FirstEq(s[1..])
      case None => None
      case Some(i) => assert s[..i + 1] == [s[0]] + s[1..][..i]; Some(i + 1)
  }

  /**
    `a = x.split("=", 1)` followed by `(a[0].lower(), a[1])`: the key and value of one
    entry; `a[1]` raises IndexError when there is no `=`.
  */
  function SplitEntry(x: string): (r: Result<(string, string), PyError>)
    ensures r.Err? <==> '=' !in x
    ensures r.Err? ==> r.error == IndexError
  {
    match FirstEq(x)
    case None => Err(IndexError)
    case Some(i) => Ok((Lower(x[..i]), x[i + 1..]))
  }

  /** An entry `k=v` whose key has no `=` splits back into `k`, lowercased, and `v`. */
  lemma SplitEntryRoundTrip(k: string, v: string)
    requires '=' !in k
    ensures SplitEntry(k + "=" + v) == Ok((Lower(k), v))
  {
    var x := k + "=" + v;
    assert x[|k|] == '=' && x[..|k|] == k;
    assert x[|k| + 1..] == v;
  }

  /** Every split entry reassembles into the entry it came from, up to the key's case. */
  lemma SplitEntryReassembles(x: string)
    requires SplitEntry(x).Ok?
    ensures var (key, value) := SplitEntry(x).value;
      exists raw :: Lower(raw) == key && '=' !in raw && x == raw + "=" + value
  {
    var i := FirstEq(x).value;
    assert x == x[..i] + "=" + x[i + 1..];
  }

  predicate HasEq(x: string)
  {
    '=' in x
  }

  /** The key an entry sets. */
  function Key(x: string): string
    requires HasEq(x)
  {
    SplitEntry(x).value.0
  }

  /** The value an entry sets. */
  function Val(x: string): string
    requires HasEq(x)
  {
    SplitEntry(x).value.1
  }

  /** The `options` dictionary `parse_conf` fills, entry by entry. */
  function Options(conf: seq<string>): (r: Result<map<string, string>, PyError>)
    ensures r.Err? <==> exists j :: 0 <= j < |conf| && !HasEq(conf[j])
    ensures r.Err? ==> r.error == IndexError
    decreases |conf|
  {
    if conf == [] then Ok(map[])
    else
      match Options(conf[..|conf| - 1])
      case Err(e) => Err(e)
      case Ok(m) =>
        match SplitEntry(conf[|conf| - 1])
        case Err(e) => Err(e)
        case Ok(kv) => Ok(m[kv.0 := kv.1])
  }

  /** The dictionary holds exactly the keys of the entries. */
  lemma {:induction false} OptionsKeys(conf: seq<string>, k: string)
    requires Options(conf).Ok?
    ensures k in Options(conf).value <==> exists j :: 0 <= j < |conf| && Key(conf[j]) == k
    decreases |conf|
  {
    if conf != [] {
      var init := conf[..|conf| - 1];
      OptionsKeys(init, k);
      if exists j :: 0 <= j < |init| && Key(init[j]) == k {
        var j :| 0 <= j < |init| && Key(init[j]) == k;
        assert Key(conf[j]) == k;
      }
      if exists j :: 0 <= j < |conf| && Key(conf[j]) == k {
        var j :| 0 <= j < |conf| && Key(conf[j]) == k;
        if j < |init| { assert Key(init[j]) == k; }
      }
    }
  }

  /** A key takes the value of its last entry: later duplicates override earlier ones. */
  lemma {:induction false} OptionsLastWins(conf: seq<string>, i: nat)
    requires Options(conf).Ok? && i < |conf|
    requires forall j :: i < j < |conf| ==> HasEq(conf[j]) && Key(conf[j]) != Key(conf[i])
    ensures HasEq(conf[i])
    ensures Key(conf[i]) in Options(conf).value
    ensures Options(conf).value[Key(conf[i])] == Val(conf[i])
    decreases |conf|
  {
    var init := conf[..|conf| - 1];
    if i < |init| {
      assert init[i] == conf[i];
      assert forall j :: i < j < |init| ==> init[j] == conf[j];
      OptionsLastWins(init, i);
    }
  }

  /** The `Conf` object. */
  datatype Conf = Conf(rustc: string, cargo: string, additionalOptions: Option<map<string, string>>)

  /** The parameter names of `Conf.__init__` other than `**kwargs`. */
  const ConfParameters: set<string> := {"self", "rustc", "cargo"}

  /**
    `Conf(**options)`: `rustc` and `cargo` default to "rustc" and "cargo", every other key
    goes to `additional_options`, which stays `None` when there is none. A key `self`
    collides with the bound instance and raises TypeError.
  */
  function NewConf(options: map<string, string>): (r: Result<Conf, PyError>)
    ensures r.Err? <==> "self" in options
    ensures r.Err? ==> r.error == TypeError
    ensures r.Ok? ==> r.value.rustc == (if "rustc" in options then options["rustc"] else "rustc")
    ensures r.Ok? ==> r.value.cargo == (if "cargo" in options then options["cargo"] else "cargo")
    ensures r.Ok? ==> (r.value.additionalOptions.None? <==> options.Keys <= ConfParameters)
    ensures r.Ok? && r.value.additionalOptions.Some? ==>
      forall k :: k in r.value.additionalOptions.value <==> k in options && k !in ConfParameters
    ensures r.Ok? && r.value.additionalOptions.Some? ==>
      forall k :: k in r.value.additionalOptions.value ==> r.value.additionalOptions.value[k] == options[k]
  {
    if "self" in options then Err(TypeError)
    else
      var extra := options - ConfParameters;
      var rustc := if "rustc" in options then options["rustc"] else "rustc";
      var cargo := if "cargo" in options then options["cargo"] else "cargo";
      if extra.Keys == {} then
        Ok(Conf(rustc, cargo, None))
      else
        Ok(Conf(rustc, cargo, Some(extra)))
  }

  /** `parse_conf`. */
  function ParseConf(conf: seq<string>): (r: Result<Conf, PyError>)
    ensures (exists j :: 0 <= j < |conf| && !HasEq(conf[j])) ==> r == Err(IndexError)
  {
    match Options(conf)
    case Err(e) => Err(e)
    case Ok(options) => NewConf(options)
  }

  /** The compiler `Conf` reports is the value of the last `rustc` entry, in any case. */
  lemma ParseConfLastRustcWins(conf: seq<string>, i: nat)
    requires ParseConf(conf).Ok? && i < |conf|
    requires HasEq(conf[i]) && Key(conf[i]) == "rustc"
    requires forall j :: i < j < |conf| ==> HasEq(conf[j]) && Key(conf[j]) != "rustc"
    ensures ParseConf(conf).value.rustc == Val(conf[i])
  {
    OptionsLastWins(conf, i);
  }

  /** Without a `rustc` entry the compiler stays "rustc". */
  lemma ParseConfDefaultRustc(conf: seq<string>)
    requires ParseConf(conf).Ok?
    requires forall j :: 0 <= j < |conf| ==> Key(conf[j]) != "rustc"
    ensures ParseConf(conf).value.rustc == "rustc"
  {
    OptionsKeys(conf, "rustc");
  }

  /** With no entries, `Conf` takes its defaults. */
  lemma ConfDefaults()
    ensures ParseConf([]) == Ok(Conf("rustc", "cargo", None))
  {
  }

  /** Appending the entry `k=v` sets the lowercased key `k` to `v`. */
  lemma OptionsSnoc(conf: seq<string>, k: string, v: string)
    requires Options(conf).Ok? && '=' !in k
    ensures Options(conf + [k + "=" + v]) == Ok(Options(conf).value[Lower(k) := v])
  {
    SplitEntryRoundTrip(k, v);
    var c := conf + [k + "=" + v];
    assert c[..|c| - 1] == conf;
  }

  lemma UpperRustcKey()
    ensures Lower("RUSTC") == "rustc" && '=' !in "RUSTC"
  {
  }

  lemma LowerRustcKey()
    ensures Lower("rustc") == "rustc" && '=' !in "rustc"
  {
  }

  lemma JobsKey()
    ensures Lower("Jobs") == "jobs" && '=' !in "Jobs"
  {
  }

  /** A configuration that sets `rustc` twice, in two spellings, and one unknown key. */
  function ExampleConf(first: string, second: string, jobs: string): seq<string>
  {
    ["RUSTC" + "=" + first, "rustc" + "=" + second, "Jobs" + "=" + jobs]
  }

  /** The first entry alone sets `rustc`. */
  lemma ExampleOptionsFirst(first: string, second: string, jobs: string)
    ensures Options(ExampleConf(first, second, jobs)[..1]) == Ok(map["rustc" := first])
  {
    UpperRustcKey();
    var c := ExampleConf(first, second, jobs);
    OptionsSnoc([], "RUSTC", first);
    assert [] + [c[0]] == c[..1];
  }

  /** The second entry overrides the first, whatever the case of its key. */
  lemma ExampleOptionsSecond(first: string, second: string, jobs: string)
    ensures Options(ExampleConf(first, second, jobs)[..2]) == Ok(map["rustc" := second])
  {
    LowerRustcKey();
    ExampleOptionsFirst(first, second, jobs);
    var c := ExampleConf(first, second, jobs);
    OptionsSnoc(c[..1], "rustc", second);
    assert c[..1] + [c[1]] == c[..2];
    assert map["rustc" := first]["rustc" := second] == map["rustc" := second];
  }

  /** The options of the example configuration. */
  lemma ExampleOptions(first: string, second: string, jobs: string)
    ensures Options(ExampleConf(first, second, jobs)) == Ok(map["rustc" := second, "jobs" := jobs])
  {
    JobsKey();
    ExampleOptionsSecond(first, second, jobs);
    var c := ExampleConf(first, second, jobs);
    OptionsSnoc(c[..2], "Jobs", jobs);
    assert c[..2] + [c[2]] == c;
  }

  /** Keys are lowercased, a later duplicate wins, and unknown keys become additional options. */
  lemma ParseConfExample(first: string, second: string, jobs: string)
    ensures ParseConf(ExampleConf(first, second, jobs))
         == Ok(Conf(second, "cargo", Some(map["jobs" := jobs])))
  {
    ExampleOptions(first, second, jobs);
    var options := map["rustc" := second, "jobs" := jobs];
    assert "jobs" != "self" && "jobs" != "rustc" && "jobs" != "cargo";
    assert "rustc" in ConfParameters && "cargo" !in options;
    var extra := NewConf(options).value.additionalOptions;
    assert "jobs" in options && "jobs" !in ConfParameters;
    assert extra.Some?;
    assert extra.value.Keys == {"jobs"};
    assert extra.value == map["jobs" := jobs];
    assert NewConf(options).value.rustc == second;
    assert NewConf(options).value.cargo == "cargo";
    assert NewConf(options) == Ok(Conf(second, "cargo", Some(map["jobs" := jobs])));
  }

  /** An entry without `=` aborts the parse with IndexError. */
  lemma MissingEqualsIsIndexError()
    ensures ParseConf(["rustc"]) == Err(IndexError)
  {
    assert !HasEq(["rustc"][0]);
  }

  /** A key `self` reaches the constructor as a duplicate of its instance parameter. */
  lemma SelfKeyIsTypeError()
    ensures ParseConf(["SELF" + "=" + "x"]) == Err(TypeError)
  {
    assert Lower("SELF") == "self";
    OptionsSnoc([], "SELF", "x");
    assert [] + ["SELF" + "=" + "x"] == ["SELF" + "=" + "x"];
  }
}
