/**
  The `OptionalFeature` argparse action of `configure.py`, which turns `--x` into
  `--x | --enable-x | --with-x | --disable-x | --without-x`.
*/
module Configure {
  import opened Wrappers

  /** The Python exceptions the modelled code can raise. */
  datatype PyError = IndexError | TypeError

  /** `s.startswith(p)`. */
  predicate StartsWith(s: string, p: string)
  {
    |p| <= |s| && s[..|p|] == p
  }

  /** `s.lstrip("-")`: `s` without its leading dashes. */
  function LstripDashes(s: string): (r: string)
    ensures |r| <= |s| && r == s[|s| - |r|..]
    ensures r == [] || r[0] != '-'
    ensures forall i :: 0 <= i < |s| - |r| ==> s[i] == '-'
  {
    if s != [] && s[0] == '-' then LstripDashes(s[1..]) else s
  }

  /** The five option strings one option string stands for. */
  function Variants(o: string): (r: seq<string>)
    ensures |r| == 5 && r[0] == o
  {
    var t := LstripDashes(o);
    [o, "--enable-" + t, "--with-" + t, "--disable-" + t, "--without-" + t]
  }

  /** `s.endswith(t)`. */
  predicate EndsWith(s: string, t: string)
  {
    |t| <= |s| && s[|s| - |t|..] == t
  }

  /**
    Of the four prefixed spellings, the first two enable and the last two disable, never
    both, and each ends in the option string without its leading dashes.
  */
  lemma VariantsClassified(o: string)
    ensures var r := Variants(o);
      && Enables(r[1]) && !Disables(r[1]) && Enables(r[2]) && !Disables(r[2])
      && Disables(r[3]) && !Enables(r[3]) && Disables(r[4]) && !Enables(r[4])
    ensures var r, t := Variants(o), LstripDashes(o);
      EndsWith(r[1], t) && EndsWith(r[2], t) && EndsWith(r[3], t) && EndsWith(r[4], t)
  {
    var t := LstripDashes(o);
    PrefixesDistinct(t);
    EndsWithAppended("--enable-", t);
    EndsWithAppended("--with-", t);
    EndsWithAppended("--disable-", t);
    EndsWithAppended("--without-", t);
  }

  lemma EndsWithAppended(p: string, t: string)
    ensures EndsWith(p + t, t)
  {
    assert (p + t)[|p|..] == t;
  }

  /** `s` is one of the five spellings of one of the option strings `opts`. */
  predicate IsVariant(opts: seq<string>, s: string)
  {
    exists i :: 0 <= i < |opts| && s in Variants(opts[i])
  }

  /**
    The loop in `OptionalFeature.__init__` that builds `_option_strs`: five spellings per
    option string, and nothing else.
  */
  function ExpandOptionStrings(opts: seq<string>): (r: seq<string>)
    ensures |r| == 5 * |opts|
    ensures forall s :: s in r <==> IsVariant(opts, s)
    // option string i contributes the five strings at 5i to 5i + 4, in declaration order
    ensures forall i :: 0 <= i < |opts| ==> r[5 * i .. 5 * i + 5] == Variants(opts[i])
  {
    if opts == [] then []
    else
      var rest := ExpandOptionStrings(opts[1..]);
      ExpandStep(opts, rest);
      ExpandOrder(opts, rest);
      Variants(opts[0]) + rest
  }

  /** The blocks of the later option strings follow the first string's block. */
  lemma ExpandOrder(opts: seq<string>, rest: seq<string>)
    requires |opts| > 0 && |rest| == 5 * (|opts| - 1)
    requires forall i :: 0 <= i < |opts| - 1 ==> rest[5 * i .. 5 * i + 5] == Variants(opts[1..][i])
    ensures forall i :: 0 <= i < |opts| ==> (Variants(opts[0]) + rest)[5 * i .. 5 * i + 5] == Variants(opts[i])
  {
    BlocksInOrder(Variants, opts, rest);
  }

  /**
    Blocks of five: if `rest` holds the blocks `f` gives for `opts[1..]`, then `f(opts[0]) + rest`
    holds those for `opts`.
  */
  lemma BlocksInOrder(f: string -> seq<string>, opts: seq<string>, rest: seq<string>)
    requires |opts| > 0 && |f(opts[0])| == 5 && |rest| == 5 * (|opts| - 1)
    requires forall i :: 0 <= i < |opts| - 1 ==> rest[5 * i .. 5 * i + 5] == f(opts[1..][i])
    ensures forall i :: 0 <= i < |opts| ==> (f(opts[0]) + rest)[5 * i .. 5 * i + 5] == f(opts[i])
  {
    forall i | 0 <= i < |opts|
      ensures (f(opts[0]) + rest)[5 * i .. 5 * i + 5] == f(opts[i])
    {
      if i == 0 {
        assert (f(opts[0]) + rest)[..5] == f(opts[0]);
      } else {
        var j := i - 1;
        assert opts[1..][j] == opts[i];
        BlockShift(f(opts[0]), rest, j, f(opts[i]));
      }
    }
  }

  /** Block `j + 1` of five behind a first block of five is block `j` of the rest. */
  lemma BlockShift(a: seq<string>, rest: seq<string>, j: nat, block: seq<string>)
    requires |a| == 5 && 5 * j + 5 <= |rest| && rest[5 * j .. 5 * j + 5] == block
    ensures (a + rest)[5 * (j + 1) .. 5 * (j + 1) + 5] == block
  {
    assert (a + rest)[5 * (j + 1) .. 5 * (j + 1) + 5] == rest[5 * j .. 5 * j + 5];
  }

  /** The variants of `opts` are those of its first string and those of the rest. */
  lemma VariantCons(opts: seq<string>, s: string)
    requires |opts| > 0
    ensures IsVariant(opts, s) <==> s in Variants(opts[0]) || IsVariant(opts[1..], s)
  {
    if IsVariant(opts, s) {
      var i :| 0 <= i < |opts| && s in Variants(opts[i]);
      if i > 0 {
        assert opts[1..][i - 1] == opts[i];
      }
    }
    if IsVariant(opts[1..], s) {
      var j :| 0 <= j < |opts| - 1 && s in Variants(opts[1..][j]);
      assert opts[j + 1] == opts[1..][j];
    }
  }

  lemma ExpandStep(opts: seq<string>, rest: seq<string>)
    requires |opts| > 0
    requires forall s :: s in rest <==> IsVariant(opts[1..], s)
    ensures forall s :: s in Variants(opts[0]) + rest <==> IsVariant(opts, s)
  {
    forall s
      ensures s in Variants(opts[0]) + rest <==> IsVariant(opts, s)
    {
      VariantCons(opts, s);
    }
  }

  /** The attribute values the model gives a namespace: booleans and `None`. */
  datatype Value = Bool(b: bool) | NoneValue

  /** An `argparse.Namespace`: attribute name to value. */
  type Namespace = map<string, Value>

  /** An `OptionalFeature` action (it always takes `nargs=0`). */
  datatype OptionalFeature = OptionalFeature(
    featureName: string, optionStrings: seq<string>, dest: string, default: Value)

  /** `OptionalFeature.__init__`; `option_strings[0]` raises IndexError when there is none. */
  function NewOptionalFeature(optionStrings: seq<string>, dest: string, default: Value): (r: Result<OptionalFeature, PyError>)
    ensures r.Err? <==> optionStrings == []
    ensures r.Ok? ==>
      && r.value.featureName == LstripDashes(optionStrings[0])
      && r.value.optionStrings == ExpandOptionStrings(optionStrings)
      && r.value.dest == dest && r.value.default == default
  {
    if optionStrings == [] then Err(IndexError)
    else Ok(OptionalFeature(LstripDashes(optionStrings[0]), ExpandOptionStrings(optionStrings), dest, default))
  }

  predicate Enables(s: string)
  {
    StartsWith(s, "--enable-") || StartsWith(s, "--with-")
  }

  predicate Disables(s: string)
  {
    StartsWith(s, "--disable-") || StartsWith(s, "--without-")
  }

  /**
    `OptionalFeature.__call__`: a registered enabling string sets `dest` to True, a
    registered disabling one to False, and anything else leaves the namespace alone.
  */
  function Call(a: OptionalFeature, ns: Namespace, optionString: Option<string>): (r: Namespace)
    ensures optionString.None? || optionString.value !in a.optionStrings ==> r == ns
    ensures optionString.Some? && optionString.value in a.optionStrings ==>
      r == (if Enables(optionString.value) then ns[a.dest := Bool(true)]
            else if Disables(optionString.value) then ns[a.dest := Bool(false)]
            else ns)
    ensures forall k :: k != a.dest ==> (k in r <==> k in ns) && (k in r ==> r[k] == ns[k])
  {
    match optionString
    case None => ns
    case Some(s) =>
      if s in a.optionStrings then
        if Enables(s) then ns[a.dest := Bool(true)]
        else if Disables(s) then ns[a.dest := Bool(false)]
        else ns
      else ns
  }

  function TotalLength(xs: seq<string>): nat
  {
    if xs == [] then 0 else |xs[0]| + TotalLength(xs[1..])
  }

  /** Where piece `i` of `sep.join(xs)` begins: after the first piece and a separator, where piece `i - 1` of the rest begins. */
  function PieceStart(sep: string, xs: seq<string>, i: nat): nat
    requires i < |xs|
  {
    if i == 0 then 0 else |xs[0]| + |sep| + PieceStart(sep, xs[1..], i - 1)
  }

  /** `x` occurs in `r` starting at position `s`. */
  predicate At(r: string, x: string, s: int)
  {
    0 <= s && s + |x| <= |r| && r[s .. s + |x|] == x
  }

  /**
   * What `sep.join(xs)` is: the lengths add up, every piece sits at its start,
   * and a separator comes right before every piece but the first.
   */
  predicate Joined(sep: string, xs: seq<string>, r: string)
  {
    && (xs == [] ==> r == [])
    && (|xs| > 0 ==> |r| == TotalLength(xs) + |sep| * (|xs| - 1))
    && (forall i :: 0 <= i < |xs| ==> At(r, xs[i], PieceStart(sep, xs, i)))
    && (forall i :: 0 < i < |xs| ==> At(r, sep, PieceStart(sep, xs, i) - |sep|))
  }

  /** `sep.join(xs)`: the strings in order, with `sep` between neighbours. */
  function Join(sep: string, xs: seq<string>): (r: string)
    ensures Joined(sep, xs, r)
  {
    if xs == [] then []
    else if |xs| == 1 then xs[0]
    else
      var rest := Join(sep, xs[1..]);
      JoinStep(sep, xs, rest);
      xs[0] + sep + rest
  }

  /** `xs[0] + sep + rest` is joined from `xs` when `rest` is joined from `xs[1..]`. */
  lemma JoinStep(sep: string, xs: seq<string>, rest: string)
    requires |xs| >= 2 && Joined(sep, xs[1..], rest)
    ensures Joined(sep, xs, xs[0] + sep + rest)
  {
    var pre := xs[0] + sep;
    assert TotalLength(xs) == |xs[0]| + TotalLength(xs[1..]);
    forall i | 0 < i < |xs|
      ensures At(pre + rest, xs[i], PieceStart(sep, xs, i))
      ensures At(pre + rest, sep, PieceStart(sep, xs, i) - |sep|)
    {
      assert xs[1..][i - 1] == xs[i];
      LaterPiece(sep, xs, rest, i);
    }
    assert At(pre, xs[0], 0);
    Grown(pre, rest, 0, xs[0]);
  }

  /** Piece `i > 0` of `xs[0] + sep + rest`, and the separator before it, are those of `rest` shifted. */
  lemma LaterPiece(sep: string, xs: seq<string>, rest: string, i: nat)
    requires 0 < i < |xs|
    requires At(rest, xs[i], PieceStart(sep, xs[1..], i - 1))
    requires i > 1 ==> At(rest, sep, PieceStart(sep, xs[1..], i - 1) - |sep|)
    ensures At(xs[0] + sep + rest, xs[i], PieceStart(sep, xs, i))
    ensures At(xs[0] + sep + rest, sep, PieceStart(sep, xs, i) - |sep|)
  {
    var pre := xs[0] + sep;
    var a := PieceStart(sep, xs[1..], i - 1);
    assert PieceStart(sep, xs, i) == |pre| + a;
    Shifted(pre, rest, a, xs[i]);
    if i > 1 {
      Shifted(pre, rest, a - |sep|, sep);
    } else {
      assert At(pre, sep, |xs[0]|);
      Grown(pre, rest, |xs[0]|, sep);
    }
  }

  /** A string found in `pre` is found at the same place in `pre + rest`. */
  lemma Grown(pre: string, rest: string, s: int, x: string)
    requires At(pre, x, s)
    ensures At(pre + rest, x, s)
  {
    assert (pre + rest)[s .. s + |x|] == pre[s .. s + |x|];
  }

  /** A slice of `rest` is found again `|pre|` places later in `pre + rest`. */
  lemma Shifted(pre: string, rest: string, a: int, x: string)
    requires At(rest, x, a)
    ensures At(pre + rest, x, |pre| + a)
  {
    assert (pre + rest)[|pre| + a .. |pre| + a + |x|] == rest[a .. a + |x|];
  }

  /** `OptionalFeature.format_usage`. */
  function FormatUsage(a: OptionalFeature): (r: string)
    ensures Joined(" | ", a.optionStrings, r)
  {
    Join(" | ", a.optionStrings)
  }

  /** The enabling and disabling prefixes are told apart, though "--with-" begins "--without-". */
  lemma PrefixesDistinct(t: string)
    ensures Enables("--enable-" + t) && !Disables("--enable-" + t)
    ensures Enables("--with-" + t) && !Disables("--with-" + t)
    ensures Disables("--disable-" + t) && !Enables("--disable-" + t)
    ensures Disables("--without-" + t) && !Enables("--without-" + t)
  {
    assert ("--enable-" + t)[..9] == "--enable-";
    assert ("--with-" + t)[..7] == "--with-";
    assert ("--disable-" + t)[..10] == "--disable-";
    assert ("--without-" + t)[..10] == "--without-";
    assert ("--without-" + t)[6] == 'o';
    assert ("--with-" + t)[2] == 'w';
    assert ("--enable-" + t)[2] == 'e';
    assert ("--disable-" + t)[2] == 'd';
  }

  /** A registered string that enables (`b`) or disables (`!b`) sets `dest` to `b`. */
  lemma CallRegistered(a: OptionalFeature, ns: Namespace, s: string, b: bool)
    requires s in a.optionStrings
    requires if b then Enables(s) else Disables(s) && !Enables(s)
    ensures Call(a, ns, Some(s)) == ns[a.dest := Bool(b)]
  {
  }

  /** Each spelling of a declared option string is registered with the feature. */
  lemma VariantRegistered(optionStrings: seq<string>, dest: string, default: Value, i: nat, s: string)
    requires i < |optionStrings| && s in Variants(optionStrings[i])
    ensures s in NewOptionalFeature(optionStrings, dest, default).value.optionStrings
  {
    assert IsVariant(optionStrings, s);
  }

  /**
    For every option string `o` a feature is declared with, `--enable-t` and `--with-t`
    set it to True, where `t` is `o` without its leading dashes.
  */
  lemma EnablingVariantsSetTrue(optionStrings: seq<string>, dest: string, default: Value, ns: Namespace, i: nat)
    requires i < |optionStrings|
    ensures var a := NewOptionalFeature(optionStrings, dest, default).value;
      var t := LstripDashes(optionStrings[i]);
      && Call(a, ns, Some("--enable-" + t)) == ns[dest := Bool(true)]
      && Call(a, ns, Some("--with-" + t)) == ns[dest := Bool(true)]
  {
    var a := NewOptionalFeature(optionStrings, dest, default).value;
    var t := LstripDashes(optionStrings[i]);
    PrefixesDistinct(t);
    VariantRegistered(optionStrings, dest, default, i, "--enable-" + t);
    VariantRegistered(optionStrings, dest, default, i, "--with-" + t);
    CallRegistered(a, ns, "--enable-" + t, true);
    CallRegistered(a, ns, "--with-" + t, true);
  }

  /**
    For every option string `o` a feature is declared with, `--disable-t` and
    `--without-t` set it to False, where `t` is `o` without its leading dashes.
  */
  lemma DisablingVariantsSetFalse(optionStrings: seq<string>, dest: string, default: Value, ns: Namespace, i: nat)
    requires i < |optionStrings|
    ensures var a := NewOptionalFeature(optionStrings, dest, default).value;
      var t := LstripDashes(optionStrings[i]);
      && Call(a, ns, Some("--disable-" + t)) == ns[dest := Bool(false)]
      && Call(a, ns, Some("--without-" + t)) == ns[dest := Bool(false)]
  {
    var a := NewOptionalFeature(optionStrings, dest, default).value;
    var t := LstripDashes(optionStrings[i]);
    PrefixesDistinct(t);
    VariantRegistered(optionStrings, dest, default, i, "--disable-" + t);
    VariantRegistered(optionStrings, dest, default, i, "--without-" + t);
    CallRegistered(a, ns, "--disable-" + t, false);
    CallRegistered(a, ns, "--without-" + t, false);
  }

  /** The bare option string (`--selinux`) is registered but leaves the namespace alone. */
  lemma BareOptionKeepsDefault(optionStrings: seq<string>, dest: string, default: Value, ns: Namespace, i: nat)
    requires i < |optionStrings|
    requires !Enables(optionStrings[i]) && !Disables(optionStrings[i])
    ensures var a := NewOptionalFeature(optionStrings, dest, default).value;
      optionStrings[i] in a.optionStrings && Call(a, ns, Some(optionStrings[i])) == ns
  {
    VariantRegistered(optionStrings, dest, default, i, optionStrings[i]);
  }

  /** Two leading dashes are stripped from a name that does not itself begin with one. */
  lemma StripLongOption(t: string)
    requires t == [] || t[0] != '-'
    ensures LstripDashes("--" + t) == t
  {
    var o := "--" + t;
    assert o[0] == '-' && o[1..] == "-" + t;
    assert ("-" + t)[0] == '-' && ("-" + t)[1..] == t;
  }

  /** The five spellings of the long option `--t`, in registration order. */
  function LongOptionSpellings(t: string): seq<string>
  {
    ["--" + t, "--enable-" + t, "--with-" + t, "--disable-" + t, "--without-" + t]
  }

  /** A feature declared as `--t` (`--selinux`, say) registers exactly its five spellings. */
  lemma LongOptionExpansion(t: string)
    requires t == [] || t[0] != '-'
    ensures ExpandOptionStrings(["--" + t]) == LongOptionSpellings(t)
  {
    StripLongOption(t);
    assert ["--" + t][1..] == [];
    assert ExpandOptionStrings(["--" + t]) == Variants("--" + t) + [];
  }

  lemma JoinCons(sep: string, xs: seq<string>)
    requires |xs| >= 2
    ensures Join(sep, xs) == xs[0] + sep + Join(sep, xs[1..])
  {
  }

  /** Joining five strings puts the separator between each neighbouring pair. */
  lemma JoinFive(sep: string, v: seq<string>)
    requires |v| == 5
    ensures Join(sep, v) == v[0] + sep + (v[1] + sep + (v[2] + sep + (v[3] + sep + v[4])))
  {
    JoinCons(sep, v);
    JoinCons(sep, v[1..]);
    JoinCons(sep, v[2..]);
    JoinCons(sep, v[3..]);
    assert v[1..][1..] == v[2..] && v[2..][1..] == v[3..] && v[3..][1..] == v[4..];
  }

  /** The usage text of a feature declared as `--t` lists its five spellings. */
  lemma LongOptionUsage(t: string, dest: string, default: Value)
    requires t == [] || t[0] != '-'
    ensures FormatUsage(NewOptionalFeature(["--" + t], dest, default).value)
         == ("--" + t) + " | " + (("--enable-" + t) + " | " + (("--with-" + t) + " | "
            + (("--disable-" + t) + " | " + ("--without-" + t))))
  {
    LongOptionExpansion(t);
    JoinFive(" | ", LongOptionSpellings(t));
  }
}
