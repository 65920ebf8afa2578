/**
  The `systemd-run` argument vector for commands that leave the agent's sandbox, and what systemd
  makes of its tail.
 */
module UnsandboxedArgv {
  import opened Text

  /** An `OsString`: valid UTF-8, or other bytes (one `char` per byte). */
  datatype OsArg = Utf8(text: string) | Bytes(text: string)

  const SEPARATOR := Utf8("--")
  const SAFE_PATH := "/usr/local/sbin:/usr/local/bin:/usr/sbin:/usr/bin:/sbin:/bin"
  const DOCKER_CONFIG_DIR := "/var/lib/dockpanel/docker"

  /** `replace('$', "$$")` */
  function DoubleDollars(s: string): (r: string) {
    if s == [] then [] else (if s[0] == '$' then "$$" else [s[0]]) + DoubleDollars(s[1..])
  }

  function EscapeDollar(a: OsArg): (r: OsArg) {
    match a
    case Utf8(s) => if '$' in s then Utf8(DoubleDollars(s)) else a
    case Bytes(_) => a
  }

  function EscapeAll(args: seq<OsArg>): (r: seq<OsArg>)
    ensures |r| == |args| && forall k :: 0 <= k < |r| ==> r[k] == EscapeDollar(args[k])
  {
    if args == [] then [] else [EscapeDollar(args[0])] + EscapeAll(args[1..])
  }

  function SetEnv(key: string, value: string): OsArg {
    Utf8("--setenv=" + key + "=" + value)
  }

  function SetEnvs(env: seq<(string, string)>): (r: seq<OsArg>)
    ensures |r| == |env| && forall k :: 0 <= k < |r| ==> r[k] == SetEnv(env[k].0, env[k].1)
  {
    if env == [] then [] else [SetEnv(env[0].0, env[0].1)] + SetEnvs(env[1..])
  }

  /** systemd-run's own options, before the separator. */
  function Options(env: seq<(string, string)>): seq<OsArg> {
    [Utf8("--quiet"), Utf8("--wait"), Utf8("--collect"),
     SetEnv("PATH", SAFE_PATH), SetEnv("HOME", "/root"), SetEnv("LANG", "C.UTF-8"), SetEnv("LC_ALL", "C.UTF-8"),
     SetEnv("DEBIAN_FRONTEND", "noninteractive"), SetEnv("DOCKER_CONFIG", DOCKER_CONFIG_DIR)]
    + SetEnvs(env)
  }

  function UnitOption(unit: string): OsArg {
    Utf8("--unit=" + unit)
  }

  function UnitOptions(units: seq<string>): (r: seq<OsArg>)
    ensures |r| == |units| && forall k :: 0 <= k < |r| ==> r[k] == UnitOption(units[k])
  {
    seq(|units|, k requires 0 <= k < |units| => UnitOption(units[k]))
  }

  /** The vector after naming the unit once per element of `units` and passing `args`, in any interleaving. */
  function Vector(binary: string, env: seq<(string, string)>, units: seq<string>, args: seq<OsArg>): seq<OsArg> {
    Options(env) + UnitOptions(units) + [SEPARATOR, Utf8(binary)] + EscapeAll(args)
  }

  lemma PathText()
    ensures SetEnv("PATH", SAFE_PATH) ==
            Utf8("--setenv=PATH=" + "/usr/local/sbin:/usr/local/bin:/usr/sbin:/usr/bin:/sbin:/bin")
  {
    assert "--setenv=" + "PATH" + "=" == "--setenv=PATH=";
  }

  lemma HomeText()
    ensures SetEnv("HOME", "/root") == Utf8("--setenv=HOME=" + "/root")
  {
    assert "--setenv=" + "HOME" + "=" == "--setenv=HOME=";
  }

  lemma LangText()
    ensures SetEnv("LANG", "C.UTF-8") == Utf8("--setenv=LANG=" + "C.UTF-8")
    ensures SetEnv("LC_ALL", "C.UTF-8") == Utf8("--setenv=LC_ALL=" + "C.UTF-8")
  {
    assert "--setenv=" + "LANG" + "=" == "--setenv=LANG=";
    assert "--setenv=" + "LC_ALL" + "=" == "--setenv=LC_ALL=";
  }

  lemma FrontendText()
    ensures SetEnv("DEBIAN_FRONTEND", "noninteractive") == Utf8("--setenv=DEBIAN_FRONTEND=" + "noninteractive")
  {
    assert "--setenv=" + "DEBIAN_FRONTEND" + "=" == "--setenv=DEBIAN_FRONTEND=";
  }

  lemma DockerText()
    ensures SetEnv("DOCKER_CONFIG", DOCKER_CONFIG_DIR) ==
            Utf8("--setenv=DOCKER_CONFIG=" + "/var/lib/dockpanel/docker")
  {
    assert "--setenv=" + "DOCKER_CONFIG" + "=" == "--setenv=DOCKER_CONFIG=";
  }

  /** The options, written out. */
  lemma OptionsText(env: seq<(string, string)>)
    ensures |Options(env)| == 9 + |env|
    ensures Options(env)[..9] == [
              Utf8("--quiet"), Utf8("--wait"), Utf8("--collect"),
              Utf8("--setenv=PATH=" + "/usr/local/sbin:/usr/local/bin:/usr/sbin:/usr/bin:/sbin:/bin"),
              Utf8("--setenv=HOME=" + "/root"),
              Utf8("--setenv=LANG=" + "C.UTF-8"), Utf8("--setenv=LC_ALL=" + "C.UTF-8"),
              Utf8("--setenv=DEBIAN_FRONTEND=" + "noninteractive"),
              Utf8("--setenv=DOCKER_CONFIG=" + "/var/lib/dockpanel/docker")
            ]
    ensures forall k :: 0 <= k < |env| ==> Options(env)[9 + k] == Utf8("--setenv=" + env[k].0 + "=" + env[k].1)
  {
    hide SetEnv;
    PathText();
    HomeText();
    LangText();
    FrontendText();
    DockerText();
    forall k | 0 <= k < |env| ensures SetEnvs(env)[k] == Utf8("--setenv=" + env[k].0 + "=" + env[k].1) {
      SetEnvText(env[k].0, env[k].1);
    }
  }

  lemma SetEnvText(key: string, value: string)
    ensures SetEnv(key, value) == Utf8("--setenv=" + key + "=" + value)
  {
  }

  class UnsandboxedCommand {
    var argv: seq<OsArg>
    ghost const binary: string
    ghost const env: seq<(string, string)>
    ghost var units: seq<string>
    ghost var args: seq<OsArg>

    ghost predicate Valid()
      reads this
    {
      argv == Vector(binary, env, units, args)
    }

    constructor (program: string, extra_env: seq<(string, string)>)
      ensures Valid() && binary == program && env == extra_env && units == [] && args == []
      ensures argv == Options(extra_env) + [Utf8("--"), Utf8(program)]
    {
      hide SetEnv;
      var v := [Utf8("--quiet"), Utf8("--wait"), Utf8("--collect"),
                SetEnv("PATH", SAFE_PATH), SetEnv("HOME", "/root"),
                SetEnv("LANG", "C.UTF-8"), SetEnv("LC_ALL", "C.UTF-8"),
                SetEnv("DEBIAN_FRONTEND", "noninteractive"), SetEnv("DOCKER_CONFIG", DOCKER_CONFIG_DIR)];
      ghost var fixed := v;
      var i := 0;
      while i < |extra_env|
        invariant i <= |extra_env|
        invariant v == fixed + SetEnvs(extra_env)[..i]
      {
        assert SetEnvs(extra_env)[..i + 1] == SetEnvs(extra_env)[..i] + [SetEnv(extra_env[i].0, extra_env[i].1)];
        assert fixed + SetEnvs(extra_env)[..i + 1] == v + [SetEnv(extra_env[i].0, extra_env[i].1)];
        v := v + [SetEnv(extra_env[i].0, extra_env[i].1)];
        i := i + 1;
      }
      assert v == Options(extra_env);
      v := v + [SEPARATOR];
      v := v + [Utf8(program)];
      argv := v;
      binary, env, units, args := program, extra_env, [], [];
    }

    method Arg(a: OsArg)
      requires Valid()
      modifies this
      ensures Valid() && args == old(args) + [a] && units == old(units)
      ensures argv == old(argv) + [EscapeDollar(a)]
      ensures a.Bytes? ==> argv == old(argv) + [a]
    {
      argv := argv + [EscapeDollar(a)];
      args := args + [a];
      assert EscapeAll(args) == EscapeAll(old(args)) + [EscapeDollar(a)];
    }

    method Args(more: seq<OsArg>)
      requires Valid()
      modifies this
      ensures Valid() && args == old(args) + more && units == old(units)
    {
      var i := 0;
      while i < |more|
        invariant i <= |more| && Valid()
        invariant args == old(args) + more[..i] && units == old(units)
      {
        Arg(more[i]);
        i := i + 1;
      }
    }

    /** Put `--unit=` in front of the first separator; `unit` is the fresh name. */
    method InsertUnitArg(unit: string) returns (inner: string)
      requires Valid()
      modifies this
      ensures Valid() && args == old(args) && units == old(units) + [unit]
      ensures inner == binary
    {
      hide SetEnv, UnitOption, Options, UnitOptions, EscapeAll;
      SeparatorIsFirst(binary, env, units, args);
      var sep := 0;
      while argv[sep] != SEPARATOR
        invariant sep <= |Options(env)| + |units| < |argv|
        decreases |argv| - sep
      {
        sep := sep + 1;
      }
      inner := argv[sep + 1].text;
      assert argv[sep..] == [SEPARATOR, Utf8(binary)] + EscapeAll(args);
      argv := argv[..sep] + [UnitOption(unit)] + argv[sep..];
      assert UnitOptions(units + [unit]) == UnitOptions(units) + [UnitOption(unit)];
      units := units + [unit];
    }
  }

  /** No option ahead of the separator equals it, whatever the environment and unit names hold. */
  lemma SeparatorIsFirst(binary: string, env: seq<(string, string)>, units: seq<string>, args: seq<OsArg>)
    ensures var v, n := Vector(binary, env, units, args), |Options(env)| + |units|;
            && n + 1 < |v| && v[n] == SEPARATOR && v[n + 1] == Utf8(binary)
            && (forall k :: 0 <= k < n ==> v[k] != SEPARATOR)
            && v[..n] == Options(env) + UnitOptions(units) && v[n + 2..] == EscapeAll(args)
  {
    var v, n := Vector(binary, env, units, args), |Options(env)| + |units|;
    forall key, value ensures |SetEnv(key, value).text| > 2 {
    }
    forall unit ensures |UnitOption(unit).text| > 2 {
    }
    forall k | 0 <= k < |Options(env)| ensures |Options(env)[k].text| > 2 {
      assert k >= 9 ==> Options(env)[k] == SetEnvs(env)[k - 9];
    }
  }

  /** Naming the unit puts one more option, written out, right ahead of the separator and the program. */
  lemma UnitGoesBeforeSeparator(binary: string, env: seq<(string, string)>, units: seq<string>, args: seq<OsArg>,
      unit: string)
    ensures var v, n := Vector(binary, env, units, args), 9 + |env| + |units|;
            && n + 2 <= |v| && v[n..n + 2] == [Utf8("--"), Utf8(binary)]
            && Vector(binary, env, units + [unit], args) == v[..n] + [Utf8("--unit=" + unit)] + v[n..]
  {
    hide SetEnv, EscapeAll, UnitOption;
    assert UnitOption(unit) == Utf8("--unit=" + unit) by { UnitText(unit); }
    assert UnitOptions(units + [unit]) == UnitOptions(units) + [UnitOption(unit)];
    SeparatorIsFirst(binary, env, units, args);
    SeparatorIsFirst(binary, env, units + [unit], args);
    OptionsText(env);
    var v, n := Vector(binary, env, units, args), 9 + |env| + |units|;
    assert v[n..] == [SEPARATOR, Utf8(binary)] + EscapeAll(args);
  }

  lemma UnitText(unit: string)
    ensures UnitOption(unit) == Utf8("--unit=" + unit)
  {
  }

  // ------------------------------------------------- what systemd does to the tail

  /**
    systemd's reading of one `ExecStart=` argument: `$$` is a literal dollar, and any other `$`
    begins a variable, whose effect on the rest of the argument is `expansion`.
   */
  function Expand(s: string, expansion: string -> string): (r: string) {
    if s == [] then []
    else if s[0] == '$' then
      if |s| > 1 && s[1] == '$' then ['$'] + Expand(s[2..], expansion) else expansion(s)
    else [s[0]] + Expand(s[1..], expansion)
  }

  lemma {:induction false} ExpandDoubled(s: string, expansion: string -> string)
    ensures Expand(DoubleDollars(s), expansion) == s
  {
    if s != [] {
      ExpandDoubled(s[1..], expansion);
      var head := if s[0] == '$' then "$$" else [s[0]];
      assert (head + DoubleDollars(s[1..]))[|head|..] == DoubleDollars(s[1..]);
    }
  }

  lemma {:induction false} ExpandPlain(s: string, expansion: string -> string)
    requires '$' !in s
    ensures Expand(s, expansion) == s
  {
    if s != [] {
      ExpandPlain(s[1..], expansion);
    }
  }

  /** Whatever variables mean, every UTF-8 argument reaches the inner command as the caller gave it. */
  lemma ArgumentsSurvive(a: OsArg, expansion: string -> string)
    requires a.Utf8?
    ensures EscapeDollar(a).Utf8? && Expand(EscapeDollar(a).text, expansion) == a.text
  {
    if '$' in a.text {
      ExpandDoubled(a.text, expansion);
    } else {
      ExpandPlain(a.text, expansion);
    }
  }

  /** Every variable unset: nothing of the argument is left from its first variable on. */
  function Unset(s: string): string { "" }

  lemma {:induction false} DollarsShrink(s: string)
    ensures |Expand(s, Unset)| <= |s| && ('$' in s ==> |Expand(s, Unset)| < |s|)
    decreases |s|
  {
    if s != [] {
      if s[0] == '$' && |s| > 1 && s[1] == '$' {
        DollarsShrink(s[2..]);
      } else if s[0] != '$' {
        assert s == [s[0]] + s[1..];
        DollarsShrink(s[1..]);
      }
    }
  }

  /**
    Text passed unescaped — the program's own name, and arguments that are not UTF-8 — survives every expansion
    exactly when it has no dollar.
   */
  lemma UnescapedSurvivesIffNoDollar(s: string)
    ensures (forall expansion: string -> string :: Expand(s, expansion) == s) <==> '$' !in s
  {
    if '$' in s {
      DollarsShrink(s);
      assert Expand(s, Unset) != s;
    } else {
      forall expansion: string -> string ensures Expand(s, expansion) == s {
        ExpandPlain(s, expansion);
      }
    }
  }

  function ExpandAll(args: seq<OsArg>, expansion: string -> string): (r: seq<string>) {
    if args == [] then [] else [Expand(args[0].text, expansion)] + ExpandAll(args[1..], expansion)
  }

  function Texts(args: seq<OsArg>): (r: seq<string>) {
    if args == [] then [] else [args[0].text] + Texts(args[1..])
  }

  /** Whatever variables mean, systemd makes `texts` of `args`. */
  ghost predicate AlwaysExpandsTo(args: seq<OsArg>, texts: seq<string>) {
    forall expansion: string -> string :: ExpandAll(args, expansion) == texts
  }

  /** An argument that expands, as escaped, to what the caller gave, whatever variables mean. */
  predicate Survives(a: OsArg) {
    a.Utf8? || '$' !in a.text
  }

  lemma EscapedSurvivesIff(a: OsArg)
    ensures Survives(a) ==> forall expansion: string -> string :: Expand(EscapeDollar(a).text, expansion) == a.text
    ensures !Survives(a) ==> Expand(EscapeDollar(a).text, Unset) != a.text
  {
    forall expansion: string -> string | Survives(a) ensures Expand(EscapeDollar(a).text, expansion) == a.text {
      if a.Utf8? { ArgumentsSurvive(a, expansion); } else { ExpandPlain(a.text, expansion); }
    }
    DollarsShrink(a.text);
  }

  lemma {:induction false} ArgsSurvive(args: seq<OsArg>, expansion: string -> string)
    requires forall k :: 0 <= k < |args| ==> Survives(args[k])
    ensures ExpandAll(EscapeAll(args), expansion) == Texts(args)
  {
    hide Expand, Survives, EscapeDollar;
    if args != [] {
      EscapedSurvivesIff(args[0]);
      assert EscapeAll(args)[1..] == EscapeAll(args[1..]);
      assert forall k :: 0 <= k < |args[1..]| ==> args[1..][k] == args[k + 1];
      ArgsSurvive(args[1..], expansion);
    }
  }

  lemma {:induction false} ArgsAreCut(args: seq<OsArg>, k: nat)
    requires k < |args| && !Survives(args[k])
    ensures ExpandAll(EscapeAll(args), Unset) != Texts(args)
  {
    hide Expand, Survives, EscapeDollar;
    var got, want := ExpandAll(EscapeAll(args), Unset), Texts(args);
    assert EscapeAll(args)[1..] == EscapeAll(args[1..]);
    if k == 0 {
      EscapedSurvivesIff(args[0]);
      assert got[0] != want[0];
    } else {
      ArgsAreCut(args[1..], k - 1);
      assert got[1..] != want[1..];
    }
  }

  /** The program and the arguments, expanded. */
  lemma TailExpands(binary: string, args: seq<OsArg>, expansion: string -> string)
    ensures ExpandAll([Utf8(binary)] + EscapeAll(args), expansion)
            == [Expand(binary, expansion)] + ExpandAll(EscapeAll(args), expansion)
  {
    hide Expand;
    assert ([Utf8(binary)] + EscapeAll(args))[1..] == EscapeAll(args);
  }

  lemma TailSurvives(binary: string, args: seq<OsArg>, expansion: string -> string)
    requires '$' !in binary && forall k :: 0 <= k < |args| ==> Survives(args[k])
    ensures ExpandAll([Utf8(binary)] + EscapeAll(args), expansion) == [binary] + Texts(args)
  {
    hide Expand, ExpandAll, Texts, Survives, EscapeAll;
    TailExpands(binary, args, expansion);
    ExpandPlain(binary, expansion);
    ArgsSurvive(args, expansion);
  }

  lemma TailIsCut(binary: string, args: seq<OsArg>)
    requires '$' in binary || exists k :: 0 <= k < |args| && !Survives(args[k])
    ensures ExpandAll([Utf8(binary)] + EscapeAll(args), Unset) != [binary] + Texts(args)
  {
    hide Expand, ExpandAll, Texts, Survives, EscapeAll;
    TailExpands(binary, args, Unset);
    var got, want := [Expand(binary, Unset)] + ExpandAll(EscapeAll(args), Unset), [binary] + Texts(args);
    if '$' in binary {
      DollarsShrink(binary);
      assert got[0] != want[0];
    } else {
      var k :| 0 <= k < |args| && !Survives(args[k]);
      ArgsAreCut(args, k);
      assert got[1..] == ExpandAll(EscapeAll(args), Unset) && want[1..] == Texts(args);
    }
  }

  /**
    Of the vector any command ends up with: what precedes the first `--` is the fixed options, the environment, and
    one `--unit=` per naming; what follows reaches the inner command as the program and the caller's arguments, in
    order and whatever variables mean, exactly when neither the program nor an argument that is not UTF-8 has a dollar.
   */
  lemma VectorMeans(binary: string, env: seq<(string, string)>, units: seq<string>, args: seq<OsArg>, sep: nat)
    requires sep < |Vector(binary, env, units, args)| && Vector(binary, env, units, args)[sep] == SEPARATOR
    requires forall k :: 0 <= k < sep ==> Vector(binary, env, units, args)[k] != SEPARATOR
    ensures Vector(binary, env, units, args)[..sep] == Options(env) + UnitOptions(units)
    ensures AlwaysExpandsTo(Vector(binary, env, units, args)[sep + 1..], [binary] + Texts(args)) <==>
            '$' !in binary && forall k :: 0 <= k < |args| ==> Survives(args[k])
  {
    hide Options, UnitOptions, EscapeAll, Vector, ExpandAll, Texts, Survives;
    SeparatorIsFirst(binary, env, units, args);
    var v, n := Vector(binary, env, units, args), |Options(env)| + |units|;
    var tail := v[sep + 1..];
    assert sep == n && tail == [Utf8(binary)] + EscapeAll(args);
    if '$' !in binary && forall k :: 0 <= k < |args| ==> Survives(args[k]) {
      forall expansion: string -> string ensures ExpandAll(tail, expansion) == [binary] + Texts(args) {
        TailSurvives(binary, args, expansion);
      }
    } else {
      TailIsCut(binary, args);
    }
  }

  // ------------------------------------------------------------------ dollar runs

  /** `s[i..j]` is a run of dollars that neither neighbour extends. */
  ghost predicate DollarRun(s: string, i: int, j: int) {
    && 0 <= i <= j <= |s| && (forall k :: i <= k < j ==> s[k] == '$')
    && (i > 0 ==> s[i - 1] != '$') && (j < |s| ==> s[j] != '$')
  }

  /** In an escaped argument every run of dollars has even length, so no variable ever begins in it. */
  lemma {:induction false} RunsAreEven(s: string, i: int, j: int)
    requires DollarRun(DoubleDollars(s), i, j)
    ensures (j - i) % 2 == 0
    decreases |s|
  {
    if s != [] {
      var e, e' := DoubleDollars(s), DoubleDollars(s[1..]);
      var d := if s[0] == '$' then 2 else 1;
      var head := if s[0] == '$' then "$$" else [s[0]];
      assert e == head + e' && |head| == d;
      TailRun(head, e', i, j);
      if i >= d {
        RunsAreEven(s[1..], i - d, j - d);
      } else if s[0] == '$' {
        RunsAreEven(s[1..], 0, j - 2);
      }
    }
  }

  /** A run in `head + rest` is a run of `rest`, or begins with all of a `$$` head and goes on in `rest`. */
  lemma TailRun(head: string, rest: string, i: int, j: int)
    requires DollarRun(head + rest, i, j) && (head == "$$" || (|head| == 1 && head[0] != '$'))
    ensures i >= |head| ==> DollarRun(rest, i - |head|, j - |head|)
    ensures i < |head| && head == "$$" ==> i == 0 && DollarRun(rest, 0, j - 2)
    ensures i < |head| && head != "$$" ==> i == j
  {
    var e := head + rest;
    assert forall k :: 0 <= k < |head| ==> e[k] == head[k];
    assert forall k :: 0 <= k < |rest| ==> rest[k] == e[k + |head|];
  }
}
