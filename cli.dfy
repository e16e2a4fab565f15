/** Command-line handling shared by the scripts: the `--flag` entries of `process.argv`,
    `getArg`, the `cli || env || default` precedence, and argument lists made of
    flag/value pairs. */
module Cli {
  import opened Js
  import opened JsStrings

  /** `process.argv.slice(2).filter(a => a.startsWith("--")).map(a => a.replace(/^--/, ""))`:
      the arguments after the program and script paths that start with `--`, without it. */
  function FlagBodies(argv: seq<string>): (r: seq<string>)
    ensures |r| <= |argv|
    ensures forall i :: 0 <= i < |r| ==> exists j :: 2 <= j < |argv| && argv[j] == "--" + r[i]
    ensures forall i :: 2 <= i < |argv| && StartsWith(argv[i], "--") ==> argv[i][2..] in r
  {
    var args := SliceFrom(argv, 2);
    assert forall j :: 0 <= j < |args| ==> args[j] == argv[j + 2];
    StrippedFlags(args)
  }

  /** The `--` entries of `args`, in order, without the dashes. */
  function StrippedFlags(args: seq<string>): (r: seq<string>)
    ensures |r| <= |args|
    ensures forall i :: 0 <= i < |r| ==> "--" + r[i] in args
    ensures forall i :: 0 <= i < |args| && StartsWith(args[i], "--") ==> args[i][2..] in r
    decreases |args|
  {
    if args == [] then []
    else
      var rest := StrippedFlags(args[1..]);
      assert forall j :: 1 <= j < |args| ==> args[1..][j - 1] == args[j];
      if StartsWith(args[0], "--") then
        assert "--" + args[0][2..] == args[0];
        [args[0][2..]] + rest
      else rest
  }

  /** Stripping distributes over concatenation. */
  lemma {:induction false} StrippedFlagsConcat(a: seq<string>, b: seq<string>)
    ensures StrippedFlags(a + b) == StrippedFlags(a) + StrippedFlags(b)
    decreases |a|
  {
    if a == [] {
      assert a + b == b;
    } else {
      assert (a + b)[0] == a[0];
      assert (a + b)[1..] == a[1..] + b;
      StrippedFlagsConcat(a[1..], b);
    }
  }

  lemma StrippedFlagsSingle(x: string)
    requires StartsWith(x, "--")
    ensures StrippedFlags([x]) == [x[2..]]
  {
    var single := [x];
    assert single[1..] == [];
  }

  /** `cli || env || d`: the first truthy of the command-line value and the environment
      value, then the default. */
  function Pick(cli: Option<string>, env: Option<string>, d: string): (r: string)
    ensures Truthy(cli) ==> r == cli.value
    ensures !Truthy(cli) && Truthy(env) ==> r == env.value
    ensures !Truthy(cli) && !Truthy(env) ==> r == d
    ensures PickedFrom(cli, env, d, r)
  {
    Or(OrOpt(cli, env), d)
  }

  /** `v` is what `cli || env || d` gives: the command-line value when truthy, else the
      environment value when truthy, else the default. */
  predicate PickedFrom(cli: Option<string>, env: Option<string>, d: string, v: string) {
    && (Truthy(cli) ==> v == cli.value)
    && (!Truthy(cli) && Truthy(env) ==> v == env.value)
    && (!Truthy(cli) && !Truthy(env) ==> v == d)
  }

  /** The element after the first occurrence of `flag`, or `None` when the flag is absent or
      is the last element (`argv[idx + 1]` is then `undefined`). */
  function FlagValue(args: seq<string>, flag: string): (r: Option<string>)
    ensures r.Some? <==> flag in args && IndexOf(args, flag) + 1 < |args|
    ensures r.Some? ==> r.value == args[IndexOf(args, flag) + 1]
  {
    var idx := IndexOf(args, flag);
    if idx >= 0 && idx + 1 < |args| then Some(args[idx + 1]) else None
  }

  /** `getArg(name)` of scripts/run-pact-tests.js over the whole `process.argv`. */
  function GetArg(argv: seq<string>, name: string): (r: Option<string>)
    ensures r.Some? ==> "--" + name in argv
    ensures "--" + name !in argv ==> r.None?
    ensures "--" + name in argv && IndexOf(argv, "--" + name) + 1 < |argv| ==> r.Some?
    ensures r.Some? ==> IndexOf(argv, "--" + name) + 1 < |argv| && r.value == argv[IndexOf(argv, "--" + name) + 1]
  {
    FlagValue(argv, "--" + name)
  }

  /** The position `IndexOf` reports is the first one holding `x`. */
  lemma IndexOfIs<T>(s: seq<T>, x: T, i: nat)
    requires i < |s| && s[i] == x
    requires forall j :: 0 <= j < i ==> s[j] != x
    ensures IndexOf(s, x) == i
  {
    var r := IndexOf(s, x);
    assert x in s;
    assert r >= i;
    assert forall j :: 0 <= j < r ==> s[..r][j] == s[j];
  }

  /** `flag1, value1, flag2, value2, ...`. */
  function PairsToArgs(pairs: seq<(string, string)>): (r: seq<string>)
    ensures |r| == 2 * |pairs|
    ensures forall k :: 0 <= k < |pairs| ==> r[2 * k] == pairs[k].0 && r[2 * k + 1] == pairs[k].1
    decreases |pairs|
  {
    if pairs == [] then []
    else
      var rest := PairsToArgs(pairs[1..]);
      assert forall k :: 1 <= k < |pairs| ==> pairs[1..][k - 1] == pairs[k];
      [pairs[0].0, pairs[0].1] + rest
  }

  /** A program reading the list back finds a flag's own value after it, when the flag
      appears nowhere before its own position. */
  lemma {:induction false} PairsRoundTrip(prefix: seq<string>, pairs: seq<(string, string)>, k: nat)
    requires k < |pairs|
    requires forall j :: 0 <= j < |prefix| ==> prefix[j] != pairs[k].0
    requires forall a :: 0 <= a < k ==> pairs[a].0 != pairs[k].0 && pairs[a].1 != pairs[k].0
    ensures FlagValue(prefix + PairsToArgs(pairs), pairs[k].0) == Some(pairs[k].1)
  {
    var s := prefix + PairsToArgs(pairs);
    var p := PairsToArgs(pairs);
    var flag := pairs[k].0;
    var i := |prefix| + 2 * k;
    assert s[i] == p[2 * k] == flag;
    forall j | 0 <= j < i ensures s[j] != flag {
      if j < |prefix| {
        assert s[j] == prefix[j];
      } else {
        var m := j - |prefix|;
        assert s[j] == p[m];
        if m % 2 == 0 {
          assert p[m] == pairs[m / 2].0;
        } else {
          assert p[2 * (m / 2) + 1] == pairs[m / 2].1;
        }
      }
    }
    IndexOfIs(s, flag, i);
    assert s[i + 1] == p[2 * k + 1];
  }
}
