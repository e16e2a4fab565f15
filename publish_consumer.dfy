/** scripts/1-publish-consumer.js: check the broker credentials, read `--version=` and
    `--branch=` overrides, find the pact files and build the argument list of
    `pact-broker publish`. The `pacts` directory is the parameters `pactsDirExists`
    (fs.existsSync) and `listing` (fs.readdirSync); the clock is `nowMs` (Date.now()). */
module PublishConsumer {
  import opened Js
  import opened JsStrings
  import opened JsNumber
  import opened Cli
  import PublishProvider

  /** One override `key=value`: destructuring `[k, v]` of the split keeps the text between
      the first and the second `=`; without `=` the value is `undefined`. */
  function Entry(body: string): (e: (string, Option<string>))
    ensures IndexOf(body, '=') < 0 ==> e == (body, None)
    ensures IndexOf(body, '=') >= 0 ==> e.0 == body[..IndexOf(body, '=')]
    ensures IndexOf(body, '=') >= 0 ==>
      var rest := body[IndexOf(body, '=') + 1..];
      e.1 == Some(if '=' in rest then rest[..IndexOf(rest, '=')] else rest)
  {
    var parts := Split(body, '=');
    SplitFirst(body, '=');
    var k := IndexOf(body, '=');
    if k >= 0 then
      SplitFirst(body[k + 1..], '=');
      (parts[0], Some(parts[1]))
    else
      (parts[0], None)
  }

  /** Where the two publish scripts differ: on `key=a=b` the provider script keeps `a=b`,
      this one keeps only `a`. */
  lemma SecondEqualsDropsTail(key: string, a: string, b: string)
    requires '=' !in key && '=' !in a
    ensures Entry(key + "=" + a + "=" + b) == (key, Some(a))
    ensures PublishProvider.Entry(key + "=" + a + "=" + b) == (key, a + "=" + b)
  {
    var rest := a + "=" + b;
    assert key + "=" + a + "=" + b == key + "=" + rest;
    FirstEquals(key, rest);
    FirstEquals(a, b);
  }

  /** In `key=rest` with no `=` in `key`, the first `=` is the one after `key`. */
  lemma FirstEquals(key: string, rest: string)
    requires '=' !in key
    ensures var body := key + "=" + rest;
      IndexOf(body, '=') == |key| && body[..|key|] == key && body[|key| + 1..] == rest
  {
    var body := key + "=" + rest;
    assert body[|key|] == '=';
    forall j | 0 <= j < |key| ensures body[j] != '=' {
      assert body[j] == key[j];
    }
    IndexOfIs(body, '=', |key|);
    assert body[..|key|] == key;
    assert body[|key| + 1..] == rest;
  }

  /** `cliArgs.get(key)` on the Map built from the overrides. */
  function Override(argv: seq<string>, key: string): (r: Option<string>)
    ensures r.Some? ==> exists i :: 0 <= i < |FlagBodies(argv)| && Entry(FlagBodies(argv)[i]) == (key, r)
  {
    var m := BuildMap(Map(FlagBodies(argv), Entry));
    if key in m then
      OverrideComesFromEntry(Map(FlagBodies(argv), Entry), key);
      m[key]
    else None
  }

  /** Every value of the Map is the value of some entry with that key. */
  lemma {:induction false} OverrideComesFromEntry<V>(entries: seq<(string, V)>, key: string)
    requires key in BuildMap(entries)
    ensures exists i :: 0 <= i < |entries| && entries[i] == (key, BuildMap(entries)[key])
    decreases |entries|
  {
    var n := |entries|;
    var init := entries[..n - 1];
    if entries[n - 1].0 != key {
      OverrideComesFromEntry(init, key);
      var i :| 0 <= i < |init| && init[i] == (key, BuildMap(init)[key]);
      assert entries[i] == init[i];
    }
  }

  /** Both publish scripts take the text before the first `=` as the key. */
  lemma SameKey(body: string)
    ensures Entry(body).0 == PublishProvider.Entry(body).0
  {
  }

  /** A repeated key: the value of its last occurrence on the command line is the override. */
  lemma LastOverrideWins(argv: seq<string>, i: nat)
    requires 2 <= i < |argv| && StartsWith(argv[i], "--")
    requires forall j :: i < j < |argv| && StartsWith(argv[j], "--") ==>
      PublishProvider.KeyOf(argv[j]) != PublishProvider.KeyOf(argv[i])
    ensures Override(argv, PublishProvider.KeyOf(argv[i])) == Entry(argv[i][2..]).1
  {
    var args := SliceFrom(argv, 2);
    assert args == argv[2..];
    assert args[i - 2] == argv[i];
    forall j | i - 2 < j < |args| && StartsWith(args[j], "--")
      ensures PublishProvider.KeyOf(args[j]) != PublishProvider.KeyOf(args[i - 2])
    {
      assert args[j] == argv[j + 2];
    }
    LastOverrideWinsIn(args, i - 2);
  }

  /** The same among the arguments after the script path. */
  lemma LastOverrideWinsIn(args: seq<string>, a: nat)
    requires a < |args| && StartsWith(args[a], "--")
    requires forall j :: a < j < |args| && StartsWith(args[j], "--") ==>
      PublishProvider.KeyOf(args[j]) != PublishProvider.KeyOf(args[a])
    ensures var m := BuildMap(Map(StrippedFlags(args), Entry));
      PublishProvider.KeyOf(args[a]) in m && m[PublishProvider.KeyOf(args[a])] == Entry(args[a][2..]).1
  {
    PublishProvider.StrippedFlagsAround(args, a);
    var sa := StrippedFlags(args[..a]);
    var sb := StrippedFlags(args[a + 1..]);
    var x := args[a][2..];
    var bodies := sa + [x] + sb;
    var es := Map(bodies, Entry);
    var n := |sa|;
    SameKey(x);
    assert es[n] == Entry(x);
    forall j | n < j < |es| ensures es[j].0 != es[n].0 {
      PublishProvider.LaterKey(args, a, sb, j - n - 1);
      assert bodies[j] == sb[j - n - 1];
      SameKey(sb[j - n - 1]);
    }
    BuildMapLastWins(es, n);
  }

  /** The version: the override, else PACT_CONSUMER_VERSION, else `local-<Date.now()>`. */
  function Version(argv: seq<string>, env: map<string, string>, nowMs: nat): (v: string)
    ensures v != ""
    ensures !Truthy(Override(argv, "version")) && !Truthy(Lookup(env, "PACT_CONSUMER_VERSION")) ==>
      v == "local-" + NatToString(nowMs)
    ensures Truthy(Override(argv, "version")) ==> v == Override(argv, "version").value
    ensures !Truthy(Override(argv, "version")) && Truthy(Lookup(env, "PACT_CONSUMER_VERSION")) ==>
      v == env["PACT_CONSUMER_VERSION"]
  {
    Pick(Override(argv, "version"), Lookup(env, "PACT_CONSUMER_VERSION"), "local-" + NatToString(nowMs))
  }

  /** The branch: the override, else PACT_BRANCH, else `local`. */
  function Branch(argv: seq<string>, env: map<string, string>): (b: string)
    ensures b != ""
    ensures !Truthy(Override(argv, "branch")) && !Truthy(Lookup(env, "PACT_BRANCH")) ==> b == "local"
    ensures Truthy(Override(argv, "branch")) ==> b == Override(argv, "branch").value
    ensures !Truthy(Override(argv, "branch")) && Truthy(Lookup(env, "PACT_BRANCH")) ==> b == env["PACT_BRANCH"]
  {
    Pick(Override(argv, "branch"), Lookup(env, "PACT_BRANCH"), "local")
  }

  /** A last override with no `=` (`--version`) reads as `undefined`, so the environment
      or the default decides. */
  lemma BareFlagIsUndefined(argv: seq<string>, key: string)
    requires 3 <= |argv| && argv[|argv| - 1] == "--" + key && '=' !in key
    ensures Override(argv, key) == None
  {
    var args := SliceFrom(argv, 2);
    assert forall j :: 0 <= j < |args| ==> args[j] == argv[j + 2];
    var flag := args[|args| - 1];
    assert flag == "--" + key;
    assert args == args[..|args| - 1] + [flag];
    StrippedFlagsConcat(args[..|args| - 1], [flag]);
    assert flag[..2] == "--" && flag[2..] == key;
    StrippedFlagsSingle(flag);
    var bodies := FlagBodies(argv);
    var es := Map(bodies, Entry);
    assert bodies[|bodies| - 1] == key;
    assert es[|es| - 1] == (key, None);
    BuildMapLastWins(es, |es| - 1);
  }

  /** `pactFiles`: the names in the directory that end in `.json`, in listing order. */
  function PactFiles(listing: seq<string>): (r: seq<string>)
    ensures forall f :: f in r <==> f in listing && EndsWith(f, ".json")
  {
    Filter(listing, f => EndsWith(f, ".json"))
  }

  /** The flags of `pact-broker publish`, in order. */
  const PublishFlags: seq<string> := ["--consumer-app-version", "--branch", "--broker-base-url", "--broker-token"]

  /** `args`: publish the `./pacts` directory with the version, branch and broker credentials. */
  function PublishArgs(version: string, branch: string, baseUrl: string, token: string): (r: seq<string>)
    ensures |r| == 10 && r[0] == "publish" && r[1] == "./pacts"
    ensures r[2] == "--consumer-app-version" && r[3] == version
    ensures r[4] == "--branch" && r[5] == branch
    ensures r[6] == "--broker-base-url" && r[7] == baseUrl
    ensures r[8] == "--broker-token" && r[9] == token
  {
    var p := PublishPairs(version, branch, baseUrl, token);
    var r := ["publish", "./pacts"] + PairsToArgs(p);
    assert r[2] == p[0].0 && r[3] == p[0].1 && r[4] == p[1].0 && r[5] == p[1].1;
    assert r[6] == p[2].0 && r[7] == p[2].1 && r[8] == p[3].0 && r[9] == p[3].1;
    r
  }

  function PublishPairs(version: string, branch: string, baseUrl: string, token: string): (p: seq<(string, string)>)
    ensures |p| == 4
    ensures forall k :: 0 <= k < 4 ==> p[k].0 == PublishFlags[k]
    ensures p[0].1 == version && p[1].1 == branch && p[2].1 == baseUrl && p[3].1 == token
  {
    var values := [version, branch, baseUrl, token];
    seq(4, k requires 0 <= k < 4 => (PublishFlags[k], values[k]))
  }

  /** When no value looks like a flag, the element after the first occurrence of each flag in
      the argument array is that flag's own value. */
  lemma PublishArgsReadBack(version: string, branch: string, baseUrl: string, token: string, k: nat)
    requires !StartsWith(version, "--") && !StartsWith(branch, "--")
    requires !StartsWith(baseUrl, "--") && !StartsWith(token, "--")
    requires k < 4
    ensures var p := PublishPairs(version, branch, baseUrl, token);
      FlagValue(PublishArgs(version, branch, baseUrl, token), p[k].0) == Some(p[k].1)
  {
    var f := PublishFlags;
    assert |f[0]| == 22 && |f[1]| == 8 && |f[2]| == 17 && |f[3]| == 14;
    forall a | 0 <= a < 4 ensures StartsWith(f[a], "--") {
      assert f[a][0] == '-' && f[a][1] == '-';
      assert f[a][..2] == "--";
    }
    var prefix := ["publish", "./pacts"];
    var p := PublishPairs(version, branch, baseUrl, token);
    assert prefix[0][0] == 'p' && prefix[1][0] == '.';
    forall a | 0 <= a < k ensures p[a].0 != p[k].0 && p[a].1 != p[k].0 {
      assert p[a].0 == f[a] && p[k].0 == f[k];
    }
    PairsRoundTrip(prefix, p, k);
  }

  const MissingCredentials := "Missing PACT_BROKER_BASE_URL or PACT_BROKER_TOKEN in .env"
  const NoPactsDir := "No ./pacts directory found. Run your consumer tests first."
  const NoPactFiles := "No pact files found in ./pacts. Nothing to publish."

  /** How the script ends: an error exit, or `pact-broker` spawned with its arguments. */
  datatype Outcome = Abort(message: string) | Spawn(program: string, args: seq<string>)

  /** The whole script but the spawn itself. */
  function Plan(argv: seq<string>, env: map<string, string>, nowMs: nat,
                pactsDirExists: bool, listing: seq<string>): (r: Outcome)
    ensures !Truthy(Lookup(env, "PACT_BROKER_BASE_URL")) || !Truthy(Lookup(env, "PACT_BROKER_TOKEN")) ==>
      r == Abort(MissingCredentials)
    ensures Truthy(Lookup(env, "PACT_BROKER_BASE_URL")) && Truthy(Lookup(env, "PACT_BROKER_TOKEN")) ==>
      && (!pactsDirExists ==> r == Abort(NoPactsDir))
      && (pactsDirExists && (forall f :: f in listing ==> !EndsWith(f, ".json")) ==> r == Abort(NoPactFiles))
    ensures r.Spawn? <==>
      && Truthy(Lookup(env, "PACT_BROKER_BASE_URL")) && Truthy(Lookup(env, "PACT_BROKER_TOKEN"))
      && pactsDirExists && exists f :: f in listing && EndsWith(f, ".json")
    ensures r.Spawn? ==> r.program == "pact-broker"
    ensures r.Spawn? ==> r.args == PublishArgs(Version(argv, env, nowMs), Branch(argv, env),
      Lookup(env, "PACT_BROKER_BASE_URL").value, Lookup(env, "PACT_BROKER_TOKEN").value)
  {
    var baseUrl := Lookup(env, "PACT_BROKER_BASE_URL");
    var token := Lookup(env, "PACT_BROKER_TOKEN");
    if !Truthy(baseUrl) || !Truthy(token) then Abort(MissingCredentials)
    else if !pactsDirExists then Abort(NoPactsDir)
    else
      var files := PactFiles(listing);
      if |files| == 0 then
        assert forall f :: f !in files;
        Abort(NoPactFiles)
      else
        assert files[0] in files;
        Spawn("pact-broker", PublishArgs(Version(argv, env, nowMs), Branch(argv, env), baseUrl.value, token.value))
  }
}
