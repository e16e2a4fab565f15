/** scripts/2-publish-provider-contract.js: read `--key=value` overrides, pick each option from
    the command line, the environment or a default, fall back to a stub results file, and
    build the argument list of `pactflow publish-provider-contract`. The file system is the
    parameters `resolve` (path.resolve against the working directory) and `onDisk`
    (fs.existsSync); the clock is `nowMs` (Date.now()). */
module PublishProvider {
  import opened Js
  import opened JsStrings
  import opened JsNumber
  import opened Cli

  /** One override `key=value...`: the key is the text before the first `=`, the value is
      everything after it, further `=` included (`rest.join("=")`); no `=` gives "". */
  function Entry(body: string): (e: (string, string))
    ensures IndexOf(body, '=') < 0 ==> e == (body, "")
    ensures IndexOf(body, '=') >= 0 ==> e == (body[..IndexOf(body, '=')], body[IndexOf(body, '=') + 1..])
    ensures '=' !in e.0
  {
    var parts := Split(body, '=');
    SplitFirst(body, '=');
    var k := IndexOf(body, '=');
    if k >= 0 then
      JoinSplit(body[k + 1..], '=');
      assert parts[1..] == Split(body[k + 1..], '=');
      (parts[0], Join(parts[1..], "="))
    else
      (parts[0], Join(parts[1..], "="))
  }

  /** `argsMap`. */
  function ArgsMap(argv: seq<string>): map<string, string> {
    BuildMap(Map(FlagBodies(argv), Entry))
  }

  /** The key an argument sets, when it is an override. */
  function KeyOf(arg: string): string
    requires StartsWith(arg, "--")
  {
    Entry(arg[2..]).0
  }

  /** The value an override ends with is the one of its last occurrence among `args`. */
  lemma LastOverrideWinsIn(args: seq<string>, i: nat)
    requires i < |args| && StartsWith(args[i], "--")
    requires forall j :: i < j < |args| && StartsWith(args[j], "--") ==> KeyOf(args[j]) != KeyOf(args[i])
    ensures Lookup(BuildMap(Map(StrippedFlags(args), Entry)), KeyOf(args[i])) == Some(Entry(args[i][2..]).1)
  {
    StrippedFlagsAround(args, i);
    var sa := StrippedFlags(args[..i]);
    var sb := StrippedFlags(args[i + 1..]);
    var bodies := sa + [args[i][2..]] + sb;
    var es := Map(bodies, Entry);
    var n := |sa|;
    assert es[n] == Entry(args[i][2..]);
    forall j | n < j < |es| ensures es[j].0 != es[n].0 {
      LaterKey(args, i, sb, j - n - 1);
      assert bodies[j] == sb[j - n - 1];
    }
    BuildMapLastWins(es, n);
  }

  lemma StrippedFlagsAround(args: seq<string>, i: nat)
    requires i < |args| && StartsWith(args[i], "--")
    ensures StrippedFlags(args) == StrippedFlags(args[..i]) + [args[i][2..]] + StrippedFlags(args[i + 1..])
  {
    var a := args[..i];
    var b := args[i + 1..];
    var x := args[i];
    SplitAt(args, i);
    StrippedFlagsConcat(a + [x], b);
    StrippedFlagsConcat(a, [x]);
    StrippedFlagsSingle(x);
  }

  /** Every override after position `i` comes from an argument after it. */
  lemma LaterKey(args: seq<string>, i: nat, sb: seq<string>, t: nat)
    requires i < |args| && StartsWith(args[i], "--")
    requires forall j :: i < j < |args| && StartsWith(args[j], "--") ==> KeyOf(args[j]) != KeyOf(args[i])
    requires sb == StrippedFlags(args[i + 1..]) && t < |sb|
    ensures Entry(sb[t]).0 != KeyOf(args[i])
  {
    var b := args[i + 1..];
    var m :| 0 <= m < |b| && b[m] == "--" + sb[t];
    assert args[i + 1 + m] == b[m];
    assert args[i + 1 + m][2..] == sb[t];
  }

  /** The value an override ends with is the one of its last occurrence on the command line. */
  lemma LastOverrideWins(argv: seq<string>, i: nat)
    requires 2 <= i < |argv| && StartsWith(argv[i], "--")
    requires forall j :: i < j < |argv| && StartsWith(argv[j], "--") ==> KeyOf(argv[j]) != KeyOf(argv[i])
    ensures Lookup(ArgsMap(argv), KeyOf(argv[i])) == Some(Entry(argv[i][2..]).1)
  {
    var args := SliceFrom(argv, 2);
    assert args == argv[2..];
    assert args[i - 2] == argv[i];
    forall j | i - 2 < j < |args| && StartsWith(args[j], "--") ensures KeyOf(args[j]) != KeyOf(args[i - 2]) {
      assert args[j] == argv[j + 2];
    }
    LastOverrideWinsIn(args, i - 2);
  }

  /** The options with their defaults; `results` has none. */
  datatype Options = Options(
    provider: string, version: string, branch: string, oasPath: string,
    verifier: string, results: Option<string>, resultsType: string)

  /** Each option from the command line, else the environment, else its default; the
      default version is `local-<Date.now()>`. */
  function ReadOptions(argv: seq<string>, env: map<string, string>, nowMs: nat): (o: Options)
    ensures o.provider != "" && o.version != "" && o.branch != "" && o.oasPath != ""
    ensures o.verifier != "" && o.resultsType != ""
    ensures PickedFrom(Lookup(ArgsMap(argv), "provider"), Lookup(env, "PACT_PROVIDER_NAME"), "tech-inventory-api", o.provider)
    ensures PickedFrom(Lookup(ArgsMap(argv), "version"), Lookup(env, "PACT_PROVIDER_VERSION"),
      "local-" + NatToString(nowMs), o.version)
    ensures PickedFrom(Lookup(ArgsMap(argv), "branch"), Lookup(env, "PACT_BRANCH"), "local", o.branch)
    ensures PickedFrom(Lookup(ArgsMap(argv), "oas"), Lookup(env, "PACT_OAS_PATH"), "./openapi.yaml", o.oasPath)
    ensures PickedFrom(Lookup(ArgsMap(argv), "verifier"), Lookup(env, "PACT_VERIFIER"), "provider-tests", o.verifier)
    ensures PickedFrom(Lookup(ArgsMap(argv), "resultsType"), Lookup(env, "PACT_VERIFICATION_RESULTS_TYPE"),
      "text/plain", o.resultsType)
    ensures Truthy(Lookup(ArgsMap(argv), "results")) ==> o.results == Lookup(ArgsMap(argv), "results")
    ensures !Truthy(Lookup(ArgsMap(argv), "results")) ==> o.results == Lookup(env, "PACT_VERIFICATION_RESULTS")
  {
    var m := ArgsMap(argv);
    Options(
      Pick(Lookup(m, "provider"), Lookup(env, "PACT_PROVIDER_NAME"), "tech-inventory-api"),
      Pick(Lookup(m, "version"), Lookup(env, "PACT_PROVIDER_VERSION"), "local-" + NatToString(nowMs)),
      Pick(Lookup(m, "branch"), Lookup(env, "PACT_BRANCH"), "local"),
      Pick(Lookup(m, "oas"), Lookup(env, "PACT_OAS_PATH"), "./openapi.yaml"),
      Pick(Lookup(m, "verifier"), Lookup(env, "PACT_VERIFIER"), "provider-tests"),
      OrOpt(Lookup(m, "results"), Lookup(env, "PACT_VERIFICATION_RESULTS")),
      Pick(Lookup(m, "resultsType"), Lookup(env, "PACT_VERIFICATION_RESULTS_TYPE"), "text/plain"))
  }

  /** `--provider=<v>` as the last provider override sets the provider, whatever the environment says. */
  lemma ProviderFromCommandLine(argv: seq<string>, env: map<string, string>, nowMs: nat, i: nat, v: string)
    requires 2 <= i < |argv| && argv[i] == "--provider=" + v && v != ""
    requires forall j :: i < j < |argv| && StartsWith(argv[j], "--") ==> KeyOf(argv[j]) != "provider"
    ensures ReadOptions(argv, env, nowMs).provider == v
  {
    var body := argv[i][2..];
    assert body == "provider=" + v;
    IndexOfIs(body, '=', 8);
    assert body[..8] == "provider";
    assert body[9..] == v;
    LastOverrideWins(argv, i);
  }

  /** The results file and its content type: without a results option, the stub file
      `provider-verify.txt` as text/plain, whatever type was asked for. */
  function Attachment(results: Option<string>, resultsType: string, stubPath: string): (a: (string, string))
    ensures Truthy(results) ==> a == (results.value, resultsType)
    ensures !Truthy(results) ==> a == (stubPath, "text/plain")
  {
    if Truthy(results) then (results.value, resultsType) else (stubPath, "text/plain")
  }

  /** The flags `pactflow publish-provider-contract` is given, in order. */
  const ContractFlags: seq<string> := [
    "--provider", "--provider-app-version", "--branch", "--content-type",
    "--verification-exit-code", "--verification-results",
    "--verification-results-content-type", "--verifier"]

  lemma ContractFlagsDistinct()
    ensures forall a, b :: 0 <= a < b < |ContractFlags| ==> ContractFlags[a] != ContractFlags[b]
    ensures forall a :: 0 <= a < |ContractFlags| ==> StartsWith(ContractFlags[a], "--")
  {
    // no two flags agree on both their length and their third character
    var f := ContractFlags;
    assert |f[0]| == 10 && f[0][2] == 'p';
    assert |f[1]| == 22 && f[1][2] == 'p';
    assert |f[2]| == 8 && f[2][2] == 'b';
    assert |f[3]| == 14 && f[3][2] == 'c';
    assert |f[4]| == 24 && f[4][2] == 'v';
    assert |f[5]| == 22 && f[5][2] == 'v';
    assert |f[6]| == 35 && f[6][2] == 'v';
    assert |f[7]| == 10 && f[7][2] == 'v';
    forall a, b | 0 <= a < b < |f| ensures f[a] != f[b] {
      assert |f[a]| != |f[b]| || f[a][2] != f[b][2];
    }
    forall a | 0 <= a < |f| ensures StartsWith(f[a], "--") {
      assert f[a][0] == '-' && f[a][1] == '-';
      assert f[a][..2] == "--";
    }
  }

  /** The flag/value pairs after the subcommand and the contract path. */
  function ContractPairs(o: Options, results: string, resultsType: string): (p: seq<(string, string)>)
    ensures |p| == |ContractFlags|
    ensures forall k :: 0 <= k < |p| ==> p[k].0 == ContractFlags[k]
    ensures p[0].1 == o.provider && p[1].1 == o.version && p[2].1 == o.branch
    ensures p[3].1 == "application/yaml" && p[4].1 == "0"
    ensures p[5].1 == results && p[6].1 == resultsType && p[7].1 == o.verifier
  {
    var values := [o.provider, o.version, o.branch, "application/yaml", "0", results, resultsType, o.verifier];
    seq(8, k requires 0 <= k < 8 => (ContractFlags[k], values[k]))
  }

  /** `cliArgs`: the subcommand, the absolute contract path, then eight flags with their values;
      the verification is always published as successful. */
  function CliArgs(absOas: string, o: Options, results: string, resultsType: string): (r: seq<string>)
    ensures |r| == 18
    ensures r[0] == "publish-provider-contract" && r[1] == absOas
    ensures r[2] == "--provider" && r[3] == o.provider
    ensures r[4] == "--provider-app-version" && r[5] == o.version
    ensures r[6] == "--branch" && r[7] == o.branch
    ensures r[8] == "--content-type" && r[9] == "application/yaml"
    ensures r[10] == "--verification-exit-code" && r[11] == "0"
    ensures r[12] == "--verification-results" && r[13] == results
    ensures r[14] == "--verification-results-content-type" && r[15] == resultsType
    ensures r[16] == "--verifier" && r[17] == o.verifier
  {
    var p := ContractPairs(o, results, resultsType);
    var r := ["publish-provider-contract", absOas] + PairsToArgs(p);
    assert r[2] == p[0].0 && r[3] == p[0].1 && r[4] == p[1].0 && r[5] == p[1].1;
    assert r[6] == p[2].0 && r[7] == p[2].1 && r[8] == p[3].0 && r[9] == p[3].1;
    assert r[10] == p[4].0 && r[11] == p[4].1 && r[12] == p[5].0 && r[13] == p[5].1;
    assert r[14] == p[6].0 && r[15] == p[6].1 && r[16] == p[7].0 && r[17] == p[7].1;
    r
  }

  /** No value of the argument list looks like a flag. */
  predicate PlainValues(absOas: string, o: Options, results: string, resultsType: string) {
    && !StartsWith(absOas, "--")
    && !StartsWith(o.provider, "--") && !StartsWith(o.version, "--") && !StartsWith(o.branch, "--")
    && !StartsWith(o.verifier, "--") && !StartsWith(results, "--") && !StartsWith(resultsType, "--")
  }

  /** When no value looks like a flag, the element after the first occurrence of each flag in
      the argument array is that flag's own value. */
  lemma CliArgsReadBack(absOas: string, o: Options, results: string, resultsType: string, k: nat)
    requires PlainValues(absOas, o, results, resultsType) && k < 8
    ensures var p := ContractPairs(o, results, resultsType);
      FlagValue(CliArgs(absOas, o, results, resultsType), p[k].0) == Some(p[k].1)
  {
    var prefix := ["publish-provider-contract", absOas];
    var p := ContractPairs(o, results, resultsType);
    ContractFlagsDistinct();
    assert prefix[0][0] == 'p';
    assert "0"[0] == '0';
    assert "application/yaml"[0] == 'a';
    assert p[k].0 == ContractFlags[k];
    forall a | 0 <= a < k ensures p[a].0 != p[k].0 && p[a].1 != p[k].0 {
      assert p[a].0 == ContractFlags[a];
    }
    PairsRoundTrip(prefix, p, k);
  }

  const MissingCredentials := "Missing PACT_BROKER_BASE_URL or PACT_BROKER_TOKEN in .env"
  const NoCli := "pactflow CLI not found. Install it with: npm i -D @pact-foundation/pact-cli"

  /** How the script ends: an error exit, or the spawned CLI with its arguments. */
  datatype Outcome = Abort(message: string) | Spawn(program: string, args: seq<string>)

  /** The locations tried for the CLI, in order. */
  function Candidates(resolve: string -> string): seq<string> {
    [resolve("node_modules/.bin/pactflow.cmd"), resolve("node_modules/.bin/pactflow")]
  }

  /** `candidates.find(p => fs.existsSync(p))`. */
  function FirstExisting(paths: seq<string>, onDisk: string -> bool): (r: Option<string>)
    ensures r.Some? ==> r.value in paths && onDisk(r.value)
    ensures r.None? <==> forall i :: 0 <= i < |paths| ==> !onDisk(paths[i])
    ensures r.Some? ==>
      exists i :: 0 <= i < |paths| && paths[i] == r.value && (forall j :: 0 <= j < i ==> !onDisk(paths[j]))
    decreases |paths|
  {
    if paths == [] then None
    else if onDisk(paths[0]) then Some(paths[0])
    else
      var r := FirstExisting(paths[1..], onDisk);
      assert forall i :: 1 <= i < |paths| ==> paths[1..][i - 1] == paths[i];
      r
  }

  /** The whole script but the spawn itself. */
  function Plan(argv: seq<string>, env: map<string, string>, nowMs: nat,
                resolve: string -> string, onDisk: string -> bool): (r: Outcome)
    ensures !Truthy(Lookup(env, "PACT_BROKER_BASE_URL")) || !Truthy(Lookup(env, "PACT_BROKER_TOKEN")) ==>
      r == Abort(MissingCredentials)
    ensures Truthy(Lookup(env, "PACT_BROKER_BASE_URL")) && Truthy(Lookup(env, "PACT_BROKER_TOKEN")) ==>
      var absOas := resolve(ReadOptions(argv, env, nowMs).oasPath);
      && (!onDisk(absOas) ==> r == Abort("OpenAPI file not found at: " + absOas))
      && (onDisk(absOas) && !onDisk(Candidates(resolve)[0]) && !onDisk(Candidates(resolve)[1]) ==> r == Abort(NoCli))
    ensures r.Spawn? <==>
      && Truthy(Lookup(env, "PACT_BROKER_BASE_URL")) && Truthy(Lookup(env, "PACT_BROKER_TOKEN"))
      && onDisk(resolve(ReadOptions(argv, env, nowMs).oasPath))
      && (onDisk(Candidates(resolve)[0]) || onDisk(Candidates(resolve)[1]))
    ensures r.Spawn? ==> r.program in Candidates(resolve) && onDisk(r.program)
    ensures r.Spawn? && onDisk(Candidates(resolve)[0]) ==> r.program == Candidates(resolve)[0]
    ensures r.Spawn? && !onDisk(Candidates(resolve)[0]) ==> r.program == Candidates(resolve)[1]
    ensures r.Spawn? ==>
      var o := ReadOptions(argv, env, nowMs);
      var att := Attachment(o.results, o.resultsType, resolve("provider-verify.txt"));
      r.args == CliArgs(resolve(o.oasPath), o, att.0, att.1)
    ensures r.Spawn? && !Truthy(ReadOptions(argv, env, nowMs).results) ==>
      r.args[13] == resolve("provider-verify.txt") && r.args[15] == "text/plain"
  {
    var baseUrl := Lookup(env, "PACT_BROKER_BASE_URL");
    var token := Lookup(env, "PACT_BROKER_TOKEN");
    if !Truthy(baseUrl) || !Truthy(token) then Abort(MissingCredentials)
    else
      var o := ReadOptions(argv, env, nowMs);
      var absOas := resolve(o.oasPath);
      if !onDisk(absOas) then Abort("OpenAPI file not found at: " + absOas)
      else
        var att := Attachment(o.results, o.resultsType, resolve("provider-verify.txt"));
        var bin := FirstExisting(Candidates(resolve), onDisk);
        if bin.None? then Abort(NoCli)
        else Spawn(bin.value, CliArgs(absOas, o, att.0, att.1))
  }
}
