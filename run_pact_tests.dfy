/** scripts/run-pact-tests.js: find the Pact test files under the configured directories,
    optionally narrow them to one file, run each one and count the failures.
    The file system and the child processes are parameters: `walk(dir)` is the list of
    files found by the recursive walk of `dir` (empty when the directory does not exist),
    `locate(d)` is `path.isAbsolute(d) ? d : path.join(ROOT, d)`, `resolve` is
    path.resolve, and `passes(test)` says whether `node <test>` exits with status 0. */
module RunPactTests {
  import opened Js
  import opened JsStrings
  import opened Cli

  /** `(PACT_TEST_DIRS || "tests").split(",")`. */
  function DirPieces(env: map<string, string>): seq<string> {
    Split(Or(Lookup(env, "PACT_TEST_DIRS"), "tests"), ',')
  }

  /** The directories of PACT_TEST_DIRS (default `tests`): split on commas, trimmed, the
      empty ones dropped. */
  function TestDirs(env: map<string, string>): (r: seq<string>)
    ensures forall i :: 0 <= i < |r| ==> r[i] != "" && Clean(r[i])
    ensures forall i :: 0 <= i < |DirPieces(env)| && Trim(DirPieces(env)[i]) != "" ==> Trim(DirPieces(env)[i]) in r
  {
    var pieces := DirPieces(env);
    var trimmed := TrimAll(pieces);
    var r := Filter(trimmed, NonEmpty);
    forall i | 0 <= i < |r| ensures r[i] != "" && Clean(r[i]) {
      CleanMember(trimmed, r[i]);
    }
    forall i | 0 <= i < |pieces| && Trim(pieces[i]) != "" ensures Trim(pieces[i]) in r {
      assert NonEmpty(trimmed[i]);
    }
    r
  }

  /** The directories are exactly the non-empty trimmed pieces of the split. */
  lemma TestDirsArePieces(env: map<string, string>)
    ensures forall d :: d in TestDirs(env) <==> TrimmedPiece(DirPieces(env), d)
  {
    var pieces := DirPieces(env);
    KeptPieces(pieces, TrimAll(pieces), TestDirs(env));
  }

  /** `.filter(Boolean)` on strings. */
  predicate NonEmpty(d: string) {
    d != ""
  }

  /** `d` is one of the pieces, trimmed, and not empty. */
  predicate TrimmedPiece(pieces: seq<string>, d: string) {
    d != "" && exists i :: 0 <= i < |pieces| && Trim(pieces[i]) == d
  }

  /** The non-empty trimmed pieces are exactly the directories kept. */
  lemma KeptPieces(pieces: seq<string>, trimmed: seq<string>, r: seq<string>)
    requires |trimmed| == |pieces| && forall i :: 0 <= i < |pieces| ==> trimmed[i] == Trim(pieces[i])
    requires r == Filter(trimmed, NonEmpty)
    ensures forall d :: d in r <==> TrimmedPiece(pieces, d)
  {
    forall d | d in r ensures d != "" && exists i :: 0 <= i < |pieces| && Trim(pieces[i]) == d {
      var j :| 0 <= j < |r| && r[j] == d;
      var i :| 0 <= i < |trimmed| && trimmed[i] == d;
      assert Trim(pieces[i]) == d;
    }
    forall d | d != "" && (exists i :: 0 <= i < |pieces| && Trim(pieces[i]) == d) ensures d in r {
      var i :| 0 <= i < |pieces| && Trim(pieces[i]) == d;
      assert trimmed[i] == d;
    }
  }

  /** A trimmed piece of a comma split: trimming it again changes nothing and it holds no comma. */
  predicate Clean(d: string) {
    Trim(d) == d && ',' !in d
  }

  /** Every member of a list of clean pieces is clean. */
  lemma CleanMember(pieces: seq<string>, d: string)
    requires forall i :: 0 <= i < |pieces| ==> Clean(pieces[i])
    requires d in pieces
    ensures Clean(d)
  {
    var i :| 0 <= i < |pieces| && pieces[i] == d;
  }

  /** `.map(s => s.trim())` over the pieces of a comma split. */
  function TrimAll(pieces: seq<string>): (r: seq<string>)
    requires forall i :: 0 <= i < |pieces| ==> ',' !in pieces[i]
    ensures |r| == |pieces|
    ensures forall i :: 0 <= i < |r| ==> r[i] == Trim(pieces[i])
    ensures forall i :: 0 <= i < |r| ==> Clean(r[i])
  {
    forall i | 0 <= i < |pieces| ensures Trim(Trim(pieces[i])) == Trim(pieces[i]) && ',' !in Trim(pieces[i]) {
      TrimIdempotent(pieces[i]);
      TrimSubsequence(pieces[i]);
    }
    seq(|pieces|, i requires 0 <= i < |pieces| => Trim(pieces[i]))
  }

  /** Trimming only removes characters. */
  lemma TrimSubsequence(s: string)
    ensures forall c :: c in Trim(s) ==> c in s
  {
    var t := TrimStart(s);
    assert forall c :: c in t ==> c in s by {
      TrimStartSuffix(s);
    }
    TrimEndPrefix(t);
  }

  lemma {:induction false} TrimStartSuffix(s: string)
    ensures exists k :: 0 <= k <= |s| && TrimStart(s) == s[k..]
    decreases |s|
  {
    if s != [] && IsSpace(s[0]) {
      TrimStartSuffix(s[1..]);
      var k :| 0 <= k <= |s[1..]| && TrimStart(s[1..]) == s[1..][k..];
      assert s[1..][k..] == s[k + 1..];
    } else {
      assert s[0..] == s;
    }
  }

  lemma {:induction false} TrimEndPrefix(s: string)
    ensures exists k :: 0 <= k <= |s| && TrimEnd(s) == s[..k]
    decreases |s|
  {
    if s != [] && IsSpace(s[|s| - 1]) {
      TrimEndPrefix(s[..|s| - 1]);
      var k :| 0 <= k <= |s| - 1 && TrimEnd(s[..|s| - 1]) == s[..|s| - 1][..k];
      assert s[..|s| - 1][..k] == s[..k];
    } else {
      assert s[..|s|] == s;
    }
  }

  /** Without PACT_TEST_DIRS the only directory is `tests`. */
  lemma DefaultTestDirs(env: map<string, string>)
    requires !Truthy(Lookup(env, "PACT_TEST_DIRS"))
    ensures TestDirs(env) == ["tests"]
  {
    SplitFirst("tests", ',');
    assert ',' !in "tests";
    TrimNoSpace("tests");
    assert TrimAll(["tests"]) == ["tests"];
    assert Filter(["tests"], NonEmpty) == ["tests"] by {
      assert ["tests"][1..] == [];
    }
  }

  const DefaultPattern := "*-pact-test.js"
  const PactSuffix := "-pact-test.js"

  /** PATTERN: `--pattern <p>`, else PACT_TEST_PATTERN, else `*-pact-test.js`. */
  function Pattern(argv: seq<string>, env: map<string, string>): (p: string)
    ensures p != ""
    ensures !Truthy(GetArg(argv, "pattern")) && !Truthy(Lookup(env, "PACT_TEST_PATTERN")) ==> p == DefaultPattern
    ensures Truthy(GetArg(argv, "pattern")) ==> p == GetArg(argv, "pattern").value
    ensures !Truthy(GetArg(argv, "pattern")) && Truthy(Lookup(env, "PACT_TEST_PATTERN")) ==>
      p == env["PACT_TEST_PATTERN"]
  {
    Pick(GetArg(argv, "pattern"), Lookup(env, "PACT_TEST_PATTERN"), DefaultPattern)
  }

  /** `matchesPattern`: the default pattern means "ends in -pact-test.js, in any case" (the
      regular expression /-pact-test\.js$/i); any other pattern is a case-insensitive substring. */
  function MatchesPattern(filename: string, pattern: string): (b: bool)
    ensures pattern == DefaultPattern ==> (b <==> EndsWith(ToLower(filename), PactSuffix))
    ensures pattern != DefaultPattern ==> (b <==> Contains(ToLower(filename), ToLower(pattern)))
  {
    if pattern == DefaultPattern then EndsWith(ToLower(filename), PactSuffix)
    else Contains(ToLower(filename), ToLower(pattern))
  }

  /** Whether a file matches does not depend on the case of its name. */
  lemma MatchIgnoresCase(filename: string, pattern: string)
    ensures MatchesPattern(ToLower(filename), pattern) == MatchesPattern(filename, pattern)
  {
    ToLowerIdempotent(filename);
  }

  /** Nor on the case of a pattern other than the default one. */
  lemma MatchIgnoresPatternCase(filename: string, pattern: string)
    requires pattern != DefaultPattern && ToLower(pattern) != DefaultPattern
    ensures MatchesPattern(filename, ToLower(pattern)) == MatchesPattern(filename, pattern)
  {
    ToLowerIdempotent(pattern);
  }

  /** A name ending in `-pact-test.js` matches the default pattern whatever comes before. */
  lemma SuffixMatchesDefault(stem: string)
    ensures MatchesPattern(stem + PactSuffix, DefaultPattern)
  {
    var f := stem + PactSuffix;
    ToLowerAppend(stem, PactSuffix);
    ToLowerNoUpper(PactSuffix);
    assert ToLower(f)[|ToLower(f)| - |PactSuffix|..] == PactSuffix;
  }

  lemma {:induction false} ToLowerAppend(a: string, b: string)
    ensures ToLower(a + b) == ToLower(a) + ToLower(b)
    decreases |a|
  {
    if a != [] {
      assert (a + b)[1..] == a[1..] + b;
      ToLowerAppend(a[1..], b);
    } else {
      assert a + b == b;
    }
  }

  lemma ToLowerNoUpper(s: string)
    requires forall i :: 0 <= i < |s| ==> !('A' <= s[i] <= 'Z')
    ensures ToLower(s) == s
  {
  }

  /** A name that does not end in `-pact-test.js` (in any case) does not match the default pattern;
      so the regression test is not run as a Pact test. */
  lemma RegressionTestNotMatched()
    ensures !MatchesPattern("test-regression.js", DefaultPattern)
  {
    var f := "test-regression.js";
    ToLowerNoUpper(f);
    assert f[5] == 'r' && PactSuffix[0] == '-';
  }

  /** One file the walk found: its name and its full path. */
  datatype DirEntry = DirEntry(name: string, path: string)

  /** `findTests`: the full paths of the walked files whose name matches, in walk order. */
  function FindTests(found: seq<DirEntry>, pattern: string): (r: seq<string>)
    ensures forall t :: t in r <==> exists e :: e in found && MatchesPattern(e.name, pattern) && e.path == t
    decreases |found|
  {
    if found == [] then []
    else
      var rest := FindTests(found[1..], pattern);
      assert forall e :: e in found <==> e == found[0] || e in found[1..];
      if MatchesPattern(found[0].name, pattern) then [found[0].path] + rest else rest
  }

  /** The tests found in each directory, in directory order. */
  function TestsIn(dirs: seq<string>, walk: string -> seq<DirEntry>, pattern: string): (r: seq<seq<string>>)
    ensures |r| == |dirs|
    ensures forall i :: 0 <= i < |dirs| ==> r[i] == FindTests(walk(dirs[i]), pattern)
  {
    seq(|dirs|, i requires 0 <= i < |dirs| => FindTests(walk(dirs[i]), pattern))
  }

  /** The collect loop: `tests = tests.concat(findTests(dir))` for every directory. */
  method CollectTests(dirs: seq<string>, walk: string -> seq<DirEntry>, pattern: string)
    returns (tests: seq<string>)
    ensures tests == Flatten(TestsIn(dirs, walk, pattern))
    ensures forall t :: t in tests <==>
      exists i, e :: 0 <= i < |dirs| && e in walk(dirs[i]) && MatchesPattern(e.name, pattern) && e.path == t
  {
    var per := TestsIn(dirs, walk, pattern);
    tests := [];
    var i := 0;
    while i < |dirs|
      invariant 0 <= i <= |dirs|
      invariant tests == Flatten(per[..i])
    {
      FlattenStep(per, i);
      tests := tests + FindTests(walk(dirs[i]), pattern);
      i := i + 1;
    }
    assert per[..|dirs|] == per;
    forall t ensures t in tests <==>
      exists i, e :: 0 <= i < |dirs| && e in walk(dirs[i]) && MatchesPattern(e.name, pattern) && e.path == t
    {
      FlattenHas(per, t);
    }
  }

  /** `--file <f>`: keep only the tests that resolve to the same path as `f` (ROOT is the
      working directory, so joining it to a relative `f` does not change what `f` resolves to). */
  function SelectFile(tests: seq<string>, onlyFile: Option<string>, resolve: string -> string): (r: seq<string>)
    ensures !Truthy(onlyFile) ==> r == tests
    ensures Truthy(onlyFile) ==> forall t :: t in r <==> t in tests && resolve(t) == resolve(onlyFile.value)
  {
    if Truthy(onlyFile) then Filter(tests, t => resolve(t) == resolve(onlyFile.value)) else tests
  }

  /** How many of the tests fail. */
  function FailureCount(tests: seq<string>, passes: string -> bool): nat {
    |Filter(tests, t => !passes(t))|
  }

  /** No failure is counted exactly when every test passes, and never more than there are tests. */
  lemma FailureCountMeaning(tests: seq<string>, passes: string -> bool)
    ensures FailureCount(tests, passes) <= |tests|
    ensures FailureCount(tests, passes) == 0 <==> forall t :: t in tests ==> passes(t)
  {
    var f := Filter(tests, t => !passes(t));
    if f != [] {
      assert f[0] in f;
    }
  }

  /** The run loop: `failures++` for every test that throws. */
  method CountFailures(tests: seq<string>, passes: string -> bool) returns (failures: nat)
    ensures failures == FailureCount(tests, passes)
  {
    failures := 0;
    var i := 0;
    while i < |tests|
      invariant 0 <= i <= |tests|
      invariant failures == FailureCount(tests[..i], passes)
    {
      assert tests[..i + 1] == tests[..i] + [tests[i]];
      FilterConcat(tests[..i], [tests[i]], t => !passes(t));
      assert Filter([tests[i]], t => !passes(t)) == (if passes(tests[i]) then [] else [tests[i]]) by {
        assert [tests[i]][1..] == [];
      }
      if !passes(tests[i]) {
        failures := failures + 1;
      }
      i := i + 1;
    }
    assert tests[..|tests|] == tests;
  }

  /** The tests the script runs. */
  function Selected(argv: seq<string>, env: map<string, string>, walk: string -> seq<DirEntry>,
                    locate: string -> string, resolve: string -> string): seq<string>
  {
    SelectFile(Flatten(TestsIn(Map(TestDirs(env), locate), walk, Pattern(argv, env))), GetArg(argv, "file"), resolve)
  }

  /** The whole script: the tests it runs, how many passed and failed, and its exit code,
      which is 0 exactly when at least one test was found and all of them passed. */
  method RunAll(argv: seq<string>, env: map<string, string>, walk: string -> seq<DirEntry>,
                locate: string -> string, resolve: string -> string, passes: string -> bool)
    returns (tests: seq<string>, passed: nat, failures: nat, exitCode: int)
    ensures tests == Selected(argv, env, walk, locate, resolve)
    ensures failures == FailureCount(tests, passes) && passed + failures == |tests|
    ensures exitCode == 0 || exitCode == 1
    ensures exitCode == 0 <==> |tests| > 0 && forall t :: t in tests ==> passes(t)
  {
    var located := Map(TestDirs(env), locate);
    var pattern := Pattern(argv, env);
    tests := CollectTests(located, walk, pattern);
    tests := SelectFile(tests, GetArg(argv, "file"), resolve);
    FailureCountMeaning(tests, passes);
    if |tests| == 0 {
      return tests, 0, 0, 1;
    }
    failures := CountFailures(tests, passes);
    passed := |tests| - failures;
    exitCode := if failures > 0 then 1 else 0;
  }
}
