/** The helpers of scripts/fetch-oas.js: the debug level read from the environment, token
    redaction, version normalisation, the choice of the default version from the answer of
    the settings endpoint, and the header redaction of the request log. */
module FetchOas {
  import opened Js
  import opened JsStrings
  import opened Json
  import VerifyProvider

  // ---------------------------------------------------------------- parseDebug

  const FullWords: seq<string> := ["2", "full", "verbose"]
  const OnWords: seq<string> := ["1", "true", "yes", "on", "debug"]

  /** The word lists of `parseDebug`, applied to normalised text. */
  function DebugWord(s: string): nat {
    if s in FullWords then 2 else if s in OnWords then 1 else 0
  }

  /** `parseDebug(val)`: 0 when unset, otherwise the level of the lower-cased, trimmed word. */
  function ParseDebug(v: Option<string>): (r: nat)
    ensures r <= 2
    ensures v.None? ==> r == 0
    ensures v.Some? ==> (r == 2 <==> Trim(ToLower(v.value)) in FullWords)
    ensures v.Some? ==> (r == 1 <==> Trim(ToLower(v.value)) !in FullWords && Trim(ToLower(v.value)) in OnWords)
  {
    if v.None? then 0 else DebugWord(Trim(ToLower(v.value)))
  }

  /** Letter case does not matter. */
  lemma ParseDebugIgnoresCase(s: string)
    ensures ParseDebug(Some(ToLower(s))) == ParseDebug(Some(s))
  {
    ToLowerIdempotent(s);
  }

  /** Surrounding white space does not matter. */
  lemma ParseDebugIgnoresSurroundingSpace(s: string)
    ensures ParseDebug(Some(Trim(s))) == ParseDebug(Some(s))
  {
    TrimLower(Trim(s));
    TrimIdempotent(s);
    TrimLower(s);
    assert Trim(ToLower(Trim(s))) == Trim(ToLower(s));
  }

  /** `DEBUG_FETCH ?? SH_DEBUG_FETCH ?? OAS_DEBUG ?? DEBUG`. */
  function DebugSetting(env: map<string, string>): (r: Option<string>)
    ensures "DEBUG_FETCH" in env ==> r == Some(env["DEBUG_FETCH"])
    ensures "DEBUG_FETCH" !in env && "SH_DEBUG_FETCH" in env ==> r == Some(env["SH_DEBUG_FETCH"])
    ensures "DEBUG_FETCH" !in env && "SH_DEBUG_FETCH" !in env && "OAS_DEBUG" in env ==>
      r == Some(env["OAS_DEBUG"])
    ensures "DEBUG_FETCH" !in env && "SH_DEBUG_FETCH" !in env && "OAS_DEBUG" !in env ==>
      r == Lookup(env, "DEBUG")
  {
    Coalesce(Coalesce(Coalesce(Lookup(env, "DEBUG_FETCH"), Lookup(env, "SH_DEBUG_FETCH")),
                      Lookup(env, "OAS_DEBUG")), Lookup(env, "DEBUG"))
  }

  /** DEBUG_LEVEL: the level of the first of the four variables that is set, 0 when none is. */
  function DebugLevel(env: map<string, string>): (r: nat)
    ensures r <= 2
    ensures "DEBUG_FETCH" in env ==> r == ParseDebug(Some(env["DEBUG_FETCH"]))
    ensures "DEBUG_FETCH" !in env && "SH_DEBUG_FETCH" in env ==> r == ParseDebug(Some(env["SH_DEBUG_FETCH"]))
    ensures "DEBUG_FETCH" !in env && "SH_DEBUG_FETCH" !in env && "OAS_DEBUG" in env ==>
      r == ParseDebug(Some(env["OAS_DEBUG"]))
    ensures "DEBUG_FETCH" !in env && "SH_DEBUG_FETCH" !in env && "OAS_DEBUG" !in env && "DEBUG" in env ==>
      r == ParseDebug(Some(env["DEBUG"]))
    ensures "DEBUG_FETCH" !in env && "SH_DEBUG_FETCH" !in env && "OAS_DEBUG" !in env && "DEBUG" !in env ==>
      r == 0
  {
    ParseDebug(DebugSetting(env))
  }

  /** `??` stops at a variable that is set, even to the empty string: an empty DEBUG_FETCH
      turns debugging off whatever DEBUG says. */
  lemma EmptyDebugFetchWins()
    ensures DebugLevel(map["DEBUG_FETCH" := "", "DEBUG" := "2"]) == 0
  {
    var env := map["DEBUG_FETCH" := "", "DEBUG" := "2"];
    assert DebugSetting(env) == Some("");
    assert ToLower("") == "";
    assert Trim("") == "";
  }

  // ---------------------------------------------------------------- redact

  /** `redact(s)` at a debug level: unset, empty or level-2 tokens are left alone; up to six
      characters show the first and last character, longer ones the first four and last two. */
  function Redact(s: Option<string>, leaky: bool): (r: Option<string>)
    ensures !Js.Truthy(s) || leaky ==> r == s
    ensures Js.Truthy(s) && !leaky ==> r.Some?
    ensures Js.Truthy(s) && !leaky ==>
      var n := |s.value|;
      && (n <= 6 ==> r.value == [s.value[0], '…', s.value[n - 1]])
      && (n > 6 ==> r.value == s.value[..4] + "…" + s.value[n - 2..])
  {
    if !Js.Truthy(s) || leaky then s
    else
      var t := s.value;
      if |t| <= 6 then Some([t[0]] + "…" + SliceFrom(t, -1))
      else Some(Slice(t, 0, 4) + "…" + SliceFrom(t, -2))
  }

  /** A redacted token is three or seven characters long, whatever its length. */
  lemma RedactLength(s: string)
    requires s != ""
    ensures |Redact(Some(s), false).value| == if |s| <= 6 then 3 else 7
  {
  }

  /** On tokens longer than six characters redact and the verifier's mask agree; on shorter
      ones the mask shows more. */
  lemma RedactAgreesWithMask(s: string)
    requires |s| > 6
    ensures Redact(Some(s), false) == Some(VerifyProvider.Mask(Some(s)))
  {
    var m := VerifyProvider.Mask(Some(s));
    var r := Redact(Some(s), false).value;
    assert |m| == 7;
    assert m[..4] == r[..4] && m[4] == r[4] && m[5..] == r[5..];
    assert m == m[..4] + [m[4]] + m[5..];
    assert r == r[..4] + [r[4]] + r[5..];
  }

  lemma RedactShortDiffersFromMask()
    ensures Redact(Some("abcde"), false) == Some("a…e")
    ensures VerifyProvider.Mask(Some("abcde")) == "abcd…de"
  {
    assert "abcde"[..4] == "abcd";
    assert "abcde"[3..] == "de";
  }

  // ---------------------------------------------------------------- normalizeVersion

  predicate Quoted(t: string, q: char) {
    StartsWith(t, [q]) && EndsWith(t, [q])
  }

  /** `normalizeVersion(v)`: an unset or empty value is returned as is; otherwise the trimmed
      text, without one pair of surrounding double or single quotes. A lone quote becomes "". */
  function NormalizeVersion(v: Option<string>): (r: Option<string>)
    ensures !Js.Truthy(v) ==> r == v
    ensures Js.Truthy(v) ==> r.Some?
    ensures Js.Truthy(v) ==>
      var t := Trim(v.value);
      && (!Quoted(t, '"') && !Quoted(t, '\'') ==> r.value == t)
      && ((Quoted(t, '"') || Quoted(t, '\'')) && |t| >= 2 ==> r.value == t[1..|t| - 1])
      && ((Quoted(t, '"') || Quoted(t, '\'')) && |t| == 1 ==> r.value == "")
  {
    if !Js.Truthy(v) then v
    else
      var t := Trim(v.value);
      if Quoted(t, '"') || Quoted(t, '\'') then Some(Slice(t, 1, -1)) else Some(t)
  }

  /** A quoted version loses exactly its quotes, whatever it holds. */
  lemma NormalizeQuoted(s: string, q: char)
    requires q == '"' || q == '\''
    ensures NormalizeVersion(Some([q] + s + [q])) == Some(s)
  {
    var t := [q] + s + [q];
    TrimNoSpace(t);
    assert t[..1] == [q] && t[|t| - 1..] == [q];
    assert t[1..|t| - 1] == s;
  }

  /** Text that is already trimmed and not quoted is left alone, so normalising a result
      again changes it only when it was quoted twice. */
  lemma NormalizeUnquoted(s: string)
    requires s != "" && !IsSpace(s[0]) && !IsSpace(s[|s| - 1])
    requires !Quoted(s, '"') && !Quoted(s, '\'')
    ensures NormalizeVersion(Some(s)) == Some(s)
  {
    TrimNoSpace(s);
  }

  lemma NormalizeStripsOnePairOnly()
    ensures NormalizeVersion(Some("\"\"1\"\"")) == Some("\"1\"")
  {
    NormalizeQuoted("\"1\"", '"');
    assert ['"'] + "\"1\"" + ['"'] == "\"\"1\"\"";
  }

  // ---------------------------------------------------------------- the default version

  const VersionKeys: seq<string> := ["version", "default", "defaultVersion", "value"]

  /** The first of `keys` whose value in `o` is a string. */
  function FirstStringField(o: Obj, keys: seq<string>): (r: Option<string>)
    ensures r.None? <==> forall i :: 0 <= i < |keys| ==> !(keys[i] in o && o[keys[i]].JStr?)
    ensures r.Some? ==>
      exists i :: 0 <= i < |keys| && keys[i] in o && o[keys[i]] == JStr(r.value)
        && forall j :: 0 <= j < i ==> !(keys[j] in o && o[keys[j]].JStr?)
    decreases |keys|
  {
    if keys == [] then None
    else if keys[0] in o && o[keys[0]].JStr? then Some(o[keys[0]].s)
    else
      var r := FirstStringField(o, keys[1..]);
      assert forall j :: 1 <= j < |keys| ==> keys[1..][j - 1] == keys[j];
      r
  }

  /** The version text before normalisation: `parsed` is what `JSON.parse` made of the
      body (`Throws` when it is not JSON, in which case the raw text is used). A JSON
      string is the version; an object gives the first string among version, default,
      defaultVersion and value; anything else gives nothing. */
  function ExtractVersion(raw: string, parsed: Try<JVal>): (r: Option<string>)
    ensures parsed.Throws? ==> r == Some(raw)
    ensures parsed.Ok? && parsed.value.JStr? ==> r == Some(parsed.value.s)
    ensures parsed.Ok? && parsed.value.JObj? ==> r == FirstStringField(parsed.value.fields, VersionKeys)
    ensures parsed.Ok? && !parsed.value.JStr? && !parsed.value.JObj? ==> r.None?
  {
    match parsed
    case Throws => Some(raw)
    case Ok(JStr(s)) => Some(s)
    case Ok(JObj(o)) => FirstStringField(o, VersionKeys)
    case Ok(_) => None
  }

  /** The outcome of step 1 of the script. */
  datatype DefaultVersion = Version(version: string) | Failed(message: string)

  /** The version after `normalizeVersion`, or the error for an empty one. */
  function ResolveVersion(raw: string, parsed: Try<JVal>): (r: DefaultVersion)
    ensures r.Version? <==> Js.Truthy(NormalizeVersion(ExtractVersion(raw, parsed)))
    ensures r.Version? ==> r.version != "" && Some(r.version) == NormalizeVersion(ExtractVersion(raw, parsed))
    ensures r.Failed? ==> r.message == "Empty default version from SwaggerHub"
  {
    var v := NormalizeVersion(ExtractVersion(raw, parsed));
    if Js.Truthy(v) then Version(v.value) else Failed("Empty default version from SwaggerHub")
  }

  /** `.version` wins over `.default` when both are strings. */
  lemma VersionKeyFirst(o: Obj, v: string, d: string)
    requires Get(o, "version") == Some(JStr(v)) && Get(o, "default") == Some(JStr(d))
    ensures ExtractVersion("", Ok(JObj(o))) == Some(v)
  {
    assert VersionKeys[0] == "version";
  }

  /** A non-string `.version` is skipped for the next key. */
  lemma NonStringVersionSkipped(o: Obj, d: string)
    requires "version" in o && !o["version"].JStr? && Get(o, "default") == Some(JStr(d))
    ensures ExtractVersion("", Ok(JObj(o))) == Some(d)
  {
    assert VersionKeys[0] == "version" && VersionKeys[1] == "default";
    var r := FirstStringField(o, VersionKeys);
    var i :| 0 <= i < |VersionKeys| && VersionKeys[i] in o && o[VersionKeys[i]] == JStr(r.value)
      && forall j :: 0 <= j < i ==> !(VersionKeys[j] in o && o[VersionKeys[j]].JStr?);
    assert i == 1;
  }

  /** A body that is a quoted JSON string holding a lone quote normalises to "" and fails. */
  lemma LoneQuoteVersionFails()
    ensures ResolveVersion("\"\\\"\"", Ok(JStr("\""))).Failed?
  {
    var q := "\"";
    assert ExtractVersion("\"\\\"\"", Ok(JStr(q))) == Some(q);
    TrimNoSpace(q);
    assert Quoted(q, '"');
    assert NormalizeVersion(Some(q)) == Some("");
  }

  // ---------------------------------------------------------------- logReq

  /** The header list `logReq` prints: the header named like SH_AUTH_HEADER, ignoring case,
      has its value redacted; every other header is copied. */
  function LoggedHeaders(headers: seq<(string, Option<string>)>, authHeader: string, leaky: bool)
    : (r: seq<(string, Option<string>)>)
    ensures |r| == |headers|
    ensures forall i :: 0 <= i < |r| ==> r[i].0 == headers[i].0
    ensures forall i :: 0 <= i < |r| && ToLower(headers[i].0) != ToLower(authHeader) ==> r[i] == headers[i]
    ensures forall i :: 0 <= i < |r| && ToLower(headers[i].0) == ToLower(authHeader) ==>
      r[i].1 == Redact(headers[i].1, leaky)
  {
    seq(|headers|, i requires 0 <= i < |headers| =>
      if ToLower(headers[i].0) == ToLower(authHeader) then (headers[i].0, Redact(headers[i].1, leaky))
      else headers[i])
  }

  /** At level 2 nothing is redacted. */
  lemma LeakyLogsEverything(headers: seq<(string, Option<string>)>, authHeader: string)
    ensures LoggedHeaders(headers, authHeader, true) == headers
  {
  }

  /** Only the letters of the configured name matter, not their case. */
  lemma LoggedHeadersIgnoreCase(headers: seq<(string, Option<string>)>, authHeader: string, leaky: bool)
    ensures LoggedHeaders(headers, ToLower(authHeader), leaky) == LoggedHeaders(headers, authHeader, leaky)
  {
    ToLowerIdempotent(authHeader);
  }
}
