/** The helpers of scripts/verify-provider.js: the env-flag reader `bool`, token masking,
    XML escaping and the JUnit report, the file-name-safe timestamp, the consumer version
    selectors, and the guard on `includeWipPactsSince`. */
module VerifyProvider {
  import opened Js
  import opened JsStrings
  import opened JsNumber
  import opened Json

  // ---------------------------------------------------------------- bool

  const TrueWords: seq<string> := ["1", "true", "yes", "on"]
  const FalseWords: seq<string> := ["0", "false", "no", "off"]

  /** `bool(v, d)`: an unset variable is `d`; otherwise the trimmed, lower-cased text decides,
      and text that is no known word is `d` as well. */
  function Bool(v: Option<string>, d: bool): (r: bool)
    ensures v.None? ==> r == d
    ensures v.Some? && ToLower(Trim(v.value)) in TrueWords ==> r
    ensures v.Some? && ToLower(Trim(v.value)) in FalseWords ==> !r
    ensures v.Some? && ToLower(Trim(v.value)) !in TrueWords && ToLower(Trim(v.value)) !in FalseWords ==> r == d
  {
    if v.None? then d else Decide(ToLower(Trim(v.value)), d)
  }

  /** The word lists of `bool`, applied to normalised text. */
  function Decide(s: string, d: bool): bool {
    if s in TrueWords then true
    else if s in FalseWords then false
    else d
  }

  /** The default matters exactly when the text is no known word, and then it is the result. */
  lemma BoolDefaultOnlyForUnknown(v: Option<string>)
    ensures Bool(v, true) != Bool(v, false) <==>
      v.None? || (ToLower(Trim(v.value)) !in TrueWords && ToLower(Trim(v.value)) !in FalseWords)
    ensures Bool(v, true) != Bool(v, false) ==> Bool(v, true) && !Bool(v, false)
  {
  }

  /** Letter case does not matter. */
  lemma BoolIgnoresCase(s: string, d: bool)
    ensures Bool(Some(ToLower(s)), d) == Bool(Some(s), d)
  {
    TrimLower(s);
    ToLowerIdempotent(Trim(s));
    assert ToLower(Trim(ToLower(s))) == ToLower(Trim(s));
  }

  /** Surrounding white space does not matter. */
  lemma BoolIgnoresSurroundingSpace(s: string, d: bool)
    ensures Bool(Some(Trim(s)), d) == Bool(Some(s), d)
  {
    TrimIdempotent(s);
    assert ToLower(Trim(Trim(s))) == ToLower(Trim(s));
  }

  // ---------------------------------------------------------------- mask

  function Min(a: int, b: int): int {
    if a < b then a else b
  }

  /** `mask(s)`: empty for an unset or empty token, else the first four characters, an
      ellipsis and the last two (fewer when the token is shorter). */
  function Mask(s: Option<string>): (r: string)
    ensures !Js.Truthy(s) ==> r == ""
    ensures Js.Truthy(s) ==>
      var n := |s.value|;
      && |r| == Min(4, n) + 1 + Min(2, n)
      && r[..Min(4, n)] == s.value[..Min(4, n)]
      && r[Min(4, n)] == '…'
      && r[Min(4, n) + 1..] == s.value[n - Min(2, n)..]
  {
    if Js.Truthy(s) then
      var head, tail := Slice(s.value, 0, 4), SliceFrom(s.value, -2);
      assert (head + "…" + tail)[|head| + 1..] == tail;
      head + "…" + tail
    else ""
  }

  /** Only the first four and the last two characters of a token reach the log. */
  lemma MaskDependsOnlyOnEnds(a: string, b: string)
    requires |a| >= 4 && |b| >= 4
    requires a[..4] == b[..4] && a[|a| - 2..] == b[|b| - 2..]
    ensures Mask(Some(a)) == Mask(Some(b))
  {
    var ma, mb := Mask(Some(a)), Mask(Some(b));
    assert ma[..4] == mb[..4] && ma[4] == mb[4] && ma[5..] == mb[5..];
    assert ma == ma[..4] + [ma[4]] + ma[5..];
    assert mb == mb[..4] + [mb[4]] + mb[5..];
  }

  /** A token of up to six characters is shown whole: every one of its characters is
      in the mask. */
  lemma MaskRevealsShortTokens(s: string)
    requires 1 <= |s| <= 6
    ensures forall i :: 0 <= i < |s| ==> s[i] in Mask(Some(s))
  {
    var m := Mask(Some(s));
    var n := |s|;
    var h := Min(4, n);
    forall i | 0 <= i < n ensures s[i] in m {
      if i < h {
        assert m[..h][i] == s[i];
        assert m[i] == s[i];
      } else {
        var j := i - (n - Min(2, n));
        assert m[h + 1..][j] == s[n - Min(2, n)..][j];
        assert m[h + 1 + j] == s[i];
      }
    }
  }

  // ---------------------------------------------------------------- esc

  /** The replacement `esc` makes for one character. */
  function EscChar(c: char): (r: string)
    ensures r != []
    ensures forall i :: 0 <= i < |r| ==> r[i] != '<' && r[i] != '>' && r[i] != '"'
  {
    if c == '<' then "&lt;"
    else if c == '>' then "&gt;"
    else if c == '&' then "&amp;"
    else if c == '"' then "&quot;"
    else [c]
  }

  /** `esc(x)`: every `<`, `>`, `&` and `"` replaced by its entity, the rest copied. */
  function Esc(s: string): (r: string)
    ensures |r| >= |s|
    ensures forall i :: 0 <= i < |r| ==> r[i] != '<' && r[i] != '>' && r[i] != '"'
    decreases |s|
  {
    if s == [] then "" else EscChar(s[0]) + Esc(s[1..])
  }

  function Prepend(c: char, r: Option<string>): Option<string> {
    if r.Some? then Some([c] + r.value) else None
  }

  /** The decoding an XML reader applies to attribute text with only these four entities. */
  function Unescape(s: string): Option<string>
    decreases |s|
  {
    if s == [] then Some("")
    else if s[0] != '&' then Prepend(s[0], Unescape(s[1..]))
    else if StartsWith(s, "&lt;") then Prepend('<', Unescape(s[4..]))
    else if StartsWith(s, "&gt;") then Prepend('>', Unescape(s[4..]))
    else if StartsWith(s, "&amp;") then Prepend('&', Unescape(s[5..]))
    else if StartsWith(s, "&quot;") then Prepend('"', Unescape(s[6..]))
    else None
  }

  /** Decoding the escaped text gives back the original text. */
  lemma {:induction false} UnescapeEsc(s: string)
    ensures Unescape(Esc(s)) == Some(s)
    decreases |s|
  {
    if s != [] {
      var e := EscChar(s[0]);
      var rest := Esc(s[1..]);
      var t := e + rest;
      assert Esc(s) == t;
      UnescapeEsc(s[1..]);
      assert t[|e|..] == rest;
      assert t[..|e|] == e;
      assert [s[0]] + s[1..] == s;
      if s[0] == '<' {
        assert StartsWith(t, "&lt;");
      } else if s[0] == '>' {
        assert !StartsWith(t, "&lt;") by { assert t[1] == 'g'; }
        assert StartsWith(t, "&gt;");
      } else if s[0] == '&' {
        assert !StartsWith(t, "&lt;") && !StartsWith(t, "&gt;") by { assert t[1] == 'a'; }
        assert StartsWith(t, "&amp;");
      } else if s[0] == '"' {
        assert !StartsWith(t, "&lt;") && !StartsWith(t, "&gt;") && !StartsWith(t, "&amp;") by { assert t[1] == 'q'; }
        assert StartsWith(t, "&quot;");
      } else {
        assert t[0] == s[0] && t[1..] == rest;
      }
    }
  }

  /** Escaping loses nothing: different texts escape differently. */
  lemma EscInjective(a: string, b: string)
    requires Esc(a) == Esc(b)
    ensures a == b
  {
    UnescapeEsc(a);
    UnescapeEsc(b);
  }

  // ---------------------------------------------------------------- junitXml

  /** The three fraction digits `toFixed(3)` prints for `n` thousandths. */
  function Pad3(n: nat): (r: string)
    requires n < 1000
    ensures |r| == 3 && AllDigits(r)
  {
    [DigitChar(n / 100), DigitChar(n / 10 % 10), DigitChar(n % 10)]
  }

  /** `(ms / 1000).toFixed(3)` for a whole number of milliseconds. */
  function DurationText(ms: nat): (r: string)
    ensures r != [] && forall i :: 0 <= i < |r| ==> IsDigit(r[i]) || r[i] == '.'
  {
    NatToString(ms / 1000) + "." + Pad3(ms % 1000)
  }

  /** `Number` reads the printed duration back as the seconds it stands for: toFixed(3) of a
      whole number of milliseconds loses nothing. */
  lemma DurationTextReadsBack(ms: nat)
    ensures StringToNumber(DurationText(ms)) == Finite(ms as real / 1000.0)
  {
    var whole, frac := NatToString(ms / 1000), Pad3(ms % 1000);
    var t := DurationText(ms);
    assert t[..|whole|] == whole && t[|whole|] == '.' && t[|whole| + 1..] == frac;
    NatToStringValue(ms / 1000);
    Pad3Value(ms % 1000);
    assert ms / 1000 * 1000 + ms % 1000 == ms;
    ThousandthsNumber(t, |whole|, ms);
  }

  /** `Number` of digits, a point and three more digits: their value in thousandths. */
  lemma ThousandthsNumber(t: string, k: nat, n: nat)
    requires 0 < k && |t| == k + 4 && t[k] == '.' && AllDigits(t[..k]) && AllDigits(t[k + 1..])
    requires DigitsValue(t[..k]) * 1000 + DigitsValue(t[k + 1..]) == n
    ensures StringToNumber(t) == Finite(n as real / 1000.0)
  {
    DigitsAroundPoint(t, k);
    TrimNoSpace(t);
    PlainDecimalNumber(t);
    assert ParseUnsigned(t) == ParseDecimal(t) by {
      assert t != "Infinity" by {
        assert IsDigit(t[0]);
      }
    }
    NoExponentInDigitsAndPoints(t);
    ThousandthsMantissa(t, k, n);
    NoExponentMeansNoScale(t, n, 3);
    ThousandthsScale(n);
  }

  /** Every character of digits around a point is a digit or the point. */
  lemma DigitsAroundPoint(t: string, k: nat)
    requires k < |t| && t[k] == '.' && AllDigits(t[..k]) && AllDigits(t[k + 1..])
    ensures forall i :: 0 <= i < |t| ==> IsDigit(t[i]) || t[i] == '.'
  {
    forall i | 0 <= i < |t|
      ensures IsDigit(t[i]) || t[i] == '.'
    {
      if i < k {
        assert t[..k][i] == t[i];
      } else if i > k {
        assert t[k + 1..][i - k - 1] == t[i];
      }
    }
  }

  /** Text that starts with a digit, whose second character is a digit or a point, and that
      trimming leaves alone, is read as an unsigned literal. */
  lemma PlainDecimalNumber(t: string)
    requires t != [] && IsDigit(t[0]) && (|t| >= 2 ==> IsDigit(t[1]) || t[1] == '.') && Trim(t) == t
    ensures StringToNumber(t) == ParseUnsigned(t)
  {
  }

  /** A point at `k` followed by three digits splits `t` into whole units and thousandths. */
  lemma ThousandthsMantissa(t: string, k: nat, n: nat)
    requires |t| == k + 4 && t[k] == '.' && AllDigits(t[..k]) && AllDigits(t[k + 1..])
    requires DigitsValue(t[..k]) * 1000 + DigitsValue(t[k + 1..]) == n
    ensures ParseMantissa(t) == Some((n, 3))
  {
    assert IndexOf(t, '.') == k;
    assert Pow10(3) == 1000;
  }

  /** Without an exponent mark the exponent is 0 and the mantissa is the whole text. */
  lemma NoExponentMeansNoScale(u: string, m: nat, f: nat)
    requires IndexOfExponent(u) == -1 && ParseMantissa(u) == Some((m, f))
    ensures ParseDecimal(u) == Finite(Scale(m, -(f as int)))
  {
  }

  lemma ThousandthsScale(ms: nat)
    ensures Scale(ms, -3) == ms as real / 1000.0
  {
    assert Pow10(3) == 1000;
  }

  /** The three digits read back as the thousandths they print. */
  lemma Pad3Value(n: nat)
    requires n < 1000
    ensures DigitsValue(Pad3(n)) == n
  {
    var p := Pad3(n);
    var a, b, c := n / 100, n / 10 % 10, n % 10;
    assert n / 10 == a * 10 + b;
    assert n == n / 10 * 10 + c;
    assert p[..2][..1] == p[..1] && p[..1][..0] == [];
    assert DigitsValue(p[..1]) == a;
    assert DigitsValue(p[..2]) == a * 10 + b;
  }

  /** Digits and points hold no exponent mark. */
  lemma {:induction false} NoExponentInDigitsAndPoints(t: string)
    requires forall i :: 0 <= i < |t| ==> IsDigit(t[i]) || t[i] == '.'
    ensures IndexOfExponent(t) == -1
    decreases |t|
  {
    if t != [] {
      NoExponentInDigitsAndPoints(t[1..]);
    }
  }

  /** The fixed text of the report, cut where the computed parts go in. */
  const Decl := "<?xml version=\"1.0\" encoding=\"UTF-8\"?>\n"
  const SuiteOpen := "<testsuite name=\""
  const FailuresAttr := "\" tests=\"1\" failures=\""
  const SuiteTime := "\" time=\""
  const CaseOpen := "\">\n  <testcase classname=\""
  const CaseName := "\" name=\""
  const CaseTime := "\" time=\""
  const CaseBody := "\">\n    "
  const CaseClose := "\n  </testcase>\n"
  const SuiteClose := "</testsuite>"

  /** The report up to the failures count. */
  function SuiteHead(n: string): string {
    Decl + SuiteOpen + n + FailuresAttr
  }

  /** The report up to the place of the failure element. */
  function Head(n: string, count: string, t: string): string {
    SuiteHead(n) + count + SuiteTime + t + CaseOpen + n + CaseName + n + CaseTime + t + CaseBody
  }

  /** The opening `failure` tag, whose message defaults to "Verification failed". */
  function FailureOpen(message: Option<string>): string {
    "<failure message=\"" + Esc(Or(message, "Verification failed")) + "\">"
  }

  /** The failure element: empty on success; the message text goes unescaped into CDATA. */
  function FailurePart(ok: bool, message: Option<string>): string {
    if ok then "" else FailureOpen(message) + "<![CDATA[" + Or(message, "") + "]]></failure>"
  }

  /** `junitXml({ name, timeSec: ms / 1000, ok, message })`. */
  function JunitXml(name: string, ms: nat, ok: bool, message: Option<string>): string {
    Head(Esc(name), if ok then "0" else "1", DurationText(ms)) + FailurePart(ok, message) + CaseClose + SuiteClose
  }

  /** The `failures` attribute is 0 on success and 1 otherwise. */
  lemma FailuresCount(name: string, ms: nat, ok: bool, message: Option<string>)
    ensures var doc, k := JunitXml(name, ms, ok, message), |SuiteHead(Esc(name))|;
      k < |doc| && doc[k] == if ok then '0' else '1'
  {
    var n, c, t := Esc(name), if ok then "0" else "1", DurationText(ms);
    var h := SuiteHead(n);
    var k := |h|;
    var hd := Head(n, c, t);
    HeadStartsWithCount(h, c, t, n);
    LeftIndex(hd, FailurePart(ok, message), k);
    LeftIndex(hd + FailurePart(ok, message), CaseClose, k);
    LeftIndex(hd + FailurePart(ok, message) + CaseClose, SuiteClose, k);
  }

  /** Indexing into the left operand of a concatenation. */
  lemma LeftIndex(p: string, q: string, k: nat)
    requires k < |p|
    ensures k < |p + q| && (p + q)[k] == p[k]
  {
  }

  lemma HeadStartsWithCount(h: string, c: string, t: string, n: string)
    requires |c| == 1
    ensures var hd := h + c + SuiteTime + t + CaseOpen + n + CaseName + n + CaseTime + t + CaseBody;
      |h| < |hd| && hd[|h|] == c[0]
  {
    var s := h + c;
    assert s[|h|] == c[0];
    LeftIndex(s, SuiteTime, |h|);
    s := s + SuiteTime;
    LeftIndex(s, t, |h|);
    s := s + t;
    LeftIndex(s, CaseOpen, |h|);
    s := s + CaseOpen;
    LeftIndex(s, n, |h|);
    s := s + n;
    LeftIndex(s, CaseName, |h|);
    s := s + CaseName;
    LeftIndex(s, n, |h|);
    s := s + n;
    LeftIndex(s, CaseTime, |h|);
    s := s + CaseTime;
    LeftIndex(s, t, |h|);
    s := s + t;
    LeftIndex(s, CaseBody, |h|);
  }

  /** A failed report carries a failure element whose message is the escaped message, or
      "Verification failed" when there is none, right where the test case's body begins. */
  lemma FailureElementOnError(name: string, ms: nat, message: Option<string>)
    ensures var doc := JunitXml(name, ms, false, message);
      MatchAt(doc, FailureOpen(message), |Head(Esc(name), "1", DurationText(ms))|)
  {
    MatchAtPart(Head(Esc(name), "1", DurationText(ms)), FailureOpen(message), "<![CDATA[",
      Or(message, ""), "]]></failure>", CaseClose, SuiteClose);
  }

  lemma MatchAtPart(a: string, b: string, c: string, d: string, e: string, g: string, h: string)
    ensures MatchAt(a + (b + c + d + e) + g + h, b, |a|)
  {
    var s := a + (b + c + d + e) + g + h;
    forall j | 0 <= j < |b| ensures s[|a| + j] == b[j] {
      assert (b + c + d + e)[j] == b[j];
    }
    assert s[|a|..|a| + |b|] == b;
  }

  /** The failure element is empty exactly on success. */
  lemma FailurePartOnlyOnError(ok: bool, message: Option<string>)
    ensures FailurePart(ok, message) == "" <==> ok
  {
  }

  /** No `<` is directly followed by `f`, and the text does not end in `<`: a property kept by
      concatenation that rules out a `<failure` tag. */
  predicate NoFailureTag(s: string) {
    && (forall i :: 0 <= i < |s| - 1 && s[i] == '<' ==> s[i + 1] != 'f')
    && (s != [] ==> s[|s| - 1] != '<')
  }

  lemma NoFailureTagConcat(a: string, b: string)
    requires NoFailureTag(a) && NoFailureTag(b)
    ensures NoFailureTag(a + b)
  {
    var s := a + b;
    forall i | 0 <= i < |s| - 1 && s[i] == '<' ensures s[i + 1] != 'f' {
      if i < |a| - 1 {
        assert s[i] == a[i] && s[i + 1] == a[i + 1];
      } else if i >= |a| {
        assert s[i] == b[i - |a|] && s[i + 1] == b[i + 1 - |a|];
      }
    }
    if b != [] {
      assert s[|s| - 1] == b[|b| - 1];
    }
  }

  lemma NoLtNoFailureTag(s: string)
    requires forall i :: 0 <= i < |s| ==> s[i] != '<'
    ensures NoFailureTag(s)
  {
  }

  lemma NoFailureTagNoMatch(s: string)
    requires NoFailureTag(s)
    ensures !Contains(s, "<failure")
  {
    forall i | 0 <= i <= |s| - 8 ensures !MatchAt(s, "<failure", i) {
      assert s[i..i + 8][0] == s[i] && s[i..i + 8][1] == s[i + 1];
    }
  }

  lemma FixedHeadHasNoFailureTag()
    ensures NoFailureTag(Decl) && NoFailureTag(SuiteOpen) && NoFailureTag(FailuresAttr) && NoFailureTag("0")
  {
  }

  lemma FixedCaseHasNoFailureTag()
    ensures NoFailureTag(SuiteTime) && NoFailureTag(CaseOpen) && NoFailureTag(CaseName)
    ensures NoFailureTag(CaseTime) && NoFailureTag(CaseBody)
  {
  }

  lemma FixedCloseHasNoFailureTag()
    ensures NoFailureTag(CaseClose) && NoFailureTag(SuiteClose)
  {
  }

  lemma SuiteHeadNoFailureTag(n: string)
    requires NoFailureTag(n)
    ensures NoFailureTag(SuiteHead(n) + "0")
  {
    FixedHeadHasNoFailureTag();
    NoFailureTagConcat(Decl, SuiteOpen);
    NoFailureTagConcat(Decl + SuiteOpen, n);
    NoFailureTagConcat(Decl + SuiteOpen + n, FailuresAttr);
    NoFailureTagConcat(Decl + SuiteOpen + n + FailuresAttr, "0");
  }

  lemma CaseOpenNoFailureTag(p: string, n: string, t: string)
    requires NoFailureTag(p) && NoFailureTag(n) && NoFailureTag(t)
    ensures NoFailureTag(p + SuiteTime + t + CaseOpen + n + CaseName + n + CaseTime + t + CaseBody)
  {
    FixedCaseHasNoFailureTag();
    var s := p;
    NoFailureTagConcat(s, SuiteTime);      s := s + SuiteTime;
    NoFailureTagConcat(s, t);              s := s + t;
    NoFailureTagConcat(s, CaseOpen);       s := s + CaseOpen;
    NoFailureTagConcat(s, n);              s := s + n;
    NoFailureTagConcat(s, CaseName);       s := s + CaseName;
    NoFailureTagConcat(s, n);              s := s + n;
    NoFailureTagConcat(s, CaseTime);       s := s + CaseTime;
    NoFailureTagConcat(s, t);              s := s + t;
    NoFailureTagConcat(s, CaseBody);
  }

  lemma CloseNoFailureTag(p: string)
    requires NoFailureTag(p)
    ensures NoFailureTag(p + CaseClose + SuiteClose)
  {
    FixedCloseHasNoFailureTag();
    NoFailureTagConcat(p, CaseClose);
    NoFailureTagConcat(p + CaseClose, SuiteClose);
  }

  /** A successful report has no failure element: the escaped name cannot bring one in. */
  lemma NoFailureElementOnSuccess(name: string, ms: nat, message: Option<string>)
    ensures !Contains(JunitXml(name, ms, true, message), "<failure")
  {
    var n := Esc(name);
    var t := DurationText(ms);
    NoLtNoFailureTag(n);
    NoLtNoFailureTag(t);
    SuiteHeadNoFailureTag(n);
    CaseOpenNoFailureTag(SuiteHead(n) + "0", n, t);
    var hd := Head(n, "0", t);
    assert hd + FailurePart(true, message) == hd;
    CloseNoFailureTag(hd);
    NoFailureTagNoMatch(JunitXml(name, ms, true, message));
  }

  // ---------------------------------------------------------------- nowIso

  /** `new Date().toISOString().replace(/[:.]/g, '-')`, for a given ISO text. */
  function FileSafeTime(iso: string): (r: string)
    ensures |r| == |iso|
    ensures forall i :: 0 <= i < |iso| ==> r[i] == if iso[i] == ':' || iso[i] == '.' then '-' else iso[i]
  {
    seq(|iso|, i requires 0 <= i < |iso| => if iso[i] == ':' || iso[i] == '.' then '-' else iso[i])
  }

  /** The result holds no `:` or `.`, and replacing again changes nothing. */
  lemma FileSafeTimeClean(iso: string)
    ensures forall i :: 0 <= i < |iso| ==> FileSafeTime(iso)[i] != ':' && FileSafeTime(iso)[i] != '.'
    ensures FileSafeTime(FileSafeTime(iso)) == FileSafeTime(iso)
  {
  }

  // ---------------------------------------------------------------- consumer selectors

  /** `{ branch, latest: true }`. */
  function BranchSelector(b: string): JVal {
    JObj(map["branch" := JStr(b), "latest" := JBool(true)])
  }

  /** `{ tag, latest: true }`. */
  function TagSelector(t: string): JVal {
    JObj(map["tag" := JStr(t), "latest" := JBool(true)])
  }

  /** `PACT_BRANCH || 'main'`. */
  function ProviderBranch(pactBranch: Option<string>): (r: string)
    ensures r != ""
    ensures Js.Truthy(pactBranch) ==> r == pactBranch.value
    ensures !Js.Truthy(pactBranch) ==> r == "main"
  {
    Or(pactBranch, "main")
  }

  /** The consumer version selectors. `parsed` is what `JSON.parse` made of
      PACT_CONSUMER_SELECTOR_JSON (`Throws` when it is not JSON); it is consulted only when
      the variable is set and non-empty. */
  method ConsumerSelectors(selectorJson: Option<string>, parsed: Try<JVal>,
                           consumerBranch: Option<string>, consumerTag: Option<string>,
                           pactBranch: Option<string>) returns (selectors: seq<JVal>)
    ensures |selectors| >= 1
    ensures Js.Truthy(selectorJson) && parsed.Ok? && parsed.value.JArr? && |parsed.value.elems| > 0 ==>
      selectors == parsed.value.elems
    ensures !(Js.Truthy(selectorJson) && parsed.Ok? && parsed.value.JArr? && |parsed.value.elems| > 0) ==>
      selectors == [BranchSelector(Or(consumerBranch, ProviderBranch(pactBranch)))]
        + (if Js.Truthy(consumerTag) then [TagSelector(consumerTag.value)] else [])
  {
    var providerBranch := ProviderBranch(pactBranch);
    var chosen: Option<seq<JVal>> := None;
    if Js.Truthy(selectorJson) {
      if parsed.Ok? && parsed.value.JArr? && |parsed.value.elems| > 0 {
        chosen := Some(parsed.value.elems);
      }
    }
    if chosen.Some? {
      selectors := chosen.value;
    } else {
      var branch := Or(consumerBranch, providerBranch);
      var tag := Or(consumerTag, "");
      selectors := [];
      if branch != "" {
        selectors := selectors + [BranchSelector(branch)];
      }
      if tag != "" {
        selectors := selectors + [TagSelector(tag)];
      }
      if |selectors| == 0 {
        selectors := [BranchSelector(providerBranch)];
      }
    }
  }

  // ---------------------------------------------------------------- includeWipPactsSince

  /** A character `.` matches in a JavaScript regular expression: anything but a line terminator. */
  predicate RegexDot(c: char) {
    c != '\n' && c != '\r' && c != '\U{2028}' && c != '\U{2029}'
  }

  /** `/^\d{4}-\d{2}-\d{2}(T.*)?$/.test(s)`. */
  predicate LooksIsoDate(s: string) {
    && |s| >= 10
    && AllDigits(s[..4]) && s[4] == '-' && AllDigits(s[5..7]) && s[7] == '-' && AllDigits(s[8..10])
    && (|s| == 10 || (s[10] == 'T' && forall i :: 11 <= i < |s| ==> RegexDot(s[i])))
  }

  /** The `includeWipPactsSince` option: set only when pending pacts are enabled and the
      date looks like an ISO date; `PACT_INCLUDE_WIP_SINCE || undefined` maps "" to unset. */
  function WipSince(includeWip: Option<string>, enablePending: bool): (r: Option<string>)
    ensures r.Some? <==> enablePending && Js.Truthy(includeWip) && LooksIsoDate(includeWip.value)
    ensures r.Some? ==> r == includeWip
  {
    var since := OrOpt(includeWip, None);
    var looksIso := Js.Truthy(since) && LooksIsoDate(since.value);
    if enablePending && looksIso then since else None
  }

  /** A timestamp as `toISOString` prints it passes the guard, and so does its date part;
      a date without zero padding or with a line break after `T` does not. */
  lemma WipGuardExamples()
    ensures LooksIsoDate("2024-01-01T00:00:00.000Z")
    ensures LooksIsoDate("2024-01-01")
    ensures !LooksIsoDate("2024-1-1")
    ensures !LooksIsoDate("2024-01-01T\n")
    ensures WipSince(Some("2024-01-01"), false) == None
  {
    var stamp, date := "2024-01-01T00:00:00.000Z", "2024-01-01";
    assert stamp[..4] == date[..4] == "2024" && stamp[5..7] == date[5..7] == "01" && stamp[8..10] == date[8..10] == "01";
    assert "2024-01-01T\n"[12 - 1] == '\n';
  }
}
