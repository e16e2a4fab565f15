# tech-inventory-api in Dafny

A model of the core of tech-inventory-api, a small Express service that keeps an inventory of
tech items in a JSON file, together with the Pact tooling scripts around it.

**The Item Store** (`server.js`)
- `items.dfy`, module `Items`: the pure part of the store.
  - A record is a JSON object, `map<string, JVal>`.
  - Ids are allocated as one more than the largest numeric id.
  - Path ids are parsed the way `Number()` does it.
  - Bodies are validated in full and partial mode.
  - The records that create, replace and patch build.
  - Delete's splice, and the `--migrate-ids` renumbering.
- `store.dfy`, module `ItemStore`: the class `Store`. It holds the live collection (the DB file) and the seed file. Each mutating route is a method on them.
- `query.dfy`, module `Query`: GET /items. This is the `type` filter, the `q` filter (which can throw), the total and the page.

**The scripts**
- `verify_provider.dfy`, module `VerifyProvider` (`scripts/verify-provider.js`): `bool`, `mask`, `esc`, the JUnit report, `nowIso`, the consumer selectors and the WIP-date guard.
- `fetch_oas.dfy`, module `FetchOas` (`scripts/fetch-oas.js`): `parseDebug`, the debug level, `redact`, `normalizeVersion`, the choice of the default version, and the header redaction of `logReq`.
- `cli.dfy`, module `Cli`: what the scripts share. That is the `--` arguments of `process.argv`, `getArg`, the `cli || env || default` precedence, and argument lists of flag/value pairs.
- `publish_provider.dfy`, module `PublishProvider` (`scripts/2-publish-provider-contract.js`): the override map, the options, the results stub, the `pactflow` argument list and how the script ends.
- `publish_consumer.dfy`, module `PublishConsumer` (`scripts/1-publish-consumer.js`): the same for `pact-broker publish`. It splits `key=value` differently from the provider script.
- `run_pact_tests.dfy`, module `RunPactTests` (`scripts/run-pact-tests.js`): the test directories, the pattern, file matching, collecting the tests, the failure tally and the exit code.

**JavaScript semantics the code relies on**
- `js.dfy`, module `Js`:
  - truthiness, `||` and `??`;
  - `slice` with negative bounds;
  - `map`, `filter`, `indexOf`, `concat`;
  - `new Map(entries)`, where the last entry for a key wins.
- `jsstrings.dfy`, module `JsStrings`: `trim` over ECMAScript white space, `toLowerCase` on ASCII letters, `startsWith`, `endsWith`, `includes`, `split` and `join`.
- `jsnumber.dfy`, module `JsNumber`: `Number(string)` over the StringNumericLiteral grammar of ECMAScript (section 7.1.4.1 of ECMA-262), and `parseInt(s, 10)`.
- `json.dfy`, module `Json`: JSON values. A property set to `undefined` is a missing key, as `JSON.stringify` writes it.

**How the outside world enters the model**
- Everything a script or route reads from outside is a parameter:
  - the environment (`env: map<string, string>`) and `process.argv`;
  - the clock (`now`, `nowMs`);
  - what `JSON.parse` produced (`Try<JVal>`, where `Throws` means the text was not JSON);
  - the file system: `fs.existsSync`, `fs.readdirSync`, `path.resolve` and the directory walk, as functions;
  - whether a test process exits successfully.
- A script's ending is a datatype: an abort with its message, or the program it spawns with its arguments.

## Model

| member | source | states |
|---|---|---|
| Items.MaxId | server.js:75-78 | the `reduce` result is at least its start, at least every finite id, and equal to the start or to some record's id |
| Items.GetNextId | server.js:73-80 | the new id is at least 1 and greater than every finite id; it is 1 or one more than an existing id |
| Items.NextIdIsFresh | server.js:73-80 | no record with a finite id has the allocated id |
| Items.NextIdIsWhole | server.js:73-80 | when every finite id is whole, the allocated id is a whole number of at least 1 |
| Items.ParseIdParam | server.js:82-85 | `Some(n)` exactly when `Number(raw)` is the integer `n > 0`, otherwise None (the 404 path) |
| Items.ParseIdParamOfNat | server.js:82-85 | the decimal text of a positive `n` parses back to `n` |
| Items.FindIndex | server.js:280 | the first index whose id, as a number or as `Number(string)`, equals `n`; None when no record has it |
| Items.GetItem | server.js:229-240 | Found exactly when `raw` denotes a positive integer that some record has as its id; the record returned is the first one with that id |
| Items.FirstMissing | server.js:108-113 | the first required key the body lacks, or None exactly when all of them are present |
| Items.FirstMissingAt | server.js:110-112 | the first missing key is the one at the first index whose key is absent |
| Items.ValidateAccepts | server.js:106-130 | validation passes exactly when the required keys are present (full mode only) and every present field has its shape |
| Items.ValidateFullIsPresenceThenPartial | server.js:109-113 | full mode reports a missing name, type, price or in_stock in that order; with all four present it answers like partial mode |
| Items.ValidateOrder | server.js:114-122 | once the required keys are settled, an invalid type is reported first, then an invalid price, then an invalid name |
| Items.ValidateIgnoresTagElements | server.js:126-128 | the elements of `tags` never affect validation |
| Items.ValidateRegressionBody | server.js:106-113 | the regression test's invalid body is rejected for its missing `in_stock` before any shape check |
| Items.TagsOrEmpty | server.js:256 | the body's tags when they are an array, else `[]` |
| Items.NewItemFields | server.js:250-259 | a created record has the allocated id, the body's name, type, price and in_stock, tags or `[]`, and createdAt = updatedAt = now |
| Items.NewItemIdNumber | server.js:251 | a created record's numeric id is the allocated id |
| Items.NewItemKeys | server.js:250-259 | a created record has no key besides the eight listed, and all eight once the body has passed validation |
| Items.ReplacedShape | server.js:283-292 | replace overwrites name, type, price, in_stock, tags (default `[]`) and updatedAt, and keeps every other key and the id |
| Items.ReplacedIdNumber | server.js:284-285 | replace keeps the numeric id |
| Items.PatchedShape | server.js:314-321 | every key of the body overrides the record, id and createdAt included; other keys are kept; tags follow the fallback; updatedAt = now |
| Items.PatchedTagsAfterValidation | server.js:304-321 | after partial validation, tags are the body's when it has them and the old ones otherwise |
| Items.PatchPriceOnly | server.js:314-321 | `{price: 2.5}` changes only price and updatedAt |
| Items.AppendNextIdKeepsUnique | server.js:251-261 | appending a record with the allocated id keeps ids unique |
| Items.SameIdUpdateKeepsUnique | server.js:283-293 | overwriting a slot with a record of the same id keeps ids unique |
| Items.RemoveAt | server.js:340 | `splice(idx, 1)` shortens the sequence by one and keeps the other records in order |
| Items.RemoveKeepsUnique | server.js:340 | deleting keeps ids unique |
| Items.DeleteThenGetNotFound | server.js:334-340 | with unique ids, once the located record is deleted its id is not found |
| Items.LocateNewest | server.js:251-261 | the record appended with the allocated id `n` is the one the path `n` locates |
| Items.FindIndexLast | server.js:280 | a record appended after records without its id is the first one found |
| Items.RemoveLast | server.js:340 | splicing out the last record leaves the records before it |
| Items.PatchCanDuplicateIds | server.js:315-323 | a patch body carrying another record's id passes validation and breaks id uniqueness |
| Items.RenumberedShape | server.js:393-400 | after migration record k has id k + 1 and its other fields unchanged; ids are unique, and the next id is n + 1 |
| ItemStore.Migrate | server.js:393-400 | the loop yields the renumbered records and the (old id, k + 1) pairs in order |
| ItemStore.Store.Create | server.js:243-268 | invalid: nothing changes; otherwise exactly one new record is appended; ids stay unique |
| ItemStore.Store.Replace | server.js:271-299 | invalid or not found: nothing changes; otherwise only slot idx becomes the replaced record; ids stay unique |
| ItemStore.Store.Patch | server.js:302-329 | invalid or not found: nothing changes; otherwise only slot idx becomes the patched record |
| ItemStore.Store.Delete | server.js:332-346 | not found: nothing changes; otherwise the located record is spliced out, ids stay unique and the id is not found any more |
| ItemStore.Store.Reset | server.js:349-359 | the live collection becomes the seed verbatim, and the seed is unchanged |
| ItemStore.Store.MigrateIds | server.js:386-406 | an empty DB is left alone; otherwise both files hold the renumbered records, and the mapping has one pair per record |
| ItemStore.ResetTwice | server.js:349-359 | resetting twice leaves the state resetting once leaves |
| ItemStore.CreateGetDelete | server.js:243-346 | creating a valid record answers Created with the new record, fetching it by the id it was given answers Found with that same record, deleting it answers NoContent, a second fetch answers NotFound, and both files are as they were |
| Query.TypeFiltered | server.js:210 | no `type` (or an empty one) keeps every record; otherwise the records whose type is strictly that string |
| Query.SomeTagMatches | server.js:216 | true exactly when some tag matches and every tag before it is a string; throws exactly when a non-string tag is reached first |
| Query.ItemMatches | server.js:213-217 | a record without a string name throws; a name containing the needle matches; otherwise it matches exactly when `tags` is an array whose tag search matches, throws exactly when that search throws, and is false when `tags` is not an array |
| Query.QFiltered | server.js:211-218 | throws exactly when some record's predicate throws; otherwise the accepted records in order |
| Query.Limit | server.js:206 | 50 when absent; otherwise no number exactly when `parseInt` gives NaN, and else `min(parseInt(limit), 200)` |
| Query.Offset | server.js:207 | 0 when absent; otherwise no number exactly when `parseInt` gives NaN, and else `max(parseInt(offset), 0)` |
| Query.ListItems | server.js:203-226 | throws exactly when filtering throws; the total is the filtered count |
| Query.ListedRecordsPassFilters | server.js:210-221 | every listed record is stored and passes both filters |
| Query.FilteredRecordsPass | server.js:210-218 | every filtered record is stored and passes both filters |
| Query.PassingRecordsAreCounted | server.js:210-220 | every stored record that passes both filters is among the counted ones |
| Query.PageOfWellFormedLimit | server.js:206-221 | with a non-negative limit the page is the run of at most `limit` records from `offset`, and limit is at most 200 |
| Query.DefaultPage | server.js:206-221 | without limit and offset the page is the first 50 records |
| Query.NaNBoundsGiveEmptyPage | server.js:206-221 | a limit or offset that is not a number gives an empty page |
| Query.NegativeLimitPassesCap | server.js:206-221 | `limit=-1` gives every filtered record but the last, more than 200 once there are 202 |
| Query.ClampedLimit | server.js:206 | 50 when absent; otherwise no number exactly when `parseInt` gives NaN, and else `parseInt(limit)` clamped to [0, 200] |
| Query.ListItemsClamped | server.js:203-226 | throws exactly when filtering throws; the total is the filtered count |
| Query.ClampedPageBounded | server.js:206-221 | with the clamp the page never exceeds 200 or the limit, and is the run from the offset |
| Query.ClampAgreesOnWellFormedLimit | server.js:206-221 | the clamp changes nothing for a non-negative limit |
| JsNumber.NatToStringToNumber | server.js:83 | `Number(String(n))` is `n` |
| JsNumber.ParseIntNat | server.js:206-207 | `parseInt` reads back the decimal text of a natural number |
| Js.Map | scripts/2-publish-provider-contract.js:11-14 | `map` keeps the length and puts the function's value for each element at that element's position |
| Js.BuildMapLastWins | scripts/2-publish-provider-contract.js:10-15 | in `new Map(entries)` a key holds the value of its last entry |
| JsStrings.JoinSplit | scripts/2-publish-provider-contract.js:12-13 | joining the pieces of a split with the separator gives back the string |
| VerifyProvider.Bool | scripts/verify-provider.js:12-18 | unset gives the default; the trimmed, lower-cased true words give true, the false words give false, and any other value gives the default |
| VerifyProvider.BoolDefaultOnlyForUnknown | scripts/verify-provider.js:13-17 | the default decides exactly when the variable is unset or no known word; when it does not, a known word decides and the answer is the same for either default |
| VerifyProvider.BoolIgnoresCase | scripts/verify-provider.js:14 | letter case does not matter |
| VerifyProvider.BoolIgnoresSurroundingSpace | scripts/verify-provider.js:14 | surrounding white space does not matter |
| VerifyProvider.Mask | scripts/verify-provider.js:11 | empty for a falsy token, else the first four characters, `…` and the last two |
| VerifyProvider.MaskDependsOnlyOnEnds | scripts/verify-provider.js:11 | tokens that agree on their first four and last two characters mask alike |
| VerifyProvider.MaskRevealsShortTokens | scripts/verify-provider.js:11 | every character of a token of up to six characters appears in its mask |
| VerifyProvider.EscChar | scripts/verify-provider.js:20 | a replacement holds no `<`, `>` or `"` |
| VerifyProvider.Esc | scripts/verify-provider.js:20 | the escaped text holds no `<`, `>` or `"` and is at least as long |
| VerifyProvider.UnescapeEsc | scripts/verify-provider.js:20 | decoding the four entities gives back the original text |
| VerifyProvider.EscInjective | scripts/verify-provider.js:20 | different texts escape differently |
| VerifyProvider.DurationText | scripts/verify-provider.js:22-23 | non-empty, made only of digits and `.` |
| VerifyProvider.DurationTextReadsBack | scripts/verify-provider.js:22-23 | `Number` reads the printed duration back as exactly ms/1000 seconds: three fixed decimals of whole milliseconds lose nothing |
| VerifyProvider.FailuresCount | scripts/verify-provider.js:22 | the `failures` attribute is 0 on success and 1 otherwise |
| VerifyProvider.FailureElementOnError | scripts/verify-provider.js:24 | a failed report carries the failure element (message defaulting to "Verification failed") where the test case body starts |
| VerifyProvider.FailurePartOnlyOnError | scripts/verify-provider.js:24 | the failure element is empty exactly on success |
| VerifyProvider.NoFailureElementOnSuccess | scripts/verify-provider.js:21-26 | a successful report contains no `<failure`, whatever the name |
| VerifyProvider.FileSafeTime | scripts/verify-provider.js:8 | each `:` and `.` becomes `-`, and every other character is kept |
| VerifyProvider.FileSafeTimeClean | scripts/verify-provider.js:8 | the result holds no `:` or `.`, and replacing again changes nothing |
| VerifyProvider.ProviderBranch | scripts/verify-provider.js:57 | PACT_BRANCH when it is truthy, else `main`; never empty |
| VerifyProvider.ConsumerSelectors | scripts/verify-provider.js:59-76 | a parsed non-empty array is used verbatim; otherwise the branch selector, then the tag selector when a tag is set; never empty |
| VerifyProvider.WipSince | scripts/verify-provider.js:119-121 | set exactly when pending pacts are enabled and the date passes the ISO guard, and then it is the configured date |
| VerifyProvider.WipGuardExamples | scripts/verify-provider.js:91 | `toISOString` output and a bare date pass the guard; an unpadded date and a line break after `T` do not |
| FetchOas.ParseDebug | scripts/fetch-oas.js:16-22 | unset is 0; the full words give 2; the on words give 1; anything else gives 0 |
| FetchOas.ParseDebugIgnoresCase | scripts/fetch-oas.js:18 | letter case does not matter |
| FetchOas.ParseDebugIgnoresSurroundingSpace | scripts/fetch-oas.js:18 | surrounding white space does not matter |
| FetchOas.DebugSetting | scripts/fetch-oas.js:23-28 | the first of DEBUG_FETCH, SH_DEBUG_FETCH, OAS_DEBUG and DEBUG that is set |
| FetchOas.DebugLevel | scripts/fetch-oas.js:23-30 | at most 2; the parsed value of DEBUG_FETCH when it is set, else of SH_DEBUG_FETCH, else of OAS_DEBUG, else of DEBUG; 0 when none of the four is set |
| FetchOas.EmptyDebugFetchWins | scripts/fetch-oas.js:23-28 | an empty DEBUG_FETCH wins over DEBUG=2, giving level 0 |
| FetchOas.Redact | scripts/fetch-oas.js:32-37 | falsy or leaky input unchanged; otherwise up to six characters give first, `…`, last; longer give first four, `…`, last two |
| FetchOas.RedactLength | scripts/fetch-oas.js:35-36 | a redacted token is three or seven characters long |
| FetchOas.RedactAgreesWithMask | scripts/fetch-oas.js:36 | on tokens over six characters `redact` and the verifier's `mask` agree |
| FetchOas.RedactShortDiffersFromMask | scripts/fetch-oas.js:35 | on a five-character token they differ |
| FetchOas.NormalizeVersion | scripts/fetch-oas.js:54-61 | falsy input unchanged; otherwise trimmed, with one pair of matching quotes stripped |
| FetchOas.NormalizeQuoted | scripts/fetch-oas.js:57-58 | a quoted version loses exactly its quotes |
| FetchOas.NormalizeUnquoted | scripts/fetch-oas.js:54-61 | trimmed, unquoted text is left alone |
| FetchOas.NormalizeStripsOnePairOnly | scripts/fetch-oas.js:57-58 | only one pair of quotes is stripped |
| FetchOas.FirstStringField | scripts/fetch-oas.js:118-121 | the first key whose value is a string, or None exactly when no key has one |
| FetchOas.ExtractVersion | scripts/fetch-oas.js:113-124 | raw text when not JSON; a JSON string itself; for an object the first string among version, default, defaultVersion, value; else none |
| FetchOas.ResolveVersion | scripts/fetch-oas.js:113-126 | a version exactly when the normalised version is non-empty, and an error message otherwise |
| FetchOas.VersionKeyFirst | scripts/fetch-oas.js:118-119 | `.version` wins over `.default` |
| FetchOas.NonStringVersionSkipped | scripts/fetch-oas.js:118-119 | a non-string `.version` is skipped for `.default` |
| FetchOas.LoneQuoteVersionFails | scripts/fetch-oas.js:115-126 | a JSON string holding a lone quote normalises to "" and fails |
| FetchOas.LoggedHeaders | scripts/fetch-oas.js:66-70 | the header named like SH_AUTH_HEADER (ignoring case) is redacted; every other header is copied; names and order kept |
| FetchOas.LeakyLogsEverything | scripts/fetch-oas.js:66-70 | at level 2 nothing is redacted |
| FetchOas.LoggedHeadersIgnoreCase | scripts/fetch-oas.js:68 | the configured header name's case does not matter |
| Cli.FlagBodies | scripts/2-publish-provider-contract.js:11 | each result is a `--` argument after the script path without its dashes, and each such argument contributes its body |
| Cli.StrippedFlags | scripts/1-publish-consumer.js:20-22 | the `--` arguments without their dashes, and each of them contributes |
| Cli.Pick | scripts/2-publish-provider-contract.js:24-30 | the command-line value when truthy, else the environment value when truthy, else the default |
| Cli.FlagValue | scripts/run-pact-tests.js:21-24 | a value exactly when the flag occurs with something after it, and then the element after its first occurrence |
| Cli.GetArg | scripts/run-pact-tests.js:21-24 | undefined unless `--name` is among the arguments; a value exactly when something follows its first occurrence, and then the element right after it |
| Cli.PairsToArgs | scripts/2-publish-provider-contract.js:69-80 | each flag at position 2k with its value right after |
| Cli.PairsRoundTrip | scripts/2-publish-provider-contract.js:69-80 | reading the list back finds each flag's own value |
| PublishProvider.Entry | scripts/2-publish-provider-contract.js:12-13 | the key is the text before the first `=`, the value all the rest with further `=` kept; no `=` gives "" |
| PublishProvider.LastOverrideWinsIn | scripts/2-publish-provider-contract.js:10-15 | a repeated key ends with the value of its last occurrence |
| PublishProvider.LastOverrideWins | scripts/2-publish-provider-contract.js:10-15 | the same over the whole `process.argv` |
| PublishProvider.ReadOptions | scripts/2-publish-provider-contract.js:24-30 | each option is the command-line value when truthy, else the environment value when truthy, else its default (`local-<Date.now()>` for the version); results come from the command line or else the environment; every option with a default is non-empty |
| PublishProvider.ProviderFromCommandLine | scripts/2-publish-provider-contract.js:24 | a last `--provider=v` sets the provider whatever the environment says |
| PublishProvider.Attachment | scripts/2-publish-provider-contract.js:39-46 | without results, the stub path with text/plain whatever type was asked; otherwise the results and their type |
| PublishProvider.ContractFlagsDistinct | scripts/2-publish-provider-contract.js:69-80 | the eight flags are distinct and all start with `--` |
| PublishProvider.ContractPairs | scripts/2-publish-provider-contract.js:72-79 | the pairs carry the eight flags in order, each with its value: provider, version, branch, `application/yaml`, `0`, the results, their type and the verifier |
| PublishProvider.CliArgs | scripts/2-publish-provider-contract.js:69-80 | 18 elements: `publish-provider-contract`, the contract path, then each of the eight flags followed by its value, in order |
| PublishProvider.CliArgsReadBack | scripts/2-publish-provider-contract.js:69-80 | when no value looks like a flag, the element after each flag's first occurrence in the argument array is that flag's own value |
| PublishProvider.FirstExisting | scripts/2-publish-provider-contract.js:53 | the first existing path, or None exactly when none exists |
| PublishProvider.Plan | scripts/2-publish-provider-contract.js:17-80 | missing credentials abort with the credentials message; with credentials, a missing contract aborts with "OpenAPI file not found at: " and its resolved path, and with the contract but neither CLI binary, with the install hint; a spawn exactly when the credentials, the contract file and a CLI binary exist; the binary is the first existing candidate; the arguments are `CliArgs` of the resolved contract, the options and the attachment; the stub becomes the results as text/plain |
| PublishConsumer.Entry | scripts/1-publish-consumer.js:23 | the key is the text before the first `=`, the value the text up to the second `=`; no `=` gives undefined |
| PublishConsumer.SecondEqualsDropsTail | scripts/1-publish-consumer.js:23 | on `key=a=b` this script keeps `a` where the provider script keeps `a=b` |
| PublishConsumer.SameKey | scripts/1-publish-consumer.js:23 | both scripts read the same key from an override |
| PublishConsumer.Override | scripts/1-publish-consumer.js:19-26 | a value only from some override with that key |
| PublishConsumer.OverrideComesFromEntry | scripts/1-publish-consumer.js:19-26 | every value of the Map comes from an entry with its key |
| PublishConsumer.LastOverrideWins | scripts/1-publish-consumer.js:19-26 | a repeated key ends with the value of its last occurrence |
| PublishConsumer.LastOverrideWinsIn | scripts/1-publish-consumer.js:19-26 | the same among the arguments after the script path |
| PublishConsumer.Version | scripts/1-publish-consumer.js:29-32 | never empty; the override when truthy, else PACT_CONSUMER_VERSION when truthy, else `local-<ts>` |
| PublishConsumer.Branch | scripts/1-publish-consumer.js:34-37 | never empty; the override when truthy, else PACT_BRANCH when truthy, else `local` |
| PublishConsumer.BareFlagIsUndefined | scripts/1-publish-consumer.js:23-32 | a last bare `--version` reads as undefined |
| PublishConsumer.PactFiles | scripts/1-publish-consumer.js:45 | exactly the listed names that end in `.json` |
| PublishConsumer.PublishArgs | scripts/1-publish-consumer.js:51-60 | ten elements: `publish`, `./pacts`, then the version, branch, broker URL and token flags, each followed by its value |
| PublishConsumer.PublishPairs | scripts/1-publish-consumer.js:54-57 | the pairs carry the four flags in order, with the version, branch, broker URL and token |
| PublishConsumer.PublishArgsReadBack | scripts/1-publish-consumer.js:51-57 | when no value looks like a flag, the element after each flag's first occurrence in the argument array is that flag's own value |
| PublishConsumer.Plan | scripts/1-publish-consumer.js:10-69 | missing credentials abort with the credentials message; with credentials, a missing `./pacts` aborts with its message, and a directory with no `.json` file with the no-pact-files message; a spawn of pact-broker exactly when the credentials and the directory exist and some file ends in `.json`, with the publish arguments |
| RunPactTests.TestDirs | scripts/run-pact-tests.js:15-18 | every directory is non-empty, trimmed and comma-free, and every non-empty trimmed piece of the split is one |
| RunPactTests.TestDirsArePieces | scripts/run-pact-tests.js:15-18 | a string is a directory exactly when it is the non-empty trim of some piece of the comma split |
| RunPactTests.TrimAll | scripts/run-pact-tests.js:17 | each piece trimmed, in order |
| RunPactTests.DefaultTestDirs | scripts/run-pact-tests.js:15-18 | without PACT_TEST_DIRS the only directory is `tests` |
| RunPactTests.Pattern | scripts/run-pact-tests.js:25-28 | never empty; `--pattern` when truthy, else PACT_TEST_PATTERN when truthy, else the default |
| RunPactTests.MatchesPattern | scripts/run-pact-tests.js:31-36 | the default pattern means "ends in -pact-test.js, in any case"; any other is a case-insensitive substring test |
| RunPactTests.MatchIgnoresCase | scripts/run-pact-tests.js:33-35 | the case of the file name does not matter |
| RunPactTests.MatchIgnoresPatternCase | scripts/run-pact-tests.js:35 | nor the case of a non-default pattern |
| RunPactTests.SuffixMatchesDefault | scripts/run-pact-tests.js:33 | any name ending in `-pact-test.js` matches the default pattern |
| RunPactTests.RegressionTestNotMatched | scripts/run-pact-tests.js:33 | `test-regression.js` does not match the default pattern |
| RunPactTests.FindTests | scripts/run-pact-tests.js:38-49 | exactly the paths of the walked files whose name matches |
| RunPactTests.TestsIn | scripts/run-pact-tests.js:52-55 | the tests of each directory, in directory order |
| RunPactTests.CollectTests | scripts/run-pact-tests.js:52-55 | the concatenation of each directory's tests; a path is collected exactly when some directory's walk has a matching file there |
| RunPactTests.SelectFile | scripts/run-pact-tests.js:58-62 | no `--file` keeps all; otherwise exactly the tests resolving to the same path |
| RunPactTests.FailureCountMeaning | scripts/run-pact-tests.js:72-88 | at most the number of tests, and 0 exactly when every test passes |
| RunPactTests.CountFailures | scripts/run-pact-tests.js:72-88 | the loop counts the failing tests |
| RunPactTests.RunAll | scripts/run-pact-tests.js:52-91 | passed + failed is the total; the exit code is 0 exactly when tests were found and all of them passed, else 1 |

## Left out
- HTTP plumbing is out: Express routing, status codes, JSON bodies, morgan, `/healthz`, `/spec`, `/usage` (with `yaml.load` and its cache) and the error handler. Route outcomes are the `Response` datatype.
- File I/O is out: `ensureFiles`, `readFile`, `writeFile` and the atomic rename. Reading the DB is reading `items`; writing it is assigning `items`. The `readDB` check that the file holds an array, and what that does to non-object elements, are not modelled.
- The `/reset` route's `JSON.parse(seed)` check is out. The seed is held already parsed.
- `new Date().toISOString()`, `Date.now()`, `process.exit`, `console` output and `crypto` are out. Times are parameters, and a script's exit is its `Outcome` or exit code.
- Concurrent requests racing on the file are not modelled (concurrency).
- Numbers are exact reals. Double rounding and overflow to Infinity for huge literals are not modelled, which affects ids, prices and `Number()`.
- Timing is counted in whole milliseconds, so `toFixed(3)` is exact.
- Query parameters given as arrays (`?q=a&q=b`) are not modelled. Every query value is a string or absent.
- `ItemStore.Migrate`: the mapping is the sequence of (old id, new id) pairs set, not a Map keyed by `String(old)`. So two records whose old ids print alike keep two pairs here, where the Map keeps one. The printed mapping is console output.
- `JsStrings.ToLower` lower-cases ASCII letters only. JavaScript's `toLowerCase` also maps other scripts, which matters for `q`, `matchesPattern` and `bool` on non-ASCII text.
- `RunPactTests.FindTests`: the recursive directory walk is the parameter `walk` (a directory to the files under it, in walk order), and `fs.existsSync` on the start directory is part of it. `path.join`, `path.isAbsolute` and `path.resolve` are the parameters `locate` and `resolve`.
- Child processes are out: running each test with `execFileSync`, spawning `pactflow` and `pact-broker` with the environment spread, and the `r.status ?? 0` exit code.
- PublishProvider.CliArgsReadBack and PublishConsumer.PublishArgsReadBack speak of the argument array only. Both scripts spawn with `shell: true` (scripts/2-publish-provider-contract.js:82-86, scripts/1-publish-consumer.js:69), so the shell joins and re-splits the words and interprets metacharacters in the values; what the CLI then receives is not modelled.
- VerifyProvider.Mask and FetchOas.Redact count characters as Unicode scalar values, where JavaScript's `length` and `slice` count UTF-16 code units. For tokens with characters outside the Basic Multilingual Plane the model keeps whole characters where JavaScript may cut a surrogate pair.
- The Pact `Verifier` run, the summary files written by verify-provider.js, `teeConsole`, and the network requests of fetch-oas.js (`fetch`, `encodeURIComponent`, writing openapi.yaml, `curlHint`) are foreign calls or I/O and are out.
- `PublishProvider.Plan`: the stub file's content and the write of it are left out.
- `Items.Locate`: its own contract only bounds the index. What it finds is stated by `Items.ParseIdParam` and `Items.FindIndex`, which it composes.
- `VerifyProvider.ConsumerSelectors`: when `JSON.parse` throws, the warning is console output. The selectors fall back as stated.
- The tests and the other scripts (add-items, report, delete-random, reset-db) are not part of this model.

## Findings

| source | as written | input that shows it | evidently intended | confidence | as-written member | corrected member |
|---|---|---|---|---|---|---|
| server.js:206 | `Math.min(parseInt(limit), 200)` caps the limit above only, so a negative limit makes `slice` count its end from the back | `GET /items?limit=-1` over 202 or more records returns all but the last, so more than 200 | the limit kept within [0, 200], as the cap suggests, so a page never exceeds 200 records | not executed | Query.NegativeLimitPassesCap | Query.ClampedPageBounded |

Notes on the code:
- On PATCH, validation rejects a `tags` value that is not an array (server.js:126-128). The fallback to the existing tags at server.js:319 therefore applies only when the body has no `tags` (`Items.PatchedTagsAfterValidation`).
- Validation checks only that `tags` is an array; its elements are never checked (`Items.ValidateIgnoresTagElements`).
