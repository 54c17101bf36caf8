# Directomatic redirect sync, modelled in Dafny

Directomatic is a Cloudflare worker. It reads redirect rows from a Google
Sheet, validates and normalises them, and expands each into entries of a
Cloudflare Bulk Redirect List, with one entry per locale for localized
redirects. It then reports, diffs or uploads that list. This project models
the pure core of that pipeline and proves properties about it:

- the field validators (`validatePath`, `validateBoolean`, `validateCode`),
  including the JavaScript `trim`, `toLowerCase` and `parseInt` they rely on
  (modules `Validators`, `JsString`, `JsNumber`);
- `makeBulkList`, the locale fan-out, and the report that `uploadBulkList`
  builds from the store's reply (module `Outputs`);
- the row partition of `list`, the added/removed comparison of `diff`, and
  the candidate list of `publish` (module `Controller`).

Supporting modules:
- `Wrappers`: `Option`/`Result`, standing in for `undefined` and throws.
- `Seqs`: an order-preserving `Filter` with its algebra.
- `Types`: the records.
- `Globals`: the locale list.

The worker's collaborators are parameters:
- `processSheetRow` is a `RowProcessor`;
- `makeFullURL` is a `UrlMaker`;
- `ruleInList` is a `RuleMatcher`;
- the store's reply to an upload is a function of the uploaded list.

Facts about those collaborators appear only as preconditions of the lemmas
that need them. There are four. The first three are behaviours the
repository's tests assert; the fourth is a modelling assumption:
- a row whose `deleted` cell `validateBoolean(deleted, false)` reads as true
  yields nothing (`DeletedRowsContributeNothing`). The tests show a `true`
  cell giving `null` and the unrecognised token `WAT` giving a live row
  (test/processing.test.ts:52-62 and 134-150). The model assumes every
  token `validateBoolean` reads as true behaves like `true`;
- a rule is found in a list that holds it (`ReconcileCommon`;
  test/processing.test.ts:265-268);
- a rule is found in a list holding a rule with the same source, target
  and status code (`ReconcileDisjoint`; test/processing.test.ts:270-280);
- nothing is found in the empty list (`ReconcileFirstPublish`). No test
  exercises this case.

`Controller.SameRule` and `Controller.RuleInList` are reference versions of
`redirectCompare` and `ruleInList` as the tests pin them
(test/processing.test.ts:169-292): two rules are the same when source,
target and status code agree, with `id` and the timestamps ignored, and a
rule is in a list when some member is the same rule. They have the last
three properties, and
`ReconcileByRedirect` and `DiffByRedirect` state `diff` with it in place of
the parameter.

Where the code and its surrounding description disagree, the model follows
the code:
- `validatePath` accepts a whitespace-only path (see Findings).
- `parseInt` is modelled with its real radix detection. `0x12D` reads as 301,
  as section 19.2.5 of ECMA-262 prescribes. It is not limited to decimal
  numerals.
- The test at test/validators.test.ts:27-29 expects `validatePath('HI MOM')`
  to throw. The code at src/validators.ts:13-14 returns the trimmed input
  instead, and the model follows the code.

## Model

| member | source | states |
|---|---|---|
| Validators.ValidatePath | src/validators.ts:11-18 | Fails exactly on the empty string, with the input in the error; otherwise returns the trimmed input, which has no outer whitespace; a whitespace-only input is accepted as `""`; an input with no outer whitespace comes back unchanged |
| Validators.ValidatePathAcceptsBlank | src/validators.ts:13-14 | A path of three spaces passes validation and comes back as the empty path |
| Validators.ValidatePathNonBlank | src/validators.ts:12-17 | Corrected form: fails exactly when the input is all whitespace; on success returns the trimmed, non-empty input |
| Validators.ValidatePathNonBlankAgrees | src/validators.ts:11-18 | The corrected and as-written validators agree exactly on the inputs that are empty or not all whitespace |
| Validators.ValidateBoolean | src/validators.ts:28-43 | Blank input gives the default; a lower-cased true token gives true and a false token false; the result differs from the default only when the untrimmed, lower-cased text is a token of the matching list |
| Validators.ValidateBooleanOfBool | src/validators.ts:35-39 | A boolean cell reads as itself whatever the default |
| Validators.ValidateBooleanIgnoresCase | src/validators.ts:35 | A text cell and its lower-cased form read alike |
| Validators.ValidateBooleanMixedCase | test/validators.test.ts:61-75 | `yEs` and `tRuE` read as true against a false default, `FaLsE` as false against a true default, `HELLO` as the default |
| Validators.ValidateBooleanDoesNotTrim | src/validators.ts:35-36 | A token with padding (` yes`, `no `) is not recognised and gives the default |
| Validators.ValidateCode | src/validators.ts:53-69 | Falsy input gives the default; a result other than the default is exactly what `parseInt` reads from the cell's text |
| Validators.ValidateCodeKeepsParsedCode | src/validators.ts:61-66 | A present cell whose text parses to 301, 302, 307 or 308 yields that code whatever the default |
| Validators.ValidateCodeOfNumber | src/validators.ts:61-66 | A numeric cell is kept exactly when it is one of 301, 302, 307, 308; any other integer gives the default |
| Validators.ValidateCodeOfDecimalPrefix | src/validators.ts:61 | Text starting, after whitespace, with a decimal numeral is judged by that numeral alone |
| Validators.ValidateCodeNonNumeric | test/validators.test.ts:92-104 | Undefined, empty, a lone space and `HELLO` all give the default |
| Validators.ValidateCodeFraction | test/validators.test.ts:105-109 | `3.14159` is read up to the point, as 3, and gives the default |
| Validators.ValidateCodeHex | src/validators.ts:61-65 | `0x12D` is read in radix 16 as 301 and kept |
| JsString.Trim | src/validators.ts:14 | The result has no outer whitespace; it is empty exactly when the input is all whitespace; it is the slice between a whitespace-only head and tail |
| JsString.TrimIdempotent | src/validators.ts:14 | Trimming twice is trimming once |
| JsString.ToLowerAscii | src/validators.ts:35 | Same length; each character lowered pointwise |
| JsString.ToLowerAsciiIdempotent | src/validators.ts:35 | Lowering twice is lowering once |
| JsNumber.ParseInt | src/validators.ts:61 | All-whitespace text parses to NaN |
| JsNumber.ParseIntNaN | src/validators.ts:61 | For every text: NaN exactly when, after the leading whitespace and an optional sign, no digit follows, where a `0x`/`0X` prefix asks for a hexadecimal digit after it (so `0xg` is NaN) |
| JsNumber.ParseIntSign | src/validators.ts:61 | A `-` after the leading whitespace negates what the rest parses to, a `+` keeps it, and a rest without digits stays NaN |
| JsNumber.ParseIntDecimalPrefix | src/validators.ts:61 | Leading whitespace, a decimal numeral and a non-digit tail parse to the numeral's value |
| JsNumber.ParseIntNumberText | src/validators.ts:61 | `parseInt` of the decimal numeral of `n` is `n`, for every integer `n` |
| JsNumber.ParseIntHexPrefix | src/validators.ts:61 | Leading whitespace, a `0x`/`0X` prefix, a run of hexadecimal digits and a tail that does not continue the run parse to the run's value in radix 16 |
| JsNumber.ParseIntHexExample | src/validators.ts:61 | `parseInt("0x12D")` is 301 |
| JsNumber.NumberText | src/validators.ts:61 | The text of a numeric cell: all digits for a non-negative number, a minus sign and digits for a negative one; it equals `String(n)` only when the magnitude is below 10^21 |
| JsNumber.DecimalString | src/validators.ts:61 | The numeral is non-empty, all digits, without leading zero, and its value is `n` |
| Outputs.SameLocaleCharwise | src/outputs.ts:38 | Two locale tags collate equal exactly when they have the same length and agree character by character up to ASCII case; this is an equivalence |
| Outputs.LocalizedItems | src/outputs.ts:35-48 | The locale loop yields at most one entry per locale, each carrying the rule's code and no store metadata |
| Outputs.ExpandAll | src/outputs.ts:25-54 | The `flatMap` yields at least one entry per rule, and every entry is among the entries of some rule |
| Outputs.EffectiveDefaultLocale | src/outputs.ts:23 | A configured non-empty locale wins; unset or empty gives `en-US` |
| Outputs.LocalizedItemsFollowKeptLocales | src/outputs.ts:35-48 | The locale loop emits exactly one entry per locale not collating equal to the default, in locale-list order |
| Outputs.RuleItems | src/outputs.ts:26-53 | A rule's first entry is its unprefixed one; a non-localized rule has no other; every entry carries the rule's code and no store metadata |
| Outputs.RuleItemsLocalized | src/outputs.ts:26-48 | A localized rule yields its unprefixed entry, then the entry for each non-default locale in order |
| Outputs.FanOutSize | src/outputs.ts:35-48 | A localized rule yields one entry plus one per locale minus the number of locales equal to the default |
| Outputs.EnUsOccursOnce | src/globals.ts:18-41 | Any casing of `en-us` matches exactly one entry of the locale list |
| Outputs.EnUsFanOut | src/outputs.ts:23-48 | With the default locale unset, empty or any casing of `en-US`, a localized rule yields exactly as many entries as there are locales |
| Outputs.MakeBulkList | src/outputs.ts:22-55 | No rules give no entries; at least one entry per rule; every entry belongs to some rule's entries |
| Outputs.MakeBulkListSingle | src/outputs.ts:25-54 | One rule's list is that rule's entries |
| Outputs.MakeBulkListAppend | src/outputs.ts:25 | The list of a concatenation of rule sets is the concatenation of their lists |
| Outputs.NonLocalizedOneToOne | src/outputs.ts:26-35 | Without localized rules the list has exactly one unprefixed entry per rule, in rule order |
| Outputs.ExpandAllIgnoresBookkeeping | src/outputs.ts:26-47 | Rule sets differing only in `deleted` and `description` give the same list |
| Outputs.ElementAt | src/outputs.ts:127 | `list[i]` is present exactly when `i` indexes the list, and is then the element at `i`; otherwise it is `undefined` |
| Outputs.OperationMessage | src/outputs.ts:131-135 | The message is the fixed prefix followed by the operation id, or by `undefined` when the id is missing |
| Outputs.UploadBulkList | src/outputs.ts:116-135 | Success is passed through; errors default to empty; with errors, each invalid rule is the uploaded item the error names, or missing when the index is out of range, and no message is added; without errors, the operation message is appended and the description is stamped |
| Outputs.InvalidRulesUploaded | src/outputs.ts:125-129 | Every rule reported invalid was uploaded, and there is at most one per store error |
| Outputs.UploadMessages | src/outputs.ts:117-135 | Exactly one message is added, only on an upload without errors; the store's messages keep their order |
| Outputs.UploadErrorNamesItem | test/outputs.test.ts:418-497 | One error naming index 1 of two items reports the second item, adds no message and skips the description stamp |
| Outputs.UploadEmptyReply | test/outputs.test.ts:498-542 | An empty reply gives no success flag, no errors, the message with `undefined`, and no invalid rules |
| Controller.ValidRules | src/controller.ts:48-61 | At most one rule per row; a rule is in the result exactly when some row processes to it |
| Controller.List | src/controller.ts:41-75 | The loop's rules and bad rows equal the row-order flat map and the filter of rejected, non-deleted rows; the message carries both counts |
| Controller.ValidRulesAppend | src/controller.ts:48 | The flat map distributes over concatenation of row blocks |
| Controller.ListAccountsForEveryRow | src/controller.ts:48-61 | Valid rules, reported rows and silently dropped deleted rows together number exactly the rows |
| Controller.BadRowsAreRejectedLiveRows | src/controller.ts:51-57 | A row is reported exactly when it is an input row that yielded nothing and is not marked deleted |
| Controller.DeletedRowsContributeNothing | src/controller.ts:48-61 | If deleted rows yield nothing, dropping them first changes no rule |
| Controller.CountReadsBack | src/controller.ts:64-66 | The count in a summary line parses back to the count |
| Controller.ListMessageCountsRules | src/controller.ts:64-66 | The `list` message's number after its prefix is the number of valid rules |
| Controller.Candidate | src/controller.ts:82-87 | Every candidate entry belongs to the entries of a rule some row processed to |
| Controller.CandidateAppend | src/controller.ts:82-87 | The candidate list of two row blocks is their candidate lists joined |
| Controller.Reconcile | src/controller.ts:93-109 | A published rule is removed exactly when no candidate matches it; a candidate is added exactly when no published rule matches it; the messages carry both counts |
| Controller.Diff | src/controller.ts:77-115 | Added rules are candidates; removed rules are published |
| Controller.ReconcileDisjoint | src/controller.ts:93-100 | When a match with a list member implies `ruleInList`, no added rule matches a removed rule, in either direction |
| Controller.ReconcileCommon | src/controller.ts:93-100 | When `ruleInList` finds every member, a rule on both sides is neither added nor removed, and a list compared with itself yields no change |
| Controller.ReconcileFirstPublish | src/controller.ts:93-100 | Against an empty store every candidate is added, in order, and nothing is removed |
| Controller.SameRule | test/processing.test.ts:169-242 | Two list items are the same rule exactly when source, target and status code agree; `id` and timestamps play no part |
| Controller.RuleInList | test/processing.test.ts:244-292 | A rule is found in any list that holds it, and nothing is found in the empty list |
| Controller.RuleInListMeetsAssumptions | test/processing.test.ts:244-292 | The reference `ruleInList` finds a rule matching a member, finds every member, and finds nothing in the empty list |
| Controller.ReconcileByRedirect | src/controller.ts:93-100 | With the reference `ruleInList`, a candidate is added exactly when no published rule has its source, target and status code, and a published rule is removed exactly when no candidate has them |
| Controller.DiffByRedirect | src/controller.ts:93-100 | With the reference `ruleInList`, no added rule redirects like a removed one, a rule on both sides is in neither list, and against an empty store every candidate is added |
| Controller.AddedMessageCounts | src/controller.ts:105 | The first `diff` message names the number of rules to add |
| Controller.RemovedMessageCounts | src/controller.ts:106 | The second `diff` message names the number of rules to remove |
| Controller.Publish | src/controller.ts:117-135 | The report's success is the store's; every rule reported invalid is in the candidate list |
| Controller.PublishInvalidRulesFromRows | src/controller.ts:122-130 | Every rule `publish` reports invalid comes from a row the processor accepted |
| Seqs.Filter | src/controller.ts:93-100 | `Array.prototype.filter`: no longer than its input, and an element is kept exactly when it is in the input and satisfies the predicate |
| Seqs.FilterAppend | src/controller.ts:93-100 | Filtering distributes over concatenation, so kept elements stay in order |
| Seqs.FilterPartition | src/outputs.ts:35-48 | A filter and its complement split a sequence without loss |

## Left out

- Network I/O is left out. This covers `fetchRedirectRows`, `getBulkListContents`, `getBulkListStatus`, `checkSpreadsheetStatus` and the HTTP requests in `uploadBulkList`. Rows, the published list and the store's reply are parameters instead.
- The description `PUT` after a clean upload is only a flag (`stampsDescription`). Its body contains `Date()`, a clock read.
- `hello` and `status` are left out; they only assemble I/O results.
- The router, authentication and `index.ts` are left out, and so are the JSON and `Response` envelopes of the routes. The reports are datatypes.
- `processSheetRow`, `makeFullURL`, `ruleInList` and `redirectCompare` live in src/processing.ts, which is not part of this model. They are function parameters.
- Outputs.MakeBulkList: accepts any default locale. In the source, `new Intl.Collator` at src/outputs.ts:24 throws a `RangeError` when `DEFAULT_LOCALE` is not a well-formed language tag (`en_US`, say), so `makeBulkList`, `diff` and `publish` fail; the model instead emits the prefixed `en-us` entry too, since no locale collates equal to such a tag.
- `Outputs.SameLocale` approximates `Intl.Collator` at base sensitivity as ASCII case-insensitive equality. Accent-insensitive collation is not modelled. The locale tags involved are ASCII.
- `JsString.ToLowerAscii` lowers only ASCII letters. This is exact for the validators' token lists. The only non-ASCII characters that lower into ASCII letters are the Kelvin sign and U+0130, and neither can complete a token.
- JsNumber.NumberText: numeric cells are represented by the plain decimal numeral of an integer, which is `String(n)` only when the magnitude of `n` is below 10^21. From 10^21 on, JavaScript writes exponent form (`1e+21`), and `parseInt` reads one digit from it. Neither reading is one of the three-digit redirect codes, so `validateCode` returns the default for both forms. Neither form is a boolean token either, so `validateBoolean` also returns the default for both. Fractions, `NaN` and `Infinity` appear only as text cells.
- A `null` cell is left out: `Cell` has no null case. In the source `validateCode(null, p)` returns `p`, since `!null` holds at src/validators.ts:57, while `validateBoolean` reaches `null.toString()` at line 35 and throws.
- A `null` reply body is left out. In the source it reaches the `else` branch and throws at `response.result` (src/outputs.ts:133-134), which has no optional chaining.
- A store error without a `source` object is left out. The source throws on it.
- Validators.ValidateBoolean does not model `toString` on arbitrary objects. A cell is missing, text or a boolean.
- Outputs.UploadBulkList does not model aliasing. The source pushes the operation message onto the store's own `messages` array; the model returns a new sequence.

## Findings

| source | as written | input that shows it | evidently intended | confidence | as-written member | corrected member |
|---|---|---|---|---|---|---|
| src/validators.ts:12-17 | The emptiness test looks at the untrimmed input, and the input is trimmed only after the test passes | `"   "` is accepted and returned as `""` | Refuse a path that is blank after trimming, as the comment at line 12 ("non-blanks") says | medium, not executed | Validators.ValidatePath, Validators.ValidatePathAcceptsBlank | Validators.ValidatePathNonBlank |
