# golib helpers in Dafny

This project models the core of `helper.go`, the helper file of the golib Go
library. The model covers:

- the rune-class validators (`ValidateNumeric`, `ValidateAlphabet`, …,
  `ValidateLatinOnly`) and the rune predicates they share;
- `MaskPassword`, which redacts the `password=`, `newPassword=` and
  `rePassword=` fields of an `&`-separated form body;
- the small helpers `StringArrayReplace`, `ValidateMaxInput`,
  `StringInSlice`, `GetProtocol` and `MergeMaps`;
- the disposable-domain check (`IsDisabledEmail`, `IsDisabledDomain`) over
  the package-wide `collection`, which is loaded once;
- the deterministic part of `IdentifyPanic`, which picks the frame a panic
  came from, describes it, turns it into a repository link and builds the
  alert and the returned message.

A Go string is a sequence of runes here (`string`, that is `seq<char>`).
Where Go counts bytes (`len` in `ValidateMaxInput`), `Utf8Len` gives the
length of the UTF-8 encoding.

Modules:

- `StringOps` models the functions of Go's `strings` package that the
  helpers call: `Index`, `Contains`, `HasPrefix`, `Split`, `Replace(…, -1)`,
  `ToLower` and `TrimSpace`. It also holds the model's own `Join`, which
  `MaskedText` uses to state what `MaskPassword` builds with `+`, and
  `IntToString`, the decimal rendering that `fmt.Sprintf`'s `%v` and `%d`
  give an int line number.
- `CharClass` holds the rune predicates and the validators. Each validator
  is a method with the source's loop and counters, proved equal to a
  declarative predicate.
- `Masking` holds `MaskPassword`. The loop is proved to compute `MaskedText`.
  Lemmas show that the token structure is kept, what each token becomes, and
  that masking is idempotent.
- `Helpers` holds the small helpers.
- `Domains` holds the `Collection` class. Its `sync.Once` is a `loaded` flag.
  The list `DisposableDomains` is the constructor's parameter.
- `PanicSource` holds `IdentifyPanic`. The stack is an input: the list of
  frames `runtime.FuncForPC` resolved, with `None` where it returned nil. So
  are `SERVER_ENV`, `PROJECT_NAME` and the `pc:%x` rendering of the program
  counters. The alert that would go to `SendNotification` is returned.

Behaviour that follows the code as written:

- `ValidateLatinOnly("")` is true, because its final test ends in
  `allowed >= 0` (see Findings).
- `ValidateAlphanumericWithSpace(s, true)` also demands a space.
- When the project signature occurs at an index greater than zero in the
  file path but not at an index greater than zero in the function name, the
  link is the path suffix after the signature (or the plain source when that
  suffix is empty, helper.go:411-413), not a URL.
- A signature at index 0, including the empty signature when `PROJECT_NAME`
  is unset, does not count as found.
- `collection.err` is never assigned, so `IsDisabledDomain` never takes its
  error branch.
- `StringArrayReplace` reads `listReplace[i]` only when `listFind[i]` occurs
  in the string so far. A `listReplace` shorter than `listFind` is therefore
  harmless unless a find string past its end occurs; then Go panics with an
  index out of range, which the model returns as `None`. An empty find string
  always occurs, so one past the end of `listReplace` always panics.

## Model

| member | source | states |
|---|---|---|
| CharClass.RuneClassesPartitionPrintable | helper.go:452-471 | a printable ASCII rune (32..126) is in exactly one of upper case, lower case, digit and allowed symbol; no other rune is in any of them |
| CharClass.ValidateNumeric | helper.go:134-149 | true iff the string is non-empty and every rune is an ASCII digit |
| CharClass.ValidateAlphabet | helper.go:152-168 | true iff the string is non-empty and every rune is an ASCII letter |
| CharClass.ValidateAlphabetWithSpace | helper.go:171-189 | true iff the string is non-empty and every rune is an ASCII letter or a space |
| CharClass.ValidateAlphanumeric | helper.go:192-215 | true iff every rune is a letter or a digit and, with `must`, a letter and a digit both occur; without `must`, the string is non-empty |
| CharClass.ValidateAlphanumericWithSpace | helper.go:218-243 | true iff every rune is a letter, a digit or a space and, with `must`, a letter, a digit and a space all occur; without `must`, the string is non-empty |
| CharClass.ValidateLatinOnly | helper.go:474-495 | true iff every rune is printable ASCII; the empty string passes |
| CharClass.ValidateLatinText | helper.go:474-495 | the corrected check: true iff the string is non-empty and every rune is printable ASCII |
| CharClass.EmptyPassesOnlyLatinOnly | helper.go:134-243 | the empty string passes `ValidateLatinOnly` as written and fails every other validator and the corrected check |
| CharClass.LatinTextCoversOtherValidators | helper.go:134-243 | the corrected check still accepts every string any other validator accepts |
| CharClass.LatinOnlyIsPrintableAscii | helper.go:468-495 | the Latin-only strings are exactly the strings of runes 32..126 |
| CharClass.ValidatorsNest | helper.go:134-243 | digits-only and letters-only strings are alphanumeric; the `must` forms imply the plain forms; alphanumeric strings are Latin-only |
| CharClass.MustNeedsEveryClass | helper.go:210-243 | digits alone never pass the `must` alphanumeric check; a string passing the `must` check with space is not plain alphanumeric |
| Masking.MaskPassword | helper.go:420-448 | the result is the `&`-join of the input's `&`-tokens, each masked |
| Masking.MaskedTokenFacts | helper.go:426-439 | each replacement token carries its own key and none of the other two, and none holds an `&` |
| Masking.MaskTokenCases | helper.go:426-439 | a token with `password=` becomes `password=xxxxx`; else one with `newPassword=` becomes `newPassword=xxxxx`; else one with `rePassword=` becomes `rePassword=xxxxx`; any other token is kept |
| Masking.MaskTokenIdempotent | helper.go:426-439 | masking a token twice is masking it once, and the masked token holds no `&` |
| Masking.MaskedTextTokens | helper.go:420-448 | the masked text splits on `&` into exactly the masked input tokens, as many as the input has |
| Masking.MaskedTextAt | helper.go:420-448 | the i-th token of the output is the i-th input token masked according to the first key it contains |
| Masking.MaskedTextUnchanged | helper.go:420-448 | a text none of whose tokens carries a key comes back unchanged |
| Masking.MaskedTextIdempotent | helper.go:420-448 | masking the masked text changes nothing |
| Helpers.GetProtocol | helper.go:314-320 | the scheme is `https://` exactly with TLS and `http://` exactly without; both start with `http` and end with `://` |
| Helpers.ValidateMaxInput | helper.go:124-131 | an error exactly when the UTF-8 byte length exceeds the limit, with the message ` value is too long` |
| Helpers.ValidateMaxInputRunes | helper.go:124-131 | for ASCII input the check is on the rune count; input with more runes than the limit always fails |
| Helpers.StringInSlice | helper.go:289-310 | true iff some element equals the string, exactly or after lower-casing both sides when the first optional flag is false |
| Helpers.ExactMatchIsCaseInsensitiveMatch | helper.go:289-310 | an exact match is also a case-insensitive match |
| Helpers.StringArrayReplace | helper.go:114-121 | the result is the input after each find/replace pair is applied in order, replacing every occurrence; it is the index-out-of-range panic (`None`) exactly when a find string without a replacement occurs in the string so far |
| Helpers.NoneStaysNone | helper.go:115-119 | once a step has panicked, every longer run has too |
| Helpers.ReplacedUpToTotal | helper.go:114-121 | with a replacement for every find string, no step panics |
| Helpers.EmptyFindWithoutReplacementPanics | helper.go:116-117 | an empty find string past the end of the replacements always panics, since it occurs in every string |
| Helpers.MissingReplacementMattersOnlyOnMatch | helper.go:116-117 | a find string that does not occur needs no replacement (`"abc"`, `["x"]`, `[]` gives `"abc"`), while one that occurs panics (`["b"]`) |
| Helpers.ReplaceStepIsReplaceAll | helper.go:116-118 | once a replacement is at hand, the `strings.Contains` guard changes nothing: the step is a plain replace-all |
| Helpers.ReplacedUpToIdentity | helper.go:114-121 | pairs that replace a string by itself leave the input unchanged, and nothing panics |
| Helpers.ReplacedUpToKeepsLength | helper.go:114-121 | pairs whose non-empty find and replacement have the same length keep the input's length, and nothing panics |
| Helpers.MergeMaps | helper.go:512-523 | the keys are the union of both maps' keys; values of the second map win, the first map supplies the rest |
| Domains.AfterFirstAt | helper.go:527-531 | no domain exactly when the address has no `@`; otherwise the text after the first `@` |
| Domains.Collection.LoadDomainList | helper.go:549-554 | the loaded set is exactly the set of listed domains |
| Domains.Collection.HasValidDomain | helper.go:544-547 | once loaded, an item is found iff it is in the domain list |
| Domains.Collection.LoadOnce | helper.go:536 | after the call the set is loaded and valid; a second call changes nothing |
| Domains.Collection.IsDisabledDomain | helper.go:535-542 | true iff the trimmed, lower-cased domain is a listed domain; the collection is loaded afterwards |
| Domains.Collection.IsDisabledEmail | helper.go:526-532 | false without an `@`, leaving the collection untouched (no load); otherwise whether the text after the first `@` is a disabled domain, with the collection loaded |
| Domains.NormalizeIdempotent | helper.go:540-541 | trimming and lower-casing twice is doing it once |
| Domains.DomainListedNormalized | helper.go:535-542 | a domain and its trimmed, lower-cased form are listed alike |
| Domains.EmailListedSplitsAtFirstAt | helper.go:526-532 | `local@domain` with no `@` in `local` is judged by `domain`, which may contain more `@`s |
| Domains.EmailWithoutAtNotListed | helper.go:527-530 | an address without `@` is never disabled |
| PanicSource.LocateOrigin | helper.go:372-383 | the scan ends on the frame `Origin` describes |
| PanicSource.OriginIsFirstAppFrame | helper.go:373-383 | the reported frame is the first resolved frame outside the runtime |
| PanicSource.OriginFallsBackToLastFrame | helper.go:373-383 | with no resolved frame outside the runtime, the last resolved frame is reported, or the empty frame if none resolved |
| PanicSource.OriginOutsideRuntime | helper.go:373-383 | if some resolved frame lies outside the runtime, the reported frame does too |
| PanicSource.FormatSource | helper.go:385-393 | the source is `name:line`, else `file:line`, else the program-counter rendering |
| PanicSource.SourceOfNamedFrame | helper.go:387-388 | for a named frame the source starts with `name:` and the rest are digits that read back as the line |
| PanicSource.Branch | helper.go:395-398 | production links to `master`; any other environment links to itself |
| PanicSource.DeployBranch | helper.go:395-398 | the branch is `Branch(SERVER_ENV)` |
| PanicSource.FileLink | helper.go:400-404 | the link so far is `FileSuffix`, the file path after the signature when it occurs at an index above zero |
| PanicSource.FileSuffixShape | helper.go:400-404 | when the first occurrence of the signature is at an index above zero, the file is the text before it, the signature and the suffix; otherwise the suffix is empty |
| PanicSource.BuildLink | helper.go:395-409 | the link before its fallback is the repository URL when the signature occurs in the function name at an index above zero, else the file suffix |
| PanicSource.RepositoryOfName | helper.go:406-408 | the repository in the URL is a prefix of the function name ending with the signature |
| PanicSource.RepositoryLink | helper.go:406-413 | when the signature occurs in the function name at an index above zero the fallback is not taken, and the link starts with `https://<repo>/blob/<branch>` |
| PanicSource.EmptySignatureGivesSource | helper.go:400-413 | with an empty signature the link is the plain source |
| PanicSource.AbsentSignatureGivesSource | helper.go:400-413 | a signature in neither file nor name gives the plain source |
| PanicSource.ProductionLinksAsMaster | helper.go:395-398 | `production` and `master` give the same link |
| PanicSource.IdentifyPanic | helper.go:367-417 | returns `panic: <rec>`; the alert is titled `Panic Detected`, carries the context and the error, and its body quotes the link built for the origin frame |
| StringOps.IndexOfFirst | helper.go:401-407 | `strings.Index` gives the first occurrence, and -1 exactly when there is none |
| StringOps.ContainsIndexOf | helper.go:116 | `strings.Contains` holds exactly when `strings.Index` is above -1 |
| StringOps.IndexOfEmpty | helper.go:400-407 | the empty string is found at index 0 |
| StringOps.Split | helper.go:421 | `strings.Split` gives at least one piece, and no piece holds the separator |
| StringOps.JoinSplit | helper.go:421-446 | joining the pieces of a split gives back the string |
| StringOps.SplitJoin | helper.go:421-446 | splitting a join of separator-free pieces gives back the pieces |
| StringOps.ReplaceSelf | helper.go:117 | replacing a pattern by itself changes nothing |
| StringOps.ReplaceAbsent | helper.go:116-117 | replacing an absent non-empty pattern changes nothing |
| StringOps.ReplaceKeepsLength | helper.go:117 | replacing by a replacement of the same length keeps the length |
| StringOps.TrimSpaceTrimmed | helper.go:540 | `strings.TrimSpace` leaves no white space at either end |
| StringOps.TrimSpaceOfTrimmed | helper.go:540 | trimming a trimmed string changes nothing |
| StringOps.ToLowerIdempotent | helper.go:541 | lower-casing twice is lower-casing once |
| StringOps.NatToStringRoundTrip | helper.go:388 | the decimal rendering of a line number reads back as that number |
| StringOps.Utf8LenBounds | helper.go:125 | a string's UTF-8 length is between its rune count and four times it, and equals the rune count for ASCII |

## Findings

| source | as written | input that shows it | evidently intended | confidence | as-written member | corrected member |
|---|---|---|---|---|---|---|
| helper.go:494 | `return uppercase >= 1 \|\| lowercase >= 1 \|\| num >= 1 \|\| allowed >= 0` always holds once no bad rune is seen | `ValidateLatinOnly("")` is true, while every other validator rejects `""` | `allowed >= 1`, as for every other counter, so the empty string is rejected | medium, not executed | CharClass.EmptyPassesOnlyLatinOnly | CharClass.ValidateLatinText |

## Left out

- The regular-expression validators `ValidateEmail`, `ValidateURL`, `ValidatePhoneNumber` and `ValidatePhoneAreaNumber`, and `CamelToLowerCase`: they delegate to Go's `regexp` engine, which is not part of this model.
- `GenerateRandomID`, `RandomString` and `RandomNumber`: they depend on a random source.
- `MarshalConvertManyPayload`, `MarshalConvertOnePayload` and `MaskJSONPassword`: JSON and JSON:API encoding is not part of this model.
- `GetHostURL` and `GetSelfLink`: they read an `*http.Request`.
- `tracer/http_middleware.go` and `http_response_test.go` are not part of this model.
- IdentifyPanic: `runtime.Callers` and `runtime.FuncForPC` are replaced by the list of resolved frames, and the 16-entry bound on that list is not enforced.
- IdentifyPanic: `os.Getenv` becomes the `serverEnv` and `projectName` parameters.
- IdentifyPanic: `fmt.Sprintf("pc:%x", pc)` becomes the `pcDump` parameter.
- IdentifyPanic: the panic value, as `%v` prints it, is the `rec` parameter.
- IdentifyPanic: `SendNotification` is not called; the alert it would receive is returned instead.
- IdentifyPanic: the branch, the file suffix and the link are built by three methods, `DeployBranch`, `FileLink` and `BuildLink`, instead of one function body.
- Domains.Collection: `sync.Once` is modelled as a `loaded` flag, and concurrent callers are not modelled.
- Domains.Collection: the package-wide `domains` variable becomes an object passed by the caller, and the domain list `DisposableDomains` is the constructor's parameter.
- StringOps.ToLower: only ASCII letters are lower-cased, whereas Go's `strings.ToLower` maps all Unicode letters.
- StringOps: strings are sequences of runes, so invalid UTF-8 byte sequences are not modelled.
- StringOps.IntToString: the line is an unbounded integer, so Go's `int` width is not modelled.
- Helpers.MergeMaps: the values are of one type `V` instead of `interface{}`. The fresh map is a value, so aliasing is not modelled.
