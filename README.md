# Breach lookup: prefix search, match building and the client's lookup state

This project models the sensitive-data breach lookup of a breach-checking
web service and its client:

- the SQL repository's `SearchSensitiveMatch`, which finds the breaches whose
  dump holds the searched field, searches each breach's table for the full
  digests that start with the client's digest prefix, and groups the breaches
  under every digest found (`breach_repository.dfy`, with the `LIKE` semantics
  it relies on in `like_pattern.dfy`);
- the service's `SearchSensitive`, which rejects a nil request, passes the
  request's field and hash to the repository, and turns every breach record
  into a `BreachMatch` whose field map marks the searched field `"Match"` and
  every other field `"Can't Match"` (`breach_service.dfy`);
- the client component `SensitiveBreachChecker`: its four state variables,
  the submit handler (split at its `await` into `StartSubmit` and
  `CompleteSubmit`), the close handler, and the placeholder, input-limit and
  severity-label expressions (`sensitive_breach_checker.dfy`).

The database is an oracle (`BreachRepository.Database`): each of the two
queries yields a query error or a sequence of rows, and each row scans into
a value or fails to scan. What PostgreSQL guarantees about those rows —
`LIKE` filtering, `SELECT DISTINCT`, the `= ANY(breach_fields)` filter — is
stated as predicates (`HonorsLike`, `HonorsDistinct`, `HonorsFieldFilter`)
that are hypotheses of the lemmas, never of the operation. The service's
repository is a function parameter, as the Go service holds an interface.

Both Go operations build their results in place with loops; they are methods
proved against specification functions (`MatchesByHash`) or predicates
(`Converts`, `Responds`). The client component is a class whose methods
update its fields; its invariant `Valid()` says that a submit is in flight
exactly while the loading flag is set.

## Model

| member | source | states |
|---|---|---|
| BreachRepository.SearchSensitiveMatch | backend/pkg/repositories/breach_respository.go:26-81 | the loops compute `MatchesByHash` with the `LIKE` pattern `hash+"%"` exactly as the source builds it: metadata query and row scans first, then per-table searches in candidate order, appending each breach under every digest its table returns; every query or scan error aborts with that error and no map |
| BreachRepository.ScanRows | backend/pkg/repositories/breach_respository.go:35-50 | the candidate loop computes `ScanAll`: the values of the rows in order, or the error of the first row that fails to scan |
| BreachRepository.AppendDigests | backend/pkg/repositories/breach_respository.go:70-78 | the loop over one table's rows computes `AddAll` of the scanned digests, or fails with the first scan error |
| BreachRepository.ScanAllFirstError | backend/pkg/repositories/breach_respository.go:35-50 | scanning candidate rows fails with `e` exactly when the first row that fails to scan fails with `e` |
| BreachRepository.ScanAllValues | backend/pkg/repositories/breach_respository.go:35-50 | when every row scans, the candidates are the rows' values, all of them, in row order |
| BreachRepository.SearchFailsWithFirstError | backend/pkg/repositories/breach_respository.go:28-68 | the search fails with `e` exactly when the metadata query or a metadata scan fails with `e`, or the first per-table search to fail fails with `e` |
| BreachRepository.GroupEntries | backend/pkg/repositories/breach_respository.go:54-80 | the grouped map's keys are exactly the digests returned by some table, and each entry lists the breaches that returned it, in loop order, once per returned row |
| BreachRepository.AddAllEntries | backend/pkg/repositories/breach_respository.go:70-78 | appending one breach under its table's digests adds exactly those digests as keys and grows each entry by that breach once per occurrence |
| BreachRepository.GroupedInCandidateOrder | backend/pkg/repositories/breach_respository.go:54-80 | with `SELECT DISTINCT` honoured, a digest is a key exactly when some candidate's table returned it, and its entry is the candidates whose table returned it, each once, in metadata row order |
| BreachRepository.NoCandidatesNoMatches | backend/pkg/repositories/breach_respository.go:54-80 | with no candidate breaches the result is the empty map |
| BreachRepository.KeysSatisfyPattern | backend/pkg/repositories/breach_respository.go:56-77 | with `LIKE` honoured, every digest in the result matches the pattern the tables were searched with |
| BreachRepository.KeysStartWithPrefix | backend/pkg/repositories/breach_respository.go:56-64 | with `LIKE` honoured and the pattern built as written, every digest in the result starts with the requested hash when the hash holds no `%`, `_` or `\` (every hex digest prefix) |
| BreachRepository.UnderscoreHashSearchReturnsOtherDigest | backend/pkg/repositories/breach_respository.go:26-81 | over a database honouring `LIKE` and `DISTINCT` with one candidate whose table holds the digest `a`, the search as written for the hash `_` returns `{a: [b]}`, though `a` does not start with `_`; the escaped search returns the empty map |
| BreachRepository.EscapedKeysStartWithPrefix | backend/pkg/repositories/breach_respository.go:56-64 | with the hash escaped before `%` is appended, every digest in the result starts with the hash, whatever characters it holds |
| BreachRepository.EntriesHoldSearchedField | backend/pkg/repositories/breach_respository.go:28 | with the `ANY(breach_fields)` filter honoured, every breach in the result holds the searched field |
| BreachRepository.ProbePairs | backend/pkg/repositories/breach_respository.go:54-68 | a successful table search pairs every candidate, in order, with the digests its own table returned |
| LikePattern.EscapedPatternMatchesPrefix | backend/pkg/repositories/breach_respository.go:64 | the escaped prefix pattern matches a digest exactly when the digest starts with the client's hash, whatever characters the hash holds |
| LikePattern.LiteralPrefixMatches | backend/pkg/repositories/breach_respository.go:64 | for a hash without wildcard or escape characters, `hash+"%"` matches exactly the strings starting with `hash` |
| LikePattern.PatternUnchangedForLiteralHash | backend/pkg/repositories/breach_respository.go:64 | for such a hash (every hex digest prefix) the escaped pattern equals the pattern as written |
| LikePattern.WildcardHashMatchesEveryKey | backend/pkg/repositories/breach_respository.go:64 | as written, the hash `%` yields a pattern every string matches |
| LikePattern.UnderscoreHashMatchesOtherKeys | backend/pkg/repositories/breach_respository.go:64 | as written, the hash `_` matches the digest `a`, which does not start with `_` |
| BreachService.ToBreachMatch | backend/pkg/services/breach_service.go:59-76 | a match copies ID, name, date, description, severity and link from its record; its field keys are exactly the record's fields; a field is `"Match"` exactly when it is the searched field, else `"Can't Match"` |
| BreachService.ToBreachMatches | backend/pkg/services/breach_service.go:56-79 | one match per breach record, in the records' order, each converted as above |
| BreachService.SearchSensitive | backend/pkg/services/breach_service.go:39-90 | a nil request fails with "invalid request: request is nil" whatever the repository; otherwise the repository is asked with the request's field and hash unchanged, its error is returned unchanged, and on success the response has exactly the repository's digests as keys with each entry converted record by record |
| BreachService.ResponseIsUnique | backend/pkg/services/breach_service.go:52-89 | two responses built from the same repository answer and field are equal: the same answer always yields the same matches |
| BreachService.ConversionIsUnique | backend/pkg/services/breach_service.go:59-76 | the conversion of one record is determined by the record and the searched field |
| BreachService.SearchedFieldIsTheOnlyMatch | backend/pkg/services/breach_service.go:69-76 | when the record holds the searched field, that field and no other is marked `"Match"` |
| BreachService.ResponseKeysStartWithPrefix | backend/pkg/services/breach_service.go:46-55 | served by the SQL repository over a database honouring `LIKE`, every digest in the response starts with the prefix the client sent, when that prefix holds no `%`, `_` or `\` |
| SensitiveBreachChecker.Checker.constructor | frontend/src/components/SensitiveBreachChecker.tsx:17-20 | initial state: type `password`, empty value, no results, not loading |
| SensitiveBreachChecker.Checker.StartSubmit | frontend/src/components/SensitiveBreachChecker.tsx:22-27 | a submit starts exactly when not loading and the form is valid (value present; for an SSN, nine digits); starting sets loading and nothing else; otherwise nothing changes |
| SensitiveBreachChecker.Checker.CompleteSubmit | frontend/src/components/SensitiveBreachChecker.tsx:28-37 | results become the one mock record for the submitted type (`SensitiveDataService`, dated `2023-03-20`, severity high), loading ends, the value is cleared, the type is kept |
| SensitiveBreachChecker.Checker.CloseResults | frontend/src/components/SensitiveBreachChecker.tsx:40-42 | results become empty, the results section is hidden, nothing else changes |
| SensitiveBreachChecker.Checker.SelectType | frontend/src/components/SensitiveBreachChecker.tsx:55 | only the type changes, also while a submit is in flight |
| SensitiveBreachChecker.Checker.EditValue | frontend/src/components/SensitiveBreachChecker.tsx:76-78 | the value becomes whatever the input delivers, of any length, and nothing else changes |
| SensitiveBreachChecker.SubmitLifecycle | frontend/src/components/SensitiveBreachChecker.tsx:22-38 | a second submit while loading does nothing; the result reports the type submitted even if the type changes during the wait; results are then shown and the value cleared |
| SensitiveBreachChecker.CapitalizeShape | frontend/src/components/SensitiveBreachChecker.tsx:122 | capitalising keeps the length and everything after the first character, and upper-cases the first |
| SensitiveBreachChecker.CapitalizeIdempotent | frontend/src/components/SensitiveBreachChecker.tsx:122 | capitalising twice is capitalising once |
| SensitiveBreachChecker.SeverityLabels | frontend/src/components/SensitiveBreachChecker.tsx:122 | the labels are `Low`, `Medium`, `High` |
| SensitiveBreachChecker.SeverityLabelInjective | frontend/src/components/SensitiveBreachChecker.tsx:122 | distinct severities get distinct labels |
| SensitiveBreachChecker.PlaceholderOfEachType | frontend/src/components/SensitiveBreachChecker.tsx:75 | placeholders `Enter Password`, `Enter SSN`, `Enter Other` for the three selectable types |
| SensitiveBreachChecker.SsnPatternFitsMaxLength | frontend/src/components/SensitiveBreachChecker.tsx:78-79 | a value the SSN pattern accepts is exactly nine characters and fits the SSN `maxLength` |

## Findings

| source | as written | input that shows it | evidently intended | confidence | as-written member | corrected member |
|---|---|---|---|---|---|---|
| backend/pkg/repositories/breach_respository.go:64 | the client's hash is concatenated into the `LIKE` pattern unescaped, so `%`, `_` and `\` in it act as wildcards and escapes | hash `%`: the pattern `%%` matches every digest of every candidate table; hash `_` matches digest `a` | only digests that start with the hash are returned (a prefix search) | high for PostgreSQL's default `LIKE` escape; not executed | BreachRepository.UnderscoreHashSearchReturnsOtherDigest | BreachRepository.EscapedKeysStartWithPrefix |

`SearchSensitiveMatch` sends the pattern as the source writes it,
`hash+"%"` (`AsWrittenPattern`). The corrected search is `MatchesByHash` with
`PrefixPattern` (the hash escaped, then `%`); `EscapedKeysStartWithPrefix`
proves it a prefix search for every hash. For every hash without wildcard or
escape characters, which includes every hex digest prefix, the two patterns
are equal (`PatternUnchangedForLiteralHash`), so the two searches differ only
on hashes that contain `%`, `_` or `\`.

## Left out

- SQL text, identifier quoting, connections, contexts and row iteration: the two queries are the `Database` oracle; `LIKE`, `DISTINCT` and the `ANY` filter are hypotheses on it.
- BreachRepository.SearchSensitiveMatch: the source never checks `rows.Err()` after either loop, so an iteration error ends the rows early and goes unreported; the oracle's rows are complete and this is not modelled. Closing rows and the error print are not modelled either: a per-table `rows` is closed by `Next` returning false, and stays open only on the scan-error return at breach_respository.go:75.
- BreachService.SearchSensitive: Go distinguishes an empty `Matches` (a nil slice, encoded as `null`) from a non-empty one; the model has only the empty sequence. Go's random map iteration order is not modelled; the loop picks keys in any order and the result is a map.
- The `models` package is not part of this model: the ID is an integer and every other scalar field a string.
- HTTP handlers (JSON decoding and encoding, status codes, the 30-second timeout), the empty exact-field handler, the commented-out `CheckBreach`, routing and server start-up: I/O or no behaviour.
- Client-side digesting and prefix truncation: no such code exists in the client; the client's submit handler is a mock that sends nothing.
- The `setTimeout` delay and rendering: submit is two steps; only the placeholder, input limits, severity label, disabled flag and results visibility are modelled.
- SensitiveBreachChecker.Capitalize: `toUpperCase` is modelled for ASCII letters only; other characters are left unchanged, where JavaScript applies full Unicode case mapping.
- SensitiveBreachChecker.Checker.EditValue: the browser stops typing past `maxLength` and truncates pastes; the model accepts any value `onChange` delivers and does not model that filtering.
- BreachRepository.KeysStartWithPrefix: holds only for hashes without `%`, `_` or `\`, because the source does not escape the hash; `UnderscoreHashSearchReturnsOtherDigest` shows the other case.
- BreachService.ResponseKeysStartWithPrefix: holds only for hashes without `%`, `_` or `\`, for the same reason.
- Other pages and components, styling and the dark-mode toggle: presentation only.
