# housing-policy-collector, modelled in Dafny

housing-policy-collector gathers public housing announcements from the SH (Seoul Housing & Communities Corporation) notice board. It runs them through a parser and an eligibility matcher, stores them in SQLite, and sends notifications for them. An acceptance evaluator decides whether five consecutive batch runs meet the proof-of-concept targets. This project models the core of the repository and proves what that code promises:

- `matcher.dfy` (module `Matcher`) is the eligibility grade decision. It is a precedence chain: a legal-violation signal, then an unknown or ambiguous context, then missing region, income or asset data, and otherwise a conservative pass. A final pass enforces the parser's judgement cap. The three explicit-violation regular expressions are written as bounded-window scanners. `ParsedItem` carries exactly the fields the matcher reads.
- `storage.dfy` (module `Storage`) is the SQLite adapter. It is a class whose fields are the tables, each a map from the primary key to the rest of the row. The runtime-metric table is a sequence in write order, because reading it back depends on recency. Every batch save is all or nothing: a failing row statement rolls back every write of the call. Which row statement fails is an input (`failAt`).
- `acceptance.dfy` (module `Acceptance`) is the acceptance evaluator. Counts are naturals and ratios are exact reals.
- `collector.dfy` (module `Collector`) is the SH board row extraction. Every regular expression is an explicit leftmost scanner, and `parseShBoard` keeps its loop with `break` and `continue`.
- `pipeline.dfy` (module `Pipeline`) covers the pure parts of the entry point:
  - profile-field validation, over an already-decoded JSON object;
  - the choice between `--profile-json` and `--profile-file`;
  - the profile id;
  - the two runtime counts of a run.
- `prtitle.dfy` (module `PrTitle`) is the `scope-governance` rule for pull-request titles.
- `text.dfy` (module `Text`) and `wrappers.dfy` (module `Wrappers`) hold shared helpers:
  - JavaScript's white-space set, which `\s` and `String.prototype.trim` share;
  - `trim` itself;
  - ASCII `\d`;
  - literal matching;
  - `Option` and `Result`.

Grades are `ConfirmedEligible` (확정 가능), `Likely` (유력), `ReviewNeeded` (검토필요) and `Disqualified` (부적합).

## Model

| member | source | states |
|---|---|---|
| Matcher.EvaluateInitialGrade | src/matcher/index.ts:54-80 | a single reason; never 확정 가능; 부적합 exactly when the legal signal holds; 유력 exactly when no legal signal, no unknown/ambiguous context and no missing data |
| Matcher.EnforceParserJudgementCap | src/matcher/index.ts:82-98 | under a 검토필요 cap the grade is neither 유력 nor 확정 가능; the old reasons are a prefix of the new ones, with at most one added; the grade is kept or becomes 검토필요; 부적합 and 검토필요 decisions, and everything under a 확정 가능 cap, pass unchanged |
| Matcher.MatchItem | src/matcher/index.ts:101-109 | the parsed item is carried unchanged; the grade is never 확정 가능; a capped item is never 유력; one or two reasons |
| Matcher.Match | src/matcher/index.ts:100-111 | one output per input, in order, each the item's own decision, with the per-item guarantees of `MatchItem` |
| Matcher.MatchesExplicitViolation | src/matcher/index.ts:16-20 | some position of the text starts a match of one of the three explicit-violation patterns |
| Matcher.HasMissingRequirementData | src/matcher/index.ts:22-26 | the region, income or asset requirement is null; the household requirement is not consulted |
| Matcher.HasUnknownOrAmbiguousContext | src/matcher/index.ts:28-40 | the application type is UNKNOWN, an ambiguous fragment is recorded, or a failure reason starts with `AMBIGUOUS_RULE_TEXT` |
| Matcher.LegalContext | src/matcher/index.ts:43-45 | empty when both texts are null; the one present text alone when only one is; the household text, one space and the rules text when both are present |
| Matcher.HasLegalDisqualifyingSignal | src/matcher/index.ts:42-52 | a signal needs a household text or a rules text to be present |
| Matcher.LegalSignalDisqualifies | src/matcher/index.ts:42-97 | a legal signal gives 부적합 with only the legal-violation reason, whatever else holds, and the cap pass keeps it |
| Matcher.NoLegalContextNoSignal | src/matcher/index.ts:43-49 | with neither household text nor rules text there is no legal signal |
| Matcher.UnknownOrAmbiguousNeedsReview | src/matcher/index.ts:28-67 | without a legal signal, an UNKNOWN type, an ambiguous fragment or an `AMBIGUOUS_RULE_TEXT` failure reason gives 검토필요 with only the unknown/ambiguity reason |
| Matcher.MissingDataNeedsReview | src/matcher/index.ts:22-74 | failing the earlier tests, a null region, income or asset requirement gives 검토필요 with only the missing-data reason |
| Matcher.ConservativePass | src/matcher/index.ts:76-97 | failing every earlier test, the initial decision is 유력 with the conservative-pass reason; it stays so under a 확정 가능 cap and becomes 검토필요 with the cap reason appended under a 검토필요 cap |
| Matcher.CapPassExactly | src/matcher/index.ts:82-98 | the cap pass downgrades exactly the 유력 and 확정 가능 decisions of a 검토필요-capped item, appending the cap reason, and returns every other decision unchanged |
| Matcher.MatchOutcomes | src/matcher/index.ts:54-98 | every matched item ends in one of exactly five grade/reason combinations |
| Matcher.OwnershipTermMentionsHousing | src/matcher/index.ts:17-19 | every home-ownership term the scanners recognise contains 주택 |
| Matcher.ViolationMentionsHousing | src/matcher/index.ts:16-20 | a text that matches an explicit-violation pattern contains 주택 |
| Matcher.ApplicantViolationIsDetected | src/matcher/index.ts:16-20 | an applicant-owns-a-home sentence matches an explicit-violation pattern |
| Matcher.DescriptiveExclusionIsNotDetected | src/matcher/index.ts:16-20 | `유주택 세대 제외`, which describes an exclusion, matches no pattern |
| Storage.ApplyRowsFrame | src/storage/sqlite-adapter.ts:126-152 | the table after the batch holds the old ids plus the batch's ids; ids outside the batch are untouched |
| Storage.SaveCounts | src/storage/sqlite-adapter.ts:107-152 | created + updated + skipped equals the number of rows |
| Storage.RowCases | src/storage/sqlite-adapter.ts:132-152 | an absent id is inserted with its hash and ref and counted created; an equal hash leaves the stored row (ref included) untouched and counts skipped; a different hash overwrites hash and ref and counts updated |
| Storage.SavedHashesMatch | src/storage/sqlite-adapter.ts:126-152 | when equal ids in a batch carry equal hashes, every row's id is stored with the row's hash afterwards |
| Storage.StoredRowsAreSkipped | src/storage/sqlite-adapter.ts:142-145 | rows whose hashes are already stored leave the table unchanged and are all counted skipped |
| Storage.ResaveSkipsEverything | src/storage/sqlite-adapter.ts:106-160 | saving the same consistent batch a second time changes nothing and skips every row |
| Storage.SQLiteStorageAdapter.SaveByAnnouncement | src/storage/sqlite-adapter.ts:106-161 | commits the row-by-row table and counts, or on a failing row leaves the table as it was and raises that row's error |
| Storage.GateRowsFrame | src/storage/sqlite-adapter.ts:192-207 | afterwards every old key and every batch key is stored; rows that existed are untouched (`DO NOTHING`) |
| Storage.GateResult | src/storage/sqlite-adapter.ts:176-207 | created + skipped equals the number of keys; there is one created key per created row |
| Storage.UnstoredKeys | src/storage/sqlite-adapter.ts:172 | never longer than the input; exactly the input keys that are not stored |
| Storage.UnstoredKeysConcat | src/storage/sqlite-adapter.ts:172 | filtering a concatenation is concatenating the filtered parts, so the input order is kept |
| Storage.FirstOccurrences | src/storage/sqlite-adapter.ts:198-205 | no duplicates, the same members as its input |
| Storage.CreatedKeysAreFirstUnstored | src/storage/sqlite-adapter.ts:192-207 | `createdKeys` lists, in input order, the first occurrence of every key that was not stored before the call |
| Storage.CreatedKeysAreNewAndDistinct | src/storage/sqlite-adapter.ts:192-207 | `createdKeys` has no duplicates and holds exactly the batch keys that were not stored before |
| Storage.RegatingCreatesNothing | src/storage/sqlite-adapter.ts:189-207 | sending the same keys through the gate again creates nothing and changes nothing |
| Storage.SQLiteStorageAdapter.SaveNotificationKeys | src/storage/sqlite-adapter.ts:175-215 | commits the gated table and the result, or on a failing row leaves the table as it was and raises that row's error |
| Storage.SQLiteStorageAdapter.FilterUnstoredNotificationKeys | src/storage/sqlite-adapter.ts:163-173 | reads only; `[]` for `[]`; never longer than its input; exactly the input keys without a delivery row |
| Storage.SQLiteStorageAdapter.SaveBatchRunHistory | src/storage/sqlite-adapter.ts:217-254 | the record replaces any row with the same run id; nothing else changes; every history row stays stored under its own run id |
| Storage.WithoutRun | src/storage/sqlite-adapter.ts:263-276 | drops exactly the records with the given run id and keeps run ids unique |
| Storage.WithoutRunConcat | src/storage/sqlite-adapter.ts:256-278 | dropping a run from a log split in two drops it from each part, so the other runs keep their write order |
| Storage.SQLiteStorageAdapter.SaveAcceptanceRuntimeMetrics | src/storage/sqlite-adapter.ts:256-278 | the record replaces any record with the same run id and becomes the newest; run ids stay unique |
| Storage.Newest | src/storage/sqlite-adapter.ts:287-299 | min(limit, size) records, newest first |
| Storage.SQLiteStorageAdapter.GetRecentAcceptanceRuntimeMetrics | src/storage/sqlite-adapter.ts:280-300 | `[]` when limit ≤ 0, otherwise min(limit, size) records, newest first |
| Storage.UpsertNoticesFrame | src/storage/sqlite-adapter.ts:307-367 | the notice ids afterwards are the old ones plus the batch's; other notices are untouched |
| Storage.LastNoticeWins | src/storage/sqlite-adapter.ts:307-367 | the last record of the batch for an id is the stored notice |
| Storage.SQLiteStorageAdapter.SaveNotices | src/storage/sqlite-adapter.ts:302-373 | an empty batch changes nothing; otherwise commits the upserts or, on a failing row, leaves the table as it was and raises that row's error; every notice stays stored under its own announcement id |
| Storage.UpsertEligibilityFrame | src/storage/sqlite-adapter.ts:380-405 | the keys afterwards are the old ones plus the batch's (announcement, profile, rule version) keys; other rows are untouched |
| Storage.LastEligibilityWins | src/storage/sqlite-adapter.ts:380-405 | the last record of the batch for a key decides its stored grade and reasons |
| Storage.SQLiteStorageAdapter.SaveEligibilityResults | src/storage/sqlite-adapter.ts:375-411 | an empty batch changes nothing; otherwise commits the upserts or, on a failing row, leaves the table as it was and raises that row's error |
| Storage.SQLiteStorageAdapter.constructor | src/storage/sqlite-adapter.ts:28-104 | a new database has every table empty |
| Acceptance.ToRate | src/metrics/acceptance.ts:34-40 | 0 when the denominator is not positive; otherwise the rate times the denominator is the numerator; within [0, 1] when 0 ≤ n ≤ d |
| Acceptance.EvaluateAcceptanceBatches | src/metrics/acceptance.ts:59-131 | not five samples: failed, with exactly one failure and no snapshots; five samples: snapshot i is computed from sample i and the failures are the per-run failures in run order; pass exactly when there is no failure |
| Acceptance.SampleFailuresShape | src/metrics/acceptance.ts:84-118 | at most three failures per run, all naming that run, in the order collection, extraction, review; none exactly when the run meets all thresholds |
| Acceptance.NoFailuresIffAllMeetThresholds | src/metrics/acceptance.ts:84-131 | no failure exactly when every run meets every threshold |
| Acceptance.FailuresNameTheirRun | src/metrics/acceptance.ts:76-118 | at most three failures per run; every failure is a metric failure of one of the runs |
| Acceptance.ThresholdsOnCounts | src/metrics/acceptance.ts:77-108 | each threshold test is the count inequality it stands for (100·collected < 95·target, 100·complete < 98·collected, 100·review > 15·collected), with the zero-denominator cases |
| Acceptance.BoundaryRunsPass | src/metrics/acceptance.ts:84-108 | runs exactly at 95 %, 98 % and 15 % pass: the thresholds are inclusive |
| Acceptance.PastBoundaryRunsFail | src/metrics/acceptance.ts:84-108 | one count past each boundary fails that metric |
| Acceptance.WeakRunFailsEveryMetric | src/metrics/acceptance.ts:76-118 | a run of 47/50 collected, 45 complete and 8 review fails all three metrics, in order, naming its run |
| Collector.StripHtml | src/collector/index.ts:46-53 | the result has no leading or trailing white space, no run of two white-space characters, and only plain spaces as white space |
| Collector.CollapseWhitespace | src/collector/index.ts:51 | the result has no two adjacent white-space characters, and its only white space is the plain space |
| Collector.CollapseKeepsContent | src/collector/index.ts:51 | the characters that are not white space are kept, in order: only the runs of white space change |
| Collector.CollapseKeepsSingleSpaced | src/collector/index.ts:51 | a text already single-spaced with plain spaces is left unchanged |
| Collector.TrimKeepsContent | src/collector/index.ts:52 | trimming keeps every character that is not white space, in order |
| Collector.StripHtmlKeepsContent | src/collector/index.ts:46-53 | after tags and the two entities are rewritten, every character that is not white space survives, in order |
| Collector.StripHtmlKeepsPlainText | src/collector/index.ts:46-53 | text without `<` or `&`, single-spaced with plain spaces, is only trimmed |
| Collector.VisibleWordsAreKept | src/collector/index.ts:46-53 | words of printable ASCII or Hangul, without `<` or `&`, one plain space apart, come back unchanged |
| Collector.FixtureTitleIsKept | tests/collector.test.ts:24-43 | the fixture title `2026-001 1차 행복주택 입주자 모집` comes back unchanged |
| Collector.TagBecomesSpace | src/collector/index.ts:46-53 | `a<br>b` becomes `a b`: a tag is replaced by a space |
| Collector.AmpIsDecoded | src/collector/index.ts:46-53 | `x&amp;y` becomes `x&y` |
| Collector.NbspBecomesSpace | src/collector/index.ts:46-53 | `x&nbsp;y` becomes `x y` |
| Collector.ExtractNoticeNumber | src/collector/index.ts:55-63 | `UNKNOWN` exactly when no year, separator and 1-4 digit number occurs; otherwise the leftmost match as `YYYY-N` |
| Collector.NoticeMatchShape | src/collector/index.ts:56-62 | a match is four digits, a dash and one to four digits, never `UNKNOWN` |
| Collector.ExtractRecruitRound | src/collector/index.ts:65-68 | a non-empty digit string; `1` when no round occurs; otherwise the digits of the leftmost `<digits> 차` |
| Collector.BuildAnnouncementId | src/collector/index.ts:70-74 | `SH-`, the notice number, `-` and the recruit round |
| Collector.AnnouncementIdDetermined | src/collector/index.ts:70-74 | two texts with the same id have the same notice number and the same recruit round |
| Collector.NormalizeDetailUrl | src/collector/index.ts:76-86 | the board URL for an empty href or an href that does not resolve; otherwise the resolved URL |
| Collector.ParsePostedAt | src/collector/index.ts:88-91 | `""` exactly when no `dddd[.-]dd[.-]dd` occurs; otherwise the leftmost match with every dot made a dash |
| Collector.DotsToDashes | src/collector/index.ts:90 | same length; every `.` becomes `-`, every other character is kept |
| Collector.RowBlocks | src/collector/index.ts:94 | every lazy `<tr…</tr>` match, left to right, without overlap |
| Collector.RowBlocksShape | src/collector/index.ts:94 | every row block starts with `<tr` (any case), ends with `</tr>` and holds no earlier `</tr>` after its opening |
| Collector.FindTitleLeftmost | src/collector/index.ts:101 | no title exactly when the pattern matches at no position; otherwise the match at the leftmost position where it matches |
| Collector.RowItemCases | src/collector/index.ts:102-120 | a row gives no item exactly when it has no title link or its stripped title is blank; otherwise the id is `SH-<notice>-<round>` of title and row text, and the detail URL and posted date are as stated |
| Collector.RowItemWellFormed | src/collector/index.ts:107-120 | every item has a non-empty, trimmed, single-spaced title and a posted date that is empty or `YYYY-MM-DD` |
| Collector.ParseShBoard | src/collector/index.ts:93-124 | the items are the first ones of the qualifying rows in board order, as many as min(limit, qualifying rows), none for a limit ≤ 0 |
| Collector.PresentItemsPrefix | src/collector/index.ts:97-121 | the items yielded by a prefix of the rows are a prefix of the items yielded by all rows, which is why stopping early keeps board order |
| Collector.BoardItemsWellFormed | src/collector/index.ts:97-121 | every board item is well formed and comes from one of the rows |
| Collector.NoticeNumberExample | src/collector/index.ts:55-63 | `2026-001 1차…` gives notice number `2026-001` |
| Collector.RecruitRoundExample | src/collector/index.ts:65-68 | `2026-001 1차…` gives round `1` |
| Collector.PostedAtExample | src/collector/index.ts:88-91 | `2026.03.01…` gives `2026-03-01` |
| Text.Trim | src/main.ts:58 | the result is trimmed; empty exactly for a blank input; an already trimmed input is kept; the characters left are the input's, in order, after its leading white space |
| Text.TrimIdempotent | src/main.ts:58 | trimming twice is trimming once |
| Pipeline.ParseNonEmptyProfileField | src/main.ts:48-66 | succeeds exactly for a non-blank string, with its trimmed (non-empty) value; otherwise an error naming the field |
| Pipeline.ParseUserProfile | src/main.ts:68-80 | succeeds exactly when all four fields are valid, with their trimmed values; otherwise reports the first invalid field in the order region, incomeBand, assetBand, householdType |
| Pipeline.AllBlankProfileReportsRegion | src/main.ts:68-80 | an all-blank profile is rejected for its region |
| Pipeline.IndexOf | src/main.ts:85-90 | -1 exactly when absent; otherwise the first index holding the value |
| Pipeline.ResolveProfileSource | src/main.ts:82-98 | inline JSON exactly when `--profile-json` occurs and is not the last argument, with the argument after its first occurrence; otherwise a file exactly when the same holds for `--profile-file`; otherwise no profile |
| Pipeline.ProfileJsonTakesPrecedence | src/main.ts:85-88 | `--profile-json` with a following argument wins over `--profile-file`, wherever the two stand |
| Pipeline.TrailingFlagIsIgnored | src/main.ts:86-97 | a flag absent elsewhere and given last, not right after the other flag, changes nothing: the choice is the one made without it |
| Pipeline.TrailingFlagAsValue | src/main.ts:86-97 | in `--profile-file --profile-json` the trailing flag is the file path |
| Pipeline.NoFlagNoProfile | src/main.ts:82-98 | with neither flag there is no profile |
| Pipeline.ProfileId | src/main.ts:112-115 | `anonymous-profile` without a profile; a real profile's id, and only such an id, holds a bar |
| Pipeline.ProfileIdIsNeverAnonymous | src/main.ts:112-115 | no profile's id is `anonymous-profile` |
| Pipeline.ProfileIdIsInjective | src/main.ts:112-115 | profiles whose first three fields hold no bar character have distinct ids |
| Pipeline.HasRequiredFieldsComplete | src/main.ts:34-46 | complete exactly when the matcher finds no missing data and the household requirement is present too |
| Pipeline.CompleteItemsHaveNoMissingData | src/main.ts:34-46 | an item with all four requirement fields never takes the matcher's missing-data branch |
| Pipeline.RequiredFieldsCompleteCount | src/main.ts:138-140 | at most the number of items; equal to it exactly when every item is complete; 0 exactly when none is |
| Pipeline.ReviewNeededCount | src/main.ts:141-143 | at most the number of items; equal to it exactly when every item is 검토필요; 0 exactly when none is |
| Pipeline.CappedRunIsAllReview | src/main.ts:141-143 | when every item is capped at 검토필요 and has no legal signal, every matched item is counted as review-needed |
| PrTitle.ScopeGovernance | commitlint.pr-title.config.cjs:6-36 | valid exactly for a non-blank string scope that is an issue reference or a listed domain scope; the empty-scope message for a missing or blank scope; the accepted and rejected messages otherwise |
| PrTitle.AcceptedScopesAreNotBlank | commitlint.pr-title.config.cjs:7-30 | no issue reference and no domain scope is blank |
| PrTitle.IssueReferencePasses | commitlint.pr-title.config.cjs:11-30 | `#12` passes |
| PrTitle.MalformedIssueReferencesFail | commitlint.pr-title.config.cjs:11-35 | `#`, `#12a` and ` #12` are rejected |
| PrTitle.DomainScopePasses | commitlint.pr-title.config.cjs:12-30 | `parser` passes |
| PrTitle.OtherScopesFail | commitlint.pr-title.config.cjs:25-35 | ` parser`, `Parser` and `release` are rejected: membership is tested on the untrimmed scope |

## Left out

- `collect()` is left out, with its fetch, timeout, abort signal and HTTP status handling (src/collector/index.ts:126-189). It is network I/O.
- `new URL(href, board)` is a foreign library. It is the parameter `resolveUrl` of `Collector.NormalizeDetailUrl` and `Collector.ParseShBoard`: `None` stands for a throw.
- SQLite itself is left out: `PRAGMA`, DDL, prepared statements and the `datetime('now')` columns. Tables are maps. A statement failure is the `failAt` input. A failing `BEGIN`, `COMMIT` or `ROLLBACK` is not modelled.
- Storage.SQLiteStorageAdapter.GetRecentAcceptanceRuntimeMetrics: its order is write recency, standing for `datetime(created_at) DESC, rowid DESC`. The upsert is `ON CONFLICT(run_id) DO UPDATE`: it updates the row in place, keeps its rowid and refreshes only `created_at`. `created_at` has a resolution of one second. A run rewritten in the same second as a newer insert ties with it and keeps its old, lower rowid, so it sorts after that insert; the model puts it first. This order within one second is not modelled.
- Storage.SQLiteStorageAdapter.GetRecentAcceptanceRuntimeMetrics takes an integer. The source's `limit` is a JavaScript `number`, and `LIMIT ?` with a fractional value such as `2.5`, or `NaN`, is not modelled.
- Storage.SQLiteStorageAdapter.constructor opens an empty database. Opening an existing file is not modelled.
- `notification_deliveries` is a map from the key to the rest of the row. Its `notified_at` timestamp column is not modelled.
- Pipeline.ParseUserProfile works on the decoded object. `JSON.parse` is not modelled: a field that is missing, `null` or not a string is `NotText`. Reading the file named by `--profile-file` is not modelled either. `Pipeline.ResolveProfileSource` returns the raw argument after the flag; resolving it against the working directory (`resolve()`) is left out.
- `runPipeline`, `main`, `src/batch_main.ts`, `randomUUID` and console logging are orchestration and I/O. Only the profile id and the two counts are modelled.
- Collector.ParseShBoard takes an integer limit. The source's `recentLimit` is a JavaScript `number`, and `collect` passes it through unclamped. A fractional limit such as `1.5` lets two items through. `NaN` disables the limit. Neither is modelled.
- Matcher.TermWithin counts the `{0,30}`, `{0,20}` and `{0,10}` windows of the violation patterns in characters (Unicode scalar values). JavaScript counts UTF-16 code units, so a character outside the Basic Multilingual Plane takes two places of the window there and one here.
- Storage.SQLiteStorageAdapter.SaveBatchRunHistory and Storage.SQLiteStorageAdapter.SaveAcceptanceRuntimeMetrics always succeed. Their single `stmt.run` may throw in the source, and that throw is not modelled. Only a failing row statement inside a batch save is modelled (`failAt`).
- Storage.SQLiteStorageAdapter.FilterUnstoredNotificationKeys and Storage.SQLiteStorageAdapter.GetRecentAcceptanceRuntimeMetrics always succeed. A throwing `findStmt.get` or `stmt.all` is not modelled.
- `formatPercent` and the failure-message text (src/metrics/acceptance.ts:30-57) are float formatting. A failure records its run id, metric and value.
- Acceptance.BoundaryRunsPass: counts are naturals, so a boundary run is stated with integer counts. One fractional count is `47.5` of 50, which the type `number` admits. That run is not covered.
- The stub parser, storage and notifier modules are placeholders, as are the Python files (`src/main.py`, `src/batch_main.py`, `src/*/__init__.py`) and `scripts/close_open_prs.py`. `eslint.config.mjs` is static configuration.
- Several behaviours are exercised only by tests, with no source to model:
  - the parser;
  - content hashing and the storage `save` facade;
  - notifier retries;
  - profile comparison in the matcher;
  - the extra denominator failure some acceptance tests expect.
