# Verified model of the Ninai logic core

This project models, in Dafny 4.11, the parts of the Ninai repository that keep state or transform
text, and proves properties of them that hold for every input, every run or every reachable state.
`dafny verify dfyconfig.toml` checks everything.

## What is modelled

| files | part of the system |
|---|---|
| `CircuitBreaker.dfy` | the async circuit breaker and its registry, as atomic steps in any interleaving |
| `RateLimiter.dfy` | the fixed-window rate limiter, in memory and over Redis INCR/EXPIRE |
| `Text.dfy`, `Anchors.dfy`, `DocsCompiler.dfy`, `DocsOutput.dfy` | the documentation compiler: normal forms, duplicates, titles and anchors, rendering |
| `DocsValidator.dfy`, `DocsMissedDuplicates.dfy` | the checker that looks for every source in the compiled files, and what it finds there |
| `Base64Url.dfy`, `LicenseToken.dfy` | signed license tokens |
| `GoalGraph.dfy`, `GoalTenants.dfy`, `GoalVisibility.dfy` | the GoalGraph tables with their delete actions and keys, organizations in them, and the row-level policies over the organization hierarchy |
| `ObsidianSync.dfy` | writing memories into an Obsidian vault and reading them back |
| `UniqSorted.dfy`, `TopicModeling.dfy`, `GraphLinking.dfy` | the heuristics of the enrichment agents |
| `ResourceProfiler.dfy` | the resource profiler: metrics by task, summaries by type, dropping old entries |
| `Basics.dfy`, `Options.dfy`, `Ordering.dfy`, `Sorting.dfy` | shared vocabulary: distinct lists, optional values, Python's string order, stable sorting |

Objects whose methods change fields are classes; each method is proved equal to a function of the
old state, and the laws are proved of those functions. Loops of the source are loops with invariants.
Clocks, digests, signatures, JSON, YAML, Unicode case tables and what becomes of a write are
parameters; where a law of theirs is needed it is a named predicate about the values at hand (`Lawful`,
`TellsApart`, `ReadsBack`) and not an axiom; `SomeLibraryIsLawful` and `SomeScriptIsLawful` show that the
laws can be met. An exception of the source is a value (`None`, `Refused`, `Escaped`).

## Where the code does not do what its documentation says

* `failure_threshold` is documented as the number of failures that opens the breaker. From a fresh
  breaker the first failure opens it unless both thresholds are above one, because the error rate of
  one failed call is 1.0; the default error rate threshold is 0.5 (`FirstFailureOpens`). The documented
  meaning holds in all runs exactly when the failure threshold is at most one or the error rate threshold
  is above one, out of reach (`FailureThresholdDecidesExactlyWhen`). A success that completes in CLOSED counts
  as two calls in the error rate (`TripsIffAlarmed`). `state_changed_at` misses the changes to HALF_OPEN and
  back to CLOSED (`StateChangeTimeIsOfTheLastOpening`).
* The limiter fails open on backend errors, but a lost EXPIRE leaves the counter without an expiry, so the key stays
  limited for good (`LostExpiryCountsForever`). Keys are released exactly as long as no request that starts a window
  has its EXPIRE refused or its INCR unanswered, that is counted by the server with the reply missing, after which
  EXPIRE is never sent (`KeysExpireExactlyWhenNothingLost`). Until then the store is as without failures, and the
  requests for which a command raised pass (`HarmlessRunsAgree`).
* Titles and anchors are numbered "to ensure uniqueness", which fails exactly when a name reads like
  the number given to a repetition of another (`AnchorsDistinctUnlessClash`, `NumberedTitleCanClash`,
  `NumberedAnchorCanClash`).
* The checker promises to find every source, but a duplicate is left out of the output and compared
  verbatim: "a\nb" and "a \nb" are duplicates of each other, and the second is then reported missing
  (`CompiledDocsCanFailTheCheck`). Every document that is kept is found (`KeptDocIsFound`). A document is missed if it
  has, at the end of a line, a blank together with what is before it that no kept document has
  (`OwnBrokenEndIsMissing`). If no kept document has a blank before a line end, then of the documents that do not start
  with a blank exactly those that have one are missed (`MissedExactlyWhenUntidy`).
* `verify_license_token` is documented to raise LicenseTokenError on any failure. Another exception
  escapes exactly for a key that cannot be read, where the token reads up to the key, and for a payload that
  is no object or has an `nbf` that is no number or an infinity (`EscapesExactlyWhen`, `BadNbfEscapes`).
* All GoalGraph tables are documented to be scoped by organization, but no key ties the organization of a
  row to that of the rows it refers to (`KeysDoNotKeepTenantsApart`). Deletes of organizations spare the rows of
  the others exactly when no row refers across (`DeletesSpareTheOthersExactlyWhenApart`), which statements keep
  exactly when they refer within one organization (`StatementKeepsTenantsApart`).
* A department or division goal is documented to be visible to users in a team under its hierarchy node. The
  policy compares paths, and follows descent exactly when, within each organization, one path contains another where
  and only where a chain of parents connects the nodes (`PolicyFollowsDescentExactlyWhenPathsDo`). Two nodes with one
  path break it, and so do root nodes named "engineering" and "engineering.platform", because the dot makes two labels
  (`DottedNameMisleads`). After any sequence of requests to create nodes it holds exactly when each node was created
  with no node of its organization at or below its path, and with those above it by path being those above it by
  parents, which the endpoint does not check (`AddingAUnit`, `PolicyFollowsDescentExactlyWhenChecked`).
* The handler in `sync_all` that is to report a failing memory reads `memory['id']` once more, so a
  memory without an id aborts the whole run instead (`SyncAll`).
* The graph heuristic guards against entities that are no dict and then counts their values without
  the guard, so a metadata dict without a dict of entities makes it raise (`RaisesExactlyWhen`).

## Other limits that the proofs show

* "At most max_requests per window" holds per window, and twice that is reached in a span of one window length
  (`TwiceMaxIsReached`).
* The target of a visible edge may be invisible (`TargetOfAVisibleEdgeMayBeHidden`).
* A note whose content holds `---` comes back cut at the first one (`ContentSurvivesExactlyWithoutFences`), and a
  push that fails after the file has been truncated takes an earlier note of that title with it (`PushMemory`).

## Model

| member | source | states |
|---|---|---|
| `CircuitBreaking.CircuitBreaker.constructor` | backend/app/core/circuit_breaker.py:51-68 | a new breaker is CLOSED with no counts and no failure time, with the given or the default configuration |
| `CircuitBreaking.CircuitBreaker.Enter` | backend/app/core/circuit_breaker.py:91-102 | the admission step: who is let in, and the move from OPEN to HALF_OPEN; nothing else changes |
| `CircuitBreaking.CircuitBreaker.OnSuccess` | backend/app/core/circuit_breaker.py:112-124 | the whole state after a success, in whatever state it lands |
| `CircuitBreaking.CircuitBreaker.OnFailure` | backend/app/core/circuit_breaker.py:126-153 | the whole state after a failure, in whatever state it lands, with both of its clock readings |
| `CircuitBreaking.CircuitBreaker.ResetBreaker` | backend/app/core/circuit_breaker.py:188-196 | reset clears everything except the last failure time |
| `CircuitBreaking.Registry.GetOrCreate` | backend/app/core/circuit_breaker.py:206-216 | one breaker per name; the first configuration wins; no other entry changes |
| `CircuitBreaking.Registry.ResetAll` | backend/app/core/circuit_breaker.py:226-230 | every registered breaker is reset and the registry stays the same |
| `CircuitBreaking.EveryInterleavingStaysConsistent` | backend/app/core/circuit_breaker.py:91-153 | along any sequence of admissions, completions, drops and resets: CLOSED below the failure threshold, HALF_OPEN below the success threshold, a failure time outside CLOSED, and failure_count <= total_failures <= total_calls |
| `CircuitBreaking.ConsistentRunsExactlyForPositiveThresholds` | backend/app/core/circuit_breaker.py:28-45 | that invariant holds of all runs of a new breaker if and only if both count thresholds are at least one |
| `CircuitBreaking.CountersRefineHistory` | backend/app/core/circuit_breaker.py:112-132 | the counters are functions of the completions since the last reset: trailing failures, failures, and failures + successes + successes landing in CLOSED |
| `CircuitBreaking.TripsAtFirstAlarm` | backend/app/core/circuit_breaker.py:142-148 | a breaker that has not tripped opens at an event precisely when it is a failure that ends a long enough run or lifts failures to the rate with successes counted twice |
| `CircuitBreaking.TripsIffAlarmed` | backend/app/core/circuit_breaker.py:116-148 | over whole runs, the breaker has tripped if and only if some failure was alarming |
| `CircuitBreaking.UntrippedIsBelowTheRate` | backend/app/core/circuit_breaker.py:142-148 | until the first trip, no failure has been seen or both the rate and the run of failures are below their thresholds |
| `CircuitBreaking.FirstFailureOpens` | backend/app/core/circuit_breaker.py:142-148 | exactly when the first failure already opens a breaker with no history |
| `CircuitBreaking.FailureThresholdDecidesExactlyWhen` | backend/app/core/circuit_breaker.py:28-45 | from a breaker with no history, all runs trip exactly at failure_threshold failures in a row if and only if that threshold is at most one or the error rate threshold is above one |
| `CircuitBreaking.ResetIsAsGoodAsNew` | backend/app/core/circuit_breaker.py:188-196 | although reset keeps the last failure time, a reset breaker and a new one have the same states, counters and decisions along every run |
| `CircuitBreaking.StateChangeTimeIsOfTheLastOpening` | backend/app/core/circuit_breaker.py:134-153 | state_changed_at is the time of the last opening or reset in every run |
| `CircuitBreaking.ReopenedAfterProbe` | backend/app/core/circuit_breaker.py:126-137 | if the breaker is open again after a probe, a failure was recorded at or after the probe |
| `CircuitBreaking.ProbesAreSpaced` | backend/app/core/circuit_breaker.py:93-96 | two entries into HALF_OPEN are at least the recovery timeout apart in every run over a monotone clock |
| `CircuitBreaking.ProbeRateIsBounded` | backend/app/core/circuit_breaker.py:155-161 | any span of time holds at most span / timeout + 1 entries into HALF_OPEN |
| `CircuitBreaking.OpenShedsLoad` | backend/app/core/circuit_breaker.py:93-102 | an open breaker rejects every call until the timeout after its last failure, whatever completes late |
| `CircuitBreaking.RecoversAtTheThreshold` | backend/app/core/circuit_breaker.py:118-122 | sequential successes close a due breaker at exactly the success_threshold-th one and keep the lifetime failures |
| `RateLimiting.RedisStore.Incr` | backend/app/middleware/rate_limiter.py:89 | INCR starts an absent or lapsed key at one without an expiry and otherwise counts up |
| `RateLimiting.RedisStore.Expire` | backend/app/middleware/rate_limiter.py:91 | EXPIRE sets the expiry of a present key, and deletes it for a lifetime that is not positive |
| `RateLimiting.RateLimiter.Check` | backend/app/middleware/rate_limiter.py:54-135 | one request: its key, the new table or store, the decision and the Retry-After value, for each backend and for each command that raises before or after it has taken effect |
| `RateLimiting.CallersShareALimitExactlyWhen` | backend/app/middleware/rate_limiter.py:57-83 | under one decorator, requests share a key iff host and path are equal, and tenants iff they are one subject |
| `RateLimiting.WaitingStartsANewWindow` | backend/app/middleware/rate_limiter.py:113-126 | the time told to a rejected caller is within the window, and a second after it a new window starts |
| `RateLimiting.KeysAreIndependent` | backend/app/middleware/rate_limiter.py:113-118 | what is stored for a key depends on the arrivals for that key alone |
| `RateLimiting.AlikeStep` | backend/app/middleware/rate_limiter.py:88-118 | one step of the simulation: a lapsed entry and an absent Redis key answer alike and stay alike |
| `RateLimiting.BackendsAgree` | backend/app/middleware/rate_limiter.py:88-126 | both backends give the same answers on every arrival sequence with the same clock |
| `RateLimiting.LostExpiryCountsForever` | backend/app/middleware/rate_limiter.py:87-133 | after an expiry is lost, by a refused EXPIRE or an unanswered INCR, the key never lapses, whatever requests, faults and clock readings follow, and requests pass only up to the limit in all |
| `RateLimiting.KeysExpireExactlyWhenNothingLost` | backend/app/middleware/rate_limiter.py:87-133 | over all runs with failing commands, every stored key has an expiry if and only if no request that started a window had its EXPIRE refused or its INCR unanswered |
| `RateLimiting.HarmlessRunsAgree` | backend/app/middleware/rate_limiter.py:87-133 | while no expiry is lost, the store is as without failures, each counted request is answered as without failures and as by the in-memory table or passes because a command raised, and what is not counted passes |
| `RateLimiting.AtMostMaxPerWindow` | backend/app/middleware/rate_limiter.py:111-126 | in any run, no window of a key admits more than max_requests |
| `RateLimiting.AtMostTwiceMaxPerInterval` | backend/app/middleware/rate_limiter.py:111-126 | in any run, no closed interval of one window length holds more than twice max_requests admissions |
| `RateLimiting.TwiceMaxIsReached` | backend/app/middleware/rate_limiter.py:111-126 | that bound is attained for every limit |
| `RateLimiting.RejectionIsEarned` | backend/app/middleware/rate_limiter.py:120-126 | a rejected request was preceded by max_requests admissions within one window length |
| `Text.NewlinesInOnePass` | scripts/validate_merged_docs.py:29-31 | the two replacements of line ends equal one pass over the text |
| `Text.OnePassConcat` | scripts/validate_merged_docs.py:29-31 | normalising distributes over every boundary that does not split a CR LF |
| `Text.RStripCommutes` | scripts/validate_merged_docs.py:55 | right-stripping and normalising line ends commute |
| `Anchors.MakeAnchor` | scripts/compile_markdown_docs.py:157-162 | the replacing loop terminates and yields the anchor in which every dash run is collapsed at once |
| `Anchors.ReplacingKeepsCollapse` | scripts/compile_markdown_docs.py:160-161 | one round of replacing "--" by "-" shortens the text and keeps its collapse |
| `Anchors.AnchorsAreClean` | scripts/compile_markdown_docs.py:157-162 | an anchor is never empty, has no double dash, no dash at an end, and only kept lower-case characters |
| `Anchors.CleanAnchorsAreFixed` | scripts/compile_markdown_docs.py:157-162 | every text of that shape is its own anchor |
| `Anchors.AnchoringAnAnchorChangesNothing` | scripts/compile_markdown_docs.py:157-162 | anchoring is idempotent |
| `Anchors.LastMarkSplits` | scripts/compile_markdown_docs.py:269-275 | a name followed by a mark and a decimal number can be read back in one way only |
| `Anchors.TakeName` | scripts/compile_markdown_docs.py:266-275 | one use of a dictionary of uses gives the name its number among equal names |
| `Anchors.BuildTitles` | scripts/compile_markdown_docs.py:257-280 | the loop with its two dictionaries gives the numbered titles and the numbered anchors of those titles |
| `Anchors.DistinctUnlessClash` | scripts/compile_markdown_docs.py:266-275 | numbered names are pairwise distinct if and only if no name equals another plus a number the other reaches |
| `Anchors.AnchorsDistinctUnlessClash` | scripts/compile_markdown_docs.py:263-278 | the same of the titles and of the anchors of every list of headings |
| `Anchors.NumberedTitleCanClash` | scripts/compile_markdown_docs.py:265-269 | three headings that get two equal titles |
| `Anchors.NumberedAnchorCanClash` | scripts/compile_markdown_docs.py:271-275 | a family of distinct titles that get two equal anchors |
| `DocsCompiler.LinewiseIsTrim` | scripts/compile_markdown_docs.py:117-118 | stripping line by line and joining equals one pass that drops blanks before line ends |
| `DocsCompiler.NormalFormIsIdempotent` | scripts/compile_markdown_docs.py:115-118 | a normal form is its own normal form |
| `DocsCompiler.NormalFormIgnoresLineEndings` | scripts/compile_markdown_docs.py:115-118 | the line-end style does not matter to the normal form |
| `DocsCompiler.NormalFormIgnoresTrailingBlanks` | scripts/compile_markdown_docs.py:115-118 | blanks before any line end or the end of the text do not matter |
| `DocsCompiler.FindDuplicates` | scripts/compile_markdown_docs.py:234-244 | the loop with its first_by_hash table computes the kept documents and the map of duplicates |
| `DocsCompiler.DuplicatesAreRepeats` | scripts/compile_markdown_docs.py:240-242 | with distinct paths, a path is a duplicate iff an earlier document has its hash, and it points at the earliest one |
| `DocsCompiler.UniquesAreFirsts` | scripts/compile_markdown_docs.py:243-244 | the kept documents are exactly the first occurrences |
| `DocsCompiler.KeptFormsDiffer` | scripts/compile_markdown_docs.py:239-244 | a kept document has a normal form that no earlier document has |
| `DocsCompiler.RepeatsEqualTheirOriginal` | scripts/compile_markdown_docs.py:240-242 | for a digest without collisions a duplicate has the normal form of the kept document it points at |
| `DocsOutput.FillBuckets` | scripts/compile_markdown_docs.py:246-254 | the loop splits the documents by class, in order |
| `DocsOutput.UniqueCountsAddUp` | scripts/compile_markdown_docs.py:283-286 | the unique counts in the two headers sum to the number of kept documents |
| `DocsOutput.WriteOutput` | scripts/compile_markdown_docs.py:283-312 | the text written is header, index and one rendering per document with the titles and anchors of the file |
| `DocsOutput.PartOccurs` | scripts/compile_markdown_docs.py:292-312 | the rendering of each document occurs in the body |
| `DocsValidator.Validate` | scripts/validate_merged_docs.py:34-84 | exits at once iff the manifest or an output is absent, and otherwise gives the report of the comparison |
| `DocsValidator.Compare` | scripts/validate_merged_docs.py:45-84 | the loop reports the counts and a line for each missing source, and exits with zero iff there is none |
| `DocsValidator.MissingAre` | scripts/validate_merged_docs.py:49-67 | a line is reported iff it is that of an entry off disk or of a non-blank one in neither output |
| `DocsValidator.FramedContentIsFound` | scripts/validate_merged_docs.py:55-65 | right-stripped content rendered after a line end is found once both sides are normalised, whatever follows |
| `DocsValidator.KeptDocIsFound` | scripts/compile_markdown_docs.py:188-199 | the checker finds every kept document in the file of its bucket |
| `DocsValidator.SafeDocIsFound` | scripts/validate_merged_docs.py:49-65 | it also finds every duplicate whose text occurs in its original |
| `DocsValidator.CompiledDocsValidate` | scripts/validate_merged_docs.py:34-84 | after compiling, only duplicates whose text does not occur in their original are reported, so the check passes if there are none |
| `DocsMissedDuplicates.OutputBreaksOnlyWhereKept` | scripts/compile_markdown_docs.py:144-208 | an output file has a given line end with a blank before it if and only if a document that it keeps has |
| `DocsMissedDuplicates.OwnBrokenEndIsMissing` | scripts/validate_merged_docs.py:55-67 | a document with such a line end that no kept document has is reported missing |
| `DocsMissedDuplicates.UntidyDocsAreMissing` | scripts/validate_merged_docs.py:55-67 | when the kept contents have no blank before a line end, every document that has one is reported |
| `DocsMissedDuplicates.MissedExactlyWhenUntidy` | scripts/validate_merged_docs.py:49-67 | when moreover the digest has no collisions, a document that does not start with a blank is reported if and only if it has a blank before a line end |
| `DocsMissedDuplicates.CompiledDocsCanFailTheCheck` | scripts/validate_merged_docs.py:55-67 | two documents whose compiled files fail the check |
| `Base64Url.EncodeIsBare` | backend/app/core/license_token.py:50-51 | stripping the padding removes exactly the padding, and all that stays is in the alphabet |
| `Base64Url.DecodeEncode` | backend/app/core/license_token.py:50-56 | decoding with recomputed padding undoes encoding for every byte sequence |
| `Base64Url.EncodingIsAField` | backend/app/core/license_token.py:50-51 | encoded text is ASCII and has no dot |
| `LicenseToken.SignedTokenOpens` | backend/app/core/license_token.py:129-190 | a signed token with a dot-free ASCII prefix splits into three parts, its signature verifies, and it opens to the payload that was signed |
| `LicenseToken.SignedTokenVerifies` | backend/app/core/license_token.py:148-201 | verifying it yields the claims of the payload exactly when the nbf and exp checks with skew pass, and otherwise the reason |
| `LicenseToken.ClaimsComeBack` | backend/app/core/license_token.py:77-111 | a payload built from claims in the documented format reads back as the same claims if and only if they have an organization, positive times and increasing features |
| `LicenseToken.ClaimsTravel` | backend/app/core/license_token.py:129-201 | claims that are signed and verified arrive unchanged exactly when they are of that kind and the clock is within their window |
| `LicenseToken.PrefixMustBeDotFree` | backend/app/core/license_token.py:164-170 | a signed token can be opened if and only if the prefix has no dot |
| `LicenseToken.AcceptedTokenIsSigned` | backend/app/core/license_token.py:164-201 | an accepted token has the stated format, a signature over the literal prefix and payload field, the claims of that payload, and a clock within their window |
| `LicenseToken.FeaturesAreCanonical` | backend/app/core/license_token.py:105 | the features of the claims depend only on the set of features in the payload |
| `LicenseToken.EscapesExactlyWhen` | backend/app/core/license_token.py:148-192 | exactly when an exception other than LicenseTokenError leaves the verifier: an unreadable key that is reached, or an awkward payload that is |
| `LicenseToken.BadNbfEscapes` | backend/app/core/license_token.py:95-96 | signed tokens for which one does: those whose nbf is an infinity or no number |
| `GoalGraph.Database.DeleteNode` | backend/alembic/versions/2026_01_24_0003_add_goal_graph.py:166-171 | running the actions of the five keys that refer to a node row gives the tables without the node: its edges gone, references to it null |
| `GoalGraph.Database.DeleteGoal` | backend/alembic/versions/2026_01_24_0003_add_goal_graph.py:159-165 | deleting the nodes of a goal one by one in any order, then its links and log rows, gives the tables without all of them at once |
| `GoalGraph.Database.DeleteMemory` | backend/alembic/versions/2026_01_24_0003_add_goal_graph.py:279-285 | deleting a memory takes exactly its links |
| `GoalGraph.Database.DeleteUser` | backend/alembic/versions/2026_01_24_0003_add_goal_graph.py:90-96 | deleting a user nulls the creator of its goals and nothing else |
| `GoalGraph.Database.DeleteOrg` | backend/alembic/versions/2026_01_24_0003_add_goal_graph.py:83-89 | deleting an organization row by row gives the tables without all rows that cascade, at once |
| `GoalGraph.Database.Execute` | backend/alembic/versions/2026_01_24_0003_add_goal_graph.py:80-349 | every insert and delete as a state change; an insert that violates a key is rejected and changes nothing |
| `GoalGraph.CascadeLeavesNothingDangling` | backend/alembic/versions/2026_01_24_0003_add_goal_graph.py:159-171 | removing any set of rows that is closed under the CASCADE keys leaves no dangling reference |
| `GoalGraph.CascadeKeepsKeysUnique` | backend/alembic/versions/2026_01_24_0003_add_goal_graph.py:290-295 | it also keeps both unique keys |
| `GoalGraph.OrgCascadeIsLeast` | backend/alembic/versions/2026_01_24_0003_add_goal_graph.py:83-89 | the rows that go with an organization are closed under the CASCADE keys, and the fewest that are |
| `GoalGraph.GoalCascadeIsLeast` | backend/alembic/versions/2026_01_24_0003_add_goal_graph.py:159-165 | the same for a goal |
| `GoalGraph.WithoutTwice` | backend/alembic/versions/2026_01_24_0003_add_goal_graph.py:159-171 | removing rows in two steps equals removing them in one |
| `GoalGraph.DeletesCommute` | backend/alembic/versions/2026_01_24_0003_add_goal_graph.py:159-171 | the order of two removals does not matter |
| `GoalGraph.StatementKeepsSound` | backend/alembic/versions/2026_01_24_0003_add_goal_graph.py:229-248 | every statement keeps all references and both unique keys intact |
| `GoalGraph.EveryHistoryStaysSound` | backend/alembic/versions/2026_01_24_0003_add_goal_graph.py:80-349 | so does every sequence of inserts and deletes |
| `GoalGraph.GoalTakesItsRowsOnly` | backend/alembic/versions/2026_01_24_0003_add_goal_graph.py:229-333 | deleting a goal removes exactly its nodes, every edge touching one, its links and its log rows |
| `GoalGraph.GoalLeavesTheRestAsItWas` | backend/alembic/versions/2026_01_24_0003_add_goal_graph.py:166-333 | every other row is unchanged, except that references to the goal's nodes become null |
| `GoalTenants.DeletingAnOrgSparesTheOthers` | backend/alembic/versions/2026_01_24_0003_add_goal_graph.py:83-89 | where no row refers across organizations, deleting one leaves the rows of all others exactly as they were |
| `GoalTenants.DeletesSpareTheOthersExactlyWhenApart` | backend/alembic/versions/2026_01_24_0003_add_goal_graph.py:83-89 | in sound tables, deletes of organizations leave the rows of the others as they were if and only if no row refers across |
| `GoalTenants.StatementKeepsTenantsApart` | backend/alembic/versions/2026_01_24_0003_add_goal_graph.py:152-165 | a statement keeps that if and only if it is rejected or what it inserts refers within its organization |
| `GoalTenants.HistoriesWithinSpareTheOthers` | backend/alembic/versions/2026_01_24_0003_add_goal_graph.py:80-349 | after every history of such statements, every delete of an organization spares the others |
| `GoalTenants.KeysDoNotKeepTenantsApart` | backend/alembic/versions/2026_01_24_0003_add_goal_graph.py:152-165 | a history, accepted by all keys, after which deleting one organization takes a row of another |
| `GoalVisibility.PoliciesStandWithoutNesting` | backend/alembic/versions/2026_01_24_0003_add_goal_graph.py:372-411 | applying row security inside the policies' own subqueries changes no decision |
| `GoalVisibility.EdgeFollowsItsSource` | backend/alembic/versions/2026_01_24_0003_add_goal_graph.py:391-411 | an edge is visible iff its source node is and lies in the edge's organization; the source's goal is then visible too |
| `GoalVisibility.TargetOfAVisibleEdgeMayBeHidden` | backend/alembic/versions/2026_01_24_0003_add_goal_graph.py:391-411 | nothing of the kind holds of the target |
| `GoalVisibility.PolicyAndApplicationAgreeOnAdmins` | backend/app/middleware/tenant_context.py:101-126 | for role names without commas, the policy sees an administrator exactly where the application does |
| `GoalVisibility.PolicyFollowsDescentExactlyWhenPathsDo` | backend/alembic/versions/2026_01_24_0003_add_goal_graph.py:53-67 | for every hierarchy: the policy shows branch goals to exactly the administrators and the teams at or under their node, for all goals, sessions, members and teams, if and only if path containment within each organization is descent by parent links |
| `GoalVisibility.AddingAUnit` | backend/app/api/v1/endpoints/organizations.py:241-269 | after a node is created, containment is descent if and only if it was before, no node of the organization is at or below the new path, and those above it by path are those above it by parents |
| `GoalVisibility.PolicyFollowsDescentExactlyWhenChecked` | backend/app/api/v1/endpoints/organizations.py:241-269 | after every sequence of requests to create nodes, the policy follows descent if and only if each request was refused or met that condition |
| `GoalVisibility.DottedNameMisleads` | backend/app/api/v1/endpoints/organizations.py:254-257 | two root nodes with unique paths, the second named after the first with a dot, where a team at the second reads what is scoped to the first |
| `GoalVisibility.BranchGoalsReachTheWholeBranch` | backend/alembic/versions/2026_01_24_0003_add_goal_graph.py:53-67 | where containment is descent, a department or division goal is visible to exactly the administrators and the members of teams at or under its node |
| `GoalVisibility.WideningTheScopeHidesNothing` | backend/alembic/versions/2026_01_24_0003_add_goal_graph.py:53-67 | visibility is monotone up the hierarchy |
| `GoalVisibility.PlainHierarchiesNeedUniquePaths` | backend/app/models/organization.py:133-144 | where every path is the parent's and one label more, within one organization, the policy follows descent if and only if no two nodes of an organization share a path |
| `GoalVisibility.DeletedCreatorsGoals` | backend/alembic/versions/2026_01_24_0003_add_goal_graph.py:38-73 | deleting a user hides its personal goals from all but administrators and changes the visibility of no other goal |
| `GoalVisibility.DeletedGoalsLeaveVisibilityAlone` | backend/alembic/versions/2026_01_24_0003_add_goal_graph.py:372-411 | deleting a goal changes the visibility of no other goal, node or edge |
| `ObsidianSync.ObsidianVaultAdapter.PushMemory` | backend/integrations/external_sync.py:117-144 | a push that succeeds writes the note under the title and nothing else; one that fails leaves the vault as it was, or what a broken write leaves under the title |
| `ObsidianSync.ObsidianVaultAdapter.SyncAll` | backend/integrations/external_sync.py:173-201 | the vault and the report after pushing in order; a memory without an id ends the run with an exception |
| `ObsidianSync.ObsidianVaultAdapter.PullMemory` | backend/integrations/external_sync.py:146-171 | the first note of the listing that carries the id, unless an unreadable note comes first |
| `ObsidianSync.LastOfATitleWins` | backend/integrations/external_sync.py:180-182 | of the memories with one title the last whose push touched the file decides its note |
| `ObsidianSync.OtherTitlesStay` | backend/integrations/external_sync.py:180-182 | notes under other titles are untouched |
| `ObsidianSync.NothingElseIsWritten` | backend/integrations/external_sync.py:180-182 | every note is an old one or that of a pushed memory with that title |
| `ObsidianSync.WrittenNotesReadBack` | backend/integrations/external_sync.py:131-165 | splitting a written note at the fences gives back the frontmatter and the content up to its first fence, stripped |
| `ObsidianSync.ContentSurvivesExactlyWithoutFences` | backend/integrations/external_sync.py:154-163 | nothing but outer blanks is lost if and only if the content has no fence |
| `ObsidianSync.PullReturnsWhatWasPushed` | backend/integrations/external_sync.py:117-171 | after a sync, pulling the id of a surviving note returns its title, its frontmatter dict and its content up to the first fence, for every order of the listing |
| `UniqSorted.MakeUniqSorted` | backend/app/agents/metadata_extraction_agent.py:19-31 | the loop with its set of keys computes the sorted first spellings |
| `UniqSorted.KeysStrictlyIncrease` | backend/app/agents/metadata_extraction_agent.py:19-31 | the keys of the result strictly increase and are exactly the keys of the non-blank items |
| `UniqSorted.KeysForgetOrder` | backend/app/agents/metadata_extraction_agent.py:19-31 | the keys depend on neither order nor repetition of the items |
| `UniqSorted.FirstSpellingIsKept` | backend/app/agents/metadata_extraction_agent.py:26-30 | a spelling is in the result iff it is that of the first item with its key |
| `UniqSorted.UniqSortedTwice` | backend/app/agents/metadata_extraction_agent.py:19-31 | the function is idempotent |
| `UniqSorted.SpellingDependsOnOrder` | backend/app/agents/metadata_extraction_agent.py:26-30 | which spelling is kept does depend on the order |
| `TopicModeling.Bump` | backend/app/agents/topic_modeling_agent.py:38-39 | one bump adds the points to one topic of the dict |
| `TopicModeling.BuildScores` | backend/app/agents/topic_modeling_agent.py:41-75 | the loops leave in the dict exactly the topics with points, and three per naming tag plus one per keyword found |
| `TopicModeling.RunHeuristic` | backend/app/agents/topic_modeling_agent.py:29-93 | the result depends on the scores only, not on the order of the dict |
| `TopicModeling.TagOrderDoesNotMatter` | backend/app/agents/topic_modeling_agent.py:41-93 | any permutation of the tags gives the same result |
| `TopicModeling.TopicsAreRanked` | backend/app/agents/topic_modeling_agent.py:77-86 | topics are strictly ordered by score and name, all scored, the primary one maximal; "general" iff nothing scores |
| `TopicModeling.NoScoredTopicIsCut` | backend/app/agents/topic_modeling_agent.py:83-85 | with at most five topics the limit of five cuts off none that scores |
| `GraphLinking.Builder.AddNode` | backend/app/agents/graph_linking_agent.py:41-44 | a node is appended iff its id is new |
| `GraphLinking.BuildGraph` | backend/app/agents/graph_linking_agent.py:38-89 | the closures and loops build the graph of the signals and its confidence |
| `GraphLinking.RunHeuristic` | backend/app/agents/graph_linking_agent.py:30-89 | the same from the enrichment as it arrives |
| `GraphLinking.RaisesExactlyWhen` | backend/app/agents/graph_linking_agent.py:31-36 | it raises exactly for a metadata dict without a dict of entities, and for topics or tags that are a scalar |
| `GraphLinking.GraphsAreStars` | backend/app/agents/graph_linking_agent.py:38-78 | node ids are distinct, every edge runs from the memory node to another listed node, and every other node is some edge's target |
| `GraphLinking.EdgesFollowSignals` | backend/app/agents/graph_linking_agent.py:46-78 | there is one edge for every non-blank signal, in order |
| `GraphLinking.FirstSpellingStays` | backend/app/agents/graph_linking_agent.py:41-44 | each id has the node of the first signal with that id |
| `GraphLinking.NodeIdsAre` | backend/app/agents/graph_linking_agent.py:49-78 | the node ids are the memory's and those of the non-blank signals |
| `GraphLinking.NodeIdsForgetOrder` | backend/app/agents/graph_linking_agent.py:49-78 | so they do not depend on the order of the signals |
| `ResourceProfiling.ResourceProfiler.RecordMetrics` | backend/app/core/resource_profiler.py:80-130 | the entry under that id is replaced in place or appended, and no other entry changes |
| `ResourceProfiling.ResourceProfiler.CleanupOldMetrics` | backend/app/core/resource_profiler.py:213-226 | the slice of the entries sorted newest first, for positive and negative counts |
| `ResourceProfiling.ResourceProfiler.GetOrgSummary` | backend/app/core/resource_profiler.py:136-196 | the loops compute the summary of the organization's entries |
| `ResourceProfiling.EveryRunKeepsOnePerTask` | backend/app/core/resource_profiler.py:120 | after any sequence of records and cleanups there is one entry per id |
| `ResourceProfiling.PutMembers` | backend/app/core/resource_profiler.py:120 | recording leaves exactly the new entry and the old entries under other ids |
| `ResourceProfiling.CleanupKeepsTheNewest` | backend/app/core/resource_profiler.py:213-226 | a cleanup leaves min(size, keep_count) unchanged entries, and none that it drops is newer than one it keeps |
| `ResourceProfiling.GroupHoldsItsType` | backend/app/core/resource_profiler.py:162-175 | there is a group for a type iff there are entries of it, and it holds their count, tokens, cost and duration |
| `ResourceProfiling.GroupsAddUp` | backend/app/core/resource_profiler.py:162-175 | counts, tokens, costs and durations by type sum to those of all entries |
| `ResourceProfiling.SummaryAddsUp` | backend/app/core/resource_profiler.py:142-196 | in every summary the types sum to the totals, and successes and failures to the count; there is one iff the organization has entries |
| `ResourceProfiling.SummaryByType` | backend/app/core/resource_profiler.py:162-196 | in every summary, a type appears iff the organization has entries of it, with their number, tokens and cost, and an average a with count*a <= sum < count*(a+1) exactly when the sum is not negative or divides evenly |
| `ResourceProfiling.AverageBrackets` | backend/app/core/resource_profiler.py:177-181 | the arithmetic of one average, used for every type |

## Left out

- CompiledDocsValidate: the other direction is stated for a document with a blank before a line end that no kept document has (`OwnBrokenEndIsMissing`), and for documents that do not start with a blank where no kept one has a blank before a line end or a CR (`MissedExactlyWhenUntidy`), because a duplicate whose text is not in its original may occur elsewhere in the outputs by accident.
- EveryInterleavingStaysConsistent: runs are arbitrary sequences of completions, which includes sequences with more completions than admissions; the statements about runs cover more than what can happen.
- Check: looking for the request or the tenant among the arguments, and the answer of Redis to TTL, which is a parameter.
- WriteOutput: finding the files, reading the first heading of a document, classifying it and writing to disk are parameters or absent; so is the text of the manifest.
- PushMemory: titles that lead into another folder, where the note is not in the vault as modelled, count as refused; line ends are written as on POSIX.
- SignedTokenVerifies: loading keys from PEM, and Ed25519 and JSON beyond their round trips.
- Execute: updates of rows, check constraints, columns that no key or policy refers to, and keys of tables outside this migration that forbid a delete.
- AddingAUnit: deleting or moving hierarchy nodes, which no endpoint does.
- RunHeuristic: confidences of both agents are exact hundredths instead of floats; the branches that ask a language model are absent.
- GetOrgSummary: costs and quotients are exact where the source has floats, and the rounding of costs is a parameter; the fields of a metric that neither the summary nor the cleanup reads.
- `validate_outputs` of the agents: type checks that the types of the model already make.
- Adapters for other services, middleware logging, the web layer, metrics, prompts, and everything else that only performs I/O.
