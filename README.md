# CI guards and string helpers, modelled in Dafny

This project models the decision gates ("guards") that a CI pipeline runs before
automated agents act on a repository. It also models the small string-helper module
the repository ships.

- **Remediation guard** (`RemediationGuard`, `remediation_guard.dfy`).
  - It caps the number of remediation attempts by strictness: relaxed 10, standard 5, strict 3, anything else 10.
  - It sorts review findings into security blockers, protected-file skips and actionable findings, in one pass and in input order.
  - It picks one of four outcomes.
  - The classification loop of `evaluate` and the label-maximum loop of `getAttemptCount` are methods with `while` loops. Each is proved equal to a specification function (`Decide`, `MaxAttemptLabel`), and the properties are proved about that function.
- **Triage guard** (`TriageGuard`). It decides whether an opened or edited issue is handed to triage. The precedence chain is: pull request, bot author, edit and re-triage rules, already-triaged labels.
- **Planner guard** (`PlannerGuard`) and **implementer guard** (`ImplementerGuard`).
  - Both use the same chain: pull request, missing trigger label, blocking labels, existing plan or pull request.
  - The implementer also derives a branch name from a 40-character slug of the title.
  - It also scans comment lines for a marker and a `PR #<digits>` reference.
  - The blocking-label filter and the issue record they share live in `IssuePayload`.
- **String helpers** (`StringUtils`): `capitalize`, `slugify` and `truncate`.
- `Text` holds the ASCII character classes, case mapping, substring tests and decimal printing and parsing that the rest uses. `Wrappers` holds `Option`.

The triage guard works on the payload alone. Each of the other three guards asks an outside service one question: the prior attempt count, whether a plan exists, or the open pull request. That answer is a parameter of the model. Where the source scans the service's text output line by line, the scan is modelled as a function over a sequence of lines.

## Model

| member | source | states |
|---|---|---|
| Text.Lower | src/string-utils.ts:14 | lower-casing keeps the length and maps each character through ASCII `LowerChar` |
| Text.LowerAppend | scripts/remediation-guard.ts:55 | lower-casing distributes over concatenation |
| Text.UpperChar | src/string-utils.ts:6 | upper-casing a lower-case letter gives the upper-case letter 32 below it; every other character is unchanged |
| Text.ContainsInfix | scripts/remediation-guard.ts:56 | `includes` finds a pattern placed between any two strings |
| Text.NotContainsByTrigram | scripts/remediation-guard.ts:56 | a string in which the pattern's first three characters never appear in a row does not contain the pattern |
| Text.Decimal | scripts/issue-implementer-guard.ts:45 | the decimal text of a number is a non-empty digit string with no leading zero |
| Text.ParseDecimal | scripts/remediation-guard.ts:77 | parsing the decimal text of `n` gives back `n` |
| Text.DecimalInjective | scripts/issue-implementer-guard.ts:45 | different numbers have different decimal texts |
| StringUtils.Capitalize | src/string-utils.ts:4-7 | the length is kept; the first character is upper-cased; every other character is unchanged, so the empty string maps to itself |
| StringUtils.CapitalizeIdempotent | src/string-utils.ts:4-7 | capitalizing twice is the same as capitalizing once |
| StringUtils.CapitalizeExamples | tests/string-utils.test.ts:4-20 | `hello`→`Hello`, empty→empty, `A`→`A`, `hello world`→`Hello world` |
| StringUtils.Slugify | src/string-utils.ts:12-17 | lower-case, then collapse separator runs, then trim hyphens, in the source's order; its properties are in the rows below |
| StringUtils.CollapseSeparators | src/string-utils.ts:15 | every maximal run of characters outside `a-z0-9` becomes one `-`, and every other character is kept |
| StringUtils.CollapseShape | src/string-utils.ts:15 | replacing each run of non-`[a-z0-9]` characters by `-` leaves only slug characters and never two hyphens in a row |
| StringUtils.TrimLeadingHyphens | src/string-utils.ts:16 | the result is a suffix of the input that does not start with `-`, and every dropped character is a `-`; an input not starting with `-` is unchanged |
| StringUtils.TrimTrailingHyphens | src/string-utils.ts:16 | the result is a prefix of the input that does not end with `-`, and every dropped character is a `-`; an input not ending with `-` is unchanged |
| StringUtils.TrimHyphens | src/string-utils.ts:16 | the result is no longer than the input and neither starts nor ends with `-` |
| StringUtils.TrimHyphensWindow | src/string-utils.ts:16 | only hyphens are removed: the result is a stretch of the input with nothing but hyphens before and after it |
| StringUtils.TrimHyphensShape | src/string-utils.ts:16 | trimming hyphens from a collapsed string gives a slug: only `a-z0-9-`, no leading, trailing or doubled `-` |
| StringUtils.SlugifyShape | src/string-utils.ts:12-17 | every `slugify` output is a slug: only `a-z`, `0-9` and `-`, no leading or trailing `-`, never `--` |
| StringUtils.SlugifyOfSlug | src/string-utils.ts:12-17 | a string that is already a slug is its own slug |
| StringUtils.SlugifyIdempotent | src/string-utils.ts:13-16 | applying `slugify` to its own output changes nothing |
| StringUtils.CollapseOfCollapsed | src/string-utils.ts:15 | the separator replacement leaves a collapsed string unchanged |
| StringUtils.SlugifyOneWord | src/string-utils.ts:12-17 | a lower-cased word followed only by separators slugifies to the word |
| StringUtils.SlugifyTwoWords | src/string-utils.ts:12-17 | two words with a separator run between them slugify to the words joined by one `-` |
| StringUtils.SlugifyThreeWords | src/string-utils.ts:12-17 | three words with separator runs between them and only separators after them slugify to the words joined by single `-` |
| StringUtils.SlugifyHelloWorld | tests/string-utils.test.ts:23-25 | `slugify('Hello World') == 'hello-world'` |
| StringUtils.SlugifyPunctuation | tests/string-utils.test.ts:27-29 | `slugify('Hello! @World#') == 'hello-world'` |
| StringUtils.SliceTo | src/string-utils.ts:25 | `slice(0, end)` always gives a prefix of the input; a non-negative end keeps `min(end, length)` characters, and a negative end drops `min(-end, length)` characters from the back |
| StringUtils.Truncate | src/string-utils.ts:22-26 | an empty or short-enough input is returned unchanged; otherwise, with `maxLength >= suffix.length`, the result has length `maxLength`, ends with the suffix and keeps the input's prefix; otherwise it keeps the negative-index slice plus the suffix |
| StringUtils.TruncateUnchangedIff | src/string-utils.ts:22-25 | when the suffix fits in `maxLength`, the input comes back unchanged exactly when it is empty, short enough, or already ends in the suffix at exactly `maxLength` characters |
| StringUtils.TruncateCutsFittingString | src/string-utils.ts:24-25 | when the suffix fits in `maxLength`, a non-empty string whose length lies in (`maxLength - suffix.length`, `maxLength`] is still cut and suffixed |
| StringUtils.TruncateExamples | tests/string-utils.test.ts:32-40 | `truncate('Hello World', 8) == 'Hello...'`, `truncate('Hi', 10) == 'Hi'` |
| IssuePayload.BlockedLabels | scripts/issue-planner-guard.ts:56-57 | a label is reported exactly when it is on the issue and in the blocking set, and no more labels are reported than the issue has |
| IssuePayload.BlockedLabelsAppend | scripts/issue-implementer-guard.ts:96-97 | the filter distributes over concatenation, so it keeps the input order |
| TriageGuard.Evaluate | scripts/issue-triage-guard.ts:56-127 | number and title echoed; `shouldTriage` iff `skipReason` is empty; a pull request is refused first, then a bot author; a re-triage happens exactly on an edit with `needs-more-info`; an edit without it triages iff no triaged label is present, else `edit_already_triaged`; other events triage iff no triaged label, else `already_triaged` |
| TriageGuard.IsBot | scripts/issue-triage-guard.ts:41-45 | a bot account has type `Bot`, or a login that ends, ignoring letter case, in `[bot]` or `-bot` |
| TriageGuard.IsBotIgnoresCase | scripts/issue-triage-guard.ts:42-44 | lower-casing the login never changes whether the account is a bot |
| TriageGuard.IsAlreadyTriaged | scripts/issue-triage-guard.ts:47-49 | some label of the issue is one of the six triaged labels |
| TriageGuard.ShouldRetriage | scripts/issue-triage-guard.ts:51-54 | false for every event but `edited`; on `edited`, true exactly when `needs-more-info` is present |
| TriageGuard.RetriageOverridesTriagedLabels | scripts/issue-triage-guard.ts:82-91 | an edit with `needs-more-info` re-triages even when a triaged label is present, and the same issue on `opened` is skipped |
| TriageGuard.IsBotExamples | scripts/issue-triage-guard.ts:150-153 | `dependabot[bot]`, `renovate-bot` and type `Bot` are bots; `yasha-dev1` is not |
| TriageGuard.LabelExamples | scripts/issue-triage-guard.ts:155-160 | `agent:plan` counts as triaged, `bug`/`enhancement` do not; only an `edited` event with `needs-more-info` asks for re-triage |
| TriageGuard.EvaluateExamples | scripts/issue-triage-guard.ts:162-191 | the self-test payloads: a plain issue is triaged; a bot, a pull request and an `agent:implement` issue are skipped; an edit with `needs-more-info` is a re-triage |
| PlannerGuard.HasPlanMarker | scripts/issue-planner-guard.ts:30 | true exactly when some line contains `<!-- issue-planner:` |
| PlannerGuard.Evaluate | scripts/issue-planner-guard.ts:35-82 | number and title echoed; a pull request and a missing `agent:plan` are refused with no plan and no blocked labels; blocked labels are the full filter once those checks pass, and any rejects; `existingPlan` iff the lookup ran and found a plan; `shouldPlan` iff not a pull request, labelled, unblocked, and the lookup skipped or empty |
| PlannerGuard.ImplementLabelDoesNotTrigger | scripts/issue-planner-guard.ts:127-131 | an issue labelled only `agent:implement` is never planned |
| PlannerGuard.BlockedLabelsExamples | scripts/issue-planner-guard.ts:111-126 | the filter on the self-test label lists: none, `wontfix`, and `duplicate`, `invalid` in order |
| PlannerGuard.RefusedExamples | scripts/issue-planner-guard.ts:101-105 | the unlabelled, pull-request and wrong-label self-test payloads are not planned |
| PlannerGuard.ReadyExample | scripts/issue-planner-guard.ts:106-110 | the ready self-test payload is planned |
| PlannerGuard.BlockedExamples | scripts/issue-planner-guard.ts:111-126 | the blocked self-test payloads report `wontfix`, and `duplicate`, `invalid` |
| ImplementerGuard.Slugify | scripts/issue-implementer-guard.ts:35-41 | the branch slug is a prefix of the general slug: all of it when it has at most 40 characters, otherwise its first 40 |
| ImplementerGuard.SlugifyShape | scripts/issue-implementer-guard.ts:35-41 | the slug uses only `a-z0-9-`, never `--`, never starts with `-`, and equals the untrimmed-length slug when that fits in 40 |
| ImplementerGuard.SlugifyNotIdempotent | scripts/issue-implementer-guard.ts:39-40 | a 41-character title whose cut leaves a trailing `-` gives a slug that changes when slugified again |
| ImplementerGuard.DeriveBranchName | scripts/issue-implementer-guard.ts:43-46 | `cf/`, the capped slug of the title, `-` and the issue number in decimal; its properties are in the rows below |
| ImplementerGuard.TrailingDigitsAfterHyphen | scripts/issue-implementer-guard.ts:45 | after the last `-`, the branch name's trailing digit run is exactly the issue number's digits |
| ImplementerGuard.BranchNameParts | scripts/issue-implementer-guard.ts:43-46 | the branch name is `cf/`, the slug, `-` and the decimal number, and each part can be read back by position |
| ImplementerGuard.BranchNameDeterminesIssue | scripts/issue-implementer-guard.ts:43-46 | two equal branch names come from the same issue number and the same slug |
| ImplementerGuard.DigitRun | scripts/issue-implementer-guard.ts:58 | the longest prefix made of digits |
| ImplementerGuard.PRRefFrom | scripts/issue-implementer-guard.ts:58 | the first position from `from` on where `PR #<digit>` starts, or none exactly when there is no such position |
| ImplementerGuard.PRNumber | scripts/issue-implementer-guard.ts:58-59 | a line yields a number exactly when it holds a `PR #<digit>` reference |
| ImplementerGuard.PRNumberOfReference | scripts/issue-implementer-guard.ts:58-59 | after any text that holds no reference (such as the marker), `PR #`, the decimal text of `n` and a non-digit read back as `n` |
| ImplementerGuard.FindExistingPRFromSpec | scripts/issue-implementer-guard.ts:56-62 | the scan finds nothing exactly when no remaining line is a marker line with a reference; otherwise its number is that of such a line |
| ImplementerGuard.FindExistingPRFromFirst | scripts/issue-implementer-guard.ts:56-62 | the scan returns the number of the first qualifying line, passing over marker lines without a reference |
| ImplementerGuard.FindExistingPRFirstMarker | scripts/issue-implementer-guard.ts:56-62 | from the start of the output, the first qualifying line decides the pull request |
| ImplementerGuard.FindExistingPR | scripts/issue-implementer-guard.ts:56-62 | nothing is found exactly when no line both carries the marker and holds a `PR #<digits>` reference; a number found is the one read from such a line |
| ImplementerGuard.Evaluate | scripts/issue-implementer-guard.ts:68-127 | number, title and branch name echoed on every path; a pull request and a missing `agent:implement` are refused with no PR and no blocked labels; blocked labels are the full filter once those pass; `existingPR` is reported iff the lookup ran and gave a non-zero number, which is echoed; `shouldImplement` iff no check refuses |
| ImplementerGuard.SlugifyExamples | scripts/issue-implementer-guard.ts:150-151 | `add-dark-mode` and `fix-login-bug` |
| ImplementerGuard.DeriveBranchNameExample | scripts/issue-implementer-guard.ts:154 | issue 42 titled `Add dark mode` gets `cf/add-dark-mode-42` |
| ImplementerGuard.RefusedExamples | scripts/issue-implementer-guard.ts:157-161 | the unlabelled and pull-request self-test payloads are refused |
| ImplementerGuard.ReadyExample | scripts/issue-implementer-guard.ts:164-169 | the ready self-test payload is approved with branch `cf/add-dark-mode-10` |
| ImplementerGuard.BlockedExample | scripts/issue-implementer-guard.ts:172-177 | the `wontfix` self-test payload is refused and reports `wontfix` |
| RemediationGuard.MaxAttempts | scripts/remediation-guard.ts:20-24 | `relaxed` gets 10, `standard` 5, `strict` 3, and any other strictness the default 10 |
| RemediationGuard.IsSecurityFinding | scripts/remediation-guard.ts:54-57 | the lower-cased message contains one of the fifteen security keywords |
| RemediationGuard.IsProtectedFile | scripts/remediation-guard.ts:44-61 | the path starts with `.github/workflows/` or is exactly one of the six protected file names |
| RemediationGuard.TrigramFreeAcrossSpace | scripts/remediation-guard.ts:26-42 | two texts in which no keyword's first three letters appear, in any case, stay so when joined by a space |
| RemediationGuard.NotSecurityByTrigrams | scripts/remediation-guard.ts:54-57 | a message in which no keyword's first three letters appear, in any case, is not a security finding |
| RemediationGuard.SecurityByKeyword | scripts/remediation-guard.ts:54-57 | a message holding any keyword, in any letter case, is a security finding |
| RemediationGuard.FormatFinding | scripts/remediation-guard.ts:87-92 | the text starts with `[prefix] ` and ends with ` — ` and the message |
| RemediationGuard.Location | scripts/remediation-guard.ts:88-90 | `general` without a file; with a file, the text starts with the file and is the bare file exactly when the line is absent or 0 |
| RemediationGuard.LocationReadsBack | scripts/remediation-guard.ts:88-90 | the location is `general` with no file, the bare file with no line or line 0, and otherwise the file, `:` and digits that parse back to the line |
| RemediationGuard.BucketOf | scripts/remediation-guard.ts:117-129 | security first; protected exactly when not security, the file is non-empty and protected; otherwise actionable |
| RemediationGuard.InBucket | scripts/remediation-guard.ts:117-129 | the findings of one bucket, in input order; never more than the input |
| RemediationGuard.InBucketMembers | scripts/remediation-guard.ts:117-129 | a finding is in a bucket exactly when it is in the input and classified into that bucket |
| RemediationGuard.Formatted | scripts/remediation-guard.ts:119-124 | each bucket entry is formatted with the severity for security findings and `protected` for skips |
| RemediationGuard.BucketsPartition | scripts/remediation-guard.ts:113-129 | the three buckets together are a permutation of the findings |
| RemediationGuard.BucketCounts | scripts/remediation-guard.ts:113-129 | the three bucket sizes add up to the number of findings |
| RemediationGuard.InBucketAppend | scripts/remediation-guard.ts:117-129 | classifying a concatenation concatenates the buckets, so input order is kept |
| RemediationGuard.SecurityBeforeProtected | scripts/remediation-guard.ts:118-121 | a security finding is a blocker and in no other bucket, even when its file is protected |
| RemediationGuard.NoFileNeverProtected | scripts/remediation-guard.ts:123-126 | a finding without a file is never skipped as protected |
| RemediationGuard.Decide | scripts/remediation-guard.ts:94-158 | `attemptNumber` is the prior count plus one; past the cap nothing is remediated and both lists are empty; under it the lists are the formatted security and protected buckets; `shouldRemediate` iff under the cap with an actionable finding; with none, the reason is the security message iff some blocker exists |
| RemediationGuard.DecideCountsEveryFinding | scripts/remediation-guard.ts:113-129 | under the cap, blockers plus skips plus actionable findings number exactly the findings, and an empty review is not remediated |
| RemediationGuard.AllSecurityNotRemediated | scripts/remediation-guard.ts:131-139 | under the cap, a review made only of security findings is not remediated: every finding is a blocker, none is skipped, and a non-empty review gets the security-only reason |
| RemediationGuard.AllSecurityBuckets | scripts/remediation-guard.ts:117-129 | when every finding is a security finding, the security bucket is the whole input and the other two are empty |
| RemediationGuard.Classify | scripts/remediation-guard.ts:113-129 | the loop builds exactly the formatted security bucket, the formatted protected bucket and the actionable bucket |
| RemediationGuard.Evaluate | scripts/remediation-guard.ts:94-158 | the method's decision equals `Decide` on the same inputs |
| RemediationGuard.ParseAttemptLabel | scripts/remediation-guard.ts:75-77 | a label parses exactly when it is `remediation-attempt-` followed by one or more digits |
| RemediationGuard.AttemptLabelRoundTrip | scripts/remediation-guard.ts:75-77 | the label for attempt `n` parses back to `n` |
| RemediationGuard.MaxAttemptLabel | scripts/remediation-guard.ts:73-81 | the result bounds every label's attempt number and is 0 or carried by some label |
| RemediationGuard.AttemptCount | scripts/remediation-guard.ts:73-81 | the loop returns the largest attempt number among the labels, 0 when none matches |
| RemediationGuard.IsSecurityFindingExamples | scripts/remediation-guard.ts:185-220 | the injection and unsanitized messages are security findings; the null-check and Map messages are not |
| RemediationGuard.IsProtectedFileExamples | scripts/remediation-guard.ts:222-253 | workflow files and the fixed names are protected; ordinary source and test files are not |
| RemediationGuard.MockBuckets | scripts/remediation-guard.ts:255-288 | the mixed self-test findings fall into actionable, security and protected |
| RemediationGuard.MixedReviewExample | scripts/remediation-guard.ts:255-288 | the mixed self-test review gives one blocker, one skip and remediation |
| RemediationGuard.SecurityOnlyReasonMentionsSecurity | scripts/remediation-guard.ts:135 | the security-only reason contains `security-related` |
| RemediationGuard.SecurityOnlyExample | scripts/remediation-guard.ts:290-309 | a review with only an authentication finding is not remediated and gives the security-only reason |
| RemediationGuard.EmptyReviewExample | scripts/remediation-guard.ts:311-315 | an empty review is not remediated |

## Left out

- The `gh` CLI calls and the `GITHUB_REPOSITORY` variable (scripts/remediation-guard.ts:63-72, scripts/issue-implementer-guard.ts:48-55, scripts/issue-planner-guard.ts:22-29) are external I/O. The prior attempt count, the plan flag and the pull-request lookup are parameters, and a failed lookup is 0, `false` or none. The trimming and line splitting of the command output are not modelled: the scans take the lines as given.
- The `--evaluate` and `--self-test` blocks are command-line plumbing: environment variables, JSON parsing, console output and exit codes. Their assertions are stated as lemmas.
- Full Unicode case mapping is not modelled. Only ASCII letters change case.
- The JavaScript regex engine is not modelled. The fixed patterns and keyword lists are written out as predicates and constants.
- A finding is a record of a severity, a file, an optional line and a message. An absent file and an empty file are both the empty string, because the source treats both as "no file". A line is an optional natural number, because negative or fractional line numbers do not occur in review output.
- IssuePayload.Issue: the issue `number` is a natural number. The source types it as a JavaScript number, and negative or fractional issue numbers cannot be expressed here.
- Labels are modelled by name only, the one field the guards read.
- Strings are sequences of characters, not UTF-16 code units. Lengths for text outside the Basic Multilingual Plane therefore differ from JavaScript's.
- RemediationGuard.MaxAttempts: an inherited object key such as `constructor` used as strictness is not modelled. Every string other than the three known ones gets the default 10.
- RemediationGuard.ParseAttemptLabel: `parseInt` loses precision on digit strings past 2^53. The model parses to an unbounded natural number.
- ImplementerGuard.PRNumber: the same holds for the pull-request number read with `parseInt`. It is an unbounded natural number here.
- StringUtils.Truncate: `maxLength` is a JavaScript number, but the model takes an integer. A fractional `maxLength` such as 7.5 cannot be expressed.
- PlannerGuard.Evaluate and ImplementerGuard.Evaluate: the default arguments `skipPlanCheck = false` and `skipPRCheck = false` are required parameters here. A caller that omits them corresponds to passing `false`.
- RemediationGuard.Decide: the reason for the cap and for the remediate outcome is built as in the source, but the contract only pins the two fixed reasons: the security-only one and the no-actionable one.
- TriageGuard.Evaluate, PlannerGuard.Evaluate and ImplementerGuard.Evaluate: the free-text `reason` is built as in the source, but the contracts do not state its wording. The `skipReason` codes and the decision flags are stated.
- `tests/string-utils.test.ts` is a test harness. Its expectations are stated as lemmas.
