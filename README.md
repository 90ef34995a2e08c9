# git-tidy, modelled in Dafny

git-tidy is an interactive terminal wizard that cleans up git branches.

- It reads the repository's local and remote branches and merges them into one list.
- It drops protected and checked-out branches, then keeps those that match an OR of the chosen criteria. The criteria are merged, stale, older than N days, or matching a glob pattern.
- The user picks branches from the list, confirms, and the tool deletes them locally and on `origin`. A dry run is the default.

This project models the wizard's logic.

- **Text, Seqs:** JavaScript string helpers (`trim`, `split`, `parseInt`, `String(n)`) and a list `filter`.
- **Types:** the shared records.
- **DateUtil:** day arithmetic.
- **Config:** the protected-name rule.
- **Glob:** the pattern matcher.
- **BranchAnalyzer:** the fetch, filter, sort and statistics functions.
- **Git:** the pure parts of the git adapter: URL parsing, record construction, merged-list parsing, delete arguments.
- **Executor:** the deletion loop and its summary.
- **BranchSelect:** the selection step.
- **Criteria:** the criteria step.
- **Wizard:** the step order.
- **App:** the app's transition callbacks.

Each git or GitHub call becomes an input: its output, or whether it threw. The current instant `now` is an integer millisecond parameter.

## Model

| member | source | states |
|---|---|---|
| Config.ProtectedNames | src/utils/config.ts:6-27 | A name is protected iff it is one of `main`, `master`, `develop`, `development`, `staging`, `production`, or starts with `release/`. The comparison is case-sensitive. |
| Config.ProtectedExamples | src/utils/config.ts:13-23 | `main`, the bare `release/` and `release/1.2` are protected. |
| Config.MatchesProtectedPattern | src/utils/config.ts:19-27 | `matchesProtectedPattern`: some entry of the list matches the name. Its meaning is stated by `Config.ProtectedNames`, `Config.ProtectedExamples` and `Config.UnprotectedExamples`. |
| Config.UnprotectedExamples | src/utils/config.ts:19-27 | `release` without its slash, `Main` and `feature/main` are not protected. |
| DateUtil.DaysAgo | src/utils/date.ts:4-9 | The result is the whole number of days in \|now - date\|: d days <= \|now - date\| < d+1 days, never negative. |
| DateUtil.DaysAgoSymmetric | src/utils/date.ts:6-8 | A date x ms in the future is as many days away as one x ms in the past. |
| DateUtil.DaysAgoExamples | src/utils/date.ts:4-9 | The current instant gives 0, exactly 24 h ago gives 1, and 1 ms short of that gives 0. |
| DateUtil.IsOlderThan | src/utils/date.ts:38-40 | For n >= 0, true iff \|now - date\| >= (n+1) days, i.e. strictly more than n whole days. Always true for negative n. |
| DateUtil.ExactlyNDaysIsNotOlder | src/utils/date.ts:38-40 | A date exactly n days back is not older than n; one a day further back is. |
| DateUtil.AgeOf | src/utils/date.ts:14-33 | The buckets, each with its count bounds: 0 is today; 1..6 is days; 7..29 is floor(d/7) weeks, at most 4; 30..364 is floor(d/30) months, at most 12; 365 and more is floor(d/365) years. |
| DateUtil.FormatDaysAgo | src/utils/date.ts:14-33 | `formatDaysAgo` with the clock passed in. Its text reads back (`ParseAge`) as the bucket `AgeOf` of the elapsed days, so it determines bucket and count. The texts at the bucket edges are stated by the `DateUtil.FormatBoundaries*` lemmas. |
| DateUtil.FormatBoundariesDays | src/utils/date.ts:17-22 | 0 renders as "today", 1 as "1 day ago", 6 as "6 days ago". |
| DateUtil.FormatBoundariesWeeks | src/utils/date.ts:23-25 | 7 renders as "1 week ago" and 29 as "4 weeks ago". |
| DateUtil.FormatBoundariesMonths | src/utils/date.ts:26-28 | 30 renders as "1 month ago" and 364 as "12 months ago". |
| DateUtil.FormatBoundariesYears | src/utils/date.ts:29-31 | 365 renders as "1 year ago" and 730 as "2 years ago". |
| DateUtil.ParseRender | src/utils/date.ts:14-33 | The rendered text of every age reads back to that age, so no two buckets or counts share a text. |
| DateUtil.FormatDeterminesBucket | src/utils/date.ts:14-33 | Two day counts render alike iff they fall in the same bucket with the same count. |
| Glob.Matches | src/services/branch-analyzer.ts:98-108 | `matchesPattern`. Its meaning is stated by `Glob.LiteralPattern`, `Glob.LeadingStar`, `Glob.LeadingQuestion`, `Glob.LiteralHead` and `Glob.HeadThenStar`, and by the example lemmas. |
| Glob.LiteralPattern | src/services/branch-analyzer.ts:98-108 | A pattern without `*` or `?` matches iff it equals the whole name up to ASCII case. |
| Glob.LeadingStar | src/services/branch-analyzer.ts:103 | A leading `*` matches any run of characters (the empty run included) that has no line terminator. |
| Glob.LeadingQuestion | src/services/branch-analyzer.ts:104 | A leading `?` consumes exactly one character that is not a line terminator. |
| Glob.LiteralHead | src/services/branch-analyzer.ts:102-107 | A literal head of the pattern must match the name's head up to case. The rest of the pattern must match the rest of the name. |
| Glob.HeadThenStar | src/services/branch-analyzer.ts:102-107 | `lit*` matches iff the name starts with `lit` up to case and the rest has no line terminator. |
| Glob.FeatureAccepts | src/services/branch-analyzer.ts:98-108 | `feature/*` matches `feature/login`. |
| Glob.FeatureAcceptsAnyCase | src/services/branch-analyzer.ts:106 | `feature/*` matches `Feature/Login`. |
| Glob.FeatureRejects | src/services/branch-analyzer.ts:106 | `feature/*` rejects `feature` and `hotfix/login`. The match is anchored. |
| Glob.MetacharactersAreLiteral | src/services/branch-analyzer.ts:102 | `.`, `+`, `(`, `)` are literal: `a.b` does not match `axb`. |
| Glob.QuestionMarkIsOneCharacter | src/services/branch-analyzer.ts:104 | `fix-?` matches `fix-1` but not `fix-10`. |
| BranchAnalyzer.Keep | src/services/branch-analyzer.ts:69-90 | A branch is kept iff some active criterion holds (OR): merged, stale, age, or a non-empty pattern that matches. |
| BranchAnalyzer.FilterBranches | src/services/branch-analyzer.ts:51-93 | The output is a subsequence of the input and contains only eligible branches (not protected, not current). Each branch occurs exactly as often as in the input when it is listed, else never. With no toggle on, every eligible branch is listed. |
| BranchAnalyzer.EmptyPatternAloneListsNothing | src/services/branch-analyzer.ts:84-89 | The pattern toggle alone with an empty pattern lists nothing. |
| BranchAnalyzer.OrNotAnd | src/services/branch-analyzer.ts:69-90 | With merged and stale on, a merged but recent eligible branch is still listed. |
| BranchAnalyzer.IndexOfName | src/services/branch-analyzer.ts:29-31 | The first position holding the name, or the length when there is none. |
| BranchAnalyzer.FindIndexByName | src/services/branch-analyzer.ts:29-31 | `findIndex` by name: -1 when no entry has that name, otherwise the first entry with it. |
| BranchAnalyzer.FetchBranches | src/services/branch-analyzer.ts:11-46 | The loop's list equals `Fetched`: the local list for `local`, the remote list for `remote`, and the remote entries folded into the local list for `both`. |
| BranchAnalyzer.MergeShape | src/services/branch-analyzer.ts:27-39 | With unique names on each side, the merged list is the local list with `isRemote` set on the names that also exist remotely (nothing else changed), followed by the remote-only entries in remote order. |
| BranchAnalyzer.MergeNames | src/services/branch-analyzer.ts:27-39 | The merged list names exactly the local names and the remote names. |
| BranchAnalyzer.MergeKeepsNamesUnique | src/services/branch-analyzer.ts:27-39 | If local names are unique, the merged list holds each name once, whatever the remote list holds. |
| BranchAnalyzer.SortByAge | src/services/branch-analyzer.ts:113-117 | `sortByAge`. It keeps the length. `BranchAnalyzer.SortByAgeSorts` states it sorts and permutes; `BranchAnalyzer.SortByAgeIsStable` states it is stable. |
| BranchAnalyzer.SortByAgeSorts | src/services/branch-analyzer.ts:113-117 | The sorted list is ordered oldest commit first and is a permutation of the input. |
| BranchAnalyzer.SortByAgeIsStable | src/services/branch-analyzer.ts:113-117 | For each date, the branches bearing it keep their input order, as in a stable `Array.sort`. |
| BranchAnalyzer.GetBranchStats | src/services/branch-analyzer.ts:129-143 | The total is the list length and every count is at most the total. `local` equals the total iff every branch is local. |
| BranchAnalyzer.LocalAndRemoteCoverTotal | src/services/branch-analyzer.ts:129-143 | When every branch is local or remote, local + remote >= total. |
| Text.ParseInt | src/components/CriteriaStep.tsx:24 | `parseInt(s, 10)` is NaN (None) exactly when no digit follows the leading white space and an optional sign. |
| Text.ParseNatToString | src/components/CriteriaStep.tsx:116 | `parseInt` of `String(n)`, written as plain decimal digits (as JavaScript does below 10^21) and followed by any tail that does not start with a digit, reads n back. |
| Git.StripOrigin | src/services/git.ts:134 | Removes exactly one leading `origin/`, and only a leading one. |
| Git.GetRemoteInfo | src/services/git.ts:38-68 | None iff there is no origin URL or it is empty. A GitHub result has a non-empty owner without `/` and a non-empty repository. A non-GitHub result has empty owner and repository. |
| Git.SearchIsLeftmost | src/services/git.ts:52-53 | The unanchored match is taken at the leftmost position where the pattern matches. |
| Git.SearchNone | src/services/git.ts:52-53 | The search fails iff the pattern matches at no position. |
| Git.MatchRebuildsUrl | src/services/git.ts:52-61 | A match spells out its input: prefix, owner, `/`, repository, and possibly `.git`. |
| Git.SshUrlRoundTrip | src/services/git.ts:52-61 | `git@github.com:owner/repo[.git]` gives back owner and repo with `isGitHub`. |
| Git.HttpsUrlRoundTrip | src/services/git.ts:53-61 | `https://github.com/owner/repo[.git]` gives back owner and repo with `isGitHub`. |
| Git.OtherHostIsNotGitHub | src/services/git.ts:64 | A URL in which neither GitHub form occurs gives empty owner and repo and `isGitHub = false`. |
| Git.GetRepoInfo | src/services/git.ts:207-222 | None iff `git rev-parse` threw. The current branch is the trimmed output. The default branch is the argument if it is non-empty, else `main`. Owner, repo and `isGitHub` come from the remote info, else they are empty and false. |
| Git.RepoInfoOfOrigin | src/services/git.ts:38-68 | For any origin URL, the repository record is GitHub only with a non-empty owner without `/` and a non-empty repo. Otherwise both are empty. |
| Git.CleanLine | src/services/git.ts:182 | Trim, then strip a leading `*` and the white space after it. `Git.CleanCheckedOutLine`, `Git.CleanIndentedLine` and `Git.ListingNames` state that it recovers the name from either form of a `git branch` line. |
| Git.MergedNames | src/services/git.ts:179-182 | One cleaned name per output line. |
| Git.CleanLinesAt | src/services/git.ts:182 | Each line is trimmed, then a leading `*` and the spaces after it are removed. |
| Git.ListingNames | src/services/git.ts:179-182 | Cleaning a `git branch` listing (the current branch starred, the others indented) gives back the branch names. |
| Git.IsBranchMerged | src/services/git.ts:177-187 | A failed git call gives false. |
| Git.MergedFromListing | src/services/git.ts:177-187 | For a listing, true iff the branch or its name less `origin/` is listed. |
| Git.LocalListing | src/services/git.ts:73-114 | The list `getLocalBranches` returns for a listing, never longer than the listing. `Git.LocalListingShape` and `Git.LocalRecordFields` state its shape and fields, and `Git.GetLocalBranches` is proved equal to it. |
| Git.LocalListingShape | src/services/git.ts:73-114 | Records follow the names one for one, each from its log call, until the first log call that throws. That ends the list, and the partial list is returned. |
| Git.LocalRecordFields | src/services/git.ts:86-107 | Each local record is local and not remote. It is current iff its name is the checked-out branch, and protected iff it is the default branch or a protected name. It is merged iff listed as merged. |
| Git.GetLocalBranches | src/services/git.ts:73-114 | The loop returns `LocalListing`, or the empty list when `git branch` threw. |
| Git.RemoteListing | src/services/git.ts:119-172 | The list `getRemoteBranches` returns for a listing, never longer than the listing. `Git.RemoteListingSkip`, `Git.RemoteListingStop`, `Git.RemoteListingPush`, `Git.RemoteRecordFields` and `Git.RemoteListingAllLogged` state it, and `Git.GetRemoteBranches` is proved equal to it. |
| Git.RemoteListingSkip | src/services/git.ts:131-137 | A name containing `HEAD`, or naming the default branch once `origin/` is stripped, adds nothing. |
| Git.RemoteListingStop | src/services/git.ts:139-167 | A kept name whose log call throws ends the list. |
| Git.RemoteListingPush | src/services/git.ts:146-165 | A kept name with a successful log adds its record before the rest. A missing date becomes `now`. |
| Git.RemoteRecordFields | src/services/git.ts:131-165 | Each remote record is remote, not local and not current. Its name is a kept listing name less `origin/`, never the default branch. It is protected iff that name is a protected name. |
| Git.RemoteListingAllLogged | src/services/git.ts:119-172 | When no log call throws, the records are those of the kept names, in listing order. |
| Git.GetRemoteBranches | src/services/git.ts:119-172 | The loop returns `RemoteListing`, or the empty list when the listing threw. |
| Git.DeleteLocalArgs | src/services/git.ts:192-195 | `git branch -D name` iff forced, `-d` otherwise. |
| Git.DeleteRemoteArgs | src/services/git.ts:200-202 | The four arguments are `push`, the remote, `--delete` and the branch name, in that order. |
| Executor.ErrorText | src/components/ExecutionStep.tsx:52-69 | There is an error text iff some attempted delete threw. |
| Executor.ErrorTexts | src/components/ExecutionStep.tsx:52-69 | The texts are "Local: m", "Remote: m" and "Local: m1; Remote: m2". A non-Error value gives "Unknown error". |
| Executor.DeleteOne | src/components/ExecutionStep.tsx:30-70 | The field updates of one iteration produce `ExpectedResult` and issue `ExpectedCalls`. |
| Executor.DeleteBranches | src/components/ExecutionStep.tsx:26-89 | The loop's summary is `Summarize` of one expected result per branch, in order. It issues the expected calls of every branch, in order. |
| Executor.ResultsUpToAt | src/components/ExecutionStep.tsx:29-74 | Exactly one result per branch, and the k-th result is for the k-th branch. |
| Executor.Summarize | src/components/ExecutionStep.tsx:79-85 | The summary record of the collected results. `Executor.SummaryCounts` states its counts, and `Executor.DeleteBranches` is proved to return it. |
| Executor.SummaryCounts | src/components/ExecutionStep.tsx:79-85 | total = \|results\|, successful + failed = total, skipped = 0. |
| Executor.DryRunResult | src/components/ExecutionStep.tsx:40-44 | A dry run reports success with no error and `deletedLocal = isLocal`, `deletedRemote = isRemote`. It issues no command. |
| Executor.RealRunResult | src/components/ExecutionStep.tsx:45-70 | A side is deleted iff the branch lives there and its delete did not throw. Success fails iff an attempted delete threw. Success holds iff there is no error text. |
| Executor.RemoteAttemptedAfterLocalFailure | src/components/ExecutionStep.tsx:47-61 | A remote branch's push delete is issued even when its local delete fails. A branch that is both local and remote gets `branch -D` then `push origin --delete`. |
| Executor.DryRunCallsNothing | src/components/ExecutionStep.tsx:40-44 | A dry run issues no git command for any branch. |
| Executor.RealRunCallCount | src/components/ExecutionStep.tsx:47-61 | A real run issues one command per side each branch lives on. |
| BranchSelect.Location | src/components/BranchSelectStep.tsx:24-28 | `local+remote` iff both flags are set, `local` iff only local, `remote` iff not local. |
| BranchSelect.Inverted | src/components/BranchSelectStep.tsx:67-72 | The names the `i` key selects: the listed names not selected, in list order. `BranchSelect.InvertedMember`, `BranchSelect.InvertTwice`, `BranchSelect.InvertNothing` and `BranchSelect.InvertEverything` state it, and `BranchSelect.SelectStep.HandleInput` sets the selection to it. |
| BranchSelect.InvertedMember | src/components/BranchSelectStep.tsx:67-72 | Inverting selects exactly the listed names that were not selected. |
| BranchSelect.InvertTwice | src/components/BranchSelectStep.tsx:67-72 | Inverting a selection of listed names twice gives back the same set of names. |
| BranchSelect.InvertNothing | src/components/BranchSelectStep.tsx:67-72 | Inverting an empty selection selects every name, in list order. |
| BranchSelect.InvertEverything | src/components/BranchSelectStep.tsx:67-72 | Inverting a full selection selects nothing. |
| BranchSelect.Chosen | src/components/BranchSelectStep.tsx:49 | The branches submitted on Enter: the listed branches whose name is selected. `BranchSelect.ChosenBranches` states its order, membership and multiplicities, and `BranchSelect.SelectStep.HandleInput` submits it. |
| BranchSelect.ChosenBranches | src/components/BranchSelectStep.tsx:49 | The submitted branches are a subsequence of the list (list order, not selection order). Each listed branch whose name is selected occurs as often as in the list; every other branch never. |
| BranchSelect.SelectStep.constructor | src/components/BranchSelectStep.tsx:18-19 | It starts with an empty selection and key 0. |
| BranchSelect.SelectStep.Change | src/components/BranchSelectStep.tsx:76-78 | The selection becomes the ticked values. |
| BranchSelect.SelectStep.HandleInput | src/components/BranchSelectStep.tsx:41-74 | Esc goes back. Enter with a non-empty selection submits the chosen branches. Otherwise `a` selects all names, `n` none, and `i` the inverse, each bumping the key; other keys change nothing. |
| Criteria.ValidateNumber | src/components/CriteriaStep.tsx:23-29 | An accepted value is always > 0. |
| Criteria.ValidateNumberAccepts | src/components/CriteriaStep.tsx:23-29 | A value is accepted iff `parseInt` gives a number above 0, and that number is what is returned. |
| Criteria.ValidateRendered | src/components/CriteriaStep.tsx:23-29 | A positive number written out by `String(n)` in plain decimal digits (as JavaScript does below 10^21) is accepted as itself. |
| Criteria.ValidateExamples | src/components/CriteriaStep.tsx:23-29 | "abc", "0" and "-5" are refused; "14 days" is read as 14. |
| Criteria.OrDefault | src/components/CriteriaStep.tsx:92-96 | `parseInt(s, 10) \|\| d`. It is stated by `Criteria.OrDefaultOfValid` (an accepted text is never replaced) and `Criteria.OrDefaultExamples`. |
| Criteria.OrDefaultOfValid | src/components/CriteriaStep.tsx:92-96 | `parseInt(s) \|\| d` of an accepted value is that value, never the default. |
| Criteria.OrDefaultExamples | src/components/CriteriaStep.tsx:92-96 | "-3" stays -3; "0" and "" fall back to the default. |
| Criteria.FiltersFrom | src/components/CriteriaStep.tsx:89-97 | The `FilterOptions` record built from the chosen criteria and the three texts. `Criteria.FiltersFromRendered` and `Criteria.DefaultsReadBack` state its fields, and `Criteria.CriteriaStep.EmitsPositiveDays` its positive counts. |
| Criteria.FiltersFromRendered | src/components/CriteriaStep.tsx:89-97 | Each toggle is the membership of its criterion. The day counts are the numbers written in the texts. The pattern is kept verbatim. |
| Criteria.DefaultsReadBack | src/components/CriteriaStep.tsx:17-18 | The initial texts read back as 30 and 60 days. |
| Criteria.PromptOrder | src/components/CriteriaStep.tsx:69-153 | From the list: the stale prompt iff stale is chosen; the age prompt iff stale and age are both chosen; the pattern prompt iff pattern is chosen; in that order. |
| Criteria.AgeAloneIsNeverAsked | src/components/CriteriaStep.tsx:69-86 | With age chosen but not stale, the age prompt is never shown. |
| Criteria.SubmitStep | src/components/CriteriaStep.tsx:69-86 | The four checks of `handleSubmit`: the next input mode, or None when it emits. `Criteria.SubmitStepFollowsPrompts` relates them to the prompt order, and `Criteria.CriteriaStep.HandleSubmit` is proved against them. |
| Criteria.SubmitStepFollowsPrompts | src/components/CriteriaStep.tsx:69-100 | `handleSubmit` from the list follows the prompt order. From a number prompt with nothing further to ask, it emits. |
| Criteria.StalePromptEmitsAsWritten | src/components/CriteriaStep.tsx:116-122 | As written, the stale prompt's emission builds the filters from the stale text held before the submission. `Criteria.StaleAsWrittenKeepsEarlierCount` states that it emits exactly when the corrected one does, with the earlier count, and so differs whenever that count is not the typed number. `Criteria.StaleValueLostAsWritten` gives an instance. |
| Criteria.StaleAsWrittenKeepsEarlierCount | src/components/CriteriaStep.tsx:116-122 | For every input: the as-written stale emission happens iff the corrected one does. It carries `parseInt(old text) \|\| 30` as its stale count, and it differs from the corrected emission whenever that count is not the typed number. |
| Criteria.StaleValueLostAsWritten | src/components/CriteriaStep.tsx:116-122 | As written, typing 7 at the stale prompt with only stale chosen emits staleDays 30. |
| Criteria.StalePromptEmits | src/components/CriteriaStep.tsx:109-124 | Corrected: emits iff the number is valid and neither age nor pattern is chosen. Then it carries the typed number. |
| Criteria.AgePromptEmitsAsWritten | src/components/CriteriaStep.tsx:147-151 | As written, the age prompt's emission builds the filters from the age text held before the submission. `Criteria.AgeAsWrittenKeepsEarlierCount` states that it emits exactly when the corrected one does, with the earlier count, and so differs whenever that count is not the typed number. `Criteria.AgeValueLostAsWritten` gives an instance. |
| Criteria.AgeAsWrittenKeepsEarlierCount | src/components/CriteriaStep.tsx:147-151 | For every input: the as-written age emission happens iff the corrected one does. It carries `parseInt(old text) \|\| 60` as its age count, and it differs from the corrected emission whenever that count is not the typed number. |
| Criteria.AgeValueLostAsWritten | src/components/CriteriaStep.tsx:147-151 | As written, typing 90 at the age prompt with stale and age chosen emits ageDays 60. |
| Criteria.AgePromptEmits | src/components/CriteriaStep.tsx:140-153 | Corrected: emits iff the number is valid and pattern is not chosen. Then it carries the typed number. |
| Criteria.CriteriaStep.constructor | src/components/CriteriaStep.tsx:15-20 | Nothing is chosen, the mode is the list, there is no error, the texts are "30" and "60", and the pattern is `feature/*`. |
| Criteria.CriteriaStep.EmitsPositiveDays | src/components/CriteriaStep.tsx:89-97 | Emitted filters always carry positive day counts. |
| Criteria.CriteriaStep.ChangeCriteria | src/components/CriteriaStep.tsx:65-67 | The chosen criteria become the ticked values. |
| Criteria.CriteriaStep.HandleSubmit | src/components/CriteriaStep.tsx:69-100 | It asks for the next input per the four checks on the current mode. Otherwise it emits the filters built from the current texts and leaves the mode. |
| Criteria.CriteriaStep.HandleKey | src/components/CriteriaStep.tsx:50-63 | Esc in a prompt returns to the list; Esc in the list goes back. Enter in the list submits along the prompt order. Other keys change nothing. |
| Criteria.CriteriaStep.SubmitStaleDays | src/components/CriteriaStep.tsx:109-124 | An invalid number sets the error and stays. A valid one is stored and clears the error. It goes on to the age prompt, else the pattern prompt, else emits the corrected filters with the typed number. |
| Criteria.CriteriaStep.AcceptStaleDays | src/components/CriteriaStep.tsx:115-123 | The accepted number is stored. Either the next prompt is set, or the filters are emitted with that number. |
| Criteria.CriteriaStep.SubmitAgeDays | src/components/CriteriaStep.tsx:140-153 | An invalid number sets the error and stays. A valid one is stored and goes on to the pattern prompt, else emits the corrected filters with the typed number. |
| Criteria.CriteriaStep.AcceptAgeDays | src/components/CriteriaStep.tsx:146-152 | The accepted number is stored. Either the pattern prompt is set, or the filters are emitted with that number. |
| Criteria.CriteriaStep.SubmitPattern | src/components/CriteriaStep.tsx:168-180 | The text is stored and emitted verbatim as `patternValue`. |
| Wizard.StepIndex | src/hooks/useWizard.ts:4-19 | Every step is listed, at the returned position and at none before it. |
| Wizard.OrderIsUnique | src/hooks/useWizard.ts:4-13 | No step is listed twice. |
| Wizard.NextOf | src/hooks/useWizard.ts:18-23 | The step `nextStep` moves to. `Wizard.NextAdvances`, `Wizard.PrevUndoesNext` and `Wizard.WalkForward` state it, and `Wizard.Wizard.NextStep` is proved against it. |
| Wizard.PrevOf | src/hooks/useWizard.ts:25-30 | The step `prevStep` moves to. `Wizard.PrevRetreats` and `Wizard.PrevUndoesNext` state it, and `Wizard.Wizard.PrevStep` is proved against it. |
| Wizard.NextAdvances | src/hooks/useWizard.ts:18-23 | Next advances one place, and only `summary` stays. |
| Wizard.PrevRetreats | src/hooks/useWizard.ts:25-30 | Prev retreats one place, and only `init` stays. |
| Wizard.PrevUndoesNext | src/hooks/useWizard.ts:18-30 | Prev after next restores every step but `summary`. Next after prev restores every step but `init`. |
| Wizard.WalkForward | src/hooks/useWizard.ts:4-23 | Next walks init, scope, criteria, loading, select, confirm, execute, summary. |
| Wizard.Wizard.constructor | src/hooks/useWizard.ts:15-16 | The wizard starts at the given step. |
| Wizard.Wizard.NextStep | src/hooks/useWizard.ts:18-23 | The step becomes `NextOf` of the old one. |
| Wizard.Wizard.PrevStep | src/hooks/useWizard.ts:25-30 | The step becomes `PrevOf` of the old one. |
| Wizard.Wizard.GoToStep | src/hooks/useWizard.ts:32-34 | The step becomes exactly the requested one. |
| App.BackOf | src/app.tsx:156-170 | The step `handleBack` moves to. `App.BackMovesEarlier` states it, and `App.App.HandleBack` is proved against it. |
| App.BackMovesEarlier | src/app.tsx:156-170 | Back changes only `criteria`, `select` and `confirm`, always to an earlier step. From `select` it skips `loading`. |
| App.App.constructor | src/app.tsx:33-53 | The app starts at `init` with no repository info, scope `both`, the initial filters, empty lists, no summary, no error, and not executing for real. |
| App.App.Render | src/app.tsx:173-237 | An error replaces every view. The execute and summary views get `isDryRun = !execute && !executeForReal`. |
| App.App.IsDryRun | src/app.tsx:226-234 | `!options.execute && !executeForReal`, the `isDryRun` given to both the execution and the summary step. `App.App.Render` passes it to both views, and `App.App.HandleDeleteForReal` ensures it is false afterwards. |
| App.App.Initialize | src/app.tsx:56-93 | Outside a repository only the error is set and the step stays. Otherwise the info is stored (the default branch replaced by GitHub's when it is a GitHub repository and a token is set) and the step becomes `scope`. |
| App.App.HandleScopeSelect | src/app.tsx:96-99 | Records the scope and goes to `criteria`. |
| App.App.HandleCriteriaSelect | src/app.tsx:102-129 | Stores the filters and keeps only eligible branches offered. Without repository info, it sets the error and stays at `loading`. Otherwise it stores the fetched list and its `FilterBranches` result and goes to `select`. |
| App.App.HandleBranchSelect | src/app.tsx:132-135 | Stores the selection and goes to `confirm`. |
| App.App.HandleConfirm | src/app.tsx:138-140 | Goes to `execute`. |
| App.App.HandleDeletionComplete | src/app.tsx:143-146 | Stores the summary and goes to `summary`. |
| App.App.HandleDeleteForReal | src/app.tsx:149-153 | Sets `executeForReal`, clears the summary and goes to `execute`. From then on it is not a dry run. |
| App.App.HandleBack | src/app.tsx:156-170 | The step becomes `BackOf` of the old step: criteria to scope, select to criteria, confirm to select, others unchanged. |

## Left out

- **I/O:** every `simple-git` and Octokit call is replaced by its result or by whether it threw, passed in as a parameter.
  - `src/services/github.ts` is not part of this model: it is network access only.
  - `isGitRepo`, `initGit` and `getCurrentBranch` are likewise inputs.
- **Time:** `new Date()` and the ISO date parsing of `git log` are replaced by integer millisecond inputs. A single `now` serves each call of `filterBranches`. Likewise, in `Git.GetLocalBranches` and `Git.GetRemoteBranches` one `now` stands in for every missing commit date, where the source calls `new Date()` once per branch. One `git branch --merged` output likewise serves every `isBranchMerged` check of a listing, where the source runs that command once per branch (src/services/git.ts:88-94 and 146-152). The model therefore does not capture a listing whose merged set or clock changes while it is being built.
- **UI:** Ink/React rendering, colours, spinners, display truncation, `Header.tsx`, `ScopeStep.tsx`, `ConfirmStep.tsx` and `SummaryStep.tsx` are out, as are the `setTimeout` delays and the async/effect scheduling. Their callbacks are the modelled `App` methods.
- **`handleSubmit` in `BranchSelectStep.tsx` (lines 80-83):** not wired to any component. Only the Enter path of the key handler submits.
- **`sortByName`:** it depends on the locale through `localeCompare`.
- **`src/cli.ts`, `src/index.tsx`:** argument parsing. `--yes` is never consulted. `--execute` is the `App.execute` constant.
- **Glob.Matches:** case folding is ASCII only (JavaScript's `i` flag also folds non-ASCII letters). `*` and `?` never match a line terminator, as a JavaScript `.` does not. A Dafny `char` is a Unicode scalar value, so `?` consumes one scalar value. The source's regular expression has no `u` flag, so its `.` consumes one UTF-16 code unit. The two differ on characters outside the Basic Multilingual Plane: `fix-?` rejects `fix-` followed by an emoji in the source (two code units) but accepts it in this model.
- **Text.ParseInt:** reads an unbounded integer. It does not model the loss of precision of JavaScript numbers beyond 2^53. Strings are sequences of Unicode scalar values; their UTF-16 encoding is not modelled.
- **Text.NatToString:** `String(n)` is modelled as the plain decimal digits of n. JavaScript writes numbers from 10^21 upward in exponent form (`String(1e21)` is `"1e+21"`), which `parseInt(…, 10)` reads back as 1. So the source does not carry a typed day count of 10^21 or more through `setStaleDays`/`setAgeDays` (src/components/CriteriaStep.tsx:116 and 147) to the filters, and the model does.
- **Text.ParseNatToString:** the read-back holds in JavaScript only for n below 10^21, where `String(n)` is plain digits; see Text.NatToString.
- **Criteria.ValidateRendered:** likewise holds in JavaScript only for n below 10^21; at and above it, `validateNumber(String(n))` gives 1.
- **Git.OtherHostIsNotGitHub:** requires that neither URL prefix occurs anywhere in the URL. This is stronger than "neither pattern matches". `GetRemoteInfo` itself covers every URL.
- **Git.HttpsUrlRoundTrip:** requires that owner and repository hold no at sign, so that the SSH form, tried first, cannot match. GitHub names never hold one.
- **BranchAnalyzer.GetBranchStats:** states bounds and the all-local case rather than each count as a filter length.
- **Criteria.ValidateNumber:** its own contract states only positivity. The full characterisation is `Criteria.ValidateNumberAccepts`.
- **Criteria.CriteriaStep:** the number prompts keep their texts as positive numbers written out (`Valid`). This is true of every state the step reaches, since the texts start as "30" and "60" and only accepted numbers are written.
- **Branch listings:** the names that `simple-git` reads from `git branch` and `git branch -r` (`result.all`) are inputs. The parsing of git's output there is outside the model.
- **App.App.HandleCriteriaSelect:** takes the local and remote branch records as inputs. It does not build them with `Git.GetLocalBranches` and `Git.GetRemoteBranches` from `repoInfo.value.defaultBranch` and `currentBranch`. So the model does not state end to end that the default branch is never offered as a remote branch, nor which local records are marked current or protected. `Initialize` may have replaced that default branch with GitHub's. Those facts are stated per listing by `Git.LocalRecordFields` and `Git.RemoteRecordFields`.

## Findings

| source | as written | input that shows it | evidently intended | confidence | as-written member | corrected member |
|---|---|---|---|---|---|---|
| src/components/CriteriaStep.tsx:116-122 | The stale prompt stores the typed number with `setStaleDays`, then calls `handleSubmit` in the same handler. That closure still holds the previous `staleDays` text, so the emitted filters carry the old count. | Only `stale` chosen, type 7 at the stale prompt: the filters carry staleDays 30. | The emitted staleDays is the number just typed. | not executed | Criteria.StalePromptEmitsAsWritten, Criteria.StaleAsWrittenKeepsEarlierCount, Criteria.StaleValueLostAsWritten | Criteria.StalePromptEmits |
| src/components/CriteriaStep.tsx:147-151 | The age prompt stores the number with `setAgeDays`, then calls `handleSubmit`, which reads the previous `ageDays` text. | `stale` and `age` chosen, the stale count left at 30, then 90 typed at the age prompt: the filters carry ageDays 60. | The emitted ageDays is the number just typed. | not executed | Criteria.AgePromptEmitsAsWritten, Criteria.AgeAsWrittenKeepsEarlierCount, Criteria.AgeValueLostAsWritten | Criteria.AgePromptEmits |
