# Branch-policy gate for pull requests (action-pr-limits)

A GitHub Action that decides whether a pull request may proceed. It reads
two optional newline-separated inputs, `whitelist` and `blacklist`, turns
each into a list of lower-cased branch names, and checks the pull
request's head branch against them: a non-empty whitelist alone decides
(the head branch must be on it); otherwise a non-empty blacklist decides
(the head branch must not be on it); with both empty the pull request
passes with a warning. It reports through leveled log lines and marks the
job failed when the pull request is rejected. Any event other than
`pull_request` gives a single warning and nothing else.

The model has three modules:

- `JsStrings` (`jsstrings.dfy`): the string built-ins the gate uses,
  `toLowerCase` on ASCII (`Lower`) and `split` on one character (`Split`),
  with `Join` as the partner of `Split`.
- `JsArrays` (`jsarrays.dfy`): the array built-ins `find`, `filter`, `map`,
  and JavaScript truthiness of the value `find` returns.
- `BranchPolicy` (`branchpolicy.dfy`): `getInputs` as the pure function
  `GetInputs`; `handlePullRequest` and `main` as the methods
  `HandlePullRequest` and `Run`, which build the ordered sequence of
  reported events step by step, with the early returns of the source, and
  are proved equal to the specification function `Trace`. The calls to
  `core.info`, `core.warning`, `core.error` and `core.setFailed` become
  events `Log(Info | Warning | Error, message)` and `Failed(reason)`.
  Messages are tagged values carrying the branch names the source puts in
  them, not formatted text.

`HandlePullRequest` tests membership exactly as the source does, with
`find` and a truthiness test. For an arbitrary list that test holds when
the head branch is on the list and is not the empty string (`OnList`);
because `GetInputs` never produces an empty entry, for the lists the gate
actually uses this is plain membership (`NormalisedOnList`,
`NormalisedRejected`, `GateRejects`).

The outcome messages in the source name the base branch although the
branch looked up on the lists is the head branch. The model keeps the
messages as written (`OutcomeNamesBaseRef`).

Where the written description of the system and the code differ, the model
follows the code: entries are split on `'\n'` only, so a `'\r'` before a
line break stays part of the entry; the lists are ordered sequences that
keep duplicates, not sets.

## Model

| member | source | states |
|---|---|---|
| `JsStrings.Lower` | main.ts:15 | lower-casing keeps the length, leaves no upper-case letter, keeps every other character and moves each upper-case letter to its lower-case partner |
| `JsStrings.LowerIdempotent` | main.ts:15 | lower-casing twice equals lower-casing once |
| `JsStrings.Split` | main.ts:13 | splitting on `'\n'` gives at least one piece and no piece holds the separator |
| `JsStrings.SplitAppend` | main.ts:13 | the pieces of `a + "\n" + b` are the pieces of `a` followed by the pieces of `b` |
| `JsStrings.SplitJoin` | main.ts:13 | splitting a joined non-empty list of separator-free pieces gives the list back |
| `JsStrings.JoinSplit` | main.ts:13 | joining the pieces of any string gives the string back |
| `JsArrays.Find` | main.ts:49-50 | `find` returns the first element satisfying the predicate, or `undefined` when none does |
| `JsArrays.TruthyFind` | main.ts:49-53 | the truthy `find(b => b === h)` test holds exactly when `h` is on the list and is not the empty string |
| `JsArrays.Filter` | main.ts:14 | `filter` keeps exactly the elements satisfying the predicate and nothing else |
| `JsArrays.FilterAppend` | main.ts:14 | filtering a concatenation filters each part, in order |
| `JsArrays.Map` | main.ts:15 | `map` applies the function to every element, in order, keeping the length |
| `JsArrays.MapAppend` | main.ts:15 | mapping a concatenation maps each part, in order |
| `BranchPolicy.GetInputs` | main.ts:5-16 | an empty input gives no branches; no entry is empty, holds a line break, or has an upper-case letter |
| `BranchPolicy.GetInputsPipeline` | main.ts:8-15 | the early return on an empty input agrees with the split/filter/map pipeline |
| `BranchPolicy.GetInputsLine` | main.ts:12-15 | a single line gives its lower-cased self unless it is exactly empty; whitespace-only and carriage-return-terminated lines are kept |
| `BranchPolicy.GetInputsAppend` | main.ts:12-15 | the entries of `a + "\n" + b` are those of `a` followed by those of `b` (order is kept) |
| `BranchPolicy.GetInputsOnlyLineBreaks` | main.ts:8-15 | an input made only of line breaks gives no branches |
| `BranchPolicy.GetInputsMembers` | main.ts:12-15 | a name is listed exactly when some non-empty line lower-cases to it |
| `BranchPolicy.GetInputsIdempotent` | main.ts:12-15 | normalising the re-joined normalised list gives the same list |
| `BranchPolicy.CaseInsensitiveMatch` | main.ts:14-15 | a non-empty input line equal to the head branch up to case puts the lower-cased head branch on the list |
| `BranchPolicy.HandlePullRequest` | main.ts:30-71 | the events reported are exactly the advisory, the three info lines and the whitelist-or-blacklist ruling of `Trace` |
| `BranchPolicy.Run` | main.ts:18-28 | a non-`pull_request` event gives exactly one warning (so no evaluation and no failure signal); a `pull_request` event gives the `Trace` of the two normalised lists |
| `BranchPolicy.TraceLayout` | main.ts:31-47 | at most one warning, first, emitted exactly when both or neither list is non-empty; "both specified" exactly when both are non-empty, "both empty" exactly when both are empty; then the three info lines |
| `BranchPolicy.ErrorsAndFailure` | main.ts:52-70 | error lines and failure signals are equal in number and at most one; an error line is immediately followed by the failure signal, which ends the trace |
| `BranchPolicy.WhitelistDecides` | main.ts:52-60 | with a non-empty whitelist the failure signal is set exactly when the head branch is not found on it |
| `BranchPolicy.WhitelistIgnoresBlacklist` | main.ts:49-60 | with a non-empty whitelist the outcome events and the failure signal are the same for every blacklist |
| `BranchPolicy.VerdictIsRuling` | main.ts:52-71 | the events after the advisory and the info lines are the whitelist-or-blacklist ruling |
| `BranchPolicy.BlacklistDecides` | main.ts:62-70 | with an empty whitelist and a non-empty blacklist the failure signal is set exactly when the head branch is found on the blacklist |
| `BranchPolicy.BothEmptyPasses` | main.ts:36-37 | with both lists empty: no failure signal, no error, one "both empty" warning first, no outcome message |
| `BranchPolicy.OutcomeNamesBaseRef` | main.ts:54-67 | the outcome message and the failure message name the lower-cased base branch; the failure message names the head branch after it |
| `BranchPolicy.NormalisedOnList` | main.ts:49-53 | on a normalised list the truthy `find` test is plain membership |
| `BranchPolicy.GateRejects` | main.ts:25-27 | on normalised inputs the job fails exactly when the lower-cased head branch is missing from a non-empty whitelist, or is on the blacklist when the whitelist is empty |
| `BranchPolicy.NormalisedRejected` | main.ts:52-70 | for lists without an empty entry, the failure signal is set exactly when plain membership of the head branch rejects the pull request |

## Left out

- The `@actions/core` calls (`getInput`, `info`, `warning`, `error`, `setFailed`) are foreign I/O: they become parameters (the raw input strings) and returned events. Any trimming `getInput` applies to the raw string happens before the model's input.
- `setFailed` in `@actions/core` also sets the process exit code and echoes its message as an error line; the model records it as one `Failed` event.
- The ambient `github.context` and the extraction of `number`, `base.ref` and `head.ref` from the webhook payload (main.ts:40-43): these arrive as the `PullRequest` parameter, and the base and head refs are lower-cased by the same `Lower` as the lists.
- The exact wording of the messages and the `JSON.stringify` rendering of the lists in the info lines (main.ts:46-47): messages are tagged values carrying the lists and branch names.
- `JsStrings.Lower`: models ASCII lower-casing only, not the full Unicode `toLowerCase`, which has no counterpart in the language.
- The top-level `main()` call at module load (main.ts:73).
