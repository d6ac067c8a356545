# trim_spaces_in_paths, modelled in Dafny

`trim_spaces_in_paths` is a pre-commit hook. It receives the staged paths and
brings every component of each path into a normal form:

- the ASCII spaces at both edges of a component are always removed;
- the spaces inside a component are treated by the `--internal-style` option:
  - `none` leaves them as they are;
  - `collapse` turns each run into one space;
  - `underscore` turns each space into `_`;
  - `remove` deletes them.

A path is not renamed, and is reported instead, in two cases:

- one of its components would become empty;
- its target was already claimed by another staged path.

The other renames are done with `git mv`. They run deepest path first. When
`git mv` fails, the hook falls back to a plain rename followed by
re-staging. The exit status is:

- 0 when nothing had to change;
- 1 when some path could not be fixed;
- 2 outside a repository or for an invalid style;
- 3 when files were renamed.

The model has four modules, each in its own file:

- `Normalize` (`normalize.dfy`) covers `normalize_component` and
  `normalize_path`. It holds:
  - the edge trim and the three internal styles, as functions;
  - the `collapse` loop and the component loop, as methods proved against
    those functions;
  - the split on `/` and the join.
- `Args` (`args.dfy`) covers `parse_args`. It holds:
  - the parse as a function over the arguments;
  - the loop that stops at the first invalid style, as a method.
- `Planner` (`planner.dfy`) covers the planning loop of `main`:
  - a step function over the loop's state (plan, problems, claimed targets);
  - the invariant that state keeps;
  - the depth ordering of the plan, as a stable insertion sort.
- `Executor` (`executor.dfy`) covers `git_mv`, the execution loop and the
  exit status.
  - The answers of `git` and of the file system are given as a `MoveEnv`
    value for each rename.
  - Each rename records the commands it issues.
  - Lemmas state the effect of those commands on the set of paths the index
    tracks.

`Scenarios` (`scenarios.dfy`) states the behaviour that the hook's
documentation and tests show on examples, for every input of the same shape:
arbitrary words and arbitrary runs of spaces.

## Model

| member | source | states |
|---|---|---|
| Normalize.TrimLeft | trim_spaces_in_paths/trim_spaces_in_paths.py:27 | the left half of `strip(" ")`: the result is no longer than the input and does not start with a space |
| Normalize.TrimLeftDropsSpaces | trim_spaces_in_paths/trim_spaces_in_paths.py:27 | the result is a suffix of the input, and everything dropped before it is a space |
| Normalize.TrimRight | trim_spaces_in_paths/trim_spaces_in_paths.py:27 | the right half of `strip(" ")`: the result does not end with a space and keeps the first character |
| Normalize.TrimRightDropsSpaces | trim_spaces_in_paths/trim_spaces_in_paths.py:27 | the result is a prefix of the input, and everything dropped after it is a space |
| Normalize.Trimmed | trim_spaces_in_paths/trim_spaces_in_paths.py:27 | a trimmed component neither starts nor ends with a space |
| Normalize.TrimmedEmpty | trim_spaces_in_paths/trim_spaces_in_paths.py:27 | trimming gives the empty string exactly when the component holds only spaces |
| Normalize.TrimmedKeepsNonSpaces | trim_spaces_in_paths/trim_spaces_in_paths.py:27 | trimming removes only spaces: the non-space characters stay, in order |
| Normalize.TrimLeftKeepsNonSpaces | trim_spaces_in_paths/trim_spaces_in_paths.py:27 | the left trim removes only spaces |
| Normalize.TrimRightKeepsNonSpaces | trim_spaces_in_paths/trim_spaces_in_paths.py:27 | the right trim removes only spaces |
| Normalize.TrimmedUnchanged | trim_spaces_in_paths/trim_spaces_in_paths.py:27 | a component without edge spaces is left as it is |
| Normalize.TrimmedPadded | trim_spaces_in_paths/trim_spaces_in_paths.py:27 | trimming removes exactly the padding of spaces around a non-empty text without edge spaces |
| Normalize.TrimLeftPadded | trim_spaces_in_paths/trim_spaces_in_paths.py:27 | the left trim removes exactly a leading run of spaces |
| Normalize.TrimRightPadded | trim_spaces_in_paths/trim_spaces_in_paths.py:27 | the right trim removes exactly a trailing run of spaces |
| Normalize.Removed | trim_spaces_in_paths/trim_spaces_in_paths.py:45-46 | `replace(" ", "")` never makes a component longer |
| Normalize.RemovedNoSpace | trim_spaces_in_paths/trim_spaces_in_paths.py:45-46 | after `remove` no space is left |
| Normalize.RemovedSnoc | trim_spaces_in_paths/trim_spaces_in_paths.py:45-46 | a final space is dropped and any other final character is kept |
| Normalize.RemovedAppend | trim_spaces_in_paths/trim_spaces_in_paths.py:45-46 | removal works piece by piece over a concatenation |
| Normalize.RemovedAllSpaces | trim_spaces_in_paths/trim_spaces_in_paths.py:45-46 | a run of spaces is removed entirely |
| Normalize.RemovedUnchanged | trim_spaces_in_paths/trim_spaces_in_paths.py:45-46 | a text without spaces is left as it is |
| Normalize.RemovedKeeps | trim_spaces_in_paths/trim_spaces_in_paths.py:45-46 | every character other than a space occurs in the result exactly when it occurs in the input |
| Normalize.Underscored | trim_spaces_in_paths/trim_spaces_in_paths.py:43-44 | `replace(" ", "_")` keeps the length |
| Normalize.UnderscoredPointwise | trim_spaces_in_paths/trim_spaces_in_paths.py:43-44 | each space becomes `_` in its own position, and every other character stays in place |
| Normalize.UnderscoredAppend | trim_spaces_in_paths/trim_spaces_in_paths.py:43-44 | replacement works piece by piece over a concatenation |
| Normalize.UnderscoredNoSpace | trim_spaces_in_paths/trim_spaces_in_paths.py:43-44 | after `underscore` no space is left |
| Normalize.UnderscoredUnchanged | trim_spaces_in_paths/trim_spaces_in_paths.py:43-44 | a text without spaces is left as it is |
| Normalize.Collapsed | trim_spaces_in_paths/trim_spaces_in_paths.py:31-42 | collapsing never makes a component longer |
| Normalize.CollapsedEdges | trim_spaces_in_paths/trim_spaces_in_paths.py:31-42 | collapsing keeps the first and the last character of a non-empty text, so the trim is preserved |
| Normalize.CollapsedNoDoubleSpace | trim_spaces_in_paths/trim_spaces_in_paths.py:31-42 | after `collapse` no two spaces are adjacent |
| Normalize.CollapsedKeepsNonSpaces | trim_spaces_in_paths/trim_spaces_in_paths.py:31-42 | collapsing removes only spaces: the non-space characters stay, in order |
| Normalize.CollapsedUnchanged | trim_spaces_in_paths/trim_spaces_in_paths.py:31-42 | a text without two adjacent spaces is left as it is |
| Normalize.CollapsedSnocKeep | trim_spaces_in_paths/trim_spaces_in_paths.py:34-41 | a character is appended unless it is a space that follows a space |
| Normalize.CollapsedSnocDrop | trim_spaces_in_paths/trim_spaces_in_paths.py:35-38 | a space after a space is dropped |
| Normalize.CollapsedAppend | trim_spaces_in_paths/trim_spaces_in_paths.py:31-42 | collapsing works piece by piece when no run of spaces straddles the cut |
| Normalize.CollapsedAppendStep | trim_spaces_in_paths/trim_spaces_in_paths.py:34-41 | one loop step keeps the piecewise equation of `CollapsedAppend` |
| Normalize.CollapsedSpaces | trim_spaces_in_paths/trim_spaces_in_paths.py:31-42 | a non-empty run of spaces becomes one space |
| Normalize.CollapsedRun | trim_spaces_in_paths/trim_spaces_in_paths.py:31-42 | a run of spaces between two non-spaces becomes exactly one space, and the two sides are collapsed on their own |
| Normalize.CollapseSpaces | trim_spaces_in_paths/trim_spaces_in_paths.py:31-42 | the loop with `prev_space` computes `Collapsed` |
| Normalize.Normalized | trim_spaces_in_paths/trim_spaces_in_paths.py:25-48 | `normalize_component` as a function: trim, then the chosen style; the result is never longer than the component. Its meaning is stated by the lemmas below |
| Normalize.NormalizedEmpty | trim_spaces_in_paths/trim_spaces_in_paths.py:25-48 | under every style, a component becomes empty exactly when it holds only spaces |
| Normalize.NormalizedNoEdgeSpaces | trim_spaces_in_paths/trim_spaces_in_paths.py:25-48 | under every style, the result neither starts nor ends with a space |
| Normalize.NormalizeComponent | trim_spaces_in_paths/trim_spaces_in_paths.py:25-48 | `normalize_component` with a valid style computes `Normalized` (the `prev_space` loop for `collapse`) |
| Normalize.NormalizedIdempotent | trim_spaces_in_paths/trim_spaces_in_paths.py:25-48 | normalising a normalised component changes nothing |
| Normalize.NormalizedKeepsOtherChars | trim_spaces_in_paths/trim_spaces_in_paths.py:25-48 | a character other than a space or `_` occurs in the result exactly when it occurs in the component; in particular no `/` is added or lost |
| Normalize.Split | trim_spaces_in_paths/trim_spaces_in_paths.py:52 | `split("/")` gives at least one part, and no part holds a `/` |
| Normalize.Join | trim_spaces_in_paths/trim_spaces_in_paths.py:59 | `"/".join(parts)`; the round trips with `Split` are `JoinSplit` and `SplitJoin` |
| Normalize.JoinSplit | trim_spaces_in_paths/trim_spaces_in_paths.py:52-59 | joining the parts of a split with `/` gives the original path back |
| Normalize.SplitSingle | trim_spaces_in_paths/trim_spaces_in_paths.py:52 | a text without `/` splits into itself |
| Normalize.SplitAfterWord | trim_spaces_in_paths/trim_spaces_in_paths.py:52 | splitting `w/rest` gives `w` followed by the parts of `rest` |
| Normalize.SplitJoin | trim_spaces_in_paths/trim_spaces_in_paths.py:52-59 | splitting a join of slash-free parts gives those parts back |
| Normalize.EachBy | trim_spaces_in_paths/trim_spaces_in_paths.py:54-58 | one result per component |
| Normalize.EachByAt | trim_spaces_in_paths/trim_spaces_in_paths.py:54-58 | the `i`-th result is the `i`-th component normalised |
| Normalize.NormalizedEach | trim_spaces_in_paths/trim_spaces_in_paths.py:54-58 | one normalised component per component |
| Normalize.NormalizedEachAt | trim_spaces_in_paths/trim_spaces_in_paths.py:54-58 | the `i`-th normalised component is `normalize_component` of the `i`-th component |
| Normalize.FirstEmpty | trim_spaces_in_paths/trim_spaces_in_paths.py:54-57 | the position of the first component that vanishes, or the count when none does |
| Normalize.FirstEmptyAt | trim_spaces_in_paths/trim_spaces_in_paths.py:54-57 | the first vanishing position is unique |
| Normalize.NormalizeComponentsBy | trim_spaces_in_paths/trim_spaces_in_paths.py:53-59 | the early-return loop fails with the first component that vanishes, and otherwise returns all the normalised components in order |
| Normalize.NormalizeComponents | trim_spaces_in_paths/trim_spaces_in_paths.py:53-59 | the same loop with `normalize_component` and the chosen style |
| Normalize.NormalizedPath | trim_spaces_in_paths/trim_spaces_in_paths.py:51-59 | `normalize_path` as a function; an error names one of the components of the path. Its meaning is stated by the lemmas below |
| Normalize.NormalizedPathFails | trim_spaces_in_paths/trim_spaces_in_paths.py:51-59 | on failure, the error names a component that vanishes, and every component before it survives |
| Normalize.NormalizedPathSucceeds | trim_spaces_in_paths/trim_spaces_in_paths.py:51-59 | on success, every component survived, and splitting the result gives the normalised components back, one per original |
| Normalize.NormalizedPathSurvives | trim_spaces_in_paths/trim_spaces_in_paths.py:51-59 | a path none of whose components vanishes is normalised without error |
| Normalize.SplitNormalizedEach | trim_spaces_in_paths/trim_spaces_in_paths.py:52-59 | normalised components hold no `/`, so the join splits back into them |
| Normalize.NormalizePath | trim_spaces_in_paths/trim_spaces_in_paths.py:51-59 | `normalize_path` computes `NormalizedPath`: split, normalise with an early return, rejoin |
| Normalize.NormalizedPathIdempotent | trim_spaces_in_paths/trim_spaces_in_paths.py:51-59 | normalising a normalised path gives it back unchanged |
| Normalize.NormalizedPathTrimmed | trim_spaces_in_paths/trim_spaces_in_paths.py:51-59 | every component of a normalised path is non-empty and has no edge spaces |
| Args.IsStyleName | trim_spaces_in_paths/trim_spaces_in_paths.py:92 | the four accepted style names |
| Args.StyleName | trim_spaces_in_paths/trim_spaces_in_paths.py:92 | each style has one of the four accepted names |
| Args.StyleNamed | trim_spaces_in_paths/trim_spaces_in_paths.py:29-48 | the style applied for a name: each known name selects its style, any other name trims only (the fallback); see `StyleNameRoundTrip` |
| Args.StyleNameRoundTrip | trim_spaces_in_paths/trim_spaces_in_paths.py:29-48 | name and style convert into each other both ways; an unknown name falls back to trimming only |
| Args.IsOption | trim_spaces_in_paths/trim_spaces_in_paths.py:90 | an argument sets the style exactly when it starts with `--internal-style=` |
| Args.AfterFirst | trim_spaces_in_paths/trim_spaces_in_paths.py:91 | `split("=", 1)[1]`: what follows the first `=` |
| Args.OptionValue | trim_spaces_in_paths/trim_spaces_in_paths.py:91 | the value of a style option, defined only for options; `OptionValueIsSuffix` states what it is |
| Args.OptionValueIsSuffix | trim_spaces_in_paths/trim_spaces_in_paths.py:90-91 | the value of `--internal-style=v` is exactly `v`, even when `v` holds `=` |
| Args.Tail | trim_spaces_in_paths/trim_spaces_in_paths.py:89 | `argv[1:]`, which is empty for an empty `argv` |
| Args.ParsedArgs | trim_spaces_in_paths/trim_spaces_in_paths.py:86-100 | `parse_args` as a function over `argv[1:]`: the files never outnumber the arguments, and an error carries a value that is not a style name. Its meaning is stated by `ParsedArgsMeaning` and `LastOptionWins` |
| Args.ParseArgs | trim_spaces_in_paths/trim_spaces_in_paths.py:86-100 | the loop computes `ParsedArgs` of `argv[1:]` and stops at the first invalid style |
| Args.BadStyleSticks | trim_spaces_in_paths/trim_spaces_in_paths.py:92-97 | once an invalid style has been met, later arguments change nothing |
| Args.NonOptions | trim_spaces_in_paths/trim_spaces_in_paths.py:98-99 | the files are arguments that are not style options |
| Args.NonOptionsSnoc | trim_spaces_in_paths/trim_spaces_in_paths.py:98-99 | a further argument adds itself to the files unless it is an option |
| Args.ParsedArgsMeaning | trim_spaces_in_paths/trim_spaces_in_paths.py:86-100 | the parse succeeds exactly when every option names a valid style; then the files are all the non-option arguments in order; otherwise the error carries the first invalid value |
| Args.LastOption | trim_spaces_in_paths/trim_spaces_in_paths.py:89-91 | the position of the last style option, with no option after it |
| Args.LastOptionWins | trim_spaces_in_paths/trim_spaces_in_paths.py:87-91 | the last style option decides the style; without one the style is `none` |
| Planner.PathNormalizer | trim_spaces_in_paths/trim_spaces_in_paths.py:114-115 | the normaliser the loop applies to each staged path: `normalize_path` with the chosen style |
| Planner.Compliant | trim_spaces_in_paths/trim_spaces_in_paths.py:119-120 | a path needs no rename exactly when it normalises to itself |
| Planner.Step | trim_spaces_in_paths/trim_spaces_in_paths.py:113-127 | one turn of the loop only appends: one rename or one problem for a path that is not in normal form, nothing for a compliant one |
| Planner.Planned | trim_spaces_in_paths/trim_spaces_in_paths.py:113-127 | the whole planning loop over the staged paths, in order, from an empty state; its properties are stated by `PlannedValid`, `PlanConsistent`, `PlanProblemsExplained`, `PlannedPartition`, `PlannedAccounts`, `FirstClaimPlanned` and `LaterClaimsConflict` |
| Planner.CountChar | trim_spaces_in_paths/trim_spaces_in_paths.py:129 | `count("/")` is at most the length |
| Planner.Depth | trim_spaces_in_paths/trim_spaces_in_paths.py:129 | the sort key `t[0].count("/")` of a planned rename, at most the length of its source |
| Planner.InsertByDepth | trim_spaces_in_paths/trim_spaces_in_paths.py:129 | inserting adds one entry |
| Planner.SortedByDepth | trim_spaces_in_paths/trim_spaces_in_paths.py:129 | the sort keeps the number of entries |
| Planner.InsertByDepthOrdered | trim_spaces_in_paths/trim_spaces_in_paths.py:129 | insertion keeps the plan ordered by decreasing depth |
| Planner.InsertByDepthElements | trim_spaces_in_paths/trim_spaces_in_paths.py:129 | insertion adds nothing but the new entry |
| Planner.InsertByDepthMembers | trim_spaces_in_paths/trim_spaces_in_paths.py:129 | insertion adds exactly the new entry, counting duplicates |
| Planner.InsertByDepthAtDepth | trim_spaces_in_paths/trim_spaces_in_paths.py:129 | insertion places the entry after every entry of the same depth |
| Planner.SortedByDepthOrdered | trim_spaces_in_paths/trim_spaces_in_paths.py:129 | the sorted plan is ordered by decreasing number of `/` in the source |
| Planner.SortedByDepthPermutes | trim_spaces_in_paths/trim_spaces_in_paths.py:129 | the sorted plan is a permutation of the plan |
| Planner.SortedByDepthStable | trim_spaces_in_paths/trim_spaces_in_paths.py:129 | the sort is stable: entries of equal depth keep their relative order |
| Planner.BuildPlan | trim_spaces_in_paths/trim_spaces_in_paths.py:109-129 | the loop with `desired_targets` builds the problems and the plan of `Planned`, and the plan is then sorted by depth |
| Planner.PlanningValid | trim_spaces_in_paths/trim_spaces_in_paths.py:111-127 | the planning invariant: each planned rename moves a seen path to its different normal form and holds its target in `desired_targets`, every held target has its rename planned, and every problem is explained |
| Planner.ProblemValid | trim_spaces_in_paths/trim_spaces_in_paths.py:113-125 | a planning problem is explained: a vanishing component of a seen path, or a seen claimant whose target is held by a different planned path |
| Planner.StepValid | trim_spaces_in_paths/trim_spaces_in_paths.py:113-127 | one turn of the loop keeps the planning invariant |
| Planner.PlannedValid | trim_spaces_in_paths/trim_spaces_in_paths.py:113-127 | the invariant holds after the whole loop |
| Planner.PlanConsistent | trim_spaces_in_paths/trim_spaces_in_paths.py:113-127 | each planned rename moves a staged path to its normal form, which differs from it; two renames with the same target have the same source |
| Planner.PlanProblemsExplained | trim_spaces_in_paths/trim_spaces_in_paths.py:113-125 | every problem names a staged path and its reason: the component that vanishes, or a different path, other than the target, whose rename to the same target is planned |
| Planner.Subject | trim_spaces_in_paths/trim_spaces_in_paths.py:116-138 | the staged path a problem is about: the path that cannot be normalised, the later claimant of a conflict, the source of a failed move |
| Planner.Sources | trim_spaces_in_paths/trim_spaces_in_paths.py:127 | the source paths of the planned renames, one per rename |
| Planner.Subjects | trim_spaces_in_paths/trim_spaces_in_paths.py:116-124 | the paths the problems are about, one per problem |
| Planner.CompliantPaths | trim_spaces_in_paths/trim_spaces_in_paths.py:119-120 | the staged paths the loop skips because they are already in normal form, in order; each one is staged and compliant |
| Planner.PlannedPartition | trim_spaces_in_paths/trim_spaces_in_paths.py:113-127 | every staged path is accounted for exactly once, counting repetitions: the multiset of the staged paths is the sum of the planned sources, the problem subjects and the compliant paths |
| Planner.Partitioned | trim_spaces_in_paths/trim_spaces_in_paths.py:113-127 | the paths seen so far, counting repetitions, are the planned sources plus the problem subjects plus the paths that needed nothing |
| Planner.PartitionStep | trim_spaces_in_paths/trim_spaces_in_paths.py:113-127 | one turn of the loop extends that partition by the path it handles |
| Planner.StepPartition | trim_spaces_in_paths/trim_spaces_in_paths.py:113-127 | one turn of the loop puts the path it handles into exactly one of the three groups |
| Planner.PlannedNotCompliant | trim_spaces_in_paths/trim_spaces_in_paths.py:116-127 | no planned source and no problem subject is in normal form, so the three groups are disjoint |
| Planner.PlannedAccounts | trim_spaces_in_paths/trim_spaces_in_paths.py:113-127 | the numbers of renames, problems and compliant paths add up to the number of staged paths; nothing is planned or reported exactly when every path is compliant |
| Planner.CompliantPathsAll | trim_spaces_in_paths/trim_spaces_in_paths.py:119-120 | every staged path is skipped as compliant exactly when every staged path is compliant |
| Planner.Claims | trim_spaces_in_paths/trim_spaces_in_paths.py:119-121 | a staged path claims a target when it normalises to it and differs from it |
| Planner.FirstClaim | trim_spaces_in_paths/trim_spaces_in_paths.py:121-127 | the position of the first staged path that normalises to a given target and differs from it, or the count when none does |
| Planner.PlannedClaims | trim_spaces_in_paths/trim_spaces_in_paths.py:111-127 | after the loop, `desired_targets` holds exactly the targets some staged path claims, each mapped to its first claimant |
| Planner.ClaimedFirst | trim_spaces_in_paths/trim_spaces_in_paths.py:111-127 | `desired_targets` maps exactly the claimed targets, each to its first claimant |
| Planner.StepClaims | trim_spaces_in_paths/trim_spaces_in_paths.py:121-127 | one turn of the loop keeps `desired_targets` mapped to first claimants |
| Planner.FirstClaimPlanned | trim_spaces_in_paths/trim_spaces_in_paths.py:121-127 | the first claimant wins: each planned rename comes from the first claimant of its target, every claimed target has that rename planned, and every conflict names the first claimant as the holder |
| Planner.LaterClaimsConflict | trim_spaces_in_paths/trim_spaces_in_paths.py:121-125 | every later claimant of a target is either the first claimant staged again or is reported in a conflict naming the first claimant |
| Planner.ConflictsWithFirst | trim_spaces_in_paths/trim_spaces_in_paths.py:121-125 | every claimant of a target comes no earlier than the first one, and is that path again or is reported in a conflict naming it |
| Planner.ConflictsStep | trim_spaces_in_paths/trim_spaces_in_paths.py:121-125 | one turn of the loop keeps that property for the path it handles |
| Planner.StepConflict | trim_spaces_in_paths/trim_spaces_in_paths.py:121-125 | a path whose target is held by a different path is reported against the holder |
| Executor.GitMv | trim_spaces_in_paths/trim_spaces_in_paths.py:66-83 | a rename to itself fails with no command; otherwise it succeeds exactly when `git mv` or the plain rename does; `git add dst` is issued exactly on the fallback path, and `git rm --cached src` exactly when, in addition, `src` is still tracked |
| Executor.Applied | trim_spaces_in_paths/trim_spaces_in_paths.py:80-82 | the effect of one command on the tracked paths: `git add` adds, `git rm --cached` removes, anything else leaves them |
| Executor.IndexAfter | trim_spaces_in_paths/trim_spaces_in_paths.py:80-82 | the tracked paths after a sequence of commands, applied in order |
| Executor.IndexAfterSnoc | trim_spaces_in_paths/trim_spaces_in_paths.py:80-82 | the commands act on the index one after another |
| Executor.TriedKeepsIndex | trim_spaces_in_paths/trim_spaces_in_paths.py:69-74 | creating parents, `git mv` as modelled and the plain rename leave the index alone |
| Executor.FallbackReconcilesIndex | trim_spaces_in_paths/trim_spaces_in_paths.py:73-83 | after the fallback rename, the index tracks `dst` and no longer tracks `src` |
| Executor.FailedMoveKeepsIndex | trim_spaces_in_paths/trim_spaces_in_paths.py:66-79 | a failed rename issues no staging command, so the index stays as it was |
| Executor.Record | trim_spaces_in_paths/trim_spaces_in_paths.py:133-138 | one turn of the execution loop: a success is appended to `changed`, a failure with different source and target to the errors |
| Executor.Executed | trim_spaces_in_paths/trim_spaces_in_paths.py:131-138 | the execution loop as a function over the sorted plan, with one `MoveEnv` per rename; at most one record per rename |
| Executor.Execute | trim_spaces_in_paths/trim_spaces_in_paths.py:131-138 | the execution loop appends each successful rename to `changed`, and a failure to the errors for each failed rename whose source and target differ |
| Executor.FailedEntries | trim_spaces_in_paths/trim_spaces_in_paths.py:138 | the renames that failed, read back from the failure reports |
| Executor.ExecutedPartition | trim_spaces_in_paths/trim_spaces_in_paths.py:131-138 | when no rename is to itself, each planned rename ends up exactly once, counting repetitions, either in `changed` or in a failure report; a rename whose `git_mv` succeeds is in `changed`, one whose `git_mv` fails is reported |
| Executor.ExecutedMembers | trim_spaces_in_paths/trim_spaces_in_paths.py:131-138 | the multiset half of `ExecutedPartition` |
| Executor.RecordMembers | trim_spaces_in_paths/trim_spaces_in_paths.py:133-138 | one turn of the loop puts its rename into exactly one of `changed` and the failure reports |
| Executor.ExecutedAt | trim_spaces_in_paths/trim_spaces_in_paths.py:131-138 | the per-rename half of `ExecutedPartition`, and every failure recorded by the loop is a failed move |
| Executor.RecordKeeps | trim_spaces_in_paths/trim_spaces_in_paths.py:133-138 | one turn of the loop keeps what was recorded and adds only its own rename |
| Executor.ExecutedExactly | trim_spaces_in_paths/trim_spaces_in_paths.py:131-138 | when the renames are pairwise distinct, a rename is in `changed` exactly when its `git_mv` succeeds |
| Executor.ExecutedChangedFromPlan | trim_spaces_in_paths/trim_spaces_in_paths.py:131-135 | everything in `changed` is a planned rename |
| Executor.ExecutedAllSucceed | trim_spaces_in_paths/trim_spaces_in_paths.py:131-138 | when every rename succeeds, everything planned is changed and nothing fails |
| Executor.ExitCode | trim_spaces_in_paths/trim_spaces_in_paths.py:154-158 | 1 exactly when there are errors, 3 exactly when there are none but something changed, 0 exactly when neither |
| Executor.Run | trim_spaces_in_paths/trim_spaces_in_paths.py:103-158 | status 2 exactly outside a repository or for an invalid style, with nothing changed; otherwise `changed` is what the execution loop records for the sorted plan, the errors are the planning problems followed by the failed moves, any planning problem gives status 1, the status is that of `ExitCode`, and it is 0 exactly when every staged path is already in normal form |
| Scenarios.WordUnchanged | trim_spaces_in_paths/trim_spaces_in_paths.py:31-46 | a word without spaces is left as it is by every internal style |
| Scenarios.SampleTrimmed | trim_spaces_in_paths/trim_spaces_in_paths.py:27 | `  My  Report .txt  ` loses exactly its edge padding |
| Scenarios.TrimOnlyExample | trim_spaces_in_paths/trim_spaces_in_paths.py:29-30 | under `none`, `  My  Report .txt  ` becomes `My  Report .txt`, for any words and runs |
| Scenarios.CollapseExample | trim_spaces_in_paths/trim_spaces_in_paths.py:31-42 | under `collapse`, `  My   Report   .txt  ` becomes `My Report .txt`, for any words and runs |
| Scenarios.SampleCollapsed | trim_spaces_in_paths/trim_spaces_in_paths.py:31-42 | each inner run of the sample collapses to one space |
| Scenarios.UnderscoredRun | trim_spaces_in_paths/trim_spaces_in_paths.py:43-44 | a run of spaces becomes as many underscores |
| Scenarios.UnderscoreExample | trim_spaces_in_paths/trim_spaces_in_paths.py:43-44 | under `underscore`, `  My  Report .txt  ` becomes `My__Report_.txt`, for any words and runs |
| Scenarios.RemoveExample | trim_spaces_in_paths/trim_spaces_in_paths.py:45-46 | under `remove`, `  My  Report .txt  ` becomes `MyReport.txt`, for any words and runs |
| Scenarios.SampleRemoved | trim_spaces_in_paths/trim_spaces_in_paths.py:45-46 | both inner runs of the sample disappear |
| Scenarios.WordNormalized | trim_spaces_in_paths/trim_spaces_in_paths.py:25-48 | a word is already in normal form under every style |
| Scenarios.ThreeParts | trim_spaces_in_paths/trim_spaces_in_paths.py:52 | `x/y/z` splits into its three components |
| Scenarios.ThreeComponents | trim_spaces_in_paths/trim_spaces_in_paths.py:51-59 | a three-component path none of whose components vanishes is normalised component by component (`  dir  /  subdir  /  file .txt  ` becomes `dir/subdir/file .txt`) |
| Scenarios.JoinThree | trim_spaces_in_paths/trim_spaces_in_paths.py:59 | three components are joined with two slashes |
| Scenarios.EmptyComponentExample | trim_spaces_in_paths/trim_spaces_in_paths.py:54-57 | `dir/   /file.txt` fails under every style, naming the blank component |
| Scenarios.TwoParts | trim_spaces_in_paths/trim_spaces_in_paths.py:52 | `d/x` splits into its two components |
| Scenarios.JoinTwo | trim_spaces_in_paths/trim_spaces_in_paths.py:59 | two components are joined with one slash |
| Scenarios.ComponentCollapsed | trim_spaces_in_paths/trim_spaces_in_paths.py:31-42 | `A<run>file.txt` collapses to `A file.txt` |
| Scenarios.PathCollapsed | trim_spaces_in_paths/trim_spaces_in_paths.py:51-59 | `dir/A<run>file.txt` normalises under `collapse` to `dir/A file.txt` |
| Scenarios.ConflictExample | trim_spaces_in_paths/trim_spaces_in_paths.py:113-127 | two staged paths that differ only in a run length collapse onto one target: the first is planned, the second is reported as a conflict naming both |
| Scenarios.StagedTwice | trim_spaces_in_paths/trim_spaces_in_paths.py:113-158 | a path staged twice is planned twice with no problem; after the first move succeeds, a second `git mv` success counts the rename twice with status 3, while a second failure with no source left is a failed move with status 1 |

## Left out

- Running commands and touching the file system are not modelled. The model
  replaces them as follows:
  - `run` is not modelled;
  - `repo_root` becomes the `inRepo` parameter of `Run`;
  - `is_tracked` becomes the `srcTracked` answer of `MoveEnv`;
  - `ensure_parent` and the `git` commands become `Action` values;
  - how `os.replace` ends becomes the `RawRename` answer.
- Executor.Run: the outside world's answers come from one `MoveEnv` per
  executed rename. The model does not require these answers to be
  consistent with one another or with the file system.
- Executor.GitMv: `ensure_parent` is modelled as always succeeding. If
  `mkdir` raises, `main` aborts with an exception: the later renames are not
  attempted and no 0, 1 or 3 status is returned. The model does not capture
  that abort.
- Executor.ExecutedPartition: the lemma requires that no planned rename is
  to itself. `PlanConsistent` proves this of every plan the planning loop
  builds, and `Run` relies on both.
- Executor.ExecutedExactly: the lemma requires pairwise distinct renames.
  A path staged twice is planned twice, and if one of the two moves
  succeeds, the rename is in `changed` even though the other failed. For
  plans with repetitions, `ExecutedPartition` states what holds.
- Executor.FallbackReconcilesIndex: the lemma assumes the tracking query
  answers truthfully. It also assumes the commands issued with `run` take
  effect, although their return codes are not checked.
- `git mv` is modelled as leaving the index set of tracked paths unchanged.
  What it does to the index on success is not modelled.
- `Path(p).as_posix()` is modelled as the identity. This holds for paths
  with no empty component, no `.` component and no trailing `/`, which is
  the form in which `git` hands over staged paths.
  - On other paths `pathlib` folds `a//b`, `./a` and `a/` before
    `normalize_path` sees them; the model does not.
  - For `a//b`, the model reports an empty component, whereas the hook sees
    `a/b`.
- Messages are not modelled. The text printed to standard output and
  standard error is left out. A problem is a `Problem` value, not a formatted
  string.
- `sys.exit(2)` is not modelled as an exit. In `repo_root` and in
  `parse_args` it ends the program; the model returns status 2 instead,
  with nothing changed.
- `list.sort` is not modelled as an in-place sort. Python's sort is stable;
  the model uses `SortedByDepth`, a stable insertion sort on a sequence.
  - It is proved ordered by decreasing depth, a permutation, and stable.
- The fallback for an unknown style in `normalize_component` is not
  modelled as a separate case. It cannot be reached once `parse_args` has
  validated the style.
  - An unknown name maps to `TrimOnly` through `StyleNamed`.
  - `StyleNameRoundTrip` states this.
- Normalize.NormalizeComponentsBy takes the component normaliser as a
  function value, so the loop is proved once for any normaliser.
  `NormalizeComponents` instantiates it with `normalize_component`.
- Only the ASCII space is trimmed or rewritten. Tabs and other Unicode
  whitespace are ordinary characters, as in `strip(" ")`.

Where the documented behaviour and the code differ, the model follows the
code:

- `git_mv(src, src)` returns `False`. It does not succeed with no effect.
  A rename to itself cannot reach the execution loop, because the planning
  loop skips compliant paths.
- A path that is staged twice and needs a rename is not a conflict with
  itself. It is planned twice, since `desired_targets[dst] == posix` lets it
  through.
  - What happens to the second rename depends on what `git` answers, which
    is the `MoveEnv` given for it.
  - `git mv -k` may skip the missing source and still report success. The
    rename is then counted in `changed` a second time, and the exit status
    is 3.
  - If it fails instead, the fallback finds no source, and the rename is
    reported as a failed move, giving status 1.
  - `StagedTwice` states both outcomes.
  `PlanConsistent` states the weaker guarantee that holds: two renames with
  the same target have the same source.
