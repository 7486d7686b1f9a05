# Random walk note: the note-selection core in Dafny

This project models how the Obsidian plugin *Random walk note* chooses which note to open next.
It covers two things.

- **The candidate list.** The excluded-folder setting is parsed by splitting on commas, trimming each piece and dropping empty pieces. The vault files are then filtered three times: markdown extension only, then no excluded substring anywhere in the path, then (when a tag is selected) only the files whose path is listed under that tag.
- **The shown list.** The process-wide `alreadyOpen` list records the names of notes already shown. `openRandomNote` updates it once per invocation.

The random choices are parameters. `first` is the index the first `randomElement` call returns. `second` is the index of the single re-pick.

The code makes one re-pick when the first pick's name is already in the list, and it never records that re-pick. The model follows the code.

Notes are de-duplicated by `name`, but filtered and tagged by `path`. When two candidates in different folders share a name, there are fewer names than candidates. While the candidates stay the same and the list holds only their names, the list then never reaches the candidate count, and once a note has been shown the list is never emptied again: the "cycle complete" reset cannot happen (`RandomWalk.SharedNameNeverClears`, `RandomWalk.SharedNameExample`). With distinct names and fresh first picks, a full cycle does empty the list (`RandomWalk.FreshCycleCompletes`).

The list also lives for the whole session, while the candidates are recomputed on every invocation. If the vault or the settings change so that there are fewer candidates than shown names, the list cannot reach the candidate count. As long as there are fewer candidates than shown names, it keeps every name and is never emptied, which is a second way the cycle never completes (`RandomWalk.StaleNeverClears`, `RandomWalk.StaleRunNeverClears`, `Scenarios.ShrunkVaultNeverClears`).

Files:

- `seqs.dfy` (`Seqs`): order-preserving `Filter` and its laws. These are subsequence, exact membership, multiplicity, identity, idempotence and commutation.
- `strings.dfy` (`Strings`): JavaScript `split`, `trim` and substring `contains`.
- `notes.dfy` (`Vault`, `NoteFilters`): the file, settings and tag-map values, the parsing of the excluded-folder setting, the three filters and the candidate list.
- `picker.dfy` (`RandomWalk`): the specification functions `Chosen` and `NextShown`, their lemmas, and the class `Picker` holding `alreadyOpen`.
- `scenarios.dfy` (`Scenarios`): concrete runs of the filters and of the picker.

## Model

| member | source | states |
|---|---|---|
| `Seqs.Filter` | src/main.ts:35 | `Array.prototype.filter` returns no more elements than it got, every element it returns is an input element that passes the predicate, and every passing input element is returned; `Seqs.FilterIsSubsequence` and `Seqs.FilterMultiplicity` add order and copies |
| `Seqs.FilterIsSubsequence` | src/main.ts:35 | `filter` only deletes elements, keeping the order of the rest |
| `Seqs.FilterMultiplicity` | src/main.ts:35 | `filter` keeps every copy of a passing element and drops every copy of a failing one |
| `Strings.Trim` | src/main.ts:29 | `x.trim()` has no whitespace at either end (ECMAScript whitespace and line terminators), and it is empty exactly when the string is all whitespace |
| `Strings.TrimIsSlice` | src/main.ts:29 | the trimmed string is the slice of the input between a whitespace-only prefix and a whitespace-only suffix |
| `Strings.TrimIdempotent` | src/main.ts:29 | trimming twice equals trimming once |
| `Strings.Split` | src/main.ts:29 | `split(',')` gives at least one piece, and no piece contains the separator |
| `Strings.JoinSplit` | src/main.ts:29 | joining the pieces of `split(',')` with commas restores the setting |
| `Strings.SplitJoin` | src/main.ts:29 | splitting comma-free pieces that were joined with commas gives those pieces back |
| `Strings.SplitAllWhitespace` | src/main.ts:29 | every piece is whitespace exactly when every character of the setting is a comma or whitespace |
| `Strings.Contains` | src/main.ts:65 | `path.contains(folder)` always holds for an empty folder string and never for one longer than the path; `Strings.ContainsAtOffset` states its full meaning |
| `Strings.ContainsAtOffset` | src/main.ts:65 | `path.contains(folder)` holds exactly when the folder string occurs at some offset of the path, which is a substring test and not a path-segment test |
| `NoteFilters.ParseExcludedFolders` | src/main.ts:64 | every parsed excluded-folder entry is non-empty, equals its own trim and holds no comma; `NoteFilters.ParseConcat` and `NoteFilters.ParsePiece` together fix which entries every setting yields, and `NoteFilters.ParseEmptyIff` says when there are none |
| `NoteFilters.ParseConcat` | src/main.ts:64 | a setting with a comma parses to the entries of the part before it followed by the entries of the part after it |
| `NoteFilters.ParsePiece` | src/main.ts:64 | a comma-free piece parses to its trim, or to no entry when it is blank |
| `NoteFilters.ParseTrailingComma` | src/main.ts:64 | a trailing comma adds no entry |
| `NoteFilters.ParseDoubledComma` | src/main.ts:64 | a doubled comma adds no entry between its neighbours |
| `NoteFilters.ParseJoinPadded` | src/main.ts:64 | comma-free pieces that are not all whitespace, joined with commas, parse to the trims of all the pieces, in order |
| `NoteFilters.ParseJoin` | src/main.ts:64 | clean entries joined with commas parse back to exactly those entries, so no entry is dropped, merged or reordered |
| `NoteFilters.ParseEmptyIff` | src/main.ts:64 | the parsed list is empty if and only if the setting holds only commas and whitespace |
| `NoteFilters.FilterExcludedFolders` | src/main.ts:63-66 | the result is a subsequence of the input, it keeps a file iff the file is in the input and its path contains none of the parsed entries, and each kept file keeps all its occurrences |
| `NoteFilters.ExclusionIdentity` | src/main.ts:65 | a setting that is empty or holds only commas and whitespace leaves the file list unchanged |
| `NoteFilters.ExclusionIdempotent` | src/main.ts:65 | excluding twice with the same setting equals excluding once |
| `NoteFilters.KeepMarkdown` | src/main.ts:35 | the result is a subsequence of the input, it keeps exactly the files with extension `md`, and each of them keeps all its occurrences |
| `NoteFilters.MarkdownIdempotent` | src/main.ts:35 | the extension filter is idempotent |
| `NoteFilters.FilterTag` | src/main.ts:68-77 | with an empty tag the input comes back unchanged; otherwise the result is a subsequence of the input holding exactly the files whose path equals the path of some file listed under the tag, each with all its occurrences; the tag must be in the map whenever there is a file to test |
| `NoteFilters.Candidates` | src/main.ts:35-38 | the candidates are a subsequence of the files; a file is a candidate iff it is markdown, outside every excluded entry, and (when a tag is selected) listed under it by path; each candidate keeps all its occurrences in the files, and any other file has none |
| `NoteFilters.PrefilterRedundant` | src/main.ts:28-38 | the exclusion that `handleOpenRandomNote` applies before `openRandomNote` changes nothing: the filtered stage equals the one computed from the unfiltered vault |
| `RandomWalk.Chosen` | src/main.ts:45-49 | the opened note is always a candidate, and it is the first pick whenever that pick's name was not yet shown |
| `RandomWalk.NextShown` | src/main.ts:47-56 | after a non-empty invocation the list length is never the candidate count; the new list is empty, the old list, or the old list plus the first pick's name; it is empty exactly when the old length, plus one for a new first-pick name, equals the candidate count, whatever names the old list holds |
| `RandomWalk.FreshPickRecorded` | src/main.ts:50-51 | a first pick whose name is not shown is appended whenever the grown list's length is not the candidate count |
| `RandomWalk.RepeatedPickNotRecorded` | src/main.ts:47-49 | a first pick whose name is already shown leaves the list unchanged, unless the list is already at the candidate count |
| `RandomWalk.RepickOpened` | src/main.ts:47-49 | a first pick whose name is already shown is replaced by the re-pick, whatever it returns, and the re-pick is the note opened |
| `RandomWalk.NoDuplicatesPreserved` | src/main.ts:47-52 | the list never gains a duplicate name |
| `RandomWalk.InitialShownInv` | src/main.ts:6 | the initial empty list satisfies the invariant: no duplicates, only candidate names, shorter than the candidate list |
| `RandomWalk.ShownInvPreserved` | src/main.ts:47-56 | every invocation over the same candidates preserves that invariant |
| `RandomWalk.FreshPickAdvancesCycle` | src/main.ts:50-55 | under the invariant, a fresh first pick makes the list length (old length + 1) mod the candidate count |
| `RandomWalk.SingleCandidateAlwaysClears` | src/main.ts:54-55 | with a single candidate, the only list `ShownInv` allows is the empty one, and from it an invocation empties the list again |
| `RandomWalk.StaleNeverClears` | src/main.ts:47-55 | when the list is longer than the candidate list, an invocation keeps the list and appends the first pick's name if it is new; it never empties the list |
| `RandomWalk.StaleRunNeverClears` | src/main.ts:47-55 | once the list is longer than the candidate list, any run of invocations over those candidates keeps every shown name in place and never empties the list |
| `RandomWalk.FreshRunLength` | src/main.ts:47-56 | within one cycle, each fresh first pick adds one name, and the list is emptied exactly when it reaches the candidate count |
| `RandomWalk.FreshCycleCompletes` | src/main.ts:54-55 | starting empty, as many fresh first picks as there are candidates empty the list again |
| `RandomWalk.SharedNameNeverClears` | src/main.ts:47-55 | when two candidates share a name, an invocation under the invariant never empties the list and never shortens it |
| `RandomWalk.SharedNameExample` | src/main.ts:47-55 | two notes `A/x.md` and `B/x.md`: the list becomes `[x.md]` and stays there whichever note is picked |
| `RandomWalk.Picker.constructor` | src/main.ts:6 | the shown list starts empty |
| `RandomWalk.Picker.OpenRandomNote` | src/main.ts:34-61 | with no candidates, nothing is opened and the list is unchanged; otherwise the `Chosen` note is opened by basename in the configured pane, the list becomes `NextShown` of the old list, and the invariant is preserved |
| `RandomWalk.Picker.HandleOpenRandomNote` | src/main.ts:28-32 | excluding folders first and then running `openRandomNote` has the same outcome as `openRandomNote` on the whole listing |
| `Scenarios.ParseTwoFolders` | src/main.ts:64 | the setting `Archive, Old` parses to `[Archive, Old]`: both entries are kept, trimmed, in order |
| `Scenarios.ExcludedFolderScenario` | src/main.ts:63-66 | with the setting `Archive`, the files `Archive/old.md` and `Notes/new.md` leave only `Notes/new.md` |
| `Scenarios.TagScenario` | src/main.ts:68-77 | with tag `#review` indexing only `Notes/new.md`, `Archive/old.md` is dropped although no folder is excluded |
| `Scenarios.FirstOfTwoRecorded` | src/main.ts:45-56 | two notes and an empty list: the first pick is opened and the list then holds one name |
| `Scenarios.LeftoverNameClears` | src/main.ts:50-55 | with the name `gone.md` of a deleted note still shown and two candidates, a new first pick brings the list to the count and empties it |
| `Scenarios.ShrunkVaultNeverClears` | src/main.ts:47-55 | `a.md` was shown and the vault shrank to the single note `b.md`: the pick of `b.md` is appended, giving `[a.md, b.md]`, and no later run empties the list |
| `Scenarios.SecondOfTwo` | src/main.ts:45-56 | two notes with `a.md` shown: a repeat of `a.md` opens the re-pick and keeps `[a.md]`; a pick of `b.md` completes the cycle and empties the list |

## Left out

- Settings load and save, `setOpenInNewLeaf`, `setEnableRibbonIcon`, `refreshRibbonIcon`, `onload` and the command and setting-tab registration (src/main.ts:12-23, 79-117) are persistence and UI glue over the host. `Settings` is only a value here.
- The `Notice` messages (src/main.ts:41, 48, 57) are host side effects, including the count shown in the last one. They are not modelled.
- `app.workspace.openLinkText` (src/main.ts:58-60) becomes the returned `OpenRequest`, which holds the basename and the `openInNewLeaf` flag. The empty source path and `{ active: true }` are constant and are not kept.
- `app.vault.getMarkdownFiles` and `getTagFilesMap` are host and utility calls, and utilities.ts is not part of this model. The vault listing and the tag map are parameters.
- `randomElement` is not part of this model. Its results are the index parameters `first` and `second`, so uniformity is not modelled.
- The `async`/`await` structure is not modelled. Each invocation is one atomic method call.
- In the host, a file's `name` is its `basename` plus `.` plus its `extension`. The model keeps the three fields independent and does not enforce that relation.
- `contains` is the host's alias of `String.prototype.includes`. Its source is not part of this model.
- `NoteFilters.FilterTag`: when the tag is missing from the map, `filterTag` throws a `TypeError`, but only when there is a file to test. The model excludes that case with a precondition rather than modelling the exception.
- `RandomWalk.FreshRunLength`: it is stated for one cycle only, runs that cross a cycle boundary are not covered.
- `RandomWalk.SingleCandidateAlwaysClears`: this lemma and the other `ShownInv` lemmas assume that the candidate list does not change between invocations. When it shrinks below the list's length, the list is not emptied while there stay fewer candidates than shown names, as `RandomWalk.StaleRunNeverClears` states.
