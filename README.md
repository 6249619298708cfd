# FindZero blank-note review, modelled in Dafny

FindZero is an Obsidian plugin that finds blank notes in a vault and lets the
user delete them. This project models its core, `src/scanModal.ts`, in three
modules:

- `Text` (text.dfy): the string primitives the classifier uses. These are the
  ECMAScript whitespace class (`\s`, `trim()`), `trim()`, `split('\n')`,
  `join('\n')` and the normalisation `replace(/\s+/g, ' ').trim()`, all over
  `seq<char>`.
- `Classifier` (classifier.dfy): the blank-note heuristic. `TemplateMatches`
  is `isUnfilledJournalTemplate`. `Assess` is the per-note computation of the
  title, `contentLength`, `nonBlankLines` and the blank verdict.
  Template matching is proved in both directions. A note matches when it
  differs from the template only in how whitespace is spelled. It does not
  match when its non-whitespace characters differ.
- `Review` (review.dfy): the review session. It is a class `ScanModal` with:
  - the fields `fileSnippets`, `selectedCount` and `selectAllOn` (whether the
    "Select All" icon shows as selected);
  - the scan loop;
  - the handlers for toggle, select all, single delete and batch delete;
  - specification functions over the snippet list.

  Vault reads and deletes become input sequences of outcomes.

`ScanModal.Valid()` is the session invariant:
- `selectedCount` equals the number of selected snippets;
- snippet paths are distinct;
- a selected "Select All" icon means every snippet is selected.

Every handler is proved to preserve `Valid()`. The scan establishes it when the counter was 0 beforehand, as it is in a freshly built modal; the scan itself does not reset the counter.

## Model

| member | source | states |
|---|---|---|
| Text.NonWs | src/scanModal.ts:37 | The non-whitespace characters of a string hold no whitespace and are no longer than it |
| Text.IsWs | src/scanModal.ts:37 | The characters `\s` matches and `trim()` removes in ECMAScript: the WhiteSpace and LineTerminator code points |
| Text.TrimStart | src/scanModal.ts:37 | `trimStart` drops only whitespace and leaves a string that is empty or starts with non-whitespace |
| Text.TrimEnd | src/scanModal.ts:37 | `trimEnd` drops only whitespace and leaves a string that is empty or ends with non-whitespace |
| Text.Trim | src/scanModal.ts:37 | `trim()` never lengthens and leaves no whitespace at either end |
| Text.TrimStartIsSuffix | src/scanModal.ts:37 | `trimStart` returns a suffix of its input |
| Text.TrimEndIsPrefix | src/scanModal.ts:37 | `trimEnd` returns a prefix of its input |
| Text.TrimEmptyIffAllWs | src/scanModal.ts:32 | `s.trim() === ''` exactly when `s` is all whitespace |
| Text.Split | src/scanModal.ts:71 | `split('\n')` yields at least one line, and no line contains a newline |
| Text.Join | src/scanModal.ts:77 | Splitting the result of joining lines that hold no newline gives the lines back |
| Text.JoinSplit | src/scanModal.ts:71-77 | Joining the split lines with `'\n'` gives back the text |
| Text.SplitAfterLine | src/scanModal.ts:71-74 | Splitting `line + '\n' + rest` gives `line` followed by the lines of `rest` |
| Text.SplitSingleLine | src/scanModal.ts:71 | A text without newline splits into itself alone |
| Text.JoinAllWs | src/scanModal.ts:77-81 | The joined text is all whitespace exactly when every line is |
| Text.Collapse | src/scanModal.ts:37 | `replace(/\s+/g, ' ')`. Its shape is given by `CollapseShape`. `CollapseRun` shows that each whitespace run becomes one space in place, and `CollapseKeepsNonWs` that other characters are kept in order |
| Text.CollapseShape | src/scanModal.ts:37 | The collapsed text is single-spaced, empty only for empty input, and starts with whitespace exactly when the input does |
| Text.CollapseCons | src/scanModal.ts:37 | A leading non-whitespace character is kept as it is |
| Text.Normalize | src/scanModal.ts:37 | A normalised text is single-spaced with no whitespace but `' '`, and has no leading or trailing whitespace |
| Text.NonWsConcat | src/scanModal.ts:37 | Taking non-whitespace characters distributes over concatenation |
| Text.NonWsOfAllWs | src/scanModal.ts:37 | A string is all whitespace exactly when it has no non-whitespace characters |
| Text.TrimKeepsNonWs | src/scanModal.ts:37 | Trimming keeps the non-whitespace characters in order |
| Text.CollapseKeepsNonWs | src/scanModal.ts:37 | Collapsing whitespace keeps the non-whitespace characters in order |
| Text.NormalizeKeepsNonWs | src/scanModal.ts:37 | Normalisation keeps the input's non-whitespace characters in order |
| Text.CollapseSingleSpaced | src/scanModal.ts:37 | Collapsing an already single-spaced text changes nothing |
| Text.NormalizedIsFixed | src/scanModal.ts:37 | A text already in normal form is its own normalisation |
| Text.NormalizeIdempotent | src/scanModal.ts:37 | Normalising twice gives the same text as normalising once |
| Text.TrimStartConcat | src/scanModal.ts:37 | Trimming the start of `a + c` drops all of `a` when `a` is whitespace, and otherwise trims `a` alone |
| Text.CollapseSpaceAfter | src/scanModal.ts:37 | A text ending in a non-whitespace character, followed by one space, collapses to its own collapse followed by that space |
| Text.CollapseSpaceAfterWs | src/scanModal.ts:37 | The `CollapseSpaceAfter` step for a text that starts with whitespace |
| Text.CollapseSpaceAfterNonWs | src/scanModal.ts:37 | The `CollapseSpaceAfter` step for a text that starts with another character |
| Text.CollapseRun | src/scanModal.ts:37 | Any non-empty whitespace run, anywhere in a text, collapses exactly like a single space there |
| Text.CollapseRunAfterWs | src/scanModal.ts:37 | `CollapseRun` when everything before the run is whitespace |
| Text.CollapseRunWs | src/scanModal.ts:37 | The `CollapseRun` step for a prefix that starts with whitespace |
| Text.CollapseRunNonWs | src/scanModal.ts:37 | The `CollapseRun` step for a prefix that starts with another character |
| Text.LeadingWsCollapse | src/scanModal.ts:37 | Leading whitespace makes no difference once the collapsed text is trimmed at the start |
| Text.TrimSpaceAfter | src/scanModal.ts:37 | A trailing space makes no difference once both ends are trimmed |
| Text.CollapseTrailingRun | src/scanModal.ts:37 | A text ending in a non-whitespace character, followed by a whitespace run, collapses to its own collapse followed by one space |
| Text.TrimEndSplit | src/scanModal.ts:37 | A text is its trimmed end followed by whitespace only |
| Text.CollapseAfterTrimEnd | src/scanModal.ts:37 | The trimmed end of a text, followed by a whitespace run, collapses to its collapse followed by one space |
| Text.CollapseAfterTrimEndTwoPartRun | src/scanModal.ts:37 | The same, for a run given in two parts of which the second is non-empty |
| Text.TrailingWsCollapse | src/scanModal.ts:37 | Trailing whitespace makes no difference once both ends are trimmed |
| Text.NormalizeIgnoresRuns | src/scanModal.ts:37 | Texts that differ only in how one whitespace run is spelled normalise alike |
| Text.NormalizeIgnoresEnds | src/scanModal.ts:37 | Whitespace before and after a text does not change its normalisation |
| Classifier.TemplateMatches | src/scanModal.ts:31-48 | `isUnfilledJournalTemplate`. It is false for a blank template and otherwise compares normalised texts. Its meaning is given by `BlankTemplateNeverMatches`, `SelfMatch`, `MatchKeepsNonWs`, `RespacedNoteMatches` and `PaddedNoteMatches` |
| Classifier.CountNonBlank | src/scanModal.ts:81 | The non-blank line count is at most the number of lines, and is zero exactly when every line is whitespace |
| Classifier.Assess | src/scanModal.ts:71-85 | The title is the trimmed first line. `contentLength == 0` exactly when `nonBlankLines == 0`, which is exactly when the body is whitespace. The note is blank exactly when its body is whitespace or it matches the template |
| Classifier.BlankBodyFacts | src/scanModal.ts:77-81 | The trimmed body is empty, and no body line is non-blank, exactly when every body line is whitespace |
| Classifier.Body | src/scanModal.ts:77 | The lines after the first, `lines.slice(1)`. `TitleAndBody` gives its value |
| Classifier.IsBlank | src/scanModal.ts:85 | The verdict of `Assess`. It holds exactly when the body is whitespace or the note matches the template (`Assess`, `BlankBodyIsBlank`) |
| Classifier.BlankTemplateNeverMatches | src/scanModal.ts:32-34 | An empty or whitespace-only template matches no note, so only the body test decides |
| Classifier.MatchKeepsNonWs | src/scanModal.ts:37-47 | A matching note has the template's non-whitespace characters in the same order, and the template is not blank |
| Classifier.NonWsMismatchNeverMatches | src/scanModal.ts:37-47 | A note whose non-whitespace characters differ from the template's never matches |
| Classifier.SelfMatch | src/scanModal.ts:31-47 | A note identical to the template matches exactly when the template is not blank, and is then blank |
| Classifier.NearMissRejected | src/scanModal.ts:37-47 | Inserting one non-whitespace character anywhere into a matching note makes it stop matching |
| Classifier.RespacedNoteMatches | src/scanModal.ts:37-47 | A note that spells one whitespace run of a non-blank template differently, such as a tab for a space or extra blank lines, still matches it |
| Classifier.PaddedNoteMatches | src/scanModal.ts:37-47 | A note that adds whitespace before or after a non-blank template still matches it |
| Classifier.InsertGrowsNonWs | src/scanModal.ts:37 | Inserting a non-whitespace character adds one non-whitespace character |
| Classifier.BlankBodyIsBlank | src/scanModal.ts:76-85 | A note with only whitespace after its first line is blank whatever the template, with `contentLength` 0 |
| Classifier.TitleAndBody | src/scanModal.ts:71-78 | For `title + '\n' + rest`, the title is `trim(title)`, the body lines are the lines of `rest` and `contentLength` is the length of `rest.trim()` |
| Review.CountSelected | src/scanModal.ts:157 | The number of selected snippets is at most the list length |
| Review.CountSelectedExtremes | src/scanModal.ts:157 | The count is 0 exactly when nothing is selected, and equals the length exactly when everything is |
| Review.Filter | src/scanModal.ts:192 | `filter` never lengthens the list |
| Review.WithoutPath | src/scanModal.ts:284 | The filter by path of the single delete. `RemovePathAt` shows it removes exactly one snippet when paths are distinct |
| Review.Selected | src/scanModal.ts:177 | The selected snippets number `CountSelected` |
| Review.Entry | src/scanModal.ts:69-95 | A file contributes one unselected snippet of its own exactly when its read succeeded and the note is blank, and nothing otherwise |
| Review.Collect | src/scanModal.ts:68-106 | The entries of the files, concatenated in enumeration order. Its properties are the `Collect*` lemmas below |
| Review.ScanResult | src/scanModal.ts:64-106 | The list a scan builds. `ScanWellFormed` and `ScanFindsBlankFiles` state what it holds, and `FailedReadSkipsOnlyThatFile` what a failed read does |
| Review.ReadSuccesses | src/scanModal.ts:97 | `processedCount`: the number of successful reads. `ReadSuccessesStep` gives its step, and `Scan` ties it to the loop |
| Review.ReadSuccessesStep | src/scanModal.ts:97 | The processed count grows by one per successful read and not for a failed one |
| Review.ReportProgress | src/scanModal.ts:97-102 | After each processed file, the progress reports are those at every multiple of ten up to the processed count |
| Review.Milestones | src/scanModal.ts:97-102 | The processed counts at which progress is shown. `MilestonesEveryTen` gives them all |
| Review.MilestonesEveryTen | src/scanModal.ts:98 | After `n` processed files there are `n / 10` reports, at 10, 20, 30, ... |
| Review.CountTrue | src/scanModal.ts:183 | The number of successful deletes is at most the number attempted |
| Review.DeletedFiles | src/scanModal.ts:180-187 | One file leaves the vault per successful delete |
| Review.AfterBatchDelete | src/scanModal.ts:174-193 | The list the batch delete is meant to leave: the failed deletes stay, still selected. Its meaning is given by `AfterBatchDeleteCounts`, `AfterBatchDeleteKeepsUnselected` and `AfterBatchDeleteDistinct` |
| Review.DeleteEach | src/scanModal.ts:177-187 | The delete loop removes exactly the files whose delete succeeded, in order, and its count is the number of successes |
| Review.CountSelectedConcat | src/scanModal.ts:157 | The selected count of a concatenation is the sum of the counts |
| Review.CountSelectedSnoc | src/scanModal.ts:157 | Appending a snippet adds one to the count exactly when it is selected |
| Review.FilterConcat | src/scanModal.ts:192 | `filter` distributes over concatenation |
| Review.FilterKeepsAll | src/scanModal.ts:192 | A filter that accepts every snippet returns the list unchanged |
| Review.FilterMembers | src/scanModal.ts:192 | The filtered list holds exactly the accepted members of the list |
| Review.SelectedCount | src/scanModal.ts:177 | The selected list is as long as the selected count |
| Review.FilterDistinct | src/scanModal.ts:192 | Filtering keeps paths distinct |
| Review.CountAfterUpdate | src/scanModal.ts:223-234 | Replacing one snippet changes the count by the difference of the two snippets' selection |
| Review.RemovePathAt | src/scanModal.ts:284 | With distinct paths, removing a snippet's path removes exactly that snippet and keeps the rest in order |
| Review.FilterAround | src/scanModal.ts:284 | A filter that keeps everything before and after one snippet and rejects that snippet returns the list with exactly that snippet removed |
| Review.RemoveAtCount | src/scanModal.ts:278-284 | Removing a snippet lowers the count by one exactly when it was selected |
| Review.RemoveAtKeeps | src/scanModal.ts:284 | Removing a snippet keeps "all selected" and distinct paths, and leaves no snippet with the removed path |
| Review.CollectConcat | src/scanModal.ts:68-106 | Scanning two runs of files one after the other gives the two results concatenated |
| Review.CollectUnselected | src/scanModal.ts:88-93 | Every scanned snippet is unselected |
| Review.CollectFiles | src/scanModal.ts:88-93 | Every scanned snippet belongs to one of the scanned files |
| Review.CollectDistinct | src/scanModal.ts:68-106 | Files with distinct paths give snippets with distinct paths |
| Review.CollectAvoids | src/scanModal.ts:68-106 | A path held by no scanned file appears on no snippet |
| Review.CollectHas | src/scanModal.ts:68-106 | A file has a snippet in the scan exactly when its own entry is non-empty |
| Review.CollectSplit | src/scanModal.ts:68-106 | The scan is the scan before a file, that file's entry, then the scan after it |
| Review.CollectFinds | src/scanModal.ts:68-106 | Distinct paths, and the membership iff for every file |
| Review.ScanEntriesWellFormed | src/scanModal.ts:88-93 | Every file's entry is empty or one unselected snippet of that file |
| Review.CollectSkip | src/scanModal.ts:103-105 | A file with no entry leaves the scan as the scan before it plus the scan after it |
| Review.CollectStep | src/scanModal.ts:68-106 | Scanning one more file appends its entry |
| Review.FailedReadSkipsOnlyThatFile | src/scanModal.ts:69-105 | A failed read leaves the scan of every other file as it would be without that file |
| Review.ScanWellFormed | src/scanModal.ts:64-95 | A scan leaves nothing selected, and its snippets have distinct paths |
| Review.ScanFindsBlankFiles | src/scanModal.ts:64-106 | A file is in the scan result exactly when it was read and its note is blank, and paths stay distinct |
| Review.UnconfiguredRead | src/scanModal.ts:32 | As `src/main.ts` is written, a successful read survives the loop's `try` exactly when the note's body is blank. Otherwise the settings access throws and the file is skipped |
| Review.UnconfiguredEntryIgnoresTemplate | src/scanModal.ts:69-105 | As `src/main.ts` is written, each file contributes exactly what it would with a blank template, whatever the template |
| Review.UnconfiguredMissesTemplateNote | src/scanModal.ts:85 | The note `"a\nb"` matches the template `"a\nb"` and is found with it, but with `ScanModal` built as `src/main.ts` writes it, the note is skipped |
| Review.AfterBatchDeleteLength | src/scanModal.ts:174-193 | The intended batch delete removes one snippet per successful delete |
| Review.AfterBatchDeleteSelected | src/scanModal.ts:174-193 | After the intended batch delete, exactly the failed deletes remain selected |
| Review.AfterBatchDeleteCounts | src/scanModal.ts:174-193 | Both counts of the intended batch delete |
| Review.AfterBatchDeleteKeepsUnselected | src/scanModal.ts:192 | The intended batch delete keeps every unselected snippet, in order |
| Review.UnselectedCount | src/scanModal.ts:192-193 | Keeping only unselected snippets leaves a count of 0, which is what line 193 sets |
| Review.AfterBatchDeleteDistinct | src/scanModal.ts:174-193 | The intended batch delete keeps paths distinct and adds no snippet |
| Review.DropSelectedMatchesIntendedIff | src/scanModal.ts:180-193 | Dropping every selected snippet gives the intended list exactly when every delete succeeded |
| Review.FailedBatchDeleteLosesNote | src/scanModal.ts:180-193 | One selected note whose delete fails stays in the vault but leaves the list |
| Review.ScanModal.constructor | src/scanModal.ts:17-18 | A new session has an empty list, count 0 and an unselected icon |
| Review.ScanModal.Scan | src/scanModal.ts:50-110 | The list is the scan of the files. `processedCount` is the number of successful reads and `blankFilesCount` the list length. Progress is reported at every tenth processed file. The count is not reset. `Valid()` holds when the count was 0 |
| Review.ScanModal.ScanFile | src/scanModal.ts:69-105 | One loop iteration appends the file's entry, counts a successful read and reports progress on multiples of ten. A failed read changes nothing |
| Review.ScanModal.Toggle | src/scanModal.ts:222-239 | Only the target snippet flips, the count moves by ±1, and the icon shows "all selected" exactly when every snippet is |
| Review.ScanModal.SelectAll | src/scanModal.ts:142-160 | The icon flips, every snippet takes the new state and keeps its other fields, and the count becomes the length or 0 |
| Review.ScanModal.DeleteOne | src/scanModal.ts:272-298 | On success, exactly that snippet is removed and the rest keep their order. The count drops exactly when it was selected. On failure nothing changes |
| Review.ScanModal.BatchDeleteEnabled | src/scanModal.ts:303-308 | "Delete Selected" is enabled exactly when some snippet is selected |
| Review.ScanModal.BatchDelete | src/scanModal.ts:174-197 | Nothing happens when nothing is selected. Otherwise the successful deletes are removed from the vault and counted, and the list keeps only the unselected snippets with count 0 |
| Review.ScanModal.BatchDeleteKeepingFailures | src/scanModal.ts:174-197 | As `BatchDelete`, but snippets whose delete failed stay in the list, still selected, and the count drops by the number deleted |

## Left out

- Vault I/O (`getMarkdownFiles`, `read`, `delete`) is not modelled as calls. Their outcomes are parameters: the file list, one `ReadOutcome` per file, and one success flag per attempted delete.
- DOM rendering, `Notice` messages and `console` output are not modelled. This includes icon glyphs and classes, the description text and the `debugOutput` logging at lines 42-45. The "Select All" icon's state is kept as the field `selectAllOn`.
- `updateSelectionIcons` (lines 311-324) is not modelled because it only repaints the icons.
- `updateBatchDeleteButton` is modelled only as its enabled test, `BatchDeleteEnabled`.
- Opening a note in the workspace (lines 248-251, 263-265) is not modelled. It is a foreign call that changes no session state.
- `async`/`await` and the `setTimeout(0)` yield are not modelled, because handlers are taken to run one at a time. The progress message becomes the list of processed counts at which it is shown (`Milestones`).
- Snippets are values in a `seq`, not shared objects. The handler closures of `displayFileSnippets` hold snippet objects; they are modelled by the snippet's index (`Toggle`, `DeleteOne`). A list that the re-render rebuilds is therefore not distinguished from the objects the old closures hold.
- The journal template is a parameter of the scan. `src/main.ts:14` and `src/main.ts:25` construct `ScanModal` without settings. What that does to the scan is modelled on its own by `UnconfiguredRead` (see Findings). The scan otherwise takes the template as configured.
- The display-time title fallback to `file.basename` (line 246) is not modelled. The `lines.length > 0` fallback at line 74 cannot be reached, because `split` always returns at least one line (`Text.Split`).
- Review.ScanModal.Scan does not reset `selectedCount` (line 64 clears only the list). It therefore promises `Valid()` only when the count was 0 before the scan, which is the case for each freshly constructed modal.
- Review.ScanModal.Scan requires the enumerated files to have distinct paths. This assumes that `getMarkdownFiles` lists each vault file once; the source does not check it.
- Classifier.Assess: `contentLength` counts characters (Unicode scalar values). JavaScript's `length` (line 78) counts UTF-16 code units, so a body holding a character outside the Basic Multilingual Plane gets a smaller stored length here. The `=== 0` test is unaffected. Strings holding lone surrogates cannot be represented.
- Review.ScanModal.SelectAll: the handler is only reachable when the list is non-empty (lines 118-121). The model also lets it run on an empty list.
- Two behaviours are modelled as the code has them:
  - the batch delete drops snippets whose delete failed (see Findings);
  - `processedCount` counts only successful reads, because a failed read skips `processedCount++` (line 97 is inside the `try`).

## Findings

| source | as written | input that shows it | evidently intended | confidence | as-written member | corrected member |
|---|---|---|---|---|---|---|
| src/scanModal.ts:192-193 | After a batch delete the list keeps only unselected snippets and the count is set to 0, so a snippet whose delete failed leaves the list while its note stays in the vault | one selected snippet whose delete fails: the list becomes empty and the vault still holds the note | keep failed snippets in the list, still selected, and lower the count by the number deleted | not executed | Review.ScanModal.BatchDelete, Review.FailedBatchDeleteLosesNote, Review.DropSelectedMatchesIntendedIff | Review.ScanModal.BatchDeleteKeepingFailures, Review.AfterBatchDeleteCounts |
| src/main.ts:14 | `ScanModal` is built without settings (a one-argument call to a two-argument constructor, which `tsc` rejects, so this describes a build that strips the types without checking them). For every note whose body is not blank, line 32 reads `this.settings.journalTemplate` and throws. The `catch` at line 103 then skips the note before `processedCount++` | the note `a\nb` with the journal template `a\nb`: with settings it is found blank; built as line 14 writes it, the note is skipped | pass the plugin's settings to `ScanModal`, so a note equal to the template is found | not executed | Review.UnconfiguredRead, Review.UnconfiguredEntryIgnoresTemplate, Review.UnconfiguredMissesTemplateNote | Review.ScanModal.Scan, Review.ScanFindsBlankFiles, Classifier.SelfMatch |
