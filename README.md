# Car Talk downloader: file naming, page expansion and download planning

The downloader opens the Car Talk archive page in a headless browser. It
clicks "load more" until the list stops growing, then scrapes every
download button as a `(link, title)` pair. It drops the pairs without a
link or a title and saves each remaining episode as `<title>.mp3` in an
output folder, skipping names that are already there. This project models
the three pieces of logic in `source/index.ts` that decide what happens:

- `optional.dfy`: `Optional.Option`, standing for JavaScript's `null` next to a present value.
- `file_names.dfy` (module `FileNames`): `getFileName`, lines 131-141.
  - A null or empty title becomes `Unknown_Title.mp3`.
  - Otherwise the title is HTML-decoded. The first `:` becomes ` -` and the first `#` is dropped.
  - Each run of the characters `< > : " / \ | ? *` becomes one `_`.
  - The result is trimmed and `.mp3` is appended.
  - The functions only compute; the lemmas after them state what the result is.
- `page_expander.dfy` (module `PageExpander`): the "load more" loop of `doStuff`, lines 25-68.
  - It is a method over a sequence of observations, one per iteration: the button count and the visibility of the load-more control.
  - The try counter is `currentLoadMoreTryCount`. It is specified by the function `Streak` and proved to be the length of the trailing run of iterations that did not change the count.
- `downloads.dfy` (module `Downloads`): the filter on line 79 and the download loop on lines 84-97.
  - The loop is a method, proved against the function `Planned`. `Planned` is the ordered list of transfers started for a snapshot of the existing file names.

Some behaviours of the code that the model makes explicit:

- The counter is reset whenever the count differs from the previous one. This includes a count that drops, because line 56 compares with `==`.
- The first iteration compares against 0.
- The filter removes every button without a title. The `Unknown_Title.mp3` branch of `getFileName` is therefore never reached from the download loop: `Downloads.UntitledButtonNotDownloaded`.
- The set of existing names is read once, before the loop. Two buttons with the same file name are both fetched, the second into the first one's file: `Downloads.SameNameFetchedTwice`.
- A title made only of whitespace, or of a single `#` with whitespace around it, is truthy. Its file name is then `.mp3`: `FileNames.FileNameShape` allows an empty stem. Only the first `#` is removed, so `##` gives `#.mp3`.

## Model

| member | source | states |
|---|---|---|
| FileNames.FileName | source/index.ts:131-141 | computes `getFileName`: the fallback name for a null or empty title, else the stem followed by `.mp3`; its contract bounds the name by the decoded title's length plus one plus `.mp3`; its properties are `FileNameShape`, `PlainTitleKept` and the `Stem…` lemmas |
| FileNames.Stem | source/index.ts:137-140 | computes the decoded title with its first `:` rewritten, its first `#` removed, its runs replaced and the result trimmed; its contract says it is at most one character longer than the decoded title; its properties are `StemSafe`, `StemDropsFirstHashOnly`, `StemRewritesFirstColon` and `StemKeepsOrdinary` |
| FileNames.IndexOf | source/index.ts:138 | computes the position of the first occurrence of a character; its contract says a found position holds that character; `IndexOfFirst` proves it is the first and that none is found only when the character is absent |
| FileNames.ReplaceFirst | source/index.ts:138 | computes `replace` with a one-character string pattern; its contract says the length is unchanged or changes by one character traded for the replacement; its properties are `ReplaceFirstOnlyFirst`, `ReplaceFirstKeepsOther` and `ReplaceFirstDropsOne` |
| FileNames.ReplaceRuns | source/index.ts:138 | computes the global replace of runs of reserved characters by `_`; its properties are `ReplaceRunsSafe`, `ReplaceRunsIdentity`, `ReplaceRunsCollapsesRun`, `ReplaceRunsKeeps` and `ReplaceRunsShortens` |
| FileNames.ReplaceRunsShortens | source/index.ts:138 | the global replace never lengthens a string, since a run of one or more characters becomes one `_` |
| FileNames.IndexOfFirst | source/index.ts:138 | the search for a one-character pattern finds its first occurrence, and finds none exactly when the character is absent |
| FileNames.ReplaceFirstOnlyFirst | source/index.ts:138 | `replace` with a string pattern leaves a string without the character unchanged; otherwise it splices `rep` in place of the first occurrence only, trading exactly one copy of the character for `rep` |
| FileNames.ReplaceFirstKeepsOther | source/index.ts:138 | a first-occurrence replace neither adds nor removes a character that is neither the pattern nor in the replacement |
| FileNames.ReplaceFirstDropsOne | source/index.ts:138 | a first-occurrence replace removes exactly one copy of the pattern character when there is one |
| FileNames.RunLength | source/index.ts:138 | the `+` of the regular expression: the match at the start of a string is the longest prefix of reserved characters |
| FileNames.ReplaceRunsSafe | source/index.ts:138 | no reserved character survives the global replace |
| FileNames.ReplaceRunsIdentity | source/index.ts:138 | a string without reserved characters is left unchanged by the global replace |
| FileNames.RunLengthConcat | source/index.ts:138 | a run that ends inside a string ends at the same place once more text is appended |
| FileNames.ReplaceRunsConcat | source/index.ts:138 | the global replace distributes over a concatenation whose seam is not inside a run |
| FileNames.ReplaceRunsLeadingRun | source/index.ts:138 | a leading run of reserved characters becomes a single `_` |
| FileNames.ReplaceRunsCollapsesRun | source/index.ts:138 | each maximal run of reserved characters becomes exactly one `_`, and the text on either side is processed on its own |
| FileNames.ReplaceRunsKeeps | source/index.ts:138 | the global replace neither adds nor removes any character other than the reserved ones and `_` |
| FileNames.TrimStart | source/index.ts:140 | computes the removal of leading whitespace; its contract says the result is no longer than the input; `TrimStartSpec` characterises it |
| FileNames.TrimEnd | source/index.ts:140 | computes the removal of trailing whitespace; its contract says the result is no longer than the input; `TrimEndSpec` characterises it |
| FileNames.Trim | source/index.ts:140 | computes `trim` as the two removals in turn; its contract says the result is no longer than the input; its properties are `TrimTrims` and `TrimKeeps` |
| FileNames.TrimStartSpec | source/index.ts:140 | the start of `trim` removes exactly the leading whitespace: the result is a suffix, everything cut off is whitespace, and the result does not start with whitespace |
| FileNames.TrimEndSpec | source/index.ts:140 | the end of `trim` removes exactly the trailing whitespace: the result is a prefix, everything cut off is whitespace, and the result does not end with whitespace |
| FileNames.TrimTrims | source/index.ts:140 | a trimmed string has whitespace at neither end, and trimming adds no reserved character |
| FileNames.TrimStartKeeps | source/index.ts:140 | removing leading whitespace keeps the count of every other character |
| FileNames.TrimEndKeeps | source/index.ts:140 | removing trailing whitespace keeps the count of every other character |
| FileNames.TrimKeeps | source/index.ts:140 | `trim` keeps the count of every character that is not whitespace |
| FileNames.StemSafe | source/index.ts:137-140 | the text before `.mp3` holds no reserved character and no surrounding whitespace |
| FileNames.FileNameShape | source/index.ts:131-141 | a null or empty title gives `Unknown_Title.mp3`; every file name ends in `.mp3`, and the text before it holds no reserved character and has no surrounding whitespace |
| FileNames.CollapseAndTrimKeep | source/index.ts:138-140 | the run replace followed by `trim` keeps the count of every character that is neither reserved, `_` nor whitespace |
| FileNames.StemDropsFirstHashOnly | source/index.ts:137-140 | only the first `#` of the decoded title is removed: the stem holds one `#` fewer when there is one, and every later `#` survives |
| FileNames.StemRewritesFirstColon | source/index.ts:137-140 | the first `:` becomes ` -`: the stem holds one `-` more than the decoded title exactly when the title has a colon |
| FileNames.StemKeepsOrdinary | source/index.ts:137-140 | a character that no rewrite produces or consumes occurs in the stem as often as in the decoded title |
| FileNames.PlainTitleKept | source/index.ts:131-141 | a title that needs no rewriting is saved as the title followed by `.mp3` |
| PageExpander.Streak | source/index.ts:56-60 | computes `currentLoadMoreTryCount` after `n` iterations by the increment/reset rule; its contract says it never exceeds `n`; `StreakIsTrailingRun` says what it counts |
| PageExpander.StreakIsTrailingRun | source/index.ts:56-60 | the try counter after `n` iterations is the length of the run of unchanged-count iterations ending there: those iterations are unchanged, and the one before them changed the count |
| PageExpander.StreakCoversWindow | source/index.ts:56-60 | a window of unchanged iterations drives the try counter to at least the window's length |
| PageExpander.WindowsWithinBound | source/index.ts:56-65 | while the try counter stays within a bound, no window of unchanged iterations is longer than that bound |
| PageExpander.LongWindowEndsLoop | source/index.ts:56-65 | while the counter has stayed within `maxAttempts`, no window of `maxAttempts + 1` unchanged iterations ends before the current one |
| PageExpander.Expand | source/index.ts:25-68 | the loop runs only if the control was visible at the start, and the counter follows the reset/increment rule from a previous count of 0; `previous` equals `current` at exit; every iteration but the last saw the control visible; it stops exactly when the control is hidden or the counter exceeds `maxAttempts`; never more than `maxAttempts + 1` unchanged iterations in a row; and `maxAttempts + 1` unchanged observations in a row stop it |
| Downloads.FilterItems | source/index.ts:79 | every item the filter passes on has a truthy link and a truthy title |
| Downloads.FilterItemsCount | source/index.ts:79 | the filter passes on exactly the items with a truthy link and title, each as many times as it was scraped |
| Downloads.FilterItemsConcat | source/index.ts:79 | the filter keeps the relative order of the items it keeps |
| Downloads.FilterDropsLast | source/index.ts:79 | of three items, two that pass are kept in order and one that fails is dropped |
| Downloads.Request | source/index.ts:86-95 | computes the transfer for one item: its link and the file name `nameOf` gives its title; `ItemFetchedIffNew` and `PlannedCount` say when it is started |
| Downloads.Requests | source/index.ts:85-86 | one transfer per item, in order, each for the item's link and file name |
| Downloads.Planned | source/index.ts:85-91 | no planned transfer writes a name that is in the existing-file snapshot |
| Downloads.PlannedCount | source/index.ts:85-91 | a transfer is planned as often as the items ask for it, unless its name is in the snapshot, in which case never |
| Downloads.PlannedConcat | source/index.ts:85-97 | the items are handled one after another: planning a concatenation plans each part in turn |
| Downloads.ItemFetchedIffNew | source/index.ts:86-91 | an item's transfer is started exactly when its file name is not in the snapshot |
| Downloads.SameNameFetchedTwice | source/index.ts:82-95 | the snapshot is not refreshed: two items with the same new file name are both fetched, in order |
| Downloads.DownloadAll | source/index.ts:84-97 | the loop starts exactly the planned transfers of the filtered items, in order, and records the outcome of each, in the order started; `currentDownloadCount` ends at 1 plus the number of transfers started, whether they succeeded or not |
| Downloads.PlannedPair | source/index.ts:85-91 | two items are each skipped or fetched on their own, in order |
| Downloads.UntitledButtonNotDownloaded | source/index.ts:79-95 | with an untitled button after two titled ones, only the two titled files are fetched and `Unknown_Title.mp3` is not |
| Downloads.ExistingFileSkipped | source/index.ts:82-95 | an item whose file already exists is skipped and the next one is fetched |

## Left out

- `he.decode` (line 137) is the HTML-entity decoder of an external library. It is the parameter `decode`, about which nothing is assumed.
- Browser automation is replaced by the observation sequence. This covers launch, navigation, script injection, scrolling, clicking and waiting (lines 14-23 and 36-45). The visibility read at line 25 is `visibleAtStart`.
- The scrape and `JSON.parse` of the metrics attribute (lines 72-77) are left out. The model starts from a sequence of `(link, title)` options.
  - A title of a JSON type other than string is not modelled.
- `getExistingFiles` (lines 123-129) is file-system I/O. Its result is the input set `existing`.
  - That set is a value, so the loop cannot change it.
- `downloadAudioFromLinkAsync` (lines 105-121) is streaming HTTP and file writing. Only its outcome is modelled: the parameter `outcomeOf` gives the outcome of the `k`-th transfer started, so two transfers of the same link succeed or fail independently.
  - An error of the write stream rejects the promise. Line 95 catches it, and the loop goes on.
- Logging, CLI parsing and the settings file (lines 18-21, 43, 49, 63, 89, 93, 99, 132, 134 and 143-169) are left out.
  - The summary on line 99 reports the number of filtered buttons rather than the number fetched.
- PageExpander.Expand: the finite observation sequence can run out while the control is still visible. The model then stops with `OutOfObservations`, an exit the source does not have.
- PageExpander.Expand: `settings.loadMoreMaxAttempts` comes from a settings file that is not part of this model. It is the parameter `maxAttempts`, a natural number.
- Downloads.DownloadAll: every transfer is assumed to end with an outcome. In the source, an error on the `request(link)` stream itself (a DNS failure, or a refused or reset connection) is not forwarded by `pipe`. The `finish` and `error` listeners of lines 112-119 sit on the write stream, so that error goes uncaught and ends the process before lines 95-96 run. A transfer that stalls also blocks the `await` on line 95 forever, since there is no timeout. Neither the crash nor the endless wait is modelled.
- Downloads.DownloadAll: the naming function is the parameter `nameOf`. The source always passes `getFileName`, which is `Downloads.NamingOf(decode)`, i.e. `FileNames.FileName` with the decoder. The lemmas about specific titles use that instance.
- Strings are sequences of Unicode scalar values rather than UTF-16 code units, so a lone surrogate cannot be represented.
