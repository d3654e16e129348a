# Unique file mover and text analyzer, modelled in Dafny

The repository holds two small WPF tools. This project models the logic of both and proves properties of it.

**UniqueFileMover.** The move button trims the two path boxes and checks that both directories exist and differ (ignoring case). It then walks every file under the source directory. Each file's MD5 digest is rendered as lower-case hexadecimal and added to a `HashSet<string>` that compares ordinally and ignores case. Only when the `Add` succeeds is the file copied to `destination/<base name>`, overwriting what is there. The loop counts the total, the duplicates and the copies. An exception on one file is logged, and the loop goes on.

The model is layered as follows:
- `OrdinalText`: `String.Trim`, `ToLowerInvariant` and ordinal case-insensitive equality.
- `FileHash`: `BitConverter.ToString`, `Replace("-", "")` and the lower-cased rendering, against a reference base16 encoder (section 8 of RFC 4648) and its decoder.
- `DedupSpec`: one loop iteration as a pure `Step`, and the whole run as `Process`.
- `DedupProperties`: what a run guarantees.
- `UniqueFileMover`:
  - the guard;
  - the imperative loop, proved to compute `Process`;
  - the click handler.

**TextAnalyzer.** `AnalyzeText` counts:
- characters;
- matches of `\b\w+\b`, `[.!?]+`, `\?` and `!`.

It then builds a report with a header, an empty line and one line per selected count. The start/pause button is a small state machine over `_isRunning`, `_isPaused` and the `ManualResetEventSlim` the background loop waits on.

The model is layered as follows:
- `TextStatistics`: how `Regex.Matches` scans a text with those four patterns. The matches of a run pattern are proved to be exactly the maximal runs, and a literal pattern is proved to match once per occurrence.
- `TextAnalyzer`: the check boxes, the counts, the report as lines, and its text with a parser that reads it back.
- `AnalyzerControl`: the button as pure transition functions and as a class with the three fields. It includes the finding below.

External effects are inputs:
- MD5 is a parameter `md5: Bytes -> Digest`. A `Digest` is 16 bytes.
- `Directory.Exists` is a parameter `directoryExists`.
- The result of `Directory.GetFiles` is the `listing` argument, or `None` when it throws.
- Whether a file can be read, and whether its copy succeeds, are fields of each `SourceFile`.
- The destination directory is a map to file contents. Its keys are the file system's keys of base names (`DestKey`), so that names differing only in case denote one file on NTFS.
- The runtime's case map behind `OrdinalIgnoreCase` is a parameter `upper`. The destination file system's name case table is a parameter `fsUpper`. Each is known only to agree with the invariant culture on ASCII.
- The regex `\w` class is a parameter `isWordChar`.

## Model

| member | source | states |
|---|---|---|
| OrdinalText.TrimStart | UniqueFileMover.xaml.cs:36-37 | the result is a suffix of the input; everything removed is white space; the result does not start with white space |
| OrdinalText.TrimEnd | UniqueFileMover.xaml.cs:36-37 | the result is a prefix of the input; everything removed is white space; the result does not end with white space |
| OrdinalText.Trim | UniqueFileMover.xaml.cs:36-37 | `String.Trim()`: the result neither starts nor ends with white space |
| OrdinalText.TrimIsInfix | UniqueFileMover.xaml.cs:36-37 | the trimmed path is a contiguous part of the box text, and only white space lies around it |
| OrdinalText.TrimIdempotent | UniqueFileMover.xaml.cs:36-37 | trimming twice equals trimming once |
| OrdinalText.EqualsIgnoreCase | UniqueFileMover.xaml.cs:49 | `string.Equals(…, OrdinalIgnoreCase)` with the runtime case map as a parameter. Its meaning is stated by `EqualsIgnoreCaseMeaning` |
| OrdinalText.ToLowerInvariant | UniqueFileMover.xaml.cs:113 | keeps the length and leaves no upper-case ASCII letter |
| OrdinalText.FoldCase | UniqueFileMover.xaml.cs:75 | the key the hash set stores: same length, no lower-case ASCII letter left |
| OrdinalText.AsciiFoldIsExact | UniqueFileMover.xaml.cs:75 | on ASCII text, every case map that agrees with the invariant culture on ASCII folds exactly as `FoldCase` |
| OrdinalText.EqualsIgnoreCaseMeaning | UniqueFileMover.xaml.cs:49 | under the runtime case map `upper`, ordinal ignore-case equality holds iff the lengths are equal and the characters agree after `upper`; plain equality implies it |
| FileHash.HexDigit | UniqueFileMover.xaml.cs:113 | each nibble renders as a hexadecimal digit in the requested case |
| FileHash.BitConverterToString | UniqueFileMover.xaml.cs:113 | `BitConverter.ToString` of n > 0 bytes is 3n - 1 characters long: pairs joined by dashes |
| FileHash.RemoveDashes | UniqueFileMover.xaml.cs:113 | `Replace("-", "")` leaves no dash |
| FileHash.Hex | UniqueFileMover.xaml.cs:113 | the reference base16 text is two digits per byte, all in the requested case |
| FileHash.ParseHex | UniqueFileMover.xaml.cs:113 | a decoded text has half as many bytes as the text has characters |
| FileHash.RenderHash | UniqueFileMover.xaml.cs:113 | the hash text holds no dash and no upper-case letter. `RenderHashIsLowerHex` pins it down as lower-case base16 |
| FileHash.StripDashes | UniqueFileMover.xaml.cs:113 | removing the dashes from `BitConverter.ToString` gives the plain upper-case base16 text |
| FileHash.LowerHex | UniqueFileMover.xaml.cs:113 | `ToLowerInvariant` of upper-case base16 is lower-case base16 |
| FileHash.RenderHashIsLowerHex | UniqueFileMover.xaml.cs:113 | the hash text is exactly the lower-case base16 of the digest |
| FileHash.ParseHexRoundTrip | UniqueFileMover.xaml.cs:113 | decoding the lower-case base16 text gives back the bytes |
| FileHash.RenderHashShape | UniqueFileMover.xaml.cs:110-113 | an MD5 hash text is 32 lower-case hexadecimal digits with no dash |
| FileHash.RenderHashInjective | UniqueFileMover.xaml.cs:113 | two digests render to the same text iff they are equal |
| FileHash.FoldedHashInjective | UniqueFileMover.xaml.cs:75-82 | for any runtime case map that agrees with the invariant culture on ASCII, two hash texts are equal ignoring case iff the digests are equal |
| DedupSpec.GetFileHash | UniqueFileMover.xaml.cs:108-114 | a hash is returned iff the file can be opened and read |
| DedupSpec.GetFileHashMeaning | UniqueFileMover.xaml.cs:108-114 | the returned text is the lower-case base16 MD5 digest of the file's bytes: 32 characters, no dash |
| DedupSpec.Contains | UniqueFileMover.xaml.cs:75 | membership in the `OrdinalIgnoreCase` hash set, by case-folded key. Its meaning is stated by `IgnoreCaseAdd` and `KeyOfAnyCaseMap` |
| DedupSpec.IgnoreCaseAdd | UniqueFileMover.xaml.cs:75-82 | `Add` returns true iff no entry equal ignoring case is present; a false `Add` leaves the set unchanged |
| DedupSpec.IgnoreCaseAddMeaning | UniqueFileMover.xaml.cs:75-82 | after `Add`, the set contains (up to case) exactly what it contained before plus the item |
| DedupSpec.KeyOfAnyCaseMap | UniqueFileMover.xaml.cs:75-82 | a hash's key in the set does not depend on the runtime case map beyond ASCII; two files share a key iff their digests are equal |
| DedupSpec.DestKey | UniqueFileMover.xaml.cs:88-89 | the destination file a base name denotes is the name mapped through the file system's case table: on NTFS `a.txt` and `A.TXT` are one file; on a case-sensitive system every name is its own |
| DedupSpec.DestKeyMeaning | UniqueFileMover.xaml.cs:88-89 | two names denote the same destination file iff they have equal length and agree character by character under the file system's case table |
| DedupSpec.Step | UniqueFileMover.xaml.cs:79-96 | one iteration:<br>• appends one outcome;<br>• adds the key iff the file was read;<br>• changes the destination only on a successful copy, and then only the file its base name denotes;<br>• an unreadable file changes nothing but the outcome list;<br>• a failed copy changes neither counter |
| DedupSpec.Count | UniqueFileMover.xaml.cs:92-96 | an outcome occurs at most as often as the list is long |
| DedupSpec.Process | UniqueFileMover.xaml.cs:77-97 | the run records one outcome per enumerated file |
| DedupSpec.CountersMatchOutcomes | UniqueFileMover.xaml.cs:82-90 | `duplicates` counts the duplicate outcomes and `moved` counts the successful copies |
| DedupSpec.CountPartition | UniqueFileMover.xaml.cs:79-96 | every file takes exactly one of the four branches |
| DedupSpec.Totals | UniqueFileMover.xaml.cs:70-97 | duplicates + moved + files that reached the catch block = total, so duplicates + moved ≤ total |
| DedupSpec.OutcomesPrefix | UniqueFileMover.xaml.cs:77-97 | the first k outcomes depend only on the first k files |
| DedupSpec.SeenGrows | UniqueFileMover.xaml.cs:75-86 | `seenHashes` only grows as the loop advances |
| DedupSpec.ProcessSnoc | UniqueFileMover.xaml.cs:77-97 | one more enumerated file means one more loop iteration |
| DedupSpec.StepAt | UniqueFileMover.xaml.cs:77-97 | the state after k + 1 files is one iteration on file k after the first k |
| DedupProperties.ReadableKeys | UniqueFileMover.xaml.cs:75-82 | every key in the set comes from some file that could be read |
| DedupProperties.ReadableKeysComplete | UniqueFileMover.xaml.cs:75-82 | every file that could be read contributes its key |
| DedupProperties.SeenMeaning | UniqueFileMover.xaml.cs:75-86 | at the end the set holds exactly the keys of the readable files, whether or not their copies succeeded |
| DedupProperties.SeenBefore | UniqueFileMover.xaml.cs:77-86 | file k's hash is already in the set iff an earlier readable file has the same digest |
| DedupProperties.OutcomeAt | UniqueFileMover.xaml.cs:79-96 | the branch of file k in terms of the set the first k files left |
| DedupProperties.Classification | UniqueFileMover.xaml.cs:79-96 | each branch as an iff:<br>• hash failure iff unreadable;<br>• duplicate iff an earlier readable file has the same digest;<br>• otherwise copied or copy-failed, according to the copy |
| DedupProperties.FirstSeenWins | UniqueFileMover.xaml.cs:77-86 | of two readable files with equal content, the later one is a duplicate; the first of its content is copied or its copy fails, never a duplicate |
| DedupProperties.AtMostOneCopyAttempt | UniqueFileMover.xaml.cs:75-90 | two files whose copies were attempted have different digests: one copy attempt per distinct hash |
| DedupProperties.CopyFailureQuirk | UniqueFileMover.xaml.cs:82-95 | after a copy fails behind a successful `Add`, every later readable file with that digest is a duplicate, and no file with that digest is copied in the run |
| DedupProperties.LastCopy | UniqueFileMover.xaml.cs:88-89 | reference definition: the last file copied to the destination file a name denotes, under any spelling the file system treats as that name, with no later copy there; `None` when there is none |
| DedupProperties.DestinationIsLastCopy | UniqueFileMover.xaml.cs:88-89 | last write wins: each destination file holds the content of the last file copied to it, whatever the spelling of its name; files no copy touched keep their old content |
| DedupProperties.CaseVariantNamesShareOneFile | UniqueFileMover.xaml.cs:88-89 | on a file system that ignores ASCII case, copying `A.txt` and then `a.txt` (different digests) copies both, and leaves one destination file holding the second content |
| DedupProperties.StepKeepsInsertedFailure | UniqueFileMover.xaml.cs:79-96 | an iteration does not look at the outcome history |
| DedupProperties.UnreadableLastFile | UniqueFileMover.xaml.cs:79-96 | an unreadable file at the end adds one hash failure and changes nothing else |
| DedupProperties.UnreadableFileIsIsolated | UniqueFileMover.xaml.cs:79-96 | failure isolation: inserting an unreadable file anywhere adds one failure at its position; the set, the counters, the destination and every other outcome are as without it |
| UniqueFileMover.CheckDirectories | UniqueFileMover.xaml.cs:36-53 | the guard, in order:<br>• a run proceeds iff both trimmed paths exist and differ ignoring case under the runtime case map;<br>• a missing source is reported first, then a missing destination;<br>• the paths passed on are the trimmed ones |
| UniqueFileMover.ProceedPathsDiffer | UniqueFileMover.xaml.cs:36-53 | a run only starts on two existing, distinct, already-trimmed paths |
| UniqueFileMover.MoveUniqueFiles | UniqueFileMover.xaml.cs:68-106 | the loop computes exactly `Process`: summary counters, destination and outcomes; duplicates + moved + failures = total |
| UniqueFileMover.MoveFilesClick | UniqueFileMover.xaml.cs:34-66 | a rejected guard starts nothing and leaves the destination; an exception from the enumeration aborts the run with the destination untouched; otherwise the result is that of the run over the listing |
| TextStatistics.RunEnd | TextAnalyzerWPF.xaml.cs:124-125 | the greedy `+` stops at the end of the run of class characters: all characters up to the end are in the class, and the next one is not |
| TextStatistics.MatchAt | TextAnalyzerWPF.xaml.cs:124-127 | a match found at a position is non-empty and starts with a class character |
| TextStatistics.MatchesFrom | TextAnalyzerWPF.xaml.cs:124-127 | at most one match per character scanned |
| TextStatistics.CountMatches | TextAnalyzerWPF.xaml.cs:124-127 | a match count is at most the text length |
| TextStatistics.RunStartsFrom | TextAnalyzerWPF.xaml.cs:124-125 | there are at most as many run beginnings as characters |
| TextStatistics.ClassCountFrom | TextAnalyzerWPF.xaml.cs:125 | there are at most as many class characters as characters |
| TextStatistics.SkippedIsNotInClass | TextAnalyzerWPF.xaml.cs:124-125 | where a run pattern fails at a reachable position, the character there is outside the class |
| TextStatistics.PrependRun | TextAnalyzerWPF.xaml.cs:124-125 | a maximal run followed by later separated runs is again a list of separated runs |
| TextStatistics.RunMatchesFrom | TextAnalyzerWPF.xaml.cs:124-125 | every match of `\b\w+\b` or `[.!?]+` is a maximal run, and matches come left to right with gaps between them |
| TextStatistics.RunMatchesCover | TextAnalyzerWPF.xaml.cs:124-125 | every class character lies inside some match |
| TextStatistics.NoRunStartsInside | TextAnalyzerWPF.xaml.cs:124-125 | no run begins inside a run |
| TextStatistics.RunCountFrom | TextAnalyzerWPF.xaml.cs:124-125 | the scan finds one match per maximal run |
| TextStatistics.RunStartsAtMostClassCount | TextAnalyzerWPF.xaml.cs:125 | runs are no more numerous than class characters |
| TextStatistics.MatchesAreMaximalRuns | TextAnalyzerWPF.xaml.cs:124-125 | the matches are exactly the maximal runs, in order, covering every class character; their count is the number of maximal runs |
| TextStatistics.RunCountBounds | TextAnalyzerWPF.xaml.cs:125 | a run pattern matches iff some class character occurs, and matches at most as often as there are class characters |
| TextStatistics.LiteralCountFrom | TextAnalyzerWPF.xaml.cs:126-127 | a literal pattern matches once per occurrence in the rest of the text |
| TextStatistics.LiteralCount | TextAnalyzerWPF.xaml.cs:126-127 | `\?` and `!` match as often as the character occurs |
| TextAnalyzer.SelectionOf | TextAnalyzerWPF.xaml.cs:78-82 | the flags passed to `AnalyzeText` are the boxes' `IsChecked == true`; any flag set implies `IsAnyAnalysisOptionSelected` |
| TextAnalyzer.IsAnyAnalysisOptionSelected | TextAnalyzerWPF.xaml.cs:142-149 | some analysis box is checked (`IsChecked == true`). `SelectionOf` and `HeaderOnlyWhenNothingSelected` tie it to the report |
| TextAnalyzer.IsAnyOutputOptionSelected | TextAnalyzerWPF.xaml.cs:151-155 | some output box is checked. `IdleClick` shows that a run starts only with one checked |
| TextAnalyzer.Statistics | TextAnalyzerWPF.xaml.cs:123-127 | the character count is the text length, and every match count is at most the length. `WordCount`, `SentenceCount` and `CharacterAndMarkCounts` give what each count means |
| TextAnalyzer.WordCount | TextAnalyzerWPF.xaml.cs:124 | the word count is the number of maximal runs of word characters, and at most the text length |
| TextAnalyzer.SentenceCount | TextAnalyzerWPF.xaml.cs:125 | the sentence count is the number of maximal runs of `.!?`; it is positive iff the text contains one, and at most the number of them |
| TextAnalyzer.CharacterAndMarkCounts | TextAnalyzerWPF.xaml.cs:123-127 | the character count is the text length; the question and exclamation counts are the numbers of `?` and `!` |
| TextAnalyzer.Report | TextAnalyzerWPF.xaml.cs:129-137 | the report has the header and the empty line first, and at most five count lines. `ReportStructure` pins down the rest |
| TextAnalyzer.EveryMeasureIsReported | TextAnalyzerWPF.xaml.cs:133-137 | each count has its place in the report order |
| TextAnalyzer.CountLinesContents | TextAnalyzerWPF.xaml.cs:133-137 | the count lines are lines of selected counts, with their values |
| TextAnalyzer.CountLinesOrdered | TextAnalyzerWPF.xaml.cs:133-137 | the count lines come in the fixed order |
| TextAnalyzer.CountLinesComplete | TextAnalyzerWPF.xaml.cs:133-137 | every selected count has a line |
| TextAnalyzer.ReportIsCountLines | TextAnalyzerWPF.xaml.cs:129-139 | the five conditional `AppendLine`s are the selected count lines in the fixed order, after the header and the empty line |
| TextAnalyzer.ReportCountLines | TextAnalyzerWPF.xaml.cs:133-137 | each line after the first two is a selected count with its value |
| TextAnalyzer.ReportOrdered | TextAnalyzerWPF.xaml.cs:129-139 | header, then the empty line, then the counts in the order characters, words, sentences, questions, exclamations |
| TextAnalyzer.HeaderFirst | TextAnalyzerWPF.xaml.cs:129-131 | ordered count lines stay ordered behind the header and the empty line |
| TextAnalyzer.ReportHasLine | TextAnalyzerWPF.xaml.cs:133-137 | a selected count has its line with its value |
| TextAnalyzer.ReportStructure | TextAnalyzerWPF.xaml.cs:129-139 | the report starts with the header and an empty line, then holds exactly one line per selected count, with its value, in the fixed order |
| TextAnalyzer.HeaderOnlyWhenNothingSelected | TextAnalyzerWPF.xaml.cs:129-149 | the report has a count line iff some analysis box is checked; with none checked it is the header and the empty line alone |
| TextAnalyzer.DecimalString | TextAnalyzerWPF.xaml.cs:133-137 | a count prints as a non-empty string of decimal digits without a leading zero |
| TextAnalyzer.ParseDecimal | TextAnalyzerWPF.xaml.cs:133-137 | only a non-empty string reads as a number |
| TextAnalyzer.DecimalRoundTrip | TextAnalyzerWPF.xaml.cs:133-137 | reading the printed digits back gives the count |
| TextAnalyzer.LineEnd | TextAnalyzerWPF.xaml.cs:129-139 | a line ends at its first carriage return |
| TextAnalyzer.Render | TextAnalyzerWPF.xaml.cs:129-139 | each line's text followed by `"\r\n"`, as `AppendLine` and `ToString` produce. `ReportRoundTrip` shows that the lines can be read back |
| TextAnalyzer.AnalyzeText | TextAnalyzerWPF.xaml.cs:115-140 | the rendered report of the text's counts under the selection. `AnalyzeTextReadsBack` reads it back |
| TextAnalyzer.ParseReportCons | TextAnalyzerWPF.xaml.cs:129-139 | a line without carriage returns, then its line break: the parser reads that line, then the rest |
| TextAnalyzer.LineTextHasNoReturn | TextAnalyzerWPF.xaml.cs:130-137 | no report line's text holds a carriage return |
| TextAnalyzer.LabelsDiffer | TextAnalyzerWPF.xaml.cs:133-137 | the labels of different counts differ within their first two characters |
| TextAnalyzer.ParseCountLineFinds | TextAnalyzerWPF.xaml.cs:133-137 | a count line reads back as its own count and value |
| TextAnalyzer.HeaderIsNoCountLine | TextAnalyzerWPF.xaml.cs:130 | the header does not read as a count line |
| TextAnalyzer.ParseLineText | TextAnalyzerWPF.xaml.cs:130-137 | every line's text reads back as that line |
| TextAnalyzer.LineEndAfter | TextAnalyzerWPF.xaml.cs:129-139 | a line without carriage returns ends where `AppendLine`'s line break begins |
| TextAnalyzer.ReportRoundTrip | TextAnalyzerWPF.xaml.cs:129-139 | the rendered lines, each followed by `"\r\n"`, read back as the lines |
| TextAnalyzer.AnalyzeTextReadsBack | TextAnalyzerWPF.xaml.cs:115-140 | the text `AnalyzeText` returns reads back as the report of the text's counts under the selection |
| AnalyzerControl.IdleClick | TextAnalyzerWPF.xaml.cs:24-43 | while idle:<br>• a click starts a run iff an analysis box and an output box are checked, analysis boxes being checked first;<br>• a refused click changes no flag;<br>• a start sets running, clears paused and leaves the event as it was |
| AnalyzerControl.OnClick | TextAnalyzerWPF.xaml.cs:22-70 | the click handler as written. `IdleClick`, `RunningClicksAlternate` and `ApplyKeepsPausedMeansReset` state what it does |
| AnalyzerControl.OnRunCompleted | TextAnalyzerWPF.xaml.cs:53-57 | the `finally` block. `CompletionStopsRun` states what it does |
| AnalyzerControl.RunningClicksAlternate | TextAnalyzerWPF.xaml.cs:59-70 | while running:<br>• clicks ignore the boxes and alternate between pause (event reset) and resume (event set);<br>• two clicks from a state whose event agrees with its pause flag return to that state |
| AnalyzerControl.CompletionStopsRun | TextAnalyzerWPF.xaml.cs:53-57 | completion clears running and leaves the pause flag and the event alone; the next click is a start attempt |
| AnalyzerControl.ApplyKeepsPausedMeansReset | TextAnalyzerWPF.xaml.cs:40-70 | every click and every completion keep "paused implies event reset" |
| AnalyzerControl.ReplayKeepsPausedMeansReset | TextAnalyzerWPF.xaml.cs:13-70 | "paused implies event reset" holds in every state reachable from a fresh window |
| AnalyzerControl.StartAfterPausedRunBlocks | TextAnalyzerWPF.xaml.cs:40-70 | as written, the sequence start, pause, completion, start reaches a running, unpaused run whose event is reset |
| AnalyzerControl.OnClickCorrected | TextAnalyzerWPF.xaml.cs:40-43 | the click handler with the start also setting the event. `CorrectionOnlyTouchesStart` and `CorrectedNeverBlocks` state what it does |
| AnalyzerControl.CorrectedNeverBlocks | TextAnalyzerWPF.xaml.cs:40-70 | with the start also setting the event, the event is set iff not paused in every reachable state, so a running, unpaused loop never waits |
| AnalyzerControl.CorrectionOnlyTouchesStart | TextAnalyzerWPF.xaml.cs:24-70 | the correction changes only the event flag, and only on a start |
| AnalyzerControl.StartPauseButton.constructor | TextAnalyzerWPF.xaml.cs:13-15 | a new window is idle, not paused, with the event set |
| AnalyzerControl.StartPauseButton.Click | TextAnalyzerWPF.xaml.cs:22-70 | the handler updates the three fields as `OnClick` does, and keeps "paused implies event reset" |
| AnalyzerControl.StartPauseButton.RunCompleted | TextAnalyzerWPF.xaml.cs:53-57 | the `finally` block clears only `_isRunning`, and keeps "paused implies event reset" |

## Left out

- MD5 (RFC 1321) and `File.OpenRead` streaming: the digest is the parameter `md5`. A read failure is the file's `readable` flag.
- The filesystem is modelled only through inputs:
  - `Directory.Exists` is the parameter `directoryExists`;
  - `Directory.GetFiles` is the `listing` argument, in whatever order it returns;
  - `Path.GetFileName` is the file's `name`;
  - whether `File.Copy` succeeds is the file's `copySucceeds` flag.

  A file is assumed not to change between hashing and copying.
- A failed `File.Copy` is modelled as leaving the destination unchanged. Partial writes are not modelled.
- `MoveFilesClick`: exceptions other than one from `Directory.GetFiles` are not modelled. This includes exceptions from `Dispatcher.Invoke`, which the handler's catch block would report.
- The counters are `nat`. The source's `int` counters cannot overflow, because `files.Length` bounds them.
- Case mappings beyond ASCII are parameters, not tables. The runtime's `OrdinalIgnoreCase` map is `upper`, and the destination file system's name table is `fsUpper`. The hash set's keys use the ASCII fold `FoldCase`, which `KeyOfAnyCaseMap` shows to be exact for hash texts.
- The destination is assumed to lie outside the source tree. The guard compares path strings only, so a destination below the source passes it, and so does the source itself spelled with a trailing `\`. `Directory.GetFiles` then lists destination files too, and a copy earlier in the run can overwrite one of them before it is hashed. The model takes each listed file's content as fixed at listing time.
- OrdinalText.ToLowerInvariant: only ASCII letters are lowered. The function is applied only to hexadecimal text.
- TextStatistics.MatchAt:
  - `\w` is the parameter `isWordChar`, and `\b` is taken to use the same class. .NET's `\b` also treats U+200C and U+200D as word characters.
  - The .NET regex engine is not modelled beyond the leftmost, greedy scan of these four patterns.
- TextAnalyzer.Statistics: `text.Length` counts UTF-16 code units, while the model counts Unicode scalar values. The two differ for characters outside the Basic Multilingual Plane.
- The line break is Windows' `Environment.NewLine`, `"\r\n"`. `Int32.ToString()` of a non-negative count is taken to be its plain decimal digits.
- The UI is not modelled:
  - `MessageBox` texts, `OutputBox` and `TextBoxOutput` contents;
  - the per-file error messages and the summary text;
  - button captions and folder dialogs.
- Concurrency and timing are not modelled:
  - `Task.Run`, `async`/`await` and `Dispatcher.Invoke`;
  - the ten `Task.Delay` iterations and `_pauseEvent.Wait()` of `RunAnalysisAsync`;
  - the `CancellationTokenSource`, which the source never cancels.

  "Run completed" is an event that the model may apply at any time.
- `RunAnalysisAsync`'s output routing, to the screen and to `TextAnalysis.txt` on the desktop, is not modelled. Only the reading of the analysis boxes (`SelectionOf`) is.

## Findings

| source | as written | input that shows it | evidently intended | confidence | as-written member | corrected member |
|---|---|---|---|---|---|---|
| TextAnalyzerWPF.xaml.cs:40-41 | starting a run sets `_isRunning` and clears `_isPaused` but never calls `_pauseEvent.Set()` | start; pause during the last `Task.Delay` so the run still completes with the event reset; start again. The button now shows "Пауза", but the new run's loop blocks in `_pauseEvent.Wait()` until the user clicks twice more | starting also sets the event, so that it is set exactly when the run is not paused | medium, not executed | AnalyzerControl.StartAfterPausedRunBlocks | AnalyzerControl.CorrectedNeverBlocks |

The as-written transitions are `AnalyzerControl.OnClick`, which `StartPauseButton.Click` follows. `AnalyzerControl.OnClickCorrected` is the corrected transition.
