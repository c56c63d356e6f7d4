# Datamerge column registry, merge protocol and row consolidation in Dafny

Datamerge consolidates several spreadsheets into one export. The operator loads files. The
application builds a list of unified columns from the files' headers. Each column records,
per file, which original header feeds it. The operator then reshapes that list: choosing a
merge target, merging columns into it, detaching a (file, header) pair back out, adding,
removing and selecting columns, and injecting three fixed placeholder columns. Finally every
row of every file is turned into an output row built from the selected columns. Two optional
features can apply: a `yyyyMM` period taken from the `Fecha_Leg`/`Fecha_Asig` cells, and the
cleaning of "job type" values.

This project models that core and proves properties of it:

- `wrappers.dfy` (`Wrappers`): the `Option` type.
- `strings.dfy` (`Strings`): the .NET string operations the core relies on. These are
  white space as `char.IsWhiteSpace` defines it, `IsNullOrWhiteSpace`, `Trim`, ordinal
  case-insensitive comparison and containment, `Split` on one character, and decimal formatting.
- `values.dfy` (`Values`): cell values, calendar dates, the `yyyyMM` format, and rows as
  insertion-ordered dictionaries. A row supports exact lookup, lookup ignoring case, and
  update-or-append.
- `excel_service.dfy` (`ExcelService`): `CleanJobValue`, `IsJobColumn`, the date regex used
  as a fallback (leftmost match, with the alternatives tried in .NET order), and
  `ExtractPeriodSmart`.
- `column_item.dfy` (`Columns`): the mutable `ColumnItem` class, its value snapshot
  `ColumnState`, `CanMergeWith` and `RefreshSourceCount`.
- `registry.dfy` (`Registry`): the rebuild from file headers as a function of the previous
  list. It also holds the ownership invariant and list insertion and removal.
- `column_edits.dfy` (`ColumnEdits`): merge, detach, insert-or-move of placeholders and the
  file-list de-duplication, each as a function on snapshots, with their lemmas.
- `consolidation.dfy` (`Consolidation`): the row transformation, the full consolidation, and
  the capped preview loop.
- `main_view_model.dfy` (`ViewModel`): the `MainViewModel` class. It holds the file list,
  the ordered list of `ColumnItem` objects, the optional target and the two feature flags.
  Every command is a method proved against the snapshot functions above.

**The ownership invariant.** Every file feeds many columns, so a file key may appear in many
columns. What the merge engine keeps unique is the (file, original header) pair. Each pair is
owned by at most one column (`Registry.UniqueOwnership`). Each column maps a file to at most
one header, because `fileMappings` is a map. The rebuild establishes the invariant when the
kept custom columns carry no mappings. Merge, detach, removal and placeholder injection
preserve it.

**Behaviour worth noting.**

- Detaching a pair that was just merged does not always undo the merge. If the target had no
  mappings of its own and is not custom, detaching empties it. The code then removes the
  target and the new column takes its place (`ColumnEdits.MergeThenDetach`). No command
  produces a non-custom column without mappings, so only a column list built some other way
  reaches this case.
- Uniqueness of ownership is not kept by every sequence of operations. A custom column can be
  a merge target and so receive mappings. A rebuild keeps custom columns as they are and also
  creates a fresh column for the same header. The pair is then owned twice
  (`Registry.RebuildCanDuplicateOwnership`).
- `AddCustomColumn` does not refresh the merge highlighting. The new column's flags stay false
  even when it could be merged into the current target.
- A rebuild and placeholder injection both leave the target reference as it is. This holds
  even when injection removes the target from the list.

Environment-dependent collaborators are parameters:
- `headers: string -> seq<string>` stands for `GetColumnsFromFile`.
- `readRows: string -> seq<Row>` stands for `ReadFile`.
- `parse: DateParser` stands for `DateTime.TryParse`.
- The picked paths are an input sequence.

## Model

| member | source | states |
|---|---|---|
| Strings.TrimStart | Services/ExcelService.cs:119 | The result is a suffix of the input, every dropped character is white space, and the result is empty or starts with a non-white-space character |
| Strings.TrimEnd | Services/ExcelService.cs:119 | The result is a prefix of the input, every dropped character is white space, and the result is empty or ends with a non-white-space character |
| Strings.Trim | Services/ExcelService.cs:119 | The trimmed text is the slice of the input left between a blank prefix and a blank suffix. It is empty exactly when the input is blank; otherwise it starts and ends with non-white space |
| Strings.TrimStartBlank | Services/ExcelService.cs:118 | Trimming the start empties a string exactly when `IsNullOrWhiteSpace` holds for it |
| Strings.TrimStartOfTrimmed | Services/ExcelService.cs:130 | A string that starts with non-white space is left alone by trimming its start |
| Strings.TrimEndOfTrimmed | Services/ExcelService.cs:130 | A string that ends with non-white space is left alone by trimming its end |
| Strings.TrimIdempotent | Services/ExcelService.cs:130 | Trimming twice gives what trimming once gives |
| Strings.EqualsIgnoreCaseByChars | ViewModels/MainViewModel.cs:221-222 | Two strings are equal under `OrdinalIgnoreCase` exactly when they have the same length and at each position the characters are equal or are an ASCII letter in its two cases |
| Strings.Split | Services/ExcelService.cs:129 | Splitting gives at least one piece, no piece contains the separator, and joining the pieces with the separator gives back the text |
| Strings.NonEmpty | Services/ExcelService.cs:129 | Removing empty entries keeps exactly the non-empty pieces of the split |
| Strings.NonEmptyAppend | Services/ExcelService.cs:129 | Removing empty entries keeps the order of the pieces: one more piece at the end is appended to the result when it is non-empty and dropped otherwise |
| Strings.TakeUntil | Services/ExcelService.cs:129 | The result is the longest separator-free prefix: a prefix without the separator, followed in the input by the separator or the end |
| Strings.DropLeading | Services/ExcelService.cs:129 | The result is the input without its leading separators and starts with a non-separator |
| Strings.SplitHead | Services/ExcelService.cs:129 | The first piece of a split is the text up to the first separator |
| Strings.FirstNonEmptyPiece | Services/ExcelService.cs:129-130 | Removing empty entries leaves no piece exactly when the text is separators only; otherwise the first piece is the text after the leading separators, up to the next one |
| Strings.NatToString | Models/ColumnItem.cs:41 | Decimal formatting gives non-empty digits that read back as the number, a single digit exactly below ten, and no leading zero |
| Strings.NatToStringLength | Services/ExcelService.cs:116 | A number below 10^k formats in at most k digits |
| Strings.PadZeros | Services/ExcelService.cs:116 | Zero-padding reaches the width (or keeps a longer input), ends with the input and keeps its value |
| Strings.LeadingZero | Services/ExcelService.cs:116 | A leading zero does not change the value of a digit string |
| Values.YearMonth | Services/ExcelService.cs:116 | The `yyyyMM` text has six digits; the first four read back as the year and the last two as the month |
| Values.IndexOf | Services/ExcelService.cs:187 | Exact-key dictionary lookup finds the first entry with that key, and reports none exactly when no entry has it |
| Values.FirstKeyIgnoreCase | Services/ExcelService.cs:169-170 | The key found is the first key of the row equal to the name ignoring case, and there is none exactly when no key equals it |
| Values.PutLookup | Services/ExcelService.cs:171-172 | Writing a key makes it read back the new value, leaves every other key's value alone, and appends the key only when it was absent |
| Values.PutDistinct | Services/ExcelService.cs:195 | Writing into a row with distinct keys keeps the keys distinct |
| ExcelService.CleanJobValue | Services/ExcelService.cs:126-131 | Blank input gives ""; input made only of dashes is returned unchanged; otherwise the result is the first non-empty dash-separated fragment, trimmed; a dash survives only in the dashes-only case |
| ExcelService.CleanJobValueWithoutDash | Services/ExcelService.cs:129-130 | A non-blank value without a dash is cleaned to its trimmed self |
| ExcelService.CleanJobValueIdempotent | Services/ExcelService.cs:126-131 | Cleaning a cleaned value changes nothing |
| ExcelService.IsJobColumnByFragments | Services/ExcelService.cs:134-141 | A header is a job column exactly when it contains both "Tipo" and "Trabajo" ignoring case |
| ExcelService.JobColumnExampleSpaced | Services/ExcelService.cs:139-140 | "Tipo de Trabajo" is a job column |
| ExcelService.JobColumnExampleUpper | Services/ExcelService.cs:139-140 | "TIPO_TRABAJO" is a job column |
| ExcelService.JobColumnExampleAlone | Services/ExcelService.cs:139-140 | "Trabajo" alone is not a job column |
| ExcelService.MatchAtSound | Services/ExcelService.cs:121 | What the matcher reports at a position is a match of the date pattern |
| ExcelService.MatchAtComplete | Services/ExcelService.cs:121 | Whenever some text starting at a position matches the pattern, the matcher reports a match there, at least as long as that text |
| ExcelService.FirstMatchFromLeftmost | Services/ExcelService.cs:121 | The reported match starts at the first position from which any match exists and is the longest match from there; there is none exactly when no position matches |
| ExcelService.FirstMatchLeftmost | Services/ExcelService.cs:121 | The first regex match of a text is the longest matching substring at the leftmost position where any match starts |
| ExcelService.PatternStartsWithDigit | Services/ExcelService.cs:121 | Every match of the date pattern begins with a digit |
| ExcelService.NoDigitsNoFallback | Services/ExcelService.cs:121 | A text without digits has no match |
| ExcelService.SkipNonDigits | Services/ExcelService.cs:121 | Skipping a run of non-digits does not change where the first match is found |
| ExcelService.EmbeddedDateMatch | Services/ExcelService.cs:121 | The first match in "Invoice 2023-07-15 paid" is "2023-07-15" |
| ExcelService.YearMonthExample | Services/ExcelService.cs:116 | 15 July 2023 formats as "202307" |
| ExcelService.ExtractPeriodSmart | Services/ExcelService.cs:113-124 | The period is "" or six digits. It is "" for null and blank text. A date value gives its `yyyyMM`. For other non-blank text: a successful direct parse of the trimmed text gives that date's `yyyyMM`; when it fails and the first regex match parses, that date's `yyyyMM`; otherwise "" |
| ExcelService.FallbackNeedsSurroundingText | Services/ExcelService.cs:119-123 | When the trimmed text is itself its first match, the fallback cannot succeed where the direct parse failed |
| ExcelService.PeriodExampleEmbedded | Services/ExcelService.cs:113-124 | "Invoice 2023-07-15 paid" gives "202307" when the parser rejects the whole text and reads the embedded date |
| ExcelService.PeriodExampleNoDate | Services/ExcelService.cs:113-124 | "no date here", "" and null all give "" |
| Columns.ColumnItem.constructor | Models/ColumnItem.cs:10-37 | A new column has an empty name, is selected and not custom, and has an empty default, no mappings, an empty label and both highlight flags off |
| Columns.ColumnItem.Named | ViewModels/MainViewModel.cs:100-105 | A new column with the given name and custom flag is selected and has an empty default and no mappings |
| Columns.ColumnItem.RefreshSourceCount | Models/ColumnItem.cs:39-42 | The label is "Manual" for a custom column whatever its mappings, otherwise the mapping count followed by " fuente(s)"; no other field changes |
| Columns.ColumnItem.CanMergeWith | Models/ColumnItem.cs:44-51 | True exactly when the two columns share no file key; neither column changes |
| Columns.DisjointProperties | Models/ColumnItem.cs:44-51 | Merge eligibility is symmetric; a column without mappings can merge with any column; a column with a mapping cannot merge with itself |
| Consolidation.Selected | ViewModels/MainViewModel.cs:211 | The active columns are exactly the selected ones |
| Consolidation.TransformRowProperties | ViewModels/MainViewModel.cs:218-243 | An output row has distinct keys. A key is present exactly when it is a period key with periods on, or the header of a selected column. The keys come in the order "PeriodoL", "PeriodoA" (with periods on), then each selected header where its name first occurs. Its value comes from the last selected column of that name (its default if custom; else the mapped cell, cleaned if it is a job column and cleaning is on; else ""), or from the period cell |
| Consolidation.FillColumnsProperties | Services/ExcelService.cs:176-197 | Writing the columns keeps the keys distinct, keeps the keys already written, adds exactly the column headers, and leaves each key with the value of the last column of that name. The keys are the old ones in their order, then each new header at its first occurrence |
| Consolidation.FillColumnsKeys | Services/ExcelService.cs:176-197 | The key order of a written row: the keys already there, then the column headers not yet present, each once, in column order |
| Consolidation.FileRowsStep | ViewModels/MainViewModel.cs:216-243 | One more source row of a file appends its transformed row after the output rows of the rows before it |
| Consolidation.ConsolidateStep | ViewModels/MainViewModel.cs:213-245 | One more file appends its output rows after the rows of the files before it |
| Consolidation.ConsolidatePrefix | ViewModels/MainViewModel.cs:213-245 | The rows of the first files are the first rows of the export |
| Consolidation.Take | Services/ExcelService.cs:156-162 | The capped rows are a prefix of length min(cap, count), and none for a cap at or below zero |
| Consolidation.BuildRow | Services/ExcelService.cs:164-197 | The per-row loop builds exactly the specified output row from the active columns |
| Consolidation.AppendFileRows | ViewModels/MainViewModel.cs:215-244 | Going through one file's rows appends exactly that file's transformed rows, in order |
| Consolidation.AppendCapped | Services/ExcelService.cs:160-201 | Going through one file's rows appends that file's transformed rows until the cap is reached |
| Consolidation.GeneratePreview | Services/ExcelService.cs:143-204 | The preview is the first `maxRows` rows of the full consolidation. The files read are a prefix of the list. Each was opened while fewer than `maxRows` rows had been produced, and reading stops early only when the cap is reached. A cap at or below zero reads nothing |
| Consolidation.PreviewRows | Services/ExcelService.cs:150-203 | The same preview loop over a snapshot of the columns |
| Consolidation.PreviewComplete | Services/ExcelService.cs:154-157 | Stopping at the cap loses nothing: the capped rows of the files read equal the capped rows of all files |
| Registry.IndexIgnoreCase | ViewModels/MainViewModel.cs:252 | The first header equal to the name ignoring case, or none exactly when no header is |
| Registry.FindHeader | ViewModels/MainViewModel.cs:324 | The first column whose name equals the given one ignoring case, or none exactly when no column's does |
| Registry.RemoveAt | ViewModels/MainViewModel.cs:285 | Removing a position shifts the later columns down by one and keeps the earlier ones |
| Registry.InsertAt | ViewModels/MainViewModel.cs:112 | Inserting places the column at the position, keeps the earlier ones and shifts the later ones up by one |
| Registry.RemoveInserted | ViewModels/MainViewModel.cs:112-120 | Removing what was just inserted restores the list |
| Registry.RemoveBeforeInserted | ViewModels/MainViewModel.cs:110-121 | Inserting after a position and then removing the column at that position leaves the inserted column in its place |
| Registry.RemoveAtOwnership | ViewModels/MainViewModel.cs:285 | Removing a column keeps every pair owned at most once |
| Registry.OwnershipFromNames | ViewModels/MainViewModel.cs:257-271 | Columns with names distinct ignoring case, each mapping only headers equal to its own name, own every pair at most once |
| Registry.FirstVariant | ViewModels/MainViewModel.cs:259-270 | The first non-blank header equal to the name ignoring case, or none exactly when there is no such header |
| Registry.DedupOntoProperties | ViewModels/MainViewModel.cs:257-271 | Folding headers onto a list extends it with non-blank headers taken from the input. The names stay pairwise distinct ignoring case, and every non-blank input header ends up represented |
| Registry.DedupOntoAppend | ViewModels/MainViewModel.cs:254-273 | Folding two header lists in turn equals folding their concatenation |
| Registry.DistinctHeadersProperties | ViewModels/MainViewModel.cs:254-273 | The unified header list has distinct non-blank names that cover every non-blank header, each the first spelling seen |
| Registry.Customs | ViewModels/MainViewModel.cs:251 | The kept columns are exactly the custom ones |
| Registry.HeadersAddFile | ViewModels/MainViewModel.cs:257-272 | Folding one file's headers into the columns yields the header list extended by the file's new names |
| Registry.MasterHeaders | ViewModels/MainViewModel.cs:254-273 | The rebuilt non-custom columns are named by the distinct non-blank headers of all files, in first-seen order and first spelling |
| Registry.AddFileFromFiles | ViewModels/MainViewModel.cs:257-271 | Folding a file's headers keeps every column non-custom, selected and mapped, each mapping being a header of its file equal to the column name ignoring case |
| Registry.AddHeaderFromFiles | ViewModels/MainViewModel.cs:259-271 | The same for one header |
| Registry.MasterFromFiles | ViewModels/MainViewModel.cs:254-273 | Every rebuilt column is non-custom, selected, without default, and maps only headers of loaded files that equal its name ignoring case |
| Registry.MasterWellFormed | ViewModels/MainViewModel.cs:249-278 | Rebuilt columns are well formed, have distinct non-blank names, and own every pair at most once |
| Registry.MasterMapsFirstVariant | ViewModels/MainViewModel.cs:259-271 | A rebuilt column maps each loaded file to the first non-blank case variant of its name in that file, and maps no other file |
| Registry.RebuildOwnership | ViewModels/MainViewModel.cs:249-278 | When the kept custom columns have no mappings, the rebuilt list owns every pair at most once |
| Registry.RebuildCanDuplicateOwnership | ViewModels/MainViewModel.cs:251-276 | A custom column holding a mapping survives a rebuild next to the fresh column for the same header, so that pair is owned twice |
| ColumnEdits.MergeMappingsProperties | ViewModels/MainViewModel.cs:311-313 | The target keeps all its mappings and gains the source's other files; with disjoint keys the count is the sum |
| ColumnEdits.MergeOwnership | ViewModels/MainViewModel.cs:308-317 | Merging keeps every pair owned at most once |
| ColumnEdits.MergeKeepsPairs | ViewModels/MainViewModel.cs:308-317 | With disjoint keys a merge neither loses nor invents an owned pair |
| ColumnEdits.MergeKeepsOwned | ViewModels/MainViewModel.cs:308-317 | Every pair owned before a disjoint merge is still owned |
| ColumnEdits.MergeAddsNothing | ViewModels/MainViewModel.cs:308-317 | Every pair owned after a merge was owned before |
| ColumnEdits.OwnerIndex | ViewModels/MainViewModel.cs:91 | The first column owning the pair, or none exactly when no column owns it |
| ColumnEdits.DetachOwnership | ViewModels/MainViewModel.cs:82-126 | Detaching keeps every pair owned at most once |
| ColumnEdits.DetachReplaces | ViewModels/MainViewModel.cs:110-121 | When the parent is left empty and is not custom, the new column takes the parent's place |
| ColumnEdits.DetachInserts | ViewModels/MainViewModel.cs:96-114 | Otherwise the parent loses the file and the new column follows it |
| ColumnEdits.DetachBySteps | ViewModels/MainViewModel.cs:95-121 | The remove, insert and prune steps compose to the detach |
| ColumnEdits.DetachKeepsPairs | ViewModels/MainViewModel.cs:82-126 | Detaching neither loses nor invents an owned pair |
| ColumnEdits.DetachKeepsOwned | ViewModels/MainViewModel.cs:82-126 | Every pair owned before a detach is still owned |
| ColumnEdits.DetachAddsNothing | ViewModels/MainViewModel.cs:82-126 | Every pair owned after a detach was owned before |
| ColumnEdits.MergeThenDetach | ViewModels/MainViewModel.cs:82-126 | Detaching a just-merged singleton mapping gives the pre-merge target back, followed by a new column owning the pair. An empty non-custom target is replaced by that column instead |
| ColumnEdits.MergedOwner | ViewModels/MainViewModel.cs:308-317 | After the merge the target is the first owner of the merged pair, and removing that pair restores its pre-merge state |
| ColumnEdits.WithoutNamedLeavesNone | ViewModels/MainViewModel.cs:324-325 | Removing the one column with the name leaves none with it |
| ColumnEdits.PlaceholderIsFound | ViewModels/MainViewModel.cs:326-328 | A placeholder inserted into a list without its name is found where it was put, once, and removing it restores the list |
| ColumnEdits.InsertOrMovePlacement | ViewModels/MainViewModel.cs:322-329 | Afterwards exactly one column has the name. It is the fresh placeholder, the rest is the list without the old one, and it sits right after the anchor or last when there is no anchor |
| ColumnEdits.InsertOrMoveIdempotent | ViewModels/MainViewModel.cs:322-329 | Repeating an insert-or-move changes nothing |
| ColumnEdits.InsertAtOwnership | ViewModels/MainViewModel.cs:280 | Inserting a column without mappings keeps every pair owned at most once |
| ColumnEdits.InsertOrMoveOwnership | ViewModels/MainViewModel.cs:322-329 | Insert-or-move keeps every pair owned at most once |
| ColumnEdits.InsertOrMoveDropsMappings | ViewModels/MainViewModel.cs:324-326 | A non-custom column with the placeholder's name is replaced and its mapping is lost |
| ColumnEdits.AppendNewProperties | ViewModels/MainViewModel.cs:182-190 | The listed files stay first. Each path is listed once, the list holds exactly the old and the picked paths, and it changes exactly when some picked path was new |
| ViewModel.IndexOfItem | ViewModels/MainViewModel.cs:110 | The first position holding the object, or none exactly when it is not listed |
| ViewModel.SelectAllExports | ViewModels/MainViewModel.cs:290 | After selecting all, every column is active in the export |
| ViewModel.DeselectAllExports | ViewModels/MainViewModel.cs:291 | After deselecting all, no column is active in the export |
| ViewModel.CustomItemsStates | ViewModels/MainViewModel.cs:251 | The kept custom column objects snapshot to the custom column values |
| ViewModel.InsertOrMoveStates | ViewModels/MainViewModel.cs:324-328 | The object-level remove and insert produce the insert-or-move of the snapshot, without duplicates |
| ViewModel.PlacedItemsFacts | ViewModels/MainViewModel.cs:324-328 | Placing the new column object gives the snapshot's insert-or-move and keeps objects listed once |
| ViewModel.PlacedAfterOwner | ViewModels/MainViewModel.cs:110-114 | Inserting after the parent and appending when the parent is last both put the new column right after it |
| ViewModel.StatesExceptAt | ViewModels/MainViewModel.cs:311-313 | When only one listed object changes, the snapshot changes only at its position |
| ViewModel.MainViewModel.constructor | ViewModels/MainViewModel.cs:22-33 | A new screen has no files, no columns, no target and both options off |
| ViewModel.MainViewModel.UpdateMergeVisuals | ViewModels/MainViewModel.cs:53-63 | Exactly the target is in target mode. A column is offered for merging exactly when it is not the target and shares no file with it. The column values do not change |
| ViewModel.MainViewModel.LoadAllColumns | ViewModels/MainViewModel.cs:249-278 | The snapshot becomes the rebuild. The old custom objects come first, in order, followed by fresh labelled columns, and the highlighting is current |
| ViewModel.MainViewModel.RebuildColumns | ViewModels/MainViewModel.cs:251-276 | The list becomes the kept custom objects followed by the freshly built columns |
| ViewModel.MainViewModel.BuildMaster | ViewModels/MainViewModel.cs:252-273 | The dictionary loop builds fresh, distinct, labelled columns whose values are the rebuilt master list |
| ViewModel.MainViewModel.PickFiles | ViewModels/MainViewModel.cs:178-191 | The file list gains the new paths. The columns are rebuilt exactly when a path was added, and are left unchanged otherwise |
| ViewModel.MainViewModel.MergeIntoTarget | ViewModels/MainViewModel.cs:308-317 | With no target, a self-merge or a shared file, nothing changes. Otherwise the source leaves the list, the target gains the source's mappings without losing its own, and its label and the highlighting are refreshed. The snapshot is the merge of the old one |
| ViewModel.MainViewModel.AbsorbIntoTarget | ViewModels/MainViewModel.cs:311-316 | The merge itself, once the guard holds |
| ViewModel.MainViewModel.TransferMappings | ViewModels/MainViewModel.cs:311-315 | Copies the mappings, removes the source and relabels the target |
| ViewModel.MainViewModel.MoveMappings | ViewModels/MainViewModel.cs:311-314 | Copies the mappings and removes the source |
| ViewModel.MainViewModel.CopyMissingMappings | ViewModels/MainViewModel.cs:311-313 | The target gains each source mapping whose file it lacks; only the target's value in the snapshot changes |
| ViewModel.MainViewModel.DetachMapping | ViewModels/MainViewModel.cs:82-126 | Without a pair, or when no column owns it, nothing changes. Otherwise the snapshot becomes the detach of the old one, the new labelled column sits after the parent or in its place, the target is cleared when the pruned parent was the target, and the highlighting is current |
| ViewModel.MainViewModel.DetachAt | ViewModels/MainViewModel.cs:95-123 | The detach applied at the first owner |
| ViewModel.MainViewModel.DetachOwned | ViewModels/MainViewModel.cs:95-121 | The parent loses the file, the new column is placed after it, and the parent is pruned when left empty and not custom |
| ViewModel.MainViewModel.SplitOff | ViewModels/MainViewModel.cs:95-114 | The parent loses the file and is relabelled; a fresh labelled column with the singleton mapping is inserted right after it |
| ViewModel.MainViewModel.TrimOwner | ViewModels/MainViewModel.cs:96-97 | Only the parent's mappings lose the file, and its label is refreshed |
| ViewModel.MainViewModel.PlaceAfter | ViewModels/MainViewModel.cs:110-114 | The new column is placed right after the parent |
| ViewModel.MainViewModel.PruneIfEmpty | ViewModels/MainViewModel.cs:117-121 | The parent is removed, and the target cleared if it was the parent, exactly when the parent has no mappings and is not custom |
| ViewModel.MainViewModel.RefreshVisualsOver | ViewModels/MainViewModel.cs:123 | The highlighting is recomputed for the current list; the values do not change |
| ViewModel.MainViewModel.InsertOrMoveColumn | ViewModels/MainViewModel.cs:322-329 | The snapshot becomes the insert-or-move of the old one, using one fresh column object |
| ViewModel.MainViewModel.PlaceColumn | ViewModels/MainViewModel.cs:324-328 | Removes the same-named column and places the new one after the anchor or at the end |
| ViewModel.MainViewModel.InjectEmptyColumns | ViewModels/MainViewModel.cs:320-334 | The three placeholders are inserted or moved in order after their anchors, and the highlighting is current |
| ViewModel.MainViewModel.PlacePlaceholders | ViewModels/MainViewModel.cs:330-332 | The three insert-or-moves in order, using only old or fresh column objects |
| ViewModel.MainViewModel.AddCustomColumn | ViewModels/MainViewModel.cs:280 | A fresh custom column "Nueva Columna" is put first and the rest is unchanged; ownership stays unique |
| ViewModel.MainViewModel.RemoveColumn | ViewModels/MainViewModel.cs:283-288 | A listed column is removed and an unlisted one changes nothing; the target is cleared exactly when it was the column; the highlighting is current |
| ViewModel.MainViewModel.DropColumn | ViewModels/MainViewModel.cs:285-286 | Removes the column if listed and clears the target if it was the column |
| ViewModel.MainViewModel.RemoveListed | ViewModels/MainViewModel.cs:285 | Removes the column if listed |
| ViewModel.MainViewModel.SetAsTarget | ViewModels/MainViewModel.cs:301-305 | Choosing the current target clears it, any other choice becomes the target; the highlighting is current and no value changes |
| ViewModel.MainViewModel.ClearAll | ViewModels/MainViewModel.cs:294-298 | No files, no columns, no target |
| ViewModel.MainViewModel.SetSelection | ViewModels/MainViewModel.cs:290-291 | Every column's selection is set to the flag and nothing else changes |
| ViewModel.MainViewModel.SelectAllColumns | ViewModels/MainViewModel.cs:290 | Every column becomes selected |
| ViewModel.MainViewModel.DeselectAllColumns | ViewModels/MainViewModel.cs:291 | Every column becomes unselected |
| ViewModel.MainViewModel.ProcessConsolidation | ViewModels/MainViewModel.cs:208-247 | The rows to export are the full consolidation: for each file in order, its rows in order, each transformed with the current columns and options |

## Left out

- File reading (`GetColumnsFromFile`, `ReadFile`) is not modelled. The reader libraries, the
  swallowed exceptions and the replacement of nulls by "" sit behind the `headers` and
  `readRows` parameters. An unreadable file is one for which they return nothing.
- `ExportData` and the workbook or CSV writing are not modelled. `ProcessConsolidation`
  returns the rows it would write.
- `DateTime.TryParse` is a parameter. The culture's date order and calendar are not modelled,
  and neither is the culture-dependent text of numbers and dates: `Value.Number` and
  `Value.DateTime` carry their text as data.
- The regex `\d` matches ASCII digits only here. .NET also accepts other Unicode decimal digits.
- `OrdinalIgnoreCase` is modelled as ASCII case folding. Non-ASCII letters compare exactly.
- `async`/`await`, `Task.Run`, `IsBusy`, the dispatcher and concurrency are not modelled. Each
  command runs to completion on its own.
- `RefreshPreview` is left out: it is the asynchronous shell around `GeneratePreview` plus a
  display filter of the preview grid. `Consolidate` is left out for the same reason: it is the
  shell around `ProcessConsolidation`, with the `DateTime.Now` default name and the save dialog.
- `StartRenaming`, `FinishRenaming`, `IsRenaming`, `TargetColumnInfo`, the `Visibility` and
  `Brush` properties and the change notifications are presentation only and are left out.
- `ClearAll` also clears the preview grid, which is not part of the model.
- `DetachMapping` receives an untyped object. Here it receives an optional (file, header)
  pair, and "not a key/value pair" is `None`.
- The file picker and the save dialog are inputs: `PickFiles` takes the picked paths as a
  sequence. The `FileInfoModel` entries are reduced to their full paths.
- Consolidation.GeneratePreview: the trace records which files are opened. It does not
  record that rows past the cap inside the current file are not transformed. This is
  harmless because the transformation has no effects.
- ViewModel.MainViewModel.MergeIntoTarget: the snapshot after the merge is stated only when
  both the source and the target are listed. When the target is no longer listed, only the
  list and the target's own state are stated.
