# lotw-dxcc-stats in Dafny

lotw-dxcc-stats keeps a radio amateur's Logbook of The World (LoTW) log on
disk and turns it into DXCC statistics. It downloads the log as ADI text
(the ADIF "ADI File Format": `<NAME:LEN>DATA` fields, `<EOH>` after the
header, `<EOR>` after each record, plus LoTW's own `APP_LoTW_*` fields) and
keeps it in one ADI file. Later runs merge the QSOs and QSL confirmations
downloaded since the last update into that file. Each run then reparses the
file into a JSON snapshot: total QSOs, total QSLs, confirmed DXCC entities
and per-entity counters. Unless `qsoDataFileBackup` is `false`, each save of
the ADI file through `saveADIFData` first takes a backup (the recount
rewrites the file without one), and a failed incremental update tries to
restore the backup taken at its start.

This project models that core and proves properties of the model:

| module | file | models |
|---|---|---|
| `Text` | text.dfy | JavaScript's `trim`, ASCII case folding for the `/i` flag, decimal digits, `split` on a case-insensitive literal |
| `Scan` | scan.dfy | hand-coded scanners for the few regular expressions of the ADI handling, and the read-back of a rewritten tag |
| `Common` | common.dfy | paths, the errors the core throws, and `Result` in place of exceptions |
| `Snapshots` | snapshot.dfy | the JSON snapshot and the `incrementalStats` delta |
| `ConfigContext` | config_context.dfy | the pure parts of `createConfigContext` in index.js |
| `TimestampUtils` | timestamp_utils.dfy | lib/timestamp-utils.js, over a days-to-civil-date computation |
| `FileManager` | file_manager.dfy | lib/file-manager.js, as a `FileStore` class over a map from path to (content, mtime) and a clock |
| `AdifParser` | adif_parser.dfy | lib/adif-parser.js: the tokenizer, the DXCC counters, the latest QSL stamp, `parseADIFToJSON` |
| `AdifRecords` | adif_records.dfy | the record-list helpers of lib/adif-processor.js and the in-place QSL replacement pass |
| `AdifProcessor` | adif_processor.dfy | the merge engine of lib/adif-processor.js |
| `Remote` | remote.dfy | the three downloads, as request values answered by a caller-supplied function |
| `IncrementalUpdater` | incremental_updater.dfy | lib/incremental-updater.js |
| `UpdateStrategy` | update_strategy.dfy | lib/update-strategy.js |

Modelling choices:

- Each file operation is specified by a function of the file map before it: `CreateBackupOf`, `SaveAdifOf`, `RestoreOf`, `StepsOf`, `IncrementalOf`, `FullUpdateOf` and `UpdateOf`. The methods run on a `FileStore` and are proved to leave exactly that file map and result.
- Every `Date.now()` / `new Date()` is a parameter. A reading is never earlier than the previous one (`FileStore.Valid`, `IncrementalUpdater.Ascending`). The incremental update takes its readings as a `Readings` value, one per step. A parse reads the clock twice, for `last_updated` and for `last_updated_timestamp`: an `AdifParser.ParseClock` holds both readings.
- A download is `fetch(request)`. `fetch` is a function supplied by the caller that returns the ADI text or the error raised.
- The ADI transforms are string-to-string functions. `MergedAdifText`, `MergedQslText` and `RecountedText` map the text read, the downloaded text and the "Generated at" time to the text written.

## Model

| member | source | states |
|---|---|---|
| Text.Lower | lib/adif-parser.js:171 | `toLowerCase` on one character, folding ASCII letters only: A–Z move to a–z, every other character is kept |
| Text.LowerStr | lib/adif-parser.js:171 | `toLowerCase` of a text, folding ASCII letters only: the length is kept and each character is folded in place |
| Text.SkipSpace | lib/adif-parser.js:172 | the first non-whitespace index at or after `i`; everything skipped is whitespace |
| Text.SkipSpaceBack | lib/adif-parser.js:172 | the end of the text before the trailing whitespace below `j`; everything skipped is whitespace |
| Text.TrimEnds | lib/adif-parser.js:172 | `trim` leaves no whitespace at either end, and gives "" exactly for an all-whitespace text |
| Text.TrimOfTrimmed | lib/adif-processor.js:206 | a text with no whitespace at either end is its own trim |
| Text.TrimPadded | lib/adif-processor.js:52 | whitespace on both sides of a trimmed non-empty text disappears under `trim` |
| Text.TrimIdempotent | lib/adif-processor.js:206 | trimming twice is trimming once |
| Text.DigitsInValue | lib/adif-parser.js:101 | `parseInt` of a digit run read in place equals its value as a slice |
| Text.NatToString | lib/adif-processor.js:79 | `toString()` of a count is a non-empty digit string that reads back as the count, one digit exactly below 10 |
| Text.Pad2 | lib/timestamp-utils.js:13 | `padStart(2, "0")` of a number below 100: two digits that read back as the number |
| Text.IntToString | lib/timestamp-utils.js:12 | `String(year)`: the digits, with a minus sign for a negative year |
| Text.Pad2Order | lib/timestamp-utils.js:19 | two-digit fields compare as strings the way their values compare, whatever follows |
| Text.FindCI | lib/adif-processor.js:14 | the first case-insensitive occurrence of a pattern at or after `from`, or none anywhere |
| Text.SplitCI | lib/adif-parser.js:158 | `split(/p/i)` yields at least one piece |
| Text.SplitAtPattern | lib/adif-processor.js:203 | splitting at the first `<eor>` yields the text before it, then the split of the rest |
| Text.SplitNoOccurrence | lib/adif-processor.js:203 | a text without the separator splits into itself alone |
| Text.SplitPiecesNoCI | lib/adif-processor.js:203 | no piece of a split holds the separator |
| Scan.NextLt | lib/adif-parser.js:165 | where `[^<]*` stops: the next `<` or the end |
| Scan.FieldAt | lib/adif-parser.js:165 | a match of `<([^:>]+):(\d+)>([^<]*)` at `i` lies inside the text from `i` |
| Scan.FieldAtSpells | lib/adif-parser.js:165 | a field match spells `<name:digits>value` with a non-empty name free of `:` and `>`, non-empty digits, and a value running to the next `<` |
| Scan.AllFields | lib/adif-parser.js:165 | the `g` scan yields only positions where the field expression matches, each inside the text from the scan's start |
| Scan.AllFieldsScan | lib/adif-parser.js:165 | the `g` scan is complete and in order: no match starts before its first result, between the end of one result and the start of the next, or after its last result, so the matches come left to right without overlapping |
| Scan.ValueEnd | lib/adif-parser.js:97 | the value of a tag expression ends inside the text |
| Scan.TagAt | lib/adif-parser.js:97 | a match of `<TAG:(\d+)>value` at `i` starts with `<` and its value lies after the head |
| Scan.FirstTag | lib/adif-parser.js:96-98 | the leftmost tag match: a match, with none before it, or none anywhere |
| Scan.AllTags | lib/adif-parser.js:120-122 | the `gi` scan yields only tag matches, each inside the text |
| Scan.AllTagsScan | lib/adif-parser.js:120-122 | the `gi` scan is complete and in order: no match starts before its first result, between the end of one value and the next result, or after its last result |
| Scan.Cut | lib/adif-parser.js:102 | `substring(0, length)` is a prefix of at most `length` characters, the whole value when it is short enough |
| Scan.Splice | lib/adif-processor.js:62-65 | `replace` of one match keeps the text before and after it and puts the replacement in between |
| Scan.ProgramIdAt | lib/adif-processor.js:63 | a "Generated at" PROGRAMID match opens with `<PROGRAMID:` and closes with `</PROGRAMID>` |
| Scan.FirstProgramId | lib/adif-processor.js:63 | the leftmost PROGRAMID match, or none anywhere |
| Scan.TagField | lib/adif-processor.js:83 | the field written by a header rewrite declares its value's length in decimal |
| Scan.TagFieldIs | lib/adif-processor.js:81-84 | `<tag:`, digits declaring the value's length, `>` and the value form a tag match with that value |
| Scan.ReplaceTagReads | lib/adif-processor.js:81-84 | a header rewrite leaves the first match at the same place, declaring the new value's length and holding the new value; without a match the text is unchanged |
| Scan.ReplacedField | lib/adif-processor.js:170-173 | the rewritten field is read back whole at the place of the match it replaced, and is still the first match |
| Snapshots.DeltaOf | lib/incremental-updater.js:123-131 | `incrementalStats`: each new total minus the previous one, a missing total counting as 0 |
| ConfigContext.MergeOptions | index.js:43-48 | an option overrides or adds a key exactly when it is not `undefined`; every other key keeps the base value |
| ConfigContext.LastIndex | index.js:60 | the position of the last occurrence of a character (the `.` of an extension, the `/` before a base name), or none |
| ConfigContext.Basename | index.js:60 | the base name is a suffix of the path with no `/` in it, and a path without `/` is its own base name |
| ConfigContext.SplitPath | index.js:57-58 | a resolved file path is split into its directory and its base name, as `path.dirname` and `path.basename` split it |
| ConfigContext.FilePathParts | index.js:57-58 | a file resolved from a setting is named after the setting's base name; a plain name lands in the base directory itself |
| ConfigContext.NestedSettingLeavesBase | index.js:57 | a relative setting with a directory part resolves below the data directory, not in it |
| ConfigContext.NameAndExt | index.js:60 | `path.parse`'s name and extension put back together give the file name; the extension is empty or a dot after a non-empty name |
| ConfigContext.CreateConfigContext | index.js:38-61 | the context is built exactly when the three path settings are strings; the ADI and JSON files are their settings resolved against the data directory, split into directory and base name; the first non-string setting is reported |
| ConfigContext.DataDirectoryChoice | index.js:51 | the data directory is `STATS_DATA_PATH` when it is set and non-empty, else `localDataPath` |
| ConfigContext.GetPath | index.js:76-83 | `getPath` maps "data", "adif" and "json" to the precomputed paths and fails with the unknown type for anything else |
| ConfigContext.BackupPathShape | index.js:60 | a backup path lies in the data directory and is named `<name>_<digits>.bak<ext>` after the base name of the QSO data file setting (any directory part dropped), whatever file is backed up |
| ConfigContext.BackupPathsDiffer | index.js:86 | backups taken at different milliseconds get different paths |
| ConfigContext.ShouldSkipUpdateIff | index.js:89-97 | `shouldSkipUpdate` holds exactly when a valid last-update time is given, the interval is a positive number, and fewer hours than it have passed |
| TimestampUtils.YearLength | lib/timestamp-utils.js:12 | a year has 365 or 366 days |
| TimestampUtils.YearOf | lib/timestamp-utils.js:12 | `getUTCFullYear`: the year and day of the year that a day count falls in |
| TimestampUtils.MonthLength | lib/timestamp-utils.js:13-14 | a month has 28 to 31 days |
| TimestampUtils.MonthsFillYear | lib/timestamp-utils.js:13-14 | the months before and from month `m` make up the year |
| TimestampUtils.MonthOf | lib/timestamp-utils.js:13-14 | `getUTCMonth` and `getUTCDate`: the month and day in range that a day of the year falls in |
| TimestampUtils.UtcFields | lib/timestamp-utils.js:12-17 | the six UTC fields of an instant are in calendar range |
| TimestampUtils.UtcFieldsDenote | lib/timestamp-utils.js:12-17 | the fields name the instant truncated to whole seconds |
| TimestampUtils.UtcFieldsOfInstant | lib/timestamp-utils.js:12-17 | breaking down the instant a date-time names gives that date-time back |
| TimestampUtils.BeforeIsEarlier | lib/timestamp-utils.js:12-17 | an earlier date-time names an earlier instant |
| TimestampUtils.UtcFieldsMonotone | lib/timestamp-utils.js:10-17 | a later instant never breaks down to an earlier date-time |
| TimestampUtils.IsoYear | lib/adif-parser.js:55 | the year of `toISOString()`: for years 0 to 9999 four zero-padded digits whose value is the year, the plain digits from 1000 on; otherwise a sign and at least six digits of the year's magnitude |
| TimestampUtils.IsoText | lib/adif-processor.js:58-61 | `toISOString()` is not empty (its full form is `IsoTextShape`) |
| TimestampUtils.Pad3 | lib/adif-processor.js:58-61 | the milliseconds of `toISOString()`: three digits reading back the count below 1000 |
| TimestampUtils.IsoTextShape | lib/adif-parser.js:55 | `toISOString()` is `<year>-MM-DDTHH:MM:SS.mmmZ` for the instant's own UTC fields: the `IsoYear` year, then the month, day and clock fields, the milliseconds of the instant and `Z`, each at its offset |
| TimestampUtils.GeneratedTextIsRender | lib/adif-processor.js:58-61 | in the years 1000 to 9999 the "Generated at" time is the query format's rendering of the same instant |
| TimestampUtils.GeneratedTextLtFree | lib/adif-processor.js:58-61 | the "Generated at" time, built of digits, dashes, a space and colons, never holds a `<` |
| TimestampUtils.RenderShape | lib/timestamp-utils.js:19 | with a four-digit year the query format is 19 characters `YYYY-MM-DD HH:MM:SS`, each field in its place |
| TimestampUtils.RenderMonotone | lib/timestamp-utils.js:19 | for four-digit years a date-time not after another renders to a string not after the other's |
| TimestampUtils.QueryFormatFalsy | lib/timestamp-utils.js:7 | `timestampToLoTWQueryFormat` is null exactly for a missing or zero timestamp |
| TimestampUtils.QueryFormatNextSecond | lib/timestamp-utils.js:9-19 | a non-zero timestamp renders the second after it: an instant in (t, t + 1000] |
| TimestampUtils.QueryFormatOfInstant | lib/timestamp-utils.js:9-19 | a timestamp one second before the start of a UTC second renders exactly that second |
| TimestampUtils.QueryFormatMonotone | lib/timestamp-utils.js:9-19 | in the four-digit-year range, timestamps render in the order they have |
| TimestampUtils.FourDigitYears | lib/timestamp-utils.js:12 | instants from year 1000 to year 9999 have four-digit years |
| TimestampUtils.StripSeparators | lib/timestamp-utils.js:32 | `replace(/[-: ]/g, "")` leaves no separator and never lengthens the text |
| TimestampUtils.StripRender | lib/timestamp-utils.js:32 | the query format without separators is the fourteen digits `YYYYMMDDHHMMSS` |
| TimestampUtils.UrlDigits | lib/timestamp-utils.js:32 | `YYYYMMDDHHMMSS` is fourteen digits |
| TimestampUtils.UrlFormatOfInstant | lib/timestamp-utils.js:27-33 | the URL format of a timestamp is the fourteen digits of the second after it |
| TimestampUtils.UrlFormatPresence | lib/timestamp-utils.js:28-29 | the URL format is null exactly when the query format is |
| FileManager.MatchingBackups | lib/file-manager.js:99-105 | the backup candidates are existing files in the file's directory |
| FileManager.Newest | lib/file-manager.js:114 | the first file of the newest-first order is no older than any other |
| FileManager.NewestUnique | lib/file-manager.js:114 | within one directory the newest file is unique |
| FileManager.Pruned | lib/file-manager.js:117-126 | deleting all but one file of a set removes exactly those files and changes no other |
| FileManager.CleanupKeepsNewest | lib/file-manager.js:92-131 | after clean-up only the newest matching backup remains; no other file is removed, changed or added |
| FileManager.CleanupSparesOtherDirectories | lib/file-manager.js:94-103 | the clean-up lists only the backed-up file's own directory: a copy placed in another directory, and every file there, survive it |
| FileManager.RestoreOf | lib/file-manager.js:151-166 | restoring fails exactly when the backup is missing; otherwise the original gets the backup's content, the backup is removed and nothing else changes |
| FileManager.JsonTarget | lib/file-manager.js:31-39 | a JSON save fails exactly when neither an output path nor a context is given |
| FileManager.LoadLocalDataOf | lib/file-manager.js:136-146 | `loadLocalData` gives the document exactly when the file exists and holds one, and null otherwise |
| FileManager.CreateBackupDisabled | lib/file-manager.js:62-74 | with backups off or the file missing, `createBackup` returns null and changes nothing |
| FileManager.CreateBackupCopies | lib/file-manager.js:76-86 | otherwise it returns `createBackupPath(now)`, which holds the file's content and survives the clean-up when every earlier backup of the file is older than `now` |
| FileManager.ForeignBackupKept | lib/file-manager.js:76-86 | a copy not named like the file's own backups (the JSON file's copy, named after the QSO data file) survives the clean-up whatever the modification times |
| FileManager.SaveAdifWrites | lib/file-manager.js:7-25 | after `saveADIFData` the target holds the data |
| FileManager.SaveJsonWithoutContext | lib/file-manager.js:41-44 | without a context a JSON save takes no backup and changes only its target |
| FileManager.SaveThenLoad | lib/file-manager.js:30-55 | what `saveJSONData` writes, `loadLocalData` reads back |
| FileManager.FileStore.constructor | lib/file-manager.js:1-2 | the store starts with the given files and clock |
| FileManager.FileStore.Exists | lib/file-manager.js:18 | `existsSync` holds exactly for a file in the store |
| FileManager.FileStore.CleanupOldBackups | lib/file-manager.js:92-131 | the store after the sort and deletion loops is the clean-up of the store before |
| FileManager.FileStore.CreateBackup | lib/file-manager.js:60-87 | `createBackup` leaves the files and returns the path that `CreateBackupOf` gives |
| FileManager.FileStore.RestoreBackup | lib/file-manager.js:151-166 | `restoreBackup` fails like `RestoreOf`, changing nothing, or leaves its file map |
| FileManager.FileStore.SaveADIFData | lib/file-manager.js:7-25 | `saveADIFData` returns its target and leaves the file map of `SaveAdifOf` |
| FileManager.FileStore.SaveJSONData | lib/file-manager.js:30-55 | `saveJSONData` fails without a target, changing nothing, or leaves the file map of `SaveJsonOf` |
| FileManager.FileStore.LoadLocalData | lib/file-manager.js:136-146 | `loadLocalData` returns what `LoadLocalDataOf` gives |
| AdifParser.FieldValue | lib/adif-parser.js:172 | a field's value is trimmed, whichever reader takes it |
| AdifParser.RecordOfShape | lib/adif-parser.js:171-173 | every key of a record is lower-case and every value trimmed |
| AdifParser.KeyPresent | lib/adif-parser.js:168-175 | a key is present exactly when some field of the block carries that name, ignoring case |
| AdifParser.LastValueWins | lib/adif-parser.js:173 | a repeated name keeps the value of its last occurrence |
| AdifParser.AssignFields | lib/adif-parser.js:168-175 | the assignment loop builds the record of the field matches |
| AdifParser.ParseRecord | lib/adif-parser.js:287-299 | `parseRecord` builds the record of every field of the block, each value cut to its declared length |
| AdifParser.ReadersAgreeOnHonestLengths | lib/adif-parser.js:294 | the two readers agree on a block whose values end, up to whitespace, at their declared length |
| AdifParser.ReadersDisagree | lib/adif-parser.js:165-172 | on `<CALL:2>ABCD`, `parseRecords` reads "ABCD" and `parseRecord` reads "AB" |
| AdifParser.BlockRecord | lib/adif-parser.js:161-177 | a block that yields a record yields a non-empty one |
| AdifParser.RecordsOfBlocks | lib/adif-parser.js:161-178 | at most one record per block, none of them empty |
| AdifParser.ParseRecords | lib/adif-parser.js:156-181 | `parseRecords` returns the records of the `<eor>` blocks after the first `<eoh>`, in order |
| AdifParser.ParsedRecordsShape | lib/adif-parser.js:156-181 | no more records than blocks, none empty, every name lower-case and every value trimmed |
| AdifParser.CountRecord | lib/adif-parser.js:195-220 | one pass of the loop body moves the counters as `Tally` says and counts one QSL exactly for a confirmed record with a `dxcc` field |
| AdifParser.CalculateDXCCStats | lib/adif-parser.js:186-234 | the counting loop computes the totals and per-entity counters of `StatsOf` |
| AdifParser.QslAtMostOne | lib/adif-parser.js:212-214 | an entity's `qsl` is 0 or 1 |
| AdifParser.CodesAreCarried | lib/adif-parser.js:201-208 | an entity is tallied, or confirmed, exactly when some record with that code (neither "0" nor empty) is, or is confirmed |
| AdifParser.CodesHaveQsos | lib/adif-parser.js:205-208 | every tallied entity has at least one QSO |
| AdifParser.ConfirmedAreTallied | lib/adif-parser.js:210-214 | every confirmed entity is tallied |
| AdifParser.DxccEntries | lib/adif-parser.js:201-215 | `dxcc_stats` has no key "0" or ""; `qsl <= 1`, `qsl <= qso`, `qso` counts the entity's records, and `qsl` is 1 exactly when a confirmed record carries the code |
| AdifParser.DxccKeys | lib/adif-parser.js:201-208 | every code carried by a counted record is a key of `dxcc_stats` |
| AdifParser.DxccConfirmedBounds | lib/adif-parser.js:224-226 | `dxcc_confirmed` counts the confirmed entities and is at most the entity count and at most `total_qsl` |
| AdifParser.ConfirmedCodesAtMostQsls | lib/adif-parser.js:210-219 | there are no more confirmed entities than confirmed records with a `dxcc` field |
| AdifParser.QslsAtMostQsos | lib/adif-parser.js:191-219 | `total_qsl` never exceeds `total_qso` |
| AdifParser.HeaderOf | lib/adif-parser.js:39-40 | the header is the text before the first `<eoh>` in any case, and "" when there is none; it holds no `<eoh>` |
| AdifParser.TagText | lib/adif-parser.js:101-102 | a tag's value is trimmed and at most its declared length |
| AdifParser.TagTexts | lib/adif-parser.js:120-133 | one value per match of the body scan |
| AdifParser.LotwKey | lib/adif-parser.js:239-250 | a valid LoTW stamp has a positive key |
| AdifParser.LatestIndex | lib/adif-parser.js:136-139 | the scan keeps a candidate exactly when there is one |
| AdifParser.LatestIsGreatest | lib/adif-parser.js:136-139 | the kept stamp has the greatest key among the valid ones and is the first with that key (the comparison is strict) |
| AdifParser.LatestWithoutValidStamps | lib/adif-parser.js:136-139 | with no valid stamp the scan keeps the last candidate |
| AdifParser.KeepLatestQsl | lib/adif-parser.js:124-143 | the comparison loop keeps the candidate `Latest` gives, starting from the header's value |
| AdifParser.ExtractTimestamps | lib/adif-parser.js:92-151 | `extractTimestamps` returns the header's LASTQSORX value and the latest RXQSL of header and body, each absent when not found |
| AdifParser.SnapshotTotals | lib/adif-parser.js:52-63 | `total_qso` counts the parsed records, `total_qsl <= total_qso`, `dxcc_confirmed` is at most `total_qsl` and at most the entity count; `last_updated` is the ISO text of the first clock reading and `last_updated_timestamp` the second, never earlier |
| AdifParser.FreshSnapshotSkips | lib/adif-parser.js:55-56 | right after a parse, a later check skips exactly while fewer than the configured hours have passed |
| AdifParser.ParseADIFToJSON | lib/adif-parser.js:28-87 | `parseADIFToJSON` fails for a missing file; otherwise it returns the snapshot of the file's text and writes it to the JSON file without a backup |
| AdifRecords.KeptBlock | lib/adif-processor.js:206-209 | a block contributes at most one record |
| AdifRecords.ParseRecordsToList | lib/adif-processor.js:197-213 | the loop returns the kept blocks, trimmed with `\n<eor>` added, in order |
| AdifRecords.ListedRecords | lib/adif-processor.js:197-213 | every listed record is trimmed, non-empty and free of `<eor>` and `<APP_LoTW_EOF>`, followed by `\n<eor>` |
| AdifRecords.RebuildRecordsSection | lib/adif-processor.js:256-269 | the loop builds the section that `Rebuild` gives |
| AdifRecords.ListedHasNoEof | lib/adif-processor.js:207 | a listed record holds no `<APP_LoTW_EOF>` |
| AdifRecords.RebuildRoundTrip | lib/adif-processor.js:256-269 | listing a rebuilt section gives back the records it was built from |
| AdifRecords.RebuildHasOneEof | lib/adif-processor.js:264-266 | a rebuilt section holds `<APP_LoTW_EOF>` exactly once, at its end |
| AdifRecords.TimestampOfRecord | lib/adif-processor.js:234-237 | the QSO timestamp is trimmed, and absent exactly when no `APP_LoTW_QSO_TIMESTAMP` field with a value occurs |
| AdifRecords.QslStatus | lib/adif-processor.js:242-251 | the status is 'Y' exactly when the first `QSL_RCVD` or the first `APP_LoTW_QSL_RCVD` value trims to "Y", and 'N' otherwise |
| AdifRecords.BuildTimestampIndex | lib/adif-processor.js:218-229 | the loop builds the index that `IndexOf` gives |
| AdifRecords.IndexIsLastPosition | lib/adif-processor.js:221-225 | a timestamp is indexed exactly when some record carries it, and then at the last such record |
| AdifRecords.IndexInRange | lib/adif-processor.js:221-225 | every indexed position lies in the list |
| AdifRecords.IndexDependsOnKeys | lib/adif-processor.js:218-229 | the index depends only on the timestamp of each position |
| AdifRecords.ApplyQsl | lib/adif-processor.js:136-152 | one incoming record never changes the list's length |
| AdifRecords.MergeQsl | lib/adif-processor.js:135-156 | the replacement pass never inserts or removes a record |
| AdifRecords.MergeQslRecords | lib/adif-processor.js:135-156 | the in-place loop over the array leaves the list that `MergeQsl` gives |
| AdifRecords.Targeting | lib/adif-processor.js:138 | the reports filed at a position are incoming records whose timestamp indexes it |
| AdifRecords.MergeQslAt | lib/adif-processor.js:135-156 | each merged position is its record folded with exactly the reports filed at it |
| AdifRecords.FoldUniform | lib/adif-processor.js:147-150 | reports of one status replace a record only when its status differs, and then by the first of them |
| AdifRecords.FoldForgets | lib/adif-processor.js:147-150 | reports of mixed status decide the outcome whatever the record was |
| AdifRecords.FoldIdempotent | lib/adif-processor.js:147-150 | folding the same reports in again changes nothing |
| AdifRecords.FoldOutcome | lib/adif-processor.js:147-150 | the folded record is the original or one of the reports, with the status of the last report |
| AdifRecords.MergeQslOutcome | lib/adif-processor.js:135-156 | a record with no report is untouched; one with reports is kept or replaced by one of them, ends with the last report's status and keeps its timestamp; unmatched reports are never inserted |
| AdifRecords.MergeQslIdempotent | lib/adif-processor.js:135-156 | a second pass with the same reports, against the index of its own result, changes nothing |
| AdifRecords.MergeQslListed | lib/adif-processor.js:149 | the merged list is made of listed records when both lists are |
| AdifProcessor.HeaderOf | lib/adif-processor.js:14-15 | the header is "" exactly without `<eoh>`, and otherwise ends with the first `<eoh>` |
| AdifProcessor.RecordsOf | lib/adif-processor.js:16-21 | the records part always holds `<APP_LoTW_EOF>`, and is the text between the first two `<eoh>` when that does |
| AdifProcessor.HeaderThenRecords | lib/adif-processor.js:14-16 | header and raw records lie side by side at the start of the file, covering it without a second `<eoh>`; with no `<eoh>` both are empty |
| AdifProcessor.ReadADIFFileParts | lib/adif-processor.js:9-24 | `_readADIFFileParts` fails exactly for a missing file and otherwise returns its header and records |
| AdifProcessor.StripLeadingEof | lib/adif-processor.js:51 | removing a leading marker leaves a suffix of the text |
| AdifProcessor.StripTrailingEof | lib/adif-processor.js:117 | removing a trailing marker leaves a prefix of the text |
| AdifProcessor.LeadingEofStripped | lib/adif-processor.js:50-52 | only a marker at the start of the trimmed text goes: the result trims to what follows it, and without one the text is unchanged |
| AdifProcessor.TrailingEofStripped | lib/adif-processor.js:115-118 | only a marker at the end of the trimmed text goes: the result trims to what precedes it, and without one the text is unchanged |
| AdifProcessor.SetNumRecReads | lib/adif-processor.js:81-84 | rewriting the count leaves a header without the field unchanged, and otherwise declares the new count at the same place, with the digit count as length |
| AdifProcessor.MergedNumRecSums | lib/adif-processor.js:68-85 | the appended file declares the sum of the two counts when both headers declare one, and keeps the header otherwise |
| AdifProcessor.SetRxQslReads | lib/adif-processor.js:167-174 | the RXQSL stamp is replaced, never added: afterwards the header's first stamp field, at the same place, declares the new stamp's length and holds it |
| AdifProcessor.QslRecordList | lib/adif-processor.js:121-156 | the QSL pass keeps one record per existing record |
| AdifProcessor.QslRecordsSettle | lib/adif-processor.js:121-161 | the rebuilt section lists back the merged records, and a second QSL pass with the same reports changes nothing |
| AdifProcessor.NumRecEohAt | lib/adif-processor.js:315 | a `<APP_LoTW_NUMREC:\d+>\d+\s*<eoh>` match lies inside the text |
| AdifProcessor.FirstNumRecEoh | lib/adif-processor.js:315 | the leftmost such match |
| AdifProcessor.RecountWithoutEoh | lib/adif-processor.js:284-321 | a file without `<eoh>` has an empty header and no records, so the recount writes an empty file |
| AdifProcessor.FirstNumRecEohLeftmost | lib/adif-processor.js:315 | no `<APP_LoTW_NUMREC:\d+>\d+\s*<eoh>` match starts before the one found, and there is none at all when none is found |
| AdifProcessor.HeaderOfIsHeader | lib/adif-processor.js:284-285 | the header of a file with `<eoh>` holds exactly one `<eoh>`, at its end |
| AdifProcessor.HeaderThenPiece | lib/adif-processor.js:284-286 | a header followed by text without `<eoh>` is read back as that header and that records part |
| AdifProcessor.SetCount | lib/adif-processor.js:300-305 | rewriting a present count keeps the header ending at its only `<eoh>`, and its first count field becomes exactly the field written for the new count |
| AdifProcessor.InsertCount | lib/adif-processor.js:306-311 | inserting a missing count before `<eoh>` keeps the header ending at its only `<eoh>`, and the inserted field becomes its first count field |
| AdifProcessor.FixShape | lib/adif-processor.js:315-318 | the format fix replaces the leftmost match by its count field, a newline and `<eoh>`, and without a match leaves the header as it is |
| AdifProcessor.FixKeepsFirstTag | lib/adif-processor.js:315-318 | the format fix keeps the first count field at its place with its text |
| AdifProcessor.FixKeepsHeader | lib/adif-processor.js:315-318 | the format fix keeps a header ending at its only `<eoh>` |
| AdifProcessor.FixIdempotent | lib/adif-processor.js:315-318 | a second format fix changes nothing |
| AdifProcessor.RecountedHeaderDeclares | lib/adif-processor.js:299-318 | the recounted header declares the count it is given and still ends at its only `<eoh>` |
| AdifProcessor.RecountedHeaderSettles | lib/adif-processor.js:299-318 | recounting a recounted header with the same count changes nothing |
| AdifProcessor.RecountReadsBack | lib/adif-processor.js:281-321 | the text written is read back as the recounted header and the records as read, and that header declares the number of `<eor>` in those records |
| AdifProcessor.RecountIdempotent | lib/adif-processor.js:274-331 | recounting a recounted file writes it unchanged |
| AdifProcessor.StampProgramIdReads | lib/adif-processor.js:62-65 | with no "Generated at" PROGRAMID field the header is kept; otherwise the first such field, and only it, is replaced by one for the new time that reads back as such a field, the text before and after it kept |
| AdifProcessor.MergeIncrementalADIFData | lib/adif-processor.js:31-96 | the QSO merge fails for a missing file, changing nothing; otherwise it saves `MergedAdifText` through `saveADIFData` and returns the ADI path |
| AdifProcessor.MergeIncrementalQSLDataOnly | lib/adif-processor.js:99-192 | the QSL merge fails for a missing file, changing nothing; otherwise it saves `MergedQslText` through `saveADIFData` and returns the ADI path |
| AdifProcessor.MergeQslSection | lib/adif-processor.js:120-161 | listing, indexing, the in-place pass and rebuilding give the section of `QslRecordList` |
| AdifProcessor.UpdateRecordCount | lib/adif-processor.js:274-331 | the recount fails for a missing file; otherwise it returns the number of `<eor>` after the first `<eoh>` and rewrites the file in place, without a backup |
| IncrementalUpdater.Steps | lib/incremental-updater.js:37-132 | the `try` block after the backup leaves the file map and result of `StepsOf` |
| IncrementalUpdater.Finish | lib/incremental-updater.js:112-132 | the recount and reparse leave the file map and snapshot of `Finished` |
| IncrementalUpdater.MergeQsoData | lib/incremental-updater.js:66-82 | the QSO merge runs only for a download with data and leaves the file map of `QsoMerged`; on failure nothing changes |
| IncrementalUpdater.MergeQslData | lib/incremental-updater.js:94-110 | the QSL merge runs only for a download with data and leaves the file map of `QslMerged`; on failure nothing changes |
| IncrementalUpdater.Pipeline | lib/incremental-updater.js:33-165 | backup, steps, then the clean-up or the restore, leaving the file map and result of `IncrementalOf`, whose steps fail with `InvalidTime` before any download when `last_updated_timestamp` is missing or out of range |
| IncrementalUpdater.PerformIncrementalUpdate | lib/incremental-updater.js:10-166 | `performIncrementalUpdate` as written, the `RangeError` of an invalid timestamp included: the merges save through the update's own context |
| IncrementalUpdater.InvalidSinceFails | lib/incremental-updater.js:44-47 | a missing or out-of-range `last_updated_timestamp` fails the steps before any download; with backups off nothing changes, with backups on the ADI file's content is restored and `InvalidTime` reported |
| IncrementalUpdater.WithoutMergeBackups | lib/file-manager.js:62-63 | the merge context takes no backups and names the same ADI file and data directory |
| IncrementalUpdater.PerformIncrementalUpdateSafely | lib/incremental-updater.js:10-166 | the update with the merges saving through a context that takes no backups |
| IncrementalUpdater.AdifIsNotBackup | lib/file-manager.js:100-105 | the ADI file never matches its own backup pattern and is never a backup path, whatever directory the setting names |
| IncrementalUpdater.BackupOfAdif | lib/file-manager.js:60-87 | a backup of the ADI file keeps the file, adds the copy and otherwise only removes files |
| IncrementalUpdater.LaterBackupPrunes | lib/file-manager.js:83-84 | when the ADI file lies in the data directory, a later backup of it deletes every earlier backup |
| IncrementalUpdater.OutsideBackupsKept | lib/file-manager.js:94-103 | when the QSO data file setting resolves outside the data directory, the clean-up searches only the ADI file's directory, so the new backup and every file of the data directory survive it |
| IncrementalUpdater.BackupAlwaysKept | lib/incremental-updater.js:134-149 | a backup path is returned only when backups are on, so the success path never deletes it |
| IncrementalUpdater.LostBackup | lib/incremental-updater.js:75-79 | as written, with the ADI file in the data directory, a QSO merge followed by a failed QSL download reports "Backup file not found" and leaves the merged QSOs in the ADI file |
| IncrementalUpdater.StepsKeepOthers | lib/incremental-updater.js:56-110 | with merges that take no backups, a failing run of the steps leaves every other file as it was |
| IncrementalUpdater.MergesKeepOthers | lib/adif-processor.js:92 | either merge, saving without backups, changes only the ADI file |
| IncrementalUpdater.RollbackRestores | lib/incremental-updater.js:153-165 | with merges that take no backups, a failed update rethrows the failing step's error and restores the ADI file's content |
| IncrementalUpdater.StepsReportChange | lib/incremental-updater.js:123-131 | a successful update reports each new total minus the snapshot's, a missing total counting as 0 |
| IncrementalUpdater.StepsEndFinished | lib/incremental-updater.js:112-121 | every successful run ends with the recount and the reparse |
| IncrementalUpdater.QuietDownloadsOnlyRecount | lib/incremental-updater.js:66-121 | with no data in either download the ADI file is only recounted, and the snapshot is the reparse of the recounted file |
| IncrementalUpdater.OnlyTheDownloadsMatter | lib/incremental-updater.js:59-92 | both downloads ask from the snapshot's `last_updated_timestamp`; fetches that agree on them give the same update |
| UpdateStrategy.Setting | index.js:73 | `get(key)` is the setting, or undefined exactly when the key is absent |
| UpdateStrategy.DetermineUpdateStrategy | lib/update-strategy.js:8-99 | forced gives full; no snapshot gives full; skip exactly when a recent update is found, before any completeness check; incremental exactly when the stats are non-empty and a timestamp is non-blank; full otherwise |
| UpdateStrategy.SkipHoldsEarlier | lib/update-strategy.js:34-42 | a decision to skip also holds at any earlier instant |
| UpdateStrategy.FreshSnapshotDecision | lib/update-strategy.js:34-98 | a snapshot just parsed is skipped exactly within the configured hours, and afterwards is updated incrementally exactly when it has stats and a timestamp |
| UpdateStrategy.PerformFullUpdate | lib/update-strategy.js:170-231 | the full update leaves the file map and result of `FullUpdateOf` |
| UpdateStrategy.FullUpdateSaves | lib/update-strategy.js:200-223 | a full update with a download returns the download's snapshot, and the next load reads it back |
| UpdateStrategy.FullUpdateKeepsDownload | lib/update-strategy.js:207 | the download is saved to `adifPath`, or else to the context's ADI file |
| UpdateStrategy.FullUpdateNeedsCredentials | lib/update-strategy.js:181-183 | without both credentials the full update fails at once and changes nothing |
| UpdateStrategy.AsUpdate | lib/update-strategy.js:138-156 | a dispatched update succeeds exactly when the update does, with its snapshot or its error |
| UpdateStrategy.UpdateDXCCData | lib/update-strategy.js:104-165 | `updateDXCCData` as written loads the snapshot, decides, runs `performFullUpdate` or `performIncrementalUpdate`, and leaves the file map and result of `UpdateOf` with the merges saving through the update's own context |
| UpdateStrategy.UpdateDXCCDataSafely | lib/update-strategy.js:104-165 | the same dispatch with the incremental update whose merges take no backups of their own |
| UpdateStrategy.SkipChangesNothing | lib/update-strategy.js:130-136 | a skipped update changes no file and returns the snapshot on disk, for a recent update |
| UpdateStrategy.ForcedIsFull | lib/update-strategy.js:16-21 | a forced update is the full update, whatever is on disk |

## Left out

- AdifParser.RecordOf, AdifParser.DxccKeys, AdifParser.CodesAreCarried and AdifRecords.IndexOf use Dafny maps where the source uses plain JavaScript objects, so the prototype's keys behave like any other. In the source, a field named `__proto__` is not stored (lib/adif-parser.js:173). A DXCC code such as `toString` finds the inherited function, and so gets no entry of its own in `dxcc_stats` (lib/adif-parser.js:204-208). An incoming QSL record whose `APP_LoTW_QSO_TIMESTAMP` is `toString` or `__proto__` passes the `!== undefined` test, and `extractQslStatusFromRecord` then throws on an undefined record, which rolls the update back (lib/adif-processor.js:138-144). `AdifRecords.ApplyQsl` skips such a record instead. LoTW's numeric DXCC codes and date-time stamps never take these values.
- lib/lotw-api.js is not part of this model. The three downloads are `Remote.Request` values, answered by the caller's `fetch`. The date formatting of the `since` value happens there, so `QsoSince` and `QslSince` carry the raw `last_updated_timestamp`.
- lib/progress-indicator.js, console logging and `loadConfig` (probing for the configuration file and importing it) are not modelled. The base configuration is a parameter.
- `parseRecordsStream` (adif-parser.js:256-285) is not modelled: it reads a file line by line through `readline`. `parseRecord`, which it calls, is (`AdifParser.ParseRecord`).
- The Ajv schema validation in `parseADIFToJSON` is not modelled: it only prints a warning.
- JSON serialisation is not modelled: a JSON file holds a `Snapshot` value, and reading it as ADI text gives "".
- Directories are not modelled: `mkdirSync` always succeeds, and `path.resolve` does not normalise `.` or `..` segments, repeated or trailing `/`, or an empty setting (the model resolves `""` to a file with an empty name in the data directory; Node resolves it to the data directory itself).
- Copying and deleting files always succeed. The errors `cleanupOldBackups` swallows and the "Failed to restore backup" error cannot arise.
- The source awaits `async` calls but runs them in sequence. `createBackup` is `async` yet has no `await`, so its unawaited call in `saveADIFData` finishes before the write. The model runs everything in sequence.
- `new Date(text)` on the snapshot's `last_updated` is not computed: a `Stamp` carries the text and the instant it denotes (None for an invalid date).
- AdifParser.LotwKey: `convertToTimestamp` uses JavaScript's date parser, and the model keys only the LoTW form `YYYY-MM-DD HH:MM:SS`, ordered by its fourteen digits. Other texts `Date` accepts are treated as invalid, and the exact epoch value is not computed.
- TimestampUtils.IsoText: renders every integer instant, while `toISOString` throws beyond 8.64e15 ms from the epoch. The model applies it only to clock readings; the one call that can throw, on `last_updated_timestamp`, is the `IncrementalUpdater.ValidSince` check.
- Text.LowerStr: folds only the 26 ASCII capitals, and so does `Text.Lower`. `toLowerCase` and the `/i` flag also fold other letters, and `toLowerCase` can change a text's length ("İ" becomes two characters). The tag names and markers the core compares are ASCII, so the model differs only on non-ASCII field data.
- Scan.Cut: strings are sequences of Unicode scalar values, while JavaScript's `length` and `substring` count UTF-16 code units. For characters outside the Basic Multilingual Plane, `substring(0, length)` and the lengths written into the RXQSL and PROGRAMID tags (adif-processor.js:62-65, 170-173) count differently from the model.
- FileManager.MatchingBackups: matches the file's stem literally. The source builds a regular expression from the unescaped stem (file-manager.js:103): a `.` matches any character, a `+` or `*` changes the pattern so that the file's own backups may never match, and a stem that is not a valid pattern, such as one with an unbalanced `(`, makes the clean-up throw, which `cleanupOldBackups` swallows, so nothing is deleted. The model holds for stems without regular-expression metacharacters.
- AdifProcessor.UpdateRecordCount: reports `AdifNotFound(path)` for a missing file; the source's message (adif-processor.js:278) names no path.
- ConfigContext.ShouldSkipUpdate: a `timestampCheckInterval` that is a string or a boolean is treated as not a number, so the update is never skipped. JavaScript coerces it in both comparisons (index.js:90, 96): `"2"` counts as 2 and `true` as 1.
- Copies take the instant of the copy as their modification time, as `copyFileSync` does on Linux; `restoreBackup` likewise stamps the restored file. Where a platform's copy keeps the original's time, the newest-first order of `cleanupOldBackups` can differ, and `IncrementalUpdater.LostBackup` relies on the new copy being the newest backup.
- A JSON `null` in `last_updated_timestamp` is read as absent, so `new Date(null)` (the epoch, which does not throw) is modelled as the `InvalidTime` failure of a missing timestamp.
- `parseADIFToJSON` writes the JSON file at the instant of its second clock reading; the write's own reading is not separate.
- Sorting backups by mtime: files with the same mtime are ordered by name in the model. The source leaves them in directory-listing order.
- `String.prototype.replace` treats `$` patterns in the replacement specially. The model inserts replacement text literally, so a `$` in a downloaded RXQSL stamp is not interpreted.
- `parseInt` and `toString` are exact. Counts beyond 2^53 lose precision in JavaScript but not here.
- Falsy credentials: `username` and `password` are strings, and `!username` is modelled as the empty string. `undefined` and `null` are not modelled.
- The second `!localData` test in `determineUpdateStrategy` (update-strategy.js:45-50) is unreachable after the first one and is not modelled. The `default` branch of the dispatch (update-strategy.js:158-159) cannot be taken, because `Strategy` has three constructors.
- The reason messages of `determineUpdateStrategy` are the `Reason` constructors, not their texts. `RecentUpdate` carries the `queryInterval` the message quotes.
- The success-path `unlinkSync` of the backup (incremental-updater.js:139-140) needs backups off while a backup exists, which cannot happen (`IncrementalUpdater.BackupAlwaysKept`). It is an unreachable branch of `Pipeline`.
- `initConfig` and the re-exports of index.js are not modelled.

## Findings

| source | as written | input that shows it | evidently intended | confidence | as-written member | corrected member |
|---|---|---|---|---|---|---|
| lib/incremental-updater.js:75-79 | The QSO merge saves the ADI file through `saveADIFData` with the update's own context. With `qsoDataFileBackup` not `false`, that save takes a second backup, and its clean-up deletes the backup taken at line 35. | Backups on, a QSO data file name without a directory part (so the ADI file lies in the data directory, where its backups go; `OutsideBackupsKept` shows the other case) and without regular-expression metacharacters, copies that take a fresh modification time, the ADI file present and older than the update, a valid `last_updated_timestamp`, a QSO download with data, then a QSL download that fails. `restoreBackup` throws "Backup file not found" instead of the download's error, and the ADI file keeps the merged QSOs. | A failed update puts the ADI file back as it was and rethrows the error of the failing step. | high; not executed | IncrementalUpdater.LostBackup | IncrementalUpdater.RollbackRestores |
