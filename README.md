# RSBSA toolbelt and Excel merger: a Dafny model of the batch rules

This project models the decision logic of two Python command-line tools:

- `rsbsa_toolbelt.py`, a Region 6 toolbelt. It builds the RSBSA registry summary and runs two merge modes.
- `excel_merger_web.py`, a stand-alone merger with the same two merge modes.

Everything around that logic is left outside the model: pandas and xlsxwriter I/O, the console and the file system. What goes in as given values:

- the tables a reader returns or whether it raised;
- the text the user typed;
- whether the writer accepted a sheet and whether the save succeeded.

What comes out as values:

- the workbook contents to be written;
- the list of files to delete.

Modules:

- `Text` gives the Python string operations the tools use: `lower`, `upper`, `strip`, `endswith`, `str(int)`, and string `<`.
- `Sequences` gives order-preserving filtering.
- `Tables` defines a DataFrame as column labels plus rows of cells, where a cell is missing (NaN) or text.
- `Naming` covers:
  - `clean_sheet_name`;
  - the `orig[:28]_<counter>` uniquing loop, as the method `FreeSheetName`, proved against `UniqueName`;
  - `get_output_filename`;
  - the directory filters;
  - the base name from `rsplit('.', 1)[0]`.
- `Stacking` covers "Stack Rows".
  - The method `StackRows` runs the loop that validates and buffers the files. It is proved equal to a loop-free reference description: the first usable table is the master, and every file is judged against it. It then commits or aborts.
  - `EmptyPolicy` chooses between the toolbelt's skipping of empty tables and the web merger's rejection of them.
- `SheetCombine` covers "Combine to Sheets".
  - The methods `CombineSheets` and `WriteFrames` build the workbook and the list of files to delete. They are proved equal to fold functions.
  - Lemmas about those folds give the naming and cleanup guarantees.
- `RegionalSummary` covers the province check, the per-row flags, the integer-day age brackets, and the group-by summary sorted by municipality and barangay.

Both programs share the same `clean_sheet_name`, `get_output_filename`, filters and merge decisions. The only difference is the empty-table policy. So each shared rule is defined once and cited at the toolbelt's lines; the web merger's lines are listed alongside where they differ or add something.

## Model

The web merger repeats several toolbelt functions. Each pair shares one member, and its row cites the toolbelt lines. The web copies are `clean_sheet_name` (excel_merger_web.py:49-51), `get_output_filename` (excel_merger_web.py:40-47), the input filter (excel_merger_web.py:72), the uniquing loop (excel_merger_web.py:198-204), Stack Rows with empty tables rejected (excel_merger_web.py:104-167), the frames dictionary (excel_merger_web.py:180-195) and the sheet mode (excel_merger_web.py:176-232). Functions that only compute, such as `Summarize`, `Tag` or `PlaceAll`, are named in the row of the lemma that states what they mean. The web copies map to `Naming.CleanSheetName`, `Naming.OutputFilename`, `Naming.StackInputs`, `Naming.FreeSheetName`, `Stacking.StackRows` (policy `RejectEmpty`), `SheetCombine.FramesForShape` and `SheetCombine.CombineSheets`.

| member | source | states |
|---|---|---|
| Naming.RemoveForbidden | rsbsa_toolbelt.py:102 | The result holds none of `[ ] : * ? / \`, is a subsequence of the input, and keeps every other character as often as the input has it. |
| Naming.CleanSheetName | rsbsa_toolbelt.py:101-103 | The result has at most 31 characters and no forbidden character. It is the first min(31, n) characters of the input after the forbidden characters are removed, where n is the length of that cleaned input. |
| Naming.CleanSheetNameKeepsLegal | rsbsa_toolbelt.py:101-103 | A name of at most 31 characters with no forbidden character comes back unchanged. |
| Naming.CleanSheetNameIdempotent | rsbsa_toolbelt.py:101-103 | Cleaning a cleaned name changes nothing. |
| Naming.OutputFilename | rsbsa_toolbelt.py:92-99 | A blank answer gives the default name. Otherwise the stripped answer is used, and the result ends with `.xlsx` in some letter case. The stripped answer is returned unchanged exactly when it already ends with `.xlsx` in some letter case; otherwise `.xlsx` is appended. |
| Naming.OutputFilenameIdempotent | rsbsa_toolbelt.py:92-99 | Typing the name the function produced gives that name again, whenever the default is a `.xlsx` name without leading whitespace, as every default the programs build is. |
| Naming.TypedNameStripped | rsbsa_toolbelt.py:94-99 | A name built from a non-blank answer is non-empty, already stripped, and ends with `.xlsx`. |
| Naming.OutputFilenameFixed | rsbsa_toolbelt.py:97-99 | A stripped answer that already ends with `.xlsx` is returned unchanged. |
| Naming.StackInputs | rsbsa_toolbelt.py:270 | A listing entry is a merge input exactly when it ends with `.xlsx` or `.csv` in some letter case and does not start with `~$`. Listing order is kept. |
| Naming.ReportInputs | rsbsa_toolbelt.py:106 | An entry is a report input exactly when it ends with `.xlsx` in some letter case and does not start with `~$`. Every report input is also a merge input. Listing order is kept. |
| Naming.LastIndexOf | rsbsa_toolbelt.py:361 | The result is the position of the last occurrence of the character, or -1 when the string does not contain it. |
| Naming.BaseName | rsbsa_toolbelt.py:361 | The result is the file name cut at its last dot. When the name has no dot, the result is the whole name. |
| Naming.SuffixedShape | rsbsa_toolbelt.py:380 | A candidate `Suffixed(orig, k)` built from a clean name is clean. It fits in 31 characters exactly when the stem length plus the counter's digit count is at most 30, so it always fits when the counter is below 100. |
| Naming.SuffixedInjective | rsbsa_toolbelt.py:380 | Different counters give different candidate names. |
| Naming.FirstFree | rsbsa_toolbelt.py:379-381 | The result is the smallest counter whose candidate is free, given that every candidate below k is taken. It exists because only finitely many names are taken. |
| Naming.UniqueName | rsbsa_toolbelt.py:376-382 | The chosen name is never taken. A free cleaned name is kept as it is. Otherwise the name is the candidate for the smallest counter k ≥ 1 whose candidate is free. |
| Naming.FirstFreeIsLeast | rsbsa_toolbelt.py:379-381 | A counter whose candidate is free, with every smaller candidate taken, is the counter `UniqueName` picks. |
| Naming.CandidateStep | rsbsa_toolbelt.py:379-381 | Trying a taken candidate reduces the number of taken names not yet tried; trying a free one leaves it as it was. |
| Naming.FreeSheetName | rsbsa_toolbelt.py:376-381 | The `while` loop terminates and returns `UniqueName` of the cleaned name and the names already taken. |
| Stacking.TagShape | rsbsa_toolbelt.py:308 | `Tag` is `df['Source_File'] = filename`. Tagging keeps the number of rows. When the table has no `Source_File` column, each row gets the file name appended as a new last cell; otherwise the existing column is overwritten with the file name. |
| Stacking.TagRectangular | rsbsa_toolbelt.py:308 | On a table with one cell per column, the tagged table also has one cell per column, and every cell under `Source_File` holds the file name. |
| Stacking.MasterIsFirstUsable | rsbsa_toolbelt.py:297-303 | `Usable` is read without error and not `df.empty` (`Tables.IsEmpty`). The master schema is absent exactly when no file is both readable and non-empty. Otherwise it is the name and columns of the first such file. |
| Stacking.StepAfterMaster | rsbsa_toolbelt.py:290-313 | Once the schema is fixed, one loop step adds exactly the file's reference error or tagged table. |
| Stacking.StepBeforeMaster | rsbsa_toolbelt.py:297-303 | Before the schema is fixed, a usable table becomes the master and is buffered. Any other file is handled as it would be against any master. |
| Stacking.ScanAfterMaster | rsbsa_toolbelt.py:288-313 | After the master is fixed, the loop appends exactly the reference errors and tables of the remaining files. |
| Stacking.ScanFromMaster | rsbsa_toolbelt.py:301-309 | A usable first table becomes the master, and the rest of the files are judged against it. |
| Stacking.ScanBeforeMaster | rsbsa_toolbelt.py:288-313 | Before any master is fixed, the loop ends with `Master`, and with the errors and tables the reference gives for that master. |
| Stacking.ScanMatchesReference | rsbsa_toolbelt.py:288-313 | The loop, as the fold `ScanFrom` of the per-file `Step`, ends with the reference errors and buffered tables. Judged against the master, these are: read failures and mismatches, and also empty tables when the policy is to reject them. |
| Stacking.StackRows | rsbsa_toolbelt.py:282-338 | The loop's state is `ScanFrom(Start, files)`, the fold of `Step`. The merge fails validation exactly when the reference description has an error, and it reports exactly those errors. With no error and nothing buffered, nothing is saved. When the save fails, nothing is deleted. On a successful save, the output is the master's tagged columns over every buffered row in file order, and every listed file is deleted. |
| Stacking.AcceptedShareColumns | rsbsa_toolbelt.py:304-309 | Every buffered table has exactly the master's columns plus `Source_File`, so stacking them needs no realignment. |
| Stacking.StackedRowCount | rsbsa_toolbelt.py:323 | The stacked table has exactly as many rows as the buffered tables together. |
| Stacking.AcceptedRectangular | rsbsa_toolbelt.py:308-309 | When every table read has one cell per column, so does every buffered table. |
| Stacking.StackedRectangular | rsbsa_toolbelt.py:323 | When every table read has one cell per column, so does the stacked table, so every cell lands under its own column. |
| Stacking.CleanVerdict | rsbsa_toolbelt.py:297-309 | A file with no error is buffered exactly when it is readable and non-empty. When empty tables are rejected, such a file is always readable and non-empty. |
| Stacking.CleanScanBuffersUsable | rsbsa_toolbelt.py:297-309 | With no error, the buffered tables are exactly the readable, non-empty files, tagged and in file order. |
| Stacking.RejectEmptyAllUsable | excel_merger_web.py:118-137 | When the web merger finds no error, every listed file was readable and non-empty. |
| Stacking.RejectEmptyBuffersAll | excel_merger_web.py:118-120 | When the web merger finds no error, every listed file has been buffered. |
| Stacking.MismatchRejected | rsbsa_toolbelt.py:304-306 | A usable table whose column list differs from the master's is reported as a mismatch against the master file, and it is not buffered. |
| Tables.ConcatRowsLength | rsbsa_toolbelt.py:323 | Concatenation keeps every row: the row count is the sum of the tables' row counts. |
| Tables.ConcatRowsRectangular | rsbsa_toolbelt.py:323 | Concatenating tables that share their columns and have one cell per column gives a table with one cell per column. |
| SheetCombine.SheetNames | rsbsa_toolbelt.py:379 | Returns the book's sheet names, in book order. |
| SheetCombine.PutKeys | rsbsa_toolbelt.py:372 | Assigning a key in the dictionary updates an existing key where it is, or appends a new key last. |
| SheetCombine.PutStores | rsbsa_toolbelt.py:372 | After the assignment, the dictionary holds the new table under the key. |
| SheetCombine.PutNew | rsbsa_toolbelt.py:372 | Assigning a key the dictionary does not hold appends exactly that entry to the end. |
| SheetCombine.PutSheets | rsbsa_toolbelt.py:370-372 | Building the frames dictionary keeps its keys distinct. |
| SheetCombine.TargetsCons | rsbsa_toolbelt.py:370-372 | The target list of a workbook starts with the first sheet under its target name, followed by the targets of the remaining sheets. |
| SheetCombine.PutSheetsFresh | rsbsa_toolbelt.py:370-372 | When no two target names collide, the dictionary lists the sheets in workbook order under their target names. |
| SheetCombine.TargetsDistinct | rsbsa_toolbelt.py:370-372 | When the workbook's own sheet names are distinct, so are the target names built from them (the one-sheet case has a single name). |
| SheetCombine.TargetNameInjective | rsbsa_toolbelt.py:371 | For a workbook with several sheets, different sheet names give different `<base>_<sheet>` names. |
| SheetCombine.FramesForShape | rsbsa_toolbelt.py:361-372 | `FramesFor` is the `frames` dictionary of lines 363-372. A readable CSV file gives one table named after the base name. A workbook with one sheet gives that sheet under the base name. A workbook with several sheets gives each sheet as `<base>_<sheet>`, in order. A reader that raises gives nothing. |
| SheetCombine.WriteFrames | rsbsa_toolbelt.py:375-382 | The loop ends in the state `PlaceAll` describes. The sheets already in the book stay first. The sheets it adds hold the file's tables in order, each under the free form of its cleaned name chosen against the sheets before it, and each was accepted there (`HoldsTables`). It completes exactly when every table became a sheet. When it stops short, the writer refused the next table under that table's free name (`StopsAt`). |
| SheetCombine.CombineSheets | rsbsa_toolbelt.py:357-395 | The resulting book and delete list are those of the per-file fold `CombineFrom`. `FileSheets` states which sheets each file contributes. `DeletedExactly`, `WrittenDeleted`, `DeletedOnlyComplete` and `RefusedNotDeleted` state who is deleted. When saving fails, the outcome deletes nothing. |
| SheetCombine.ChosenNameFresh | rsbsa_toolbelt.py:376-381 | The name chosen for a table is not in the book and contains no forbidden character. |
| SheetCombine.PlaceAllKeepsGood | rsbsa_toolbelt.py:375-382 | Writing one file's tables keeps the book's sheet names distinct and clean. |
| SheetCombine.CombineKeepsGood | rsbsa_toolbelt.py:359-387 | Processing the remaining files keeps the book's sheet names distinct and clean. |
| SheetCombine.CombinedBookIsGood | rsbsa_toolbelt.py:358-387 | No two sheets of the saved book share a name, and no sheet name contains a forbidden character. |
| SheetCombine.DeletedOnlyReadable | excel_merger_web.py:209-228 | The delete list is no longer than the file list, so the remaining count `len(all_files) - len(files_to_delete)` is never negative. Every name on the list belongs to a file whose reader succeeded. |
| SheetCombine.UnreadableNotDeleted | excel_merger_web.py:211-213 | When the listed names are distinct, an input whose reader raised is never deleted. |
| SheetCombine.PlaceAllCompletes | rsbsa_toolbelt.py:375-382 | When the writer accepts every sheet, all of a file's tables are written and the book grows by exactly that many sheets. |
| SheetCombine.PlaceAllComplete | rsbsa_toolbelt.py:375-382 | `PlaceAll` is the `for raw_name, df in frames.items()` loop with its `to_excel` refusals. It keeps the sheets already in the book first and adds at most one sheet per table. It completes exactly when it added one sheet for every table. |
| SheetCombine.PlaceAllContents | rsbsa_toolbelt.py:375-382 | The sheets one file adds after the existing book are its tables in order. Each is written under the free form of its cleaned name, chosen against the sheets before it, and the writer accepted it there. |
| SheetCombine.PlaceAllStops | rsbsa_toolbelt.py:375-382 | When a file's writes stop short, the writer refused its next table under that table's free cleaned name, against the book as it then stood. |
| SheetCombine.AddFileDeletes | rsbsa_toolbelt.py:359-385 | `AddFile` is one pass of the per-file body. It adds a name to `files_to_delete` only when that is this file's name and all of the file's tables were written. |
| SheetCombine.DeletedOnlyComplete | rsbsa_toolbelt.py:357-387 | `CombineFrom` is the `for filename in all_files` loop. Every name it puts on `files_to_delete` is the name of a listed file that was read and all of whose tables were written, against the book the earlier files left. |
| SheetCombine.RefusedNotDeleted | rsbsa_toolbelt.py:375-387 | When the listed names are distinct, a file that was not read, or one of whose tables the writer refused, is not deleted. |
| SheetCombine.AddFileCompletes | rsbsa_toolbelt.py:383-387 | One file's pass appends its name to `files_to_delete` exactly when the file was read and all of its tables were written against the current book. Otherwise the list is unchanged. |
| SheetCombine.FileNamesCons | rsbsa_toolbelt.py:390 | The names of a file list are its first name followed by the names of the rest. |
| SheetCombine.AllWrittenAllDeleted | rsbsa_toolbelt.py:385-392 | When every file is read and all of its tables are written against the book the earlier files left, every listed file is deleted after the save, in listing order. |
| SheetCombine.AcceptingWriterDeletesAll | rsbsa_toolbelt.py:375-392 | With a writer that refuses nothing and every file readable, every listed file is deleted after the save, in listing order. |
| SheetCombine.CombineGrows | rsbsa_toolbelt.py:358-387 | The per-file loop only ever adds to the book and to `files_to_delete`. Sheets and names already there stay, in place. |
| SheetCombine.FileSheets | rsbsa_toolbelt.py:358-387 | File `k`'s sheets sit in the saved book right after the sheets of the earlier files, and the later files keep them. They hold file `k`'s tables in order, each under its free cleaned name (`HoldsTables`). An unread file adds no sheet. |
| SheetCombine.WrittenDeleted | rsbsa_toolbelt.py:383-392 | A listed file that was read and all of whose tables were written, against the book the earlier files left, is on the delete list after the save. |
| SheetCombine.DeletedExactly | rsbsa_toolbelt.py:383-392 | When the listed names are distinct, a file is deleted after the save exactly when it was read and all of its tables were written. |
| RegionalSummary.ProvinceCount | rsbsa_toolbelt.py:15-22 | The required province set has six members. |
| RegionalSummary.CheckProvinces | rsbsa_toolbelt.py:154-169 | Validation passes exactly when the sheet names are the six provinces. The missing-province test comes first and reports the non-empty difference. A superset of the provinces fails the count test with its size. |
| RegionalSummary.SubsetOfSameSize | rsbsa_toolbelt.py:163 | A subset with the same number of elements as its superset is equal to it. |
| RegionalSummary.ExtraSheetRejected | rsbsa_toolbelt.py:163-167 | A workbook that has every province sheet plus any other sheet fails the sheet-count test. |
| RegionalSummary.FlagExact | rsbsa_toolbelt.py:194-199 | `Flag`, `IsYes`, `IsMale` and `IsFemale` are the `astype(str).str.upper().map(...).fillna(0)` columns. A cell counts as YES exactly when it is three letters that upper-case to Y, E, S. A missing cell counts for no flag. No cell counts as both MALE and FEMALE. |
| RegionalSummary.FlagExamples | rsbsa_toolbelt.py:194-199 | "yes" and "Yes" count; "YES " and "Y" do not. "female" is FEMALE and not MALE. |
| RegionalSummary.BracketsMatchYears | rsbsa_toolbelt.py:207-216 | `IsYouth`, `IsWorkingAge` and `IsSenior` are the `is_youth`, `is_working_age` and `is_senior` columns. The integer tests on 4·days are exactly the source's tests on `days / 365.25`: 15 to 30 inclusive, above 30 and below 60, and 60 or more. A missing birthday, with age -1, meets none of them. |
| RegionalSummary.BracketsExclusive | rsbsa_toolbelt.py:210-216 | At most one bracket applies to a person, and none applies when the birthday is missing. |
| RegionalSummary.ThirtyYearsAndADay | rsbsa_toolbelt.py:212-214 | 10958 days counts as working age and not as youth; 10957 days counts as youth. |
| RegionalSummary.Insert | rsbsa_toolbelt.py:238 | Inserting a key into a strictly ascending key list keeps it strictly ascending and adds exactly that key. |
| RegionalSummary.GroupKeys | rsbsa_toolbelt.py:219 | The group keys are strictly ascending. A pair is a key exactly when some row has it. |
| RegionalSummary.MembersMultiset | rsbsa_toolbelt.py:219 | `Members` is one group of the group-by. It holds every registrant of its pair as many times as the table does, and nothing else. |
| RegionalSummary.CountMembers | rsbsa_toolbelt.py:219-229 | A `sum` over a group equals the number of rows of the whole table that have the group's pair and pass the test. |
| RegionalSummary.AgenciesOfGroup | rsbsa_toolbelt.py:223 | The agencies of a group are exactly those named by the table's rows of that pair. |
| RegionalSummary.SummaryColumns | rsbsa_toolbelt.py:193-236 | `Summarize` and `Aggregate` are the group-by with its `agg` dictionary and column names. The row for pair k has, as each of Farmers, Farmworkers, Fisherfolk, Male, Female, Youth, Working Age and Senior, the number of registrants of pair k in the table that pass that column's test. Distinct Agencies is the number of distinct agencies of that group. |
| RegionalSummary.Agencies | rsbsa_toolbelt.py:223 | The counted agencies are exactly the present agency texts of the group. |
| RegionalSummary.GroupKeysExact | rsbsa_toolbelt.py:219 | Every row's pair is a group key, and every group key is some row's pair. |
| RegionalSummary.SummaryKeys | rsbsa_toolbelt.py:219-236 | The summary has one row per group key, and row j carries the j-th key. |
| RegionalSummary.SummarySorted | rsbsa_toolbelt.py:238 | Summary rows are in strictly ascending (municipality, barangay) order. |
| RegionalSummary.SummaryCoversRows | rsbsa_toolbelt.py:219 | Every registrant's pair appears as a summary row. |
| RegionalSummary.SummaryRowsFromRows | rsbsa_toolbelt.py:219 | Every summary row's pair belongs to some registrant. |
| RegionalSummary.SummaryRowsAreTheGroups | rsbsa_toolbelt.py:219-238 | The summary has exactly one row per distinct (municipality, barangay) pair that occurs and none for other pairs, in ascending order. |
| RegionalSummary.SummaryKeysUnique | rsbsa_toolbelt.py:219-238 | No pair appears in two summary rows. |
| RegionalSummary.CountBound | rsbsa_toolbelt.py:220-228 | A count is never larger than the group. |
| RegionalSummary.ExclusiveCounts | rsbsa_toolbelt.py:224-228 | The counts of mutually exclusive tests add up to at most the group size. |
| RegionalSummary.AgenciesBound | rsbsa_toolbelt.py:223 | The distinct-agency count is at most the group size. |
| RegionalSummary.SummaryRowBounds | rsbsa_toolbelt.py:219-229 | Every group has at least one member. Each count is at most the group size, and so are Male + Female and Youth + Working Age + Senior. |
| RegionalSummary.KeyLessFacts | rsbsa_toolbelt.py:238 | The (municipality, barangay) order is irreflexive, transitive, total on distinct keys, and asymmetric. |
| RegionalSummary.RegionalReport | rsbsa_toolbelt.py:154-238 | The report is rejected exactly when the sheet names are not the six provinces, with the reason from the validation. Otherwise it has one summary per province sheet with rows, and an empty sheet is skipped. |
| Text.LowerFolds | rsbsa_toolbelt.py:97 | After `lower()` no ASCII capital remains, every other character is kept, and each capital becomes the small letter that upper-cases back to it. Lower-casing twice, or after upper-casing, gives the same text as lower-casing once. `Lower` is the definition. |
| Text.UpperFolds | rsbsa_toolbelt.py:194 | After `upper()` no ASCII small letter remains, every other character is kept, and each small letter becomes the capital that lower-cases back to it. Upper-casing twice, or after lower-casing, gives the same text as upper-casing once. `Upper` is the definition. |
| Text.Strip | rsbsa_toolbelt.py:94 | `strip()` returns a slice `s[a..b]` with no whitespace at either end, and everything before `a` and from `b` on is whitespace. This fixes the result exactly. |
| Text.StripUntrimmed | rsbsa_toolbelt.py:94 | Stripping text that has no whitespace at either end changes nothing. |
| Text.Decimal | rsbsa_toolbelt.py:380 | `str(k)` is a non-empty string of digits ending in the last digit of k. |
| Text.DecimalInjective | rsbsa_toolbelt.py:380 | Different counters print differently. |
| Text.DecimalLength | rsbsa_toolbelt.py:380 | A counter prints in at most two digits exactly when it is below 100. |

## Left out

- The loading spinner is a cosmetic background thread, so it is not modelled.
- The file system and console are represented by values:
  - directory listing, reading, writing and deletion;
  - the `input()` prompts, screen clearing and headers;
  - the first-run folder creation.

  A listing is a sequence of names and a read is a given result. Deletion is returned as a list of names. A failed `os.remove` is ignored by both programs, so it does not appear.
- pandas and xlsxwriter are represented by values:
  - `read_excel`/`read_csv` results are given tables, or `None` when the reader raises;
  - `to_excel` becomes the `Acceptance` parameter, which decides whether the writer takes a table under a sheet name;
  - closing the writer becomes the `saveOk` parameter.

  Cell formats, column widths, the report's title rows and `startrow` are not modelled.
- SheetCombine.CombineSheets: the writer's own refusals (a case-insensitively duplicate or over-long sheet name, a table of more than 1,048,576 rows) are not spelled out; they are whatever the `Acceptance` parameter refuses, given the sheet name, the names already in the book and the table.
- SheetCombine.CombineSheets: the writer's renaming of an empty sheet name to `Sheet<n>` is not modelled; a table whose cleaned name is empty is placed under the name the model computes for it.
- Naming.UniqueName: the 31-character bound is not claimed for every result. For a cleaned name of 28 or more characters with 99 taken candidates, `orig[:28]_100` has 32 characters. `SuffixedShape` states exactly when a candidate fits.
- Date parsing and the clock are left out. The "as of" date, `datetime.now()` and the timestamped default names are outside the model. Each registrant's age arrives as whole days (`(ref_date - birthday).days`), or `None` where the birthday does not parse.
- RegionalSummary.BracketsMatchYears: floating-point age is replaced by exact rational division, which is what the integer tests `4·days ≥ 21915`, `≤ 43830` and `< 87660` encode. The double-precision quotient can meet the bounds 15, 30 and 60 only at 21915 days, where it is exact.
- Text.LowerFolds, Text.UpperFolds, Text.Strip: case mapping and whitespace are ASCII only, so Unicode case rules and Unicode spaces are not modelled.
- RegionalSummary.RegionalReport takes each province sheet as rows with all eight target columns already stripped and lower-cased, and with municipality and barangay present. Three cases are outside the model:
  - pandas dropping rows whose group key is missing;
  - the `KeyError` when a target column is absent;
  - the sheet that `usecols` leaves without columns.
- RegionalSummary.RegionalReport returns the summaries as a map from province to table. The order in which Python iterates the province set, and so the sheet order in the output, is not modelled. A failure of the report writer is not modelled either.
- `select_input_file`'s prompt for a file number is not modelled; only its filter is (`Naming.ReportInputs`).
- Tables are not required to have one cell per column, because every pandas table has that shape. `Tables.Rectangular` names it, and the lemmas about tagging and stacking assume it.
- Cells hold text or are missing. Values that pandas reads as numbers or dates are taken to be already converted to their `astype(str)` text.
- The wording of console messages is not modelled. The model keeps each validation error's kind, file and master file.
- The two programs follow the same merge logic. Time stamps, prompts and the retry loop on an empty input folder differ, and none of those are modelled.
- The bracket comments in the source read "Youth: 15 to 30" and "Working Age: 31 to 59". The comparisons on `days / 365.25` decide the actual bracket: 10958 days, about 30.0014 years, is working age, and 10957 days is youth. The model follows the comparisons (`ThirtyYearsAndADay`).
