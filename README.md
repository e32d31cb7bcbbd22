# Consolidator naming and selection logic, in Dafny

The repository downloads yearly 10-metre wind-speed archives for Saudi
Arabia into timestamped run directories (`Downloads/run_<YYYY-MM-DD_HH-MM-SS>/`).
It then consolidates the newest run into one NetCDF file,
`Merged/saudi_wind_speed_<start>-<end>_MERGED.nc`. The script
`unzip_merge.py` does this in three phases. This project models the
decisions those phases make, with the file system, the archive library and
the array library taken out: directory listings come in as sequences of
strings, and the results say what would happen.

- Phase 1 chooses the latest run. It keeps the directories of the listing
  and takes the last name in `sorted` order. If there are none, or
  `Downloads` itself is missing, the script stops.
- Phase 3 decides the merge. It sorts the `.nc` paths. An empty list means
  there is nothing to merge, and that is not an error. Otherwise it reads a
  year from each base name, using the leftmost run of four digits
  (`re.search(r'\d{4}', ...)`). It takes the minimum and maximum of those
  years. If no file has a year, `min([])` raises and the merge is aborted.
  Otherwise every file goes into the merge, including the ones without a
  year, under the name built from the range.
- The run names come from the downloaders. They are `run_` followed by the
  time of the run, formatted with `strftime('%Y-%m-%d_%H-%M-%S')`. Every
  field is fixed-width and zero-padded, so string order is time order.
  That fact is what makes phase 1 pick the newest run.

Modules:

- `Lex` is Python's string order.
- `Sorting` is `sorted`: an insertion sort, shown to agree with any other
  sort by `SortedUnique`.
- `Digits` covers decimal digits, `int()` and `str()`.
- `Years` covers the base name, the four-digit search, the year list and
  the year range.
- `Consolidate` covers the phases and the output name.
- `Timestamps` covers the run names.

The year collection loop (lines 57-62), the dataset loop (lines 68-72),
phase 3 and the whole script are methods. Each is proved equal to a
specification function, and the properties are lemmas about those
functions.

The script sorts full paths, not bare file names. All paths share the run
directory, so the two orders are the same: `Consolidate.JoinOrder` proves
this.

## Model

| member | source | states |
|---|---|---|
| `Lex.Less` | unzip_merge.py:23 | definition of Python's `str` `<`, compared code point by code point; its properties are `LessIffLessAt`, `LessIrreflexive`, `LessAsymmetric`, `LessTransitive` and `LessTotal` |
| `Lex.LessEq` | unzip_merge.py:50 | definition of `<=` on `str`; its properties are `LessEqAntisymmetric`, `LessEqTransitive` and `LessEqTotal` |
| `Lex.LessIffLessAt` | unzip_merge.py:23 | Python's string `<` holds exactly when `a` is a proper prefix of `b`, or when the first differing character of `a` is smaller |
| `Lex.LessIrreflexive` | unzip_merge.py:23 | no string sorts before itself |
| `Lex.LessAsymmetric` | unzip_merge.py:23 | two strings never sort before each other both ways |
| `Lex.LessTransitive` | unzip_merge.py:23 | string order is transitive |
| `Lex.LessTotal` | unzip_merge.py:23 | any two strings are equal or ordered one way |
| `Lex.LessEqAntisymmetric` | unzip_merge.py:23 | `a <= b` and `b <= a` imply `a == b` |
| `Lex.LessEqTransitive` | unzip_merge.py:23 | `<=` on strings is transitive |
| `Lex.LessEqTotal` | unzip_merge.py:23 | any two strings are comparable by `<=` |
| `Lex.LessConcat` | unzip_merge.py:50 | for equally long leading fields, the fields decide the order, and only when they are equal do the rests decide |
| `Sorting.Insert` | unzip_merge.py:23 | inserting into a sorted list gives a sorted list with one more copy of the element |
| `Sorting.Sort` | unzip_merge.py:50 | `sorted(s)` is ascending and is a permutation of `s` |
| `Sorting.HeadIsLeast` | unzip_merge.py:50 | the first element of a sorted list is `<=` every member |
| `Sorting.SortedUnique` | unzip_merge.py:50 | two sorted permutations of the same strings are the same list, so the result does not depend on the sorting algorithm |
| `Sorting.LastIsGreatest` | unzip_merge.py:23 | `sorted(s)[-1]` is a member of `s` and `>=` every member |
| `Sorting.SortSameMembers` | unzip_merge.py:50 | `sorted(s)` holds exactly the strings of `s` |
| `Digits.DigitValue` | unzip_merge.py:62 | a digit character is worth less than 10 |
| `Digits.DigitChar` | unzip_merge.py:78 | the character written for a value below 10 is a digit, and it reads back as that value |
| `Digits.Pow10` | unzip_merge.py:62 | powers of ten are positive |
| `Digits.ValueOf` | unzip_merge.py:62 | definition of `int()` on a string of decimal digits; its properties are `ValueOfBound`, `NatToString` and `NatToStringOfValue` |
| `Digits.ValueOfBound` | unzip_merge.py:62 | `int()` of an `n`-digit string is below `10^n` |
| `Digits.NatToString` | unzip_merge.py:78 | `str(n)` is non-empty, all digits, has no leading zero and reads back as `n` |
| `Digits.LeadingDigitPositive` | unzip_merge.py:78 | a numeral with no leading zero and more than one digit is worth at least 1 |
| `Digits.NatToStringOfValue` | unzip_merge.py:78 | every canonical numeral is what `str` writes for its own value, the other half of the round trip |
| `Years.Basename` | unzip_merge.py:60 | `os.path.basename` is no longer than the path and contains no `/` |
| `Years.BasenameIsLastComponent` | unzip_merge.py:60 | the base name is a suffix of the path, and is either the whole path or preceded by `/` |
| `Years.BasenameOfPlainName` | unzip_merge.py:60 | a name without `/` is its own base name |
| `Years.BasenameOfJoin` | unzip_merge.py:60 | the base name of `dir/name` is `name`, whatever `dir` is |
| `Years.MatchFrom` | unzip_merge.py:60 | the search finds the leftmost position at or after `i` where four digits start, or reports that there is none |
| `Years.YearMatch` | unzip_merge.py:60 | definition: `re.search(r'\d{4}', s)` is the search from position 0; what it finds is stated by `MatchFrom` and `YearMatchStartsRun` |
| `Years.YearOf` | unzip_merge.py:60-62 | the year is at most 9999, and a name has none exactly when it holds no four consecutive digits |
| `Years.FileYear` | unzip_merge.py:60-62 | definition: the year of a path is searched for in its base name only; its properties are `FileYearIgnoresDirectory`, `NoDigitNoYear` and `YearOfLongRun` |
| `Years.FileYearIgnoresDirectory` | unzip_merge.py:60 | a file's year never comes from its directory part |
| `Years.NoDigitNoYear` | unzip_merge.py:60-62 | a base name without digits yields no year |
| `Years.YearMatchStartsRun` | unzip_merge.py:60 | the match starts where a run of digits starts |
| `Years.YearOfLongRun` | unzip_merge.py:60-62 | in a run of four or more digits, the year is the value of its first four digits |
| `Years.YearsOf` | unzip_merge.py:57-62 | the year list has at most one entry per file, and every entry is at most 9999 |
| `Years.YearOfAsList` | unzip_merge.py:61-62 | one file adds its year when it has one and adds nothing when it has none |
| `Years.YearsOfAppend` | unzip_merge.py:58-62 | collecting over two lists in turn concatenates the two results, so file order is kept |
| `Years.YearsOfMembership` | unzip_merge.py:58-62 | a year is collected exactly when some file has it |
| `Years.YearsOfEmpty` | unzip_merge.py:58-62 | the year list is empty exactly when no file has a year |
| `Years.CollectYears` | unzip_merge.py:57-62 | the loop returns exactly the year list of the files |
| `Years.Dated` | unzip_merge.py:61 | a file is kept exactly when it has a year, and the result is no longer than the input; `DatedAppend` fixes the order |
| `Years.DatedAppend` | unzip_merge.py:58-61 | filtering a concatenation gives the concatenated filter results |
| `Years.YearsOfKeepsOnlyDated` | unzip_merge.py:58-65 | files without a year do not change the year list, so the range depends only on the files that have a year |
| `Years.YearsOfDated` | unzip_merge.py:58-62 | the year list holds one entry per file that has a year, in the order of those files |
| `Years.MinOf` | unzip_merge.py:64 | `min` returns a member of the list that is `<=` every member |
| `Years.MaxOf` | unzip_merge.py:65 | `max` returns a member of the list that is `>=` every member |
| `Years.YearRange` | unzip_merge.py:64-65 | there is no range exactly for an empty list; otherwise `start <= end`, both occur in the list, and every year lies between them |
| `Years.YearRangeBySet` | unzip_merge.py:64-65 | the range depends only on which years occur |
| `Consolidate.RunDirectories` | unzip_merge.py:18 | a name is kept exactly when the listing has it as a directory |
| `Consolidate.LatestRun` | unzip_merge.py:19-23 | the result fails exactly for an empty list; otherwise it is a member that is `>=` every run |
| `Consolidate.LatestRunIsTheMaximum` | unzip_merge.py:23 | any member that is `>=` every run is the one chosen |
| `Consolidate.Join` | unzip_merge.py:25 | definition of `os.path.join` for a relative name; its properties are `BasenameOfJoin`, `JoinOrder` and `JoinInjective` |
| `Consolidate.OutputName` | unzip_merge.py:78 | definition of the f-string; its properties are `OutputNameInjective` and `MergeNameFromYearRange` |
| `Consolidate.MergePlan` | unzip_merge.py:50-88 | definition of what phase 3 decides; its properties are `NothingToMergeExactlyWhenEmpty`, `NoYearFoundExactly`, `MergeInputsAreAllFilesSorted` and `MergeNameFromYearRange`, and `MergePhase` is proved equal to it |
| `Consolidate.SplitAtDash` | unzip_merge.py:78 | a numeral followed by `-` splits off in only one way |
| `Consolidate.OutputNameInjective` | unzip_merge.py:78 | different year ranges give different output names |
| `Consolidate.OpenDatasets` | unzip_merge.py:68-72 | the datasets handed to the concatenation are exactly the files, in order |
| `Consolidate.MergePhase` | unzip_merge.py:50-88 | phase 3, step by step, reaches the outcome that the specification function `MergePlan` gives |
| `Consolidate.Run` | unzip_merge.py:14-88 | the script stops exactly when `Downloads` is missing or has no directories; otherwise it works in `Downloads/<latest>` and merges what that directory holds |
| `Consolidate.JoinInjective` | unzip_merge.py:79 | two paths in one directory are equal only for equal names, so the output path determines the output name |
| `Consolidate.JoinOrder` | unzip_merge.py:50 | paths in one directory sort as their file names do |
| `Consolidate.NothingToMergeExactlyWhenEmpty` | unzip_merge.py:52-53 | there is nothing to merge, with no error, exactly when there are no `.nc` files |
| `Consolidate.NoYearFoundExactly` | unzip_merge.py:64 | the merge is aborted with no name exactly when there are files but none has a year |
| `Consolidate.MergeInputsAreAllFilesSorted` | unzip_merge.py:70-72 | the merge input is sorted, has as many entries as the listing, and is a permutation of it, so files without a year are included |
| `Consolidate.SortedYearsMembership` | unzip_merge.py:50-62 | a year is collected from the sorted list exactly when some listed file has it |
| `Consolidate.MergeNameFromYearRange` | unzip_merge.py:64-79 | when the merge is written to `Merged/` under the name made from two years, those years are ordered, both are years of listed files, and every file's year lies between them |
| `Consolidate.YearIgnoresRunDirectory` | unzip_merge.py:60 | a file in the run directory takes its year from its own name, never from the digits of `run_<timestamp>` |
| `Consolidate.ThreeFileExample` | unzip_merge.py:50-79 | `wind_2010.nc`, `wind_2015.nc` and `wind_notayear.nc` merge as all three files in name order, written to `Merged/saudi_wind_speed_2010-2015_MERGED.nc` |
| `Timestamps.Pad` | download.py:11 | a zero-padded field has exactly the given width, is all digits, and reads back as its value |
| `Timestamps.Format` | download.py:11 | definition of `strftime('%Y-%m-%d_%H-%M-%S')`; its order is stated by `FormatOrder` |
| `Timestamps.RunName` | download.py:12 | definition of `f'run_{timestamp}'`; its properties are `RunNameOrder` and `RunNameInjective` |
| `Timestamps.PadOrder` | download.py:11 | fields padded to one width compare as strings as their values compare as numbers |
| `Timestamps.FieldOrder` | download.py:11 | text that starts with padded fields of equal width compares by the fields first |
| `Timestamps.FormatOrder` | download.py:11 | formatted times compare as strings exactly as the times compare chronologically |
| `Timestamps.RunNameOrder` | download.py:11-12 | `run_` names compare as strings exactly as their times compare chronologically |
| `Timestamps.RunNameInjective` | download.py:11-12 | different times give different run names |
| `Timestamps.RunNames` | download.py:12 | the names of a list of runs, one per run, in order |
| `Timestamps.NameOfEarlierRun` | unzip_merge.py:22-23 | a run that does not come after the newest run has a name `<=` the newest run's name |
| `Timestamps.LatestRunIsNewest` | unzip_merge.py:22-23 | of runs named by the downloaders, the one chosen is the one that no other run comes after |
| `Timestamps.RunNotAfterChosen` | unzip_merge.py:22-23 | a run whose name is `<=` the chosen name does not come after the chosen run |
| `Timestamps.LatestRunFollowsNoRun` | unzip_merge.py:22-23 | the run whose name is chosen is not followed by any other run |
| `Timestamps.JanuaryJuneExample` | unzip_merge.py:22-23 | of `run_2024-01-01_00-00-00` and `run_2024-06-01_00-00-00`, the June run is chosen, in either listing order |

## Left out

- The downloaders `download.py` and `download_paralell.py` are not modelled. They make remote requests through the `cdsapi` client, throttle with `time.sleep`, and run a `multiprocessing.Pool` of 4 workers, none of which has logic of its own to check. Only their run-name format (`download.py:11-12`, repeated at `download_paralell.py:61-62`) is modelled, in `Timestamps`.
- File system calls are not modelled: `os.makedirs` (line 12), `os.listdir` and `os.path.isdir` (line 18), and `glob.glob` (lines 34 and 50). Their results are inputs to the model. The `.nc` listing may come in any order, because the script sorts it.
- `Consolidate.Run` treats a missing `Downloads` as no runs, since the same handler catches it. Other errors from `os.listdir` propagate and crash the script, and are not modelled.
- Phase 2, the ZIP extraction at lines 32-46, is not modelled. It is a foreign library plus side effects, and its per-archive error handling is only a printed message. The `.nc` listing given to `Run` is the directory after extraction.
- The `xarray` calls (`open_dataset`, `concat`, `to_netcdf`, lines 70-82) are not modelled. A `Merge` outcome says which files would be handed over, in which order, and under which name. The library's own failures, which the handler at lines 87-88 also catches, are not modelled.
- `Years.Basename` and `Consolidate.Join` follow POSIX paths: they split only at `/`. On Windows, `os.path` also splits at `\` and after a drive colon. Dafny's `char` also cannot hold the lone surrogates that `os.listdir` returns for undecodable bytes. Neither choice changes a result for the names the downloaders create.
- Printed messages and the `exit()` call are not modelled. An outcome stands for them.
- `Years.YearOf`: the model treats only the ASCII digits `0`-`9` as `\d`. Python's `\d` on `str` also matches other Unicode decimal digits, and `int()` reads them.
- `Timestamps.Valid`: years below 1000 are excluded, because whether `%Y` pads them to four digits depends on the platform. Calendar validity, such as a 30 February, is not checked. It does not affect the ordering.
- `Timestamps.LatestRunIsNewest`: "newest" means the latest local clock reading, as `datetime.now()` gives it. A clock that goes back, for example at the end of daylight saving time, can give a later run an earlier name.
- The bounding box `[32.5, 34.5, 16, 56]` and the request payloads of both downloaders are left out. They are floating-point request data with no logic.
