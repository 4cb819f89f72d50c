# Car-folder comparison, modelled in Dafny

`compare_carfolders.py` walks the folder of each racing game and lists every
car sub-folder it holds. It decides which folders across games are the same
car and produces a page that shows:

- every car;
- the games that ship that car;
- a badge: "Unique", "Duplicated" or "Duplicated in > 2 games";
- totals of cars and of sizes.

This project models the decision core of that script:

- `strip_slod_suffix`, which removes the low-detail `slod` marker;
- the name filter, which drops the excluded names and any name without the
  two- or three-letter car prefix;
- `parse_folder_name`, which turns a folder name into a seven-field identity
  (manufacturer, manufacturer logo, model, year, variant, variant logo, race
  number) that serves as the grouping key;
- the discovery loop, which builds the dictionary of groups and the set of
  car paths;
- `assign_badge` and the totals loop;
- three small rules of the page: the name of the details file, the game id
  taken from a game's image, and the order of the table rows.

Modules:

| file | module | contents |
|---|---|---|
| `wrappers.dfy` | `Wrappers` | `Option`, `Result`, `dict.get` |
| `text.dfy` | `Text` | ASCII models of `str.lower`, `str.title`, `str.isdigit`, `str.split`, `str.join`, `str.replace`, and `int()` on a two-character string |
| `folder_names.dfy` | `FolderNames` | the marker, the filter and the parser |
| `discovery.dfy` | `Discovery` | the loop over the game folders: the function `ScanBy`/`Scan`, the method `Discover` proved equal to it, and a reference description (`Seen`, `GroupOf`, `KeyOrder`) proved to match it |
| `totals.dfy` | `Totals` | the badge; the totals as functions and as the method `Tally` with its two nested loops |
| `report.dfy` | `Report` | the details file name, `get_game_id`, and the stable sort of the rows |

How the script's inputs appear in the model:

- The lookup tables imported from `mappings` form the record `Tables`.
- `datetime.now().year % 100` is the parameter `currentYY`.
- The directory listing is the input `listing`. It is a sequence of
  `Entry(root, name, isDir)` in the order the script visits the game folders
  and their names.
- A folder size is a natural number of bytes.

The script stops when `int()` rejects the two-character year of some name.
The model returns `Err(YearNotNumeric(yearPart))` in that case. The
discovery loop catches only `FileNotFoundError`, so that error ends the whole
run, and `Scan` returns it too.

The model follows the code in these points, which are easy to misread:

- The override table is consulted before the number of segments is looked
  at. An override therefore applies even to a name with fewer than three
  segments. That name's manufacturer code is "unknown" unless the override's
  lower-cased manufacturer has a logo.
- Parsing is not total. A two-character last segment that is not a number,
  such as `ab_model_gt`, makes `int()` raise.
- The key is parsed from the marker-stripped, lower-cased name (line 342).
  `parse_folder_name` strips the marker once more (line 219). A name ending
  in two markers therefore gets the key of the bare name, and the override
  table is looked up with the lower-cased name.
- The regular-expression `$` also matches just before a final newline. A
  name `x_slod` followed by a newline becomes `x` followed by a newline.
- Every excluded name already fails the car-prefix test (`ExcludedFailPrefix`).

## Model

| member | source | states |
|---|---|---|
| Wrappers.Get | compare_carfolders.py:260 | `dict.get(key, default)`: the stored value when the key is present, the default otherwise |
| Text.Lower | compare_carfolders.py:333 | same length; each letter is lower-cased and every other character is kept |
| Text.Title | compare_carfolders.py:233 | `str.title` keeps the length |
| Text.TitleAt | compare_carfolders.py:243 | each position of `str.title` is upper-cased at the start of a word (after a non-letter) and lower-cased inside one |
| Text.IsDigits | compare_carfolders.py:239 | `str.isdigit`: non-empty and all ASCII digits; no contract of its own, it is the condition the `ParseManufacturerAndModel` and `IntOfTwoChars` contracts are stated with |
| Text.IntOfTwoChars | compare_carfolders.py:249 | `int()` of a two-character string accepts exactly a digit preceded by a digit, whitespace, `+` or `-`, or a digit followed by whitespace; two digits give their decimal value, a digit with whitespace or `+` gives that digit, `-` gives its negation; every result lies in -9..99 |
| Text.Split | compare_carfolders.py:220 | `split('_')` yields one more part than there are separators; no part holds the separator; joining the parts gives back the string |
| Text.Join | compare_carfolders.py:256 | `sep.join(parts)`; no contract of its own: `Split` states that splitting inverts it on separator-free parts, and `SplitJoin` the converse |
| Text.SplitJoin | compare_carfolders.py:220 | splitting the join of separator-free parts gives back those parts |
| Text.ReplaceChar | compare_carfolders.py:102 | `str.replace` of one character: same length, and exactly the occurrences of `from` become `to` |
| FolderNames.StripSlod | compare_carfolders.py:14-15 | the name is unchanged exactly when it does not end in `slod` (any case), either at the very end or just before a final newline; the result is never longer |
| FolderNames.StripSlodRemovesMarker | compare_carfolders.py:15 | `p_slod` in any case becomes `p` |
| FolderNames.StripSlodRemovesBareMarker | compare_carfolders.py:15 | `pslod` becomes `p` when `p` does not end in `_` |
| FolderNames.StripSlodBeforeNewline | compare_carfolders.py:15 | `p_slod` followed by a newline becomes `p` followed by the newline |
| FolderNames.StripSlodBareBeforeNewline | compare_carfolders.py:15 | `pslod` followed by a newline becomes `p` followed by the newline when `p` does not end in `_` |
| FolderNames.StripSlodOnlyOnce | compare_carfolders.py:15 | one call removes one marker only: `p_slod_slod` (any case) becomes `p_slod`, and a second call gives `p` |
| FolderNames.StripSlodLower | compare_carfolders.py:333 | stripping and lower-casing commute |
| FolderNames.Normalize | compare_carfolders.py:333 | the normalised name holds no upper-case letter and is never longer |
| FolderNames.HasCarPrefix | compare_carfolders.py:336 | `re.match(r'^[a-z]{2,3}_', s)`: two or three lower-case ASCII letters, then `_`; no contract of its own, `ExcludedFailPrefix` and `GroupNameFilters` are stated with it |
| FolderNames.PassesFilter | compare_carfolders.py:333-336 | the test of line 336 on the normalised name; no contract of its own, `SeenMembers` and `ScanRecordsOnlyAccepted` state that exactly the directories passing it are recorded |
| FolderNames.ExcludedFailPrefix | compare_carfolders.py:336 | no excluded name has the car prefix `^[a-z]{2,3}_` |
| FolderNames.ExpandYear | compare_carfolders.py:246-252 | a year that is not two characters long is kept; a two-character number above `currentYY` gets "19", any other number gets "20"; a two-character non-number is the `int()` error |
| FolderNames.Between | compare_carfolders.py:255 | `parts[start:-1]`, empty when `start` reaches the last part |
| FolderNames.Parse | compare_carfolders.py:213-265 | `parse_folder_name`; no contract of its own: `ParseSeesStripped` states that it parses the stripped name, and `ParseOverride`, `ParseTooFewSegments`, `ParseFailsOnlyOnYear`, `ParseManufacturerAndModel`, `ParseYear` and `ParseVariant` state each of its branches |
| FolderNames.ParseStripped | compare_carfolders.py:220-265 | lines 220-265 on the stripped name; no contract of its own: the lemmas named for `Parse` state its branches, since `Parse` is it applied to the stripped name |
| FolderNames.ParseOverride | compare_carfolders.py:221-263 | an override entry gives all five fields verbatim at any segment count; the logo is looked up by the lower-cased override manufacturer when the logo table has it, and otherwise by the first segment, or by "unknown" when there are fewer than three segments |
| FolderNames.ParseTooFewSegments | compare_carfolders.py:215-263 | without an override, a name of fewer than three segments is all "Unknown", with the logos looked up for "unknown" and "Unknown" |
| FolderNames.SegmentsOfPositional | compare_carfolders.py:219-220 | a name that is separator-free segments joined with `_` splits back into exactly those segments |
| FolderNames.ParseFailsOnlyOnYear | compare_carfolders.py:246-249 | without an override and with three or more segments, parsing fails exactly when the last segment has two characters that `int()` rejects |
| FolderNames.ParseManufacturerAndModel | compare_carfolders.py:230-243 | without an override and with three or more segments, the manufacturer and its logo come from the lower-cased first segment; an all-digit second segment is the race number and moves the model to the third segment; otherwise the race number is empty; the model is title-cased |
| FolderNames.ParseYear | compare_carfolders.py:246-252 | without an override and with three or more segments, the year is the last segment, and a two-character one is expanded around the pivot |
| FolderNames.ParseVariant | compare_carfolders.py:254-263 | without an override and with three or more segments, the variant is the segments strictly between the model and the year, joined with spaces and title-cased ("" when none), then mapped through `variant_mappings`; its logo defaults to its text |
| FolderNames.ParseSeesStripped | compare_carfolders.py:219 | the parser's result depends only on the name after the marker is stripped |
| FolderNames.Key | compare_carfolders.py:333-342 | `parse_folder_name(strip_slod_suffix(name).lower())`; no contract of its own: `KeyIgnoresCase`, `KeyIgnoresMarkers` and `RowKeysDiffer` state what it identifies |
| FolderNames.KeyIgnoresCase | compare_carfolders.py:333-342 | names equal up to case get the same key |
| FolderNames.KeyIgnoresMarkers | compare_carfolders.py:333-342 | one or two trailing `_slod` markers do not change the key |
| FolderNames.TitleOfModelCode | compare_carfolders.py:233 | `"gt3rs".title()` is "Gt3Rs": a digit starts a new word |
| FolderNames.NoMarkerAtEnd | compare_carfolders.py:15 | a name whose last character is not `d`, `D` or a newline is left unchanged |
| FolderNames.RaceNumberCase | compare_carfolders.py:236-243 | `ab_12_model_2020` has race number "12", model "Model", year "2020", and, with no segment between model and year, the variant `variant_mappings.get('', '')` with its logo |
| FolderNames.YearPivotLateCase | compare_carfolders.py:247-250 | in 2024, year "25" becomes "1925" |
| FolderNames.CurrentYearIsThisCentury | compare_carfolders.py:247-250 | a last segment equal to the current two-digit year gets "20": the pivot comparison is strict |
| FolderNames.NonNumericYearCase | compare_carfolders.py:249 | `ab_model_gt` is the `int()` error on "gt" |
| Discovery.Record | compare_carfolders.py:340-349 | one step of the loop body for an accepted directory; no contract of its own: `RecordSeen` and `RecordNew` state its two outcomes against the reference description |
| Discovery.ScanBy | compare_carfolders.py:329-351 | the loop as a fold over the listing for a filter and a key function; no contract of its own: `ScanByFails` and `ScanMatchesSeen` state what it computes |
| Discovery.Scan | compare_carfolders.py:329-351 | the loop with the script's filter and key; no contract of its own: `Discover` is proved equal to it, and `ScanFailsIff`, `ScanRecordsEachOnce`, `ScanRecordsOnlyAccepted` and `ScanKeepsDiscoveryOrder` state what it builds |
| Discovery.Discover | compare_carfolders.py:329-351 | the loop computes exactly `Scan`: the same dictionary, key order and path set, or the same error |
| Discovery.ScanErrPersists | compare_carfolders.py:342 | once a parse has raised, the rest of the listing does not change the outcome |
| Discovery.ScanMatchesSeen | compare_carfolders.py:329-351 | the dictionary is the reference description: its paths are the distinct accepted directories; each key's list is those directories with that key, in listing order; keys are ordered by first appearance and each key appears once |
| Discovery.RecordSeen | compare_carfolders.py:348 | recording a pair already present changes nothing |
| Discovery.RecordNew | compare_carfolders.py:345-349 | recording a new pair appends it to its key's list, or opens a list and appends the key |
| Discovery.SeenMembers | compare_carfolders.py:336-340 | a pair is recorded exactly when some listed entry with it passes the filter and is a directory |
| Discovery.SeenOrder | compare_carfolders.py:331 | recorded pairs keep the order of their first listing |
| Discovery.ScanByFails | compare_carfolders.py:342 | the loop fails exactly when some accepted entry's key raises |
| Discovery.ScanIndexed | compare_carfolders.py:345-346 | the key order lists each dictionary key exactly once |
| Discovery.ScanFailsIff | compare_carfolders.py:329-351 | the script's loop stops with an error exactly when some accepted directory's normalised name does not parse |
| Discovery.ScanRecordsEachOnce | compare_carfolders.py:339-349 | every accepted directory is in the list of its own key, in no other list, and in the path set |
| Discovery.ScanGroupsNonEmpty | compare_carfolders.py:345-349 | every list of the dictionary is non-empty and has no repeats |
| Discovery.ScanRecordsOnlyAccepted | compare_carfolders.py:336-349 | every list is non-empty and has no repeats; each member has the list's key, passes the filter and is a listed directory |
| Discovery.ScanKeepsDiscoveryOrder | compare_carfolders.py:345-349 | within a list, the earlier pair was listed first |
| Totals.AssignBadge | compare_carfolders.py:278-285 | "Duplicated in > 2 games" exactly when there are more than two occurrences, "Duplicated" exactly at two, "Unique" exactly at one or none |
| Totals.Tally | compare_carfolders.py:360-378 | the four totals: occurrences over all groups, occurrences in single-occurrence groups, size of all occurrences, size of the single-occurrence groups |
| Totals.UniqueAtMostTotal | compare_carfolders.py:369-377 | `unique_cars` never exceeds `total_cars` |
| Totals.UniqueSizeAtMostAll | compare_carfolders.py:374-378 | the size of the unique cars never exceeds the size of all cars |
| Totals.ScanTotalCars | compare_carfolders.py:340-369 | `total_cars` equals the number of distinct accepted directories, which is the size of `unique_folder_paths` |
| Totals.ScanTotalSize | compare_carfolders.py:371-374 | `total_size_all_cars` is the sum of the sizes of the distinct accepted directories, each counted once |
| Totals.ScanUniqueBadge | compare_carfolders.py:278-285 | a recorded group is badged "Unique" exactly when it has one occurrence, the groups that `unique_cars` counts (line 368) |
| Totals.GroupNameFilters | compare_carfolders.py:336 | `ab_gt3_2020` is already normal and passes the filter |
| Totals.GroupNameParses | compare_carfolders.py:230-252 | `ab_gt3_2020` parses to the manufacturer of "ab", model "Gt3", year "2020" and no race number |
| Totals.SameFolderInTwoGames | compare_carfolders.py:329-349 | one folder name under two games gives a single group of both pairs, in listing order, badged "Duplicated" |
| Report.DetailsFileName | compare_carfolders.py:102 | same name at lines 102 and 179: every space and dot of the name becomes `_`, every other character is kept, then `_`, the game code ("unknown" if absent) and `.html` |
| Report.DetailsFileNamesCollide | compare_carfolders.py:179 | names of one game that differ only in spaces, dots and underscores share a details file |
| Report.Basename | compare_carfolders.py:301 | `os.path.basename`: a suffix of the path without `/`, preceded by `/` unless it is the whole path |
| Report.Stem | compare_carfolders.py:301 | `os.path.splitext(name)[0]`; no contract of its own, `StemOfFile` states it |
| Report.StemOfFile | compare_carfolders.py:301 | `splitext` of `stem.ext` whose stem does not start with a dot gives `stem` |
| Report.GameId | compare_carfolders.py:298-302 | `get_game_id`; no contract of its own, `GameIdOfImage` and `GameIdWithoutImage` state both cases |
| Report.GameIdOfImage | compare_carfolders.py:298-302 | the game id of image `dir/stem.ext` is `stem` |
| Report.GameIdWithoutImage | compare_carfolders.py:300 | a game without an image has the empty id |
| Report.InsertBy | compare_carfolders.py:594 | one insertion step of the sort; no contract of its own: `InsertByPermutes`, `InsertBySorted` and `InsertByKeepsEqualKeys` give the permutation, order and stability that the `SortBy` lemmas build on |
| Report.SortBy | compare_carfolders.py:594 | `sorted(..., key=...)` as an insertion sort; no contract of its own, `SortByPermutes`, `SortBySorted` and `SortByStable` state it |
| Report.SortByPermutes | compare_carfolders.py:594 | the sort returns the keys it is given, each as often |
| Report.SortBySorted | compare_carfolders.py:594 | the sort returns the keys ascending by Python's string order |
| Report.SortByStable | compare_carfolders.py:594 | the sort is stable: keys with one sort key keep their relative order |
| Report.FirstNameKey | compare_carfolders.py:594 | the sort key `x[1][0][1].lower()`: the lower-cased name of a group's first occurrence; no contract of its own, `RowOrderOfScan` and `RowKeysDiffer` are stated with it |
| Report.RowOrder | compare_carfolders.py:594 | the order of the table rows; no contract of its own, `RowOrderOfScan` states it |
| Report.RowOrderOfScan | compare_carfolders.py:594 | the rows list every recorded car exactly once, ascending by the lower-cased name of its first occurrence |
| Report.RowKeysDiffer | compare_carfolders.py:594 | no two cars tie in that order, since names equal up to case have one key |

## Left out

- Case mapping is ASCII only: `lower`, `title`, `isdigit`, `int()` and the
  case-insensitive match work on ASCII letters and digits. Python's Unicode
  rules for other characters are not modelled.
- The contents of the `mappings` module are not part of this model. Its
  tables are the parameter `Tables`.
- `name_to_code_mapping` (line 323) is never used, so it is not modelled.
- The clock is the parameter `currentYY`, taken to be fixed for the whole
  run.
- `os.listdir` and `os.path.isdir` are not modelled. They become the input
  `listing`.
- A game folder that raises `FileNotFoundError` has no entries in `listing`.
  The warning printed for it is left out.
- A path is the pair `(folder_path, original_name)`. Two different pairs
  that `os.path.join` would turn into the same string stay different here.
- Folder sizes are whole bytes. The script adds megabytes as floats.
- The size computation, the caches and the thread pool (lines 18-93) are
  I/O and concurrency. They become the map `sizes`.
- All HTML, JSON and CSV output is left out, as are `print` and
  `format_game_image`.
- The game-filter markup and `generate_and_format_all_occurrences` are left
  out, as is the commented-out `get_cell_color`.
- Line 608 parses the first original name again for display. It is not
  modelled, because it does not affect grouping, totals or order.
- Report.Basename: POSIX paths only. A Windows separator is an ordinary
  character.
- Report.FirstNameKey: the key of an empty group is "". The discovery loop
  never leaves a group empty (`ScanRecordsOnlyAccepted`), so this case
  cannot arise from the loop.
