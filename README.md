# File manager core, modelled in Dafny

This project models the `FileManager` class of `main.py`, a cross-platform
file organiser. It covers the report buffer and the three operations that
work on a directory:

- **bulk rename** replaces a substring in every regular file's name. A
  regular-expression mode is also available.
- **sort** moves every regular file into a folder named after the category
  of its lower-cased extension. A name collision is resolved with a
  `{stem}_{N}{ext}` counter.
- **find duplicates** groups the files of a recursive walk by their MD5
  digest. It keeps the first file of every group and optionally deletes
  the others.

The file system is a class `Fs.FileSystem`. Its fields are a map from path
to bytes (the regular files) and a set of directory paths. The system calls
the source makes are methods of that class. `Move`, `MakeDir` and
`Unlink` take a flag that says whether the system refuses the call;
`IterDir` takes the entries the listing yields and whether it raises after
them; `Size` and `Exists` cannot fail. `Path` is a sequence of components.

The directory listing is an input sequence, because `iterdir()` and
`rglob('*')` have no defined order. The MD5 function and `re.sub` are
function parameters. The files whose hashing fails, the folders that
cannot be created, and the files that cannot be moved, renamed or unlinked
are input sets.

Each operation has two parts:

- a pure specification, written as a fold over the listing (`Rename.RenameAll`,
  `Sorting.SortAll`, `Duplicates.Hashed`/`BucketsOf`/`SweepAll`), together with
  lemmas stating what the source promises about it;
- a method of `FileManagement.FileManager` with the source's loops. Each method
  is proved to leave the file system and `report` exactly as the fold says.

The report is a sequence of structured `Report.Message` values, one
constructor per kind of line the source adds.

The collision name uses `item.suffix.lower()`, the lower-cased extension
(main.py:140, 164): `A.JPG` that collides in `Images` becomes `Images/A_1.jpg`,
while a file that does not collide keeps its name `A.JPG`.

## Model

| member | source | states |
|---|---|---|
| FileManagement.FileManager.constructor | main.py:17-28 | the report starts empty and the category table is the eight insertion-ordered categories, `Others` last with no extensions |
| FileManagement.FileManager.ClearReport | main.py:30-32 | the report is empty afterwards |
| FileManagement.FileManager.AddToReport | main.py:34-37 | the report only grows: the new message is appended after all earlier lines |
| FileManagement.FileManager.BulkRename | main.py:63-116 | the report is cleared and then holds the three header lines; a missing directory adds one error line, stops, and touches no file; otherwise the files end as `Rename.RenameAll` of what `iterdir()` yielded says (nothing when the path is a regular file), and the report holds the per-file lines, the error line when the listing raised (an unreadable folder, or a regular file given as the folder), and the summary with the fold's renamed and error counters; directories never change |
| FileManagement.FileManager.RenameListed | main.py:83-115 | after the existence check: the listing, the rename loop, the error line exactly when `iterdir()` raised, then the summary, with the files as `Rename.RenameAll` says |
| FileManagement.FileManager.RenameEntries | main.py:87-110 | the rename loop over the entries returns the fold's counters and leaves files and report exactly as `Rename.RenameAll` |
| FileManagement.FileManager.RenameEntry | main.py:87-110 | one iteration of the rename loop, with the target looked up as the system does, changes files, counters and report exactly as `Rename.Step` |
| Rename.StepSkips | main.py:96-102 | an unchanged name leaves the whole state alone: no line, no counter change, no file change; a changed name whose target the system finds (a file, a folder, or a folder reached through the name) leaves the files alone, adds one skip line and one error |
| Rename.StepFails | main.py:99-110 | a changed name whose target is not found and cannot be reached (a folder on the way does not exist, or the name holds NUL), or whose rename the system refuses, leaves the files alone and adds one failure line and one error |
| Rename.StepSkipsTo | main.py:96-102 | the full state after a rename whose target is found: same files, same renamed count, errors + 1, one skip line |
| Rename.TargetPlain | main.py:97 | a new name without `/` or NUL, other than `""`, `.` and `..`, is looked up as the sibling of the entry with that name |
| Rename.TargetLexical | main.py:97 | without a `..` component, any target the lookup reaches is exactly pathlib's `item.parent / new_name`, an absolute name starting from the root |
| Rename.StepParentName | main.py:97-102 | a new name `..` names the parent folder, which exists, so the file is skipped as a collision |
| Rename.TargetIntoFolder | main.py:97-99 | a new name `folder/leaf` reaches `leaf` inside the sibling folder `folder` when that folder exists, and no reachable entry otherwise |
| Rename.StepRenames | main.py:97-107 | a step that counts a rename moved the file's bytes to a target entry in a reachable folder where neither a file nor a directory was, the rename was not refused, and the old path is gone |
| Rename.StepRenamesTo | main.py:96-107 | the full state after a rename to a free reachable target: the bytes move to the new path, renamed + 1, one success line |
| Rename.StepUntouched | main.py:88-96 | a step leaves every other file, and a file whose name the substitution keeps, at its path with its bytes |
| Rename.RenameUntouched | main.py:87-96 | a file outside the listing, or whose new name equals its old name, keeps its path and bytes through the whole loop |
| Rename.StepKeepsFileCount | main.py:99-107 | one step never deletes or overwrites a file: the number of files is unchanged |
| Rename.RenameKeepsFileCount | main.py:87-110 | the whole rename keeps the number of regular files |
| Rename.StepTallied | main.py:96-110 | a step adds at most one line, only for a regular file, and keeps both counters equal to the count of their lines |
| Rename.StepOthers | main.py:87-88 | a step does not change whether another existing entry is a regular file |
| Rename.LaterEntriesUnchanged | main.py:87-88 | an entry not yet reached is a regular file exactly when it was one before the loop |
| Rename.RenameCountsPrefix | main.py:83-110 | after any prefix of the listing, the counters match their lines and the lines number at most the regular files seen |
| Rename.RenameCounts | main.py:83-115 | `renamed_count` is the number of success lines, `error_count` is the number of skip and failure lines, and together they are at most the number of regular files listed |
| Rename.FoobarReplace | main.py:94 | `"foobar.txt".replace("foo", "bar")` is `"barbar.txt"` |
| Rename.BarTxtUnchanged | main.py:94 | `"bar.txt"` holds no `"foo"`, so replacing leaves it as it is |
| Rename.FoobarStep | main.py:94-107 | a directory holding only `foobar.txt`, renamed with "foo" to "bar": one step gives `barbar.txt` with the same bytes, one rename, no error |
| Rename.FoobarRenamed | main.py:87-107 | the same example run through the whole rename fold |
| Rename.FoobarCollisionStep | main.py:94-102 | when `barbar.txt` already exists, one step keeps both files unchanged and reports one collision |
| Rename.FoobarCollision | main.py:87-102 | the same collision example run through the whole rename fold |
| Text.ReplaceAbsent | main.py:94 | a non-empty pattern that does not occur leaves the name unchanged, so the entry is passed over |
| Text.ReplaceBySelf | main.py:94 | replacing a pattern by itself gives back the same name |
| Text.ReplaceEmptyPattern | main.py:94 | an empty pattern inserts the replacement before every character and at the end, so the name changes exactly when the replacement is non-empty |
| Text.NatToString | main.py:164 | `str(n)`: at least one decimal digit, a single digit exactly for n < 10, and the last digit is n mod 10 |
| Text.NatToStringInjective | main.py:164 | different counters are rendered as different strings |
| Text.LowerIdempotent | main.py:140 | lower-casing twice is the same as once, and leaves no upper-case ASCII letter |
| Text.StrLessEqTotal | main.py:182 | the string order used by `sorted` compares any two category names |
| Paths.Join | main.py:97 | pathlib's `dir / name`: a name without `/` other than `""` and `.` is appended as the last component, `""` and `.` give the folder itself |
| Paths.ComponentsNoSlash | main.py:97 | a name without `/` is not absolute and is a single component, or none when it is `""` or `.` |
| Paths.SplitNoSlash | main.py:97 | a name without `/` splits into itself |
| Paths.SplitAtSlash | main.py:97 | splitting `a/b` with a slash-free `a` gives `a` followed by the pieces of `b` |
| Paths.ChildIsJoin | main.py:154-157 | an entry directly inside a folder is that folder joined with the entry's own name |
| Paths.LastDot | main.py:140 | the index of a dot in the name, or -1 |
| Paths.LastDotIsLast | main.py:140 | no dot follows the one found, and -1 means there is no dot |
| Paths.SuffixSplit | main.py:140-164 | stem and suffix together give the name back; a non-empty suffix starts with its only dot, has at least one more character, and is never the whole name |
| Categories.FirstMatch | main.py:144-147 | the first table index at or after `from` whose extension list holds the extension; no earlier index does |
| Categories.CategorizeFirstMatch | main.py:141-147 | the category is the first entry, in table order, whose list holds the extension |
| Categories.CategorizeFallback | main.py:141-147 | an extension that no entry lists goes to `Others` |
| Categories.CategorizeRange | main.py:141-147 | the category is `Others` or the name of an entry whose list holds the extension |
| Categories.LookupCategory | main.py:141-147 | the lookup loop with its `break` returns exactly that first-match-or-`Others` category |
| Sorting.CandidateInjective | main.py:164-165 | two different counters give two different collision names |
| Sorting.CandidateSetSize | main.py:163-166 | the first n collision names are n distinct paths |
| Sorting.CandidatesTakenBound | main.py:163-166 | if the first n collision names all exist, the file system holds at least n entries, so the counter loop ends |
| Sorting.FreeFrom | main.py:163-166 | a search from counter k returns the first free counter below the bound, and every counter it passes is taken |
| Sorting.FreeCounter | main.py:160-166 | the counter the loop settles on is at least 1 and its name is free |
| Sorting.FreeCounterLeast | main.py:160-166 | every smaller counter from 1 names a taken path, so the chosen counter is the smallest free one |
| Sorting.FreeWithinBound | main.py:163-166 | searching up to one more than the number of existing paths always ends on a free name |
| Sorting.DestinationFree | main.py:157-166 | the destination is the entry itself or a path where no file or directory exists, so a move never overwrites |
| Sorting.ResolveCollision | main.py:157-166 | the `while destination.exists()` loop returns exactly `Destination`: the plain name, or the smallest free `{stem}_{N}{ext}` |
| Sorting.Bump | main.py:172 | `moved_files[category] += 1` adds one to the total, adds the category to the tallied names, and keeps categories distinct |
| Sorting.BumpCounts | main.py:172 | after `moved_files[category] += 1` the count of that category is one more and the count of every other category is unchanged |
| Sorting.BumpPositive | main.py:172 | every tallied category keeps a count of at least one |
| Sorting.CountOfMember | main.py:172 | in a tally with distinct categories, the count of a tallied category is its entry's count |
| Sorting.CountOfAbsent | main.py:172 | a category the tally does not hold has count zero |
| Sorting.CountOfPositive | main.py:172 | a category with a non-zero count has an entry in the tally |
| Sorting.InsertSorted | main.py:182 | inserting into a name-sorted tally list keeps it sorted and adds one element |
| Sorting.InsertTotal | main.py:182 | inserting adds the new count to the total |
| Sorting.InsertContents | main.py:182 | inserting adds exactly the new tally to the multiset |
| Sorting.SortByNameProperties | main.py:182 | `sorted(moved_files.items())` is ordered by name, is a permutation of the tallies, and has the same total |
| Sorting.SummaryLines | main.py:181-184 | the summary has one line per tallied category, in name order, categories distinct, each with that category's count, and a line for every category with a non-zero count |
| Sorting.PlaceTallied | main.py:168-175 | a move decision counts at most one file and keeps the tally equal to the moved lines and the errors equal to the failure lines |
| Sorting.StepTallied | main.py:138-175 | one entry counts at most one file, and only if it is a regular file |
| Sorting.PlaceFrame | main.py:168-172 | a move to a free path keeps the number of files and changes no other file |
| Sorting.StepFrame | main.py:138-175 | one entry keeps the number of files, keeps every directory, and changes no other file |
| Sorting.LaterEntriesUnchanged | main.py:138-139 | an entry not yet reached is still a regular file exactly when it was one at the start |
| Sorting.SortCountsPrefix | main.py:134-175 | after any prefix of the listing, the tally and errors match their lines and together are at most the regular files seen |
| Sorting.SortCounts | main.py:134-186 | `total_moved` is the number of moved lines, `error_count` is the number of failure lines, their sum is at most the number of regular files listed, categories are tallied once each and with at least one file, and each category's count is the number of lines moving a file into it |
| Sorting.PlaceTalliedTo | main.py:168-172 | a move decision keeps each category's count equal to the number of moves into it reported so far |
| Sorting.StepTalliedTo | main.py:138-175 | one entry keeps each category's count equal to the number of moves into it reported so far |
| Sorting.SortCountsTo | main.py:134-175 | after the whole traversal, each category's count is the number of moves into it the report lists |
| Sorting.SortSummary | main.py:180-184 | the category lines after a sort are in name order with distinct names, each gives the number of moves into its category that the report lists (at least one), and every category that received a file has its line |
| Sorting.SortFrame | main.py:138-175 | the sort keeps the number of files, keeps every directory, and leaves files outside the listing untouched |
| Sorting.SortInPlace | main.py:153-169 | without category folders every destination is the entry itself, so nothing moves, nothing is counted and no line is added |
| Sorting.StepMoves | main.py:149-172 | with folders, a move that is not refused puts the bytes in the category folder under the plain name or the smallest free collision name, removes the old path, and tallies and reports the move |
| Sorting.CategoryNameProper | main.py:151 | with a table of proper names, the category is always a proper folder name |
| Sorting.SortStopsWhenInterrupted | main.py:137-178 | once `mkdir` has raised, the remaining entries change nothing |
| FileManagement.FileManager.SortFiles | main.py:118-187 | the report is cleared and gets the header; a missing directory adds one error line and touches nothing; otherwise files and directories end as `Sorting.SortAll` of what `iterdir()` yielded says (nothing for a regular file), and the report is the per-file lines, one error line when `mkdir` or the listing raised, then the name-ordered summary |
| FileManagement.FileManager.SortEntries | main.py:134-178 | the traversal loop, interrupted by a refused `mkdir`, ends in exactly the `SortAll` state and says whether it was interrupted |
| FileManagement.FileManager.SortEntry | main.py:139-175 | one iteration: category lookup, folder creation, collision resolution and the move decision, exactly as `Sorting.Step` |
| FileManagement.FileManager.AddSortSummary | main.py:180-186 | the summary lines are the header, one count line per category in name order, and the total equal to the sum of all tallies |
| FileManagement.FileManager.AddCountLines | main.py:181-184 | the loop adds one count line per tally and its sum is the total of the counts |
| Fs.ListingEntries | main.py:87 | a listing names only existing entries, each once |
| Fs.FileCount | main.py:88 | the number of regular files in a listing is at most its length |
| Fs.FileSystem.Size | main.py:244 | `stat().st_size` is the byte count of the file |
| Fs.FileSystem.Move | main.py:105 | a move that succeeds puts the source's bytes at the destination and removes the source; a refused move changes nothing |
| Fs.FileSystem.MakeDir | main.py:152 | `mkdir(exist_ok=True)` succeeds on an existing folder, fails when a file is in the way or the system refuses, and otherwise adds the folder |
| Fs.FileSystem.Unlink | main.py:254 | `unlink` removes exactly that file, and fails when the file is gone or the system refuses |
| Fs.FileSystem.IterDir | main.py:87 | `iterdir()` on a regular file raises before any entry; on a folder it yields the given entries and raises after them exactly when the listing fails |
| Fs.WalkLexical | main.py:99 | without `..`, a lookup that gets through ends exactly at the path the components spell out, and only a name with no components stops at a folder |
| Duplicates.HashedSpec | main.py:213-218 | the scan pairs exactly the readable regular files of the walk with the digest of their bytes, each once; a file whose hash fails is not scanned |
| Duplicates.BucketsOfSelect | main.py:207-217 | `hash_map` has a bucket for a digest exactly when some scanned file has it, and that bucket is the files with that digest in traversal order |
| Duplicates.SelectSound | main.py:217 | every file in a bucket was scanned with that bucket's digest |
| Duplicates.SelectComplete | main.py:217 | every scanned file is in the bucket of its digest |
| Duplicates.SelectDistinct | main.py:217 | a bucket holds no file twice and two buckets share no file, so each scanned file is in exactly one bucket |
| Duplicates.DupDigests | main.py:229-232 | the digests whose bucket holds more than one file, each once, in bucket order |
| Duplicates.DuplicateGroups | main.py:229-232 | `duplicates_found` has one group per such digest, that digest's bucket, with at least two files |
| Duplicates.DuplicateGroupsSelect | main.py:229-232 | the groups are the buckets of exactly the digests shared by two or more scanned files |
| Duplicates.NoGroupsIff | main.py:229-237 | no group is found exactly when no digest is shared by two scanned files |
| Duplicates.DuplicateGroupsSpec | main.py:213-232 | every group member is a readable file of the walk whose bytes have the group's digest, and no file appears in two groups or twice in one |
| Duplicates.FlattenDistinct | main.py:229-232 | buckets of distinct digests laid end to end hold no file twice |
| Duplicates.GroupsReady | main.py:229-244 | the groups are non-empty, share no file, and every group's first file exists |
| Duplicates.DuplicateCountFlatten | main.py:263 | `total_duplicates` is the number of grouped files minus one per group, and at least the number of groups |
| Duplicates.RemovableWithin | main.py:252-259 | the removed members of a group are members that existed and whose unlink is not refused |
| Duplicates.RemovableFrame | main.py:252-259 | which members are removable depends only on those members' presence, not on other files |
| Duplicates.RemovableBound | main.py:252-259 | no more members are removed than the group has after its first |
| Duplicates.RemovableAll | main.py:252-259 | when every member exists and none is refused, all of them are removed |
| Duplicates.VisitAllRemoves | main.py:248-261 | with removal on, the loop over a group deletes exactly its removable members, adds their number to `removed_count`, and adds the first file's size for each to `space_freed` |
| Duplicates.VisitAllFiles | main.py:248-259 | the group loop's files are the old files minus the removable members |
| Duplicates.VisitAllCounters | main.py:248-259 | the group loop's counters grow by the number of removable members and by size times that number |
| Duplicates.VisitAllReports | main.py:260-261 | with removal off, the loop changes no file and no counter |
| Duplicates.VisitAllVerdicts | main.py:248-261 | the number of verdict lines grows by one per member after the first |
| Duplicates.VisitAllLines | main.py:248-261 | the verdict lines the group loop adds are, in order, one per member after the first: DUPLICATE when removal is off, REMOVED when the file is there and the unlink succeeds, ERROR otherwise |
| Duplicates.SweepGroupLines | main.py:243-261 | one group adds KEEP for its first file followed by the verdicts on its other members |
| Duplicates.RemovedByWithin | main.py:252-259 | only grouped files that existed and were not refused are removed |
| Duplicates.HeadsKept | main.py:247-250 | the first file of a group is never removed |
| Duplicates.HeadPresent | main.py:244-250 | each group's first file is still present, with its bytes, when its group is reached and after the whole pass |
| Duplicates.SweepAllRemoves | main.py:243-261 | with removal on, the pass deletes exactly the removable non-first members, counts them, and frees per group the first file's size for each |
| Duplicates.SweepAllReports | main.py:243-261 | with removal off, the pass changes no file and no counter |
| Duplicates.SweepAllVerdicts | main.py:243-261 | the number of verdict lines grows by the number of grouped files |
| Duplicates.HeadsSpec | main.py:247-250 | the heads are one per group, the first file of each |
| Duplicates.HeadsInFlatten | main.py:247-250 | every head is a grouped file |
| Duplicates.VerdictsForSnoc | main.py:243-261 | the reference verdicts of one more group are those of the earlier groups, KEEP for its first file, and the verdicts on its other members |
| Duplicates.SweepAllOutside | main.py:243-261 | a file outside the groups is present after the pass exactly when it was before |
| Duplicates.GroupUntouched | main.py:243-261 | the files of a later group are present after the earlier groups' pass exactly when they were before |
| Duplicates.SweepAllLines | main.py:243-261 | the verdict lines of the pass are exactly the reference verdicts: one per grouped file in group order, KEEP for a group's first file, DUPLICATE, REMOVED or ERROR for the others |
| Duplicates.SweepAllLinesStep | main.py:243-261 | one more group extends the pass's verdict lines by that group's reference verdicts |
| Duplicates.RemovedBound | main.py:240-263 | `removed_count` is at most `total_duplicates`, and `space_freed` is at most the bytes the duplicates take |
| Duplicates.AllRemoved | main.py:252-263 | when every grouped file exists and no unlink fails, every non-first member is removed, so `removed_count` equals `total_duplicates` and the bytes freed equal the bytes the duplicates take |
| Duplicates.OneSurvivor | main.py:247-259 | when every grouped file exists and no unlink fails, exactly one file of each group survives: its first |
| Duplicates.SurvivorsDiffer | main.py:247-259 | when all grouped files exist and no unlink fails, no two files of a group both survive the pass |
| Duplicates.GroupOf | main.py:217-232 | two different scanned files with the same digest are two members of one reported group |
| Duplicates.SharedDigest | main.py:217-232 | a bucket of two or more files holds two different readable files of the walk with that digest |
| Duplicates.GroupKeepsOne | main.py:207-259 | of two files of the walk with the same digest, removal without failures leaves at most one |
| Duplicates.SecondRunFindsNothing | main.py:189-259 | scanning again, over a walk of what is left, after a removal in which no unlink failed finds no duplicate groups |
| Duplicates.ScanHashes | main.py:207-218 | the `rglob` loop builds exactly the buckets of the hashed files, well formed, and `scanned_count` is their number |
| Duplicates.SelectDuplicates | main.py:229-232 | the selecting loop returns exactly `DuplicateGroups` |
| FileManagement.OutcomeCount | main.py:234-270 | of the lines after the scan, only the group lines classify files; with no group there are none |
| FileManagement.OutcomeVerdicts | main.py:234-261 | after the scan, the number of verdict lines is the number of grouped files; with no group there are none |
| FileManagement.OutcomeVerdictLines | main.py:234-261 | the verdict lines after the scan name exactly the grouped files, in group order, one each: KEEP exactly for the first file of each group; with removal off every other file is DUPLICATE, with removal on REMOVED when present and its unlink succeeds and ERROR otherwise |
| FileManagement.OutcomeVerdictsAre | main.py:234-261 | the verdict lines after the scan are the reference verdicts of the groups |
| FileManagement.OutcomeLines | main.py:234-270 | of the lines after the scan only the group lines carry verdicts; with no group there are none |
| FileManagement.SummaryNoVerdicts | main.py:264-270 | the summary lines classify no file |
| FileManagement.FileManager.FindDuplicates | main.py:189-272 | the report is cleared and gets the header; a missing directory adds one error line and touches nothing; otherwise the scan is followed by "no duplicates" or by the group lines, the summary, and the removal counters only when removing; the files end as the pass says |
| FileManagement.FileManager.ReportDuplicates | main.py:234-272 | no group gives the single line and no change; otherwise the pass, then the group count, `total_duplicates`, and the counters when removing |
| FileManagement.FileManager.ReportGroups | main.py:240-261 | the loop over the groups ends with files, `removed_count`, `space_freed` and lines exactly as `SweepAll` |
| FileManagement.FileManager.ReportGroup | main.py:243-261 | one group: the header with the first file's size, KEEP for the first file, then DUPLICATE or an unlink that is reported and counted, as `SweepGroup` |

## Left out

- The graphical front end (`file_manager_gui.py`) and the interactive menu of `main.py` (lines 275 on): they only read input and call the operations.
- Console output: the echo in `add_to_report`, `print_report`, the hash error message (main.py:60), the progress line every 50 files and the blank `print()` (main.py:219-220, 225). None of them changes the report or the files.
- Message texts: report lines are structured values. Exception texts, the `{n:,}` grouping and the megabyte figure (floating point, main.py:270) are not rendered.
- MD5 and the chunked read (main.py:48-58): the digest is the function parameter `md5`, and a failing read is membership of the file in `unreadable`.
- Regular-expression mode (main.py:92): `re.sub` is the uninterpreted parameter `regexSub`, so no property of regex renames is stated.
- The broad `except Exception` around the rename and sort traversals (main.py:112-113, 177-178) is modelled for the faults the model knows: `iterdir()` raising, at once on a regular file or after some entries on a folder it cannot read (`Fs.FileSystem.IterDir`), and `mkdir` raising because a regular file takes the category folder's name or the system refuses it. Each gives the one error line (`RenameInterrupted`, `SortInterrupted`) followed by the summary of what was done. Other exceptions out of the loop body, such as those of a file system changed by others during the walk, are not modelled.
- The broad `except Exception` of the duplicate scan (main.py:222-223): `rglob` passes over folders it cannot read, and hashing catches its own errors (main.py:59-61), so only a file system changed by others during the walk reaches it. It is not modelled.
- The listings of `iterdir()` and `rglob('*')` are a snapshot given as input, with no link to the directory's real contents beyond what each lemma requires (`Fs.Listing`, or children of the directory). Later changes by other processes are not modelled.
- Text.Lower: only ASCII letters are mapped; Unicode case mapping of extensions is not modelled.
- Paths.Suffix and Paths.Stem: the pathlib rule for one final dot that is neither the first nor the last character is modelled; they are applied to an entry's own name, which never contains `/`.
- Rename.Step: a new name longer than the system's limit makes `exists()` raise out of the loop into the outer handler (main.py:112-113); the model has no length limit, so such a rename is a free or taken target like any other. The other `exists()` errors pathlib does not ignore are left out for the same reason.
- FileManagement.FileManager.BulkRename and SortFiles: the methods accept any listing. The counter bounds relative to the number of files are stated in `Rename.RenameCounts` and `Sorting.SortCounts`, which require the listing to name each entry once.
- FileManagement.FileManager.FindDuplicates: requires the walk to list each path once, which `rglob` guarantees.
- Fs.FileSystem.Move: requires a free destination. Rename checks `exists()` first, and sort only moves to a free place, so the overwriting behaviour of `rename`/`shutil.move` is never reached.
