/** The `FileManager` object: its report buffer and its three operations,
    each proved to leave the file system and the report exactly as the
    specification folds in `Rename`, `Sorting` and `Duplicates` say. */
module FileManagement {
  import opened Paths
  import opened Fs
  import opened Report
  import opened Text
  import opened Categories
  import Rename
  import Sorting
  import Duplicates

  /** The report lines after the scan: the groups and their verdicts, then
      the summary, or the line saying there are no duplicates. */
  function DuplicatesOutcome(remove: bool, dups: seq<seq<Path>>, s: Duplicates.Sweep): seq<Message> {
    if dups == [] then [NoDuplicates]
    else
      s.lines + [SummaryHeader, GroupsFound(|dups|), TotalDuplicates(Duplicates.DuplicateCount(dups))]
      + (if remove then [FilesRemoved(s.removed), SpaceFreed(s.freed)] else [])
  }

  /** Every grouped file gets exactly one KEEP, REMOVED, ERROR or
      DUPLICATE line, and there is no such line when nothing is grouped. */
  lemma OutcomeVerdicts(files: map<Path, Content>, dups: seq<seq<Path>>, remove: bool, faults: set<Path>)
    requires Duplicates.NonEmptyGroups(dups)
    ensures var s := Duplicates.SweepAll(Duplicates.Sweep(files, 0, 0, []), dups, remove, faults);
      Count(DuplicatesOutcome(remove, dups, s), IsVerdict) == |Duplicates.Flatten(dups)|
  {
    var st0 := Duplicates.Sweep(files, 0, 0, []);
    var s := Duplicates.SweepAll(st0, dups, remove, faults);
    OutcomeCount(remove, dups, s);
    if dups != [] {
      Duplicates.SweepAllVerdicts(st0, dups, remove, faults);
      assert Count(st0.lines, IsVerdict) == 0;
    }
  }

  /** The verdict lines of the outcome name the grouped files in group
      order, one line each: KEEP exactly for the first file of each group;
      with removal off every other file is listed as a duplicate, with
      removal on it is REMOVED when present and its unlink succeeds and an
      ERROR otherwise. */
  lemma OutcomeVerdictLines(files: map<Path, Content>, dups: seq<seq<Path>>, remove: bool, faults: set<Path>)
    requires Duplicates.NonEmptyGroups(dups) && Distinct(Duplicates.Flatten(dups))
    ensures var s := Duplicates.SweepAll(Duplicates.Sweep(files, 0, 0, []), dups, remove, faults);
      var v := Verdicts(DuplicatesOutcome(remove, dups, s));
      var all := Duplicates.Flatten(dups);
      && v == Duplicates.VerdictsFor(files, dups, remove, faults)
      && |v| == |all|
      && (forall i | 0 <= i < |v| :: v[i].path == all[i] && (v[i].Keep? <==> all[i] in Duplicates.Heads(dups)))
      && (forall i | 0 <= i < |v| :: !remove && !v[i].Keep? ==> v[i] == Duplicate(all[i]))
      && (forall i | 0 <= i < |v| :: remove && !v[i].Keep? ==>
            v[i] == if all[i] in files && all[i] !in faults then Removed(all[i]) else RemoveFailed(all[i]))
  {
    OutcomeVerdictsAre(files, dups, remove, faults);
  }

  lemma OutcomeVerdictsAre(files: map<Path, Content>, dups: seq<seq<Path>>, remove: bool, faults: set<Path>)
    requires Duplicates.NonEmptyGroups(dups) && Distinct(Duplicates.Flatten(dups))
    ensures var s := Duplicates.SweepAll(Duplicates.Sweep(files, 0, 0, []), dups, remove, faults);
      Verdicts(DuplicatesOutcome(remove, dups, s)) == Duplicates.VerdictsFor(files, dups, remove, faults)
  {
    var st0 := Duplicates.Sweep(files, 0, 0, []);
    var s := Duplicates.SweepAll(st0, dups, remove, faults);
    OutcomeLines(remove, dups, s);
    if dups == [] {
      assert Duplicates.Flatten(dups) == [];
    } else {
      Duplicates.SweepAllLines(st0, dups, remove, faults);
      assert Verdicts(st0.lines) == [];
    }
  }

  /** Only the group lines of the outcome carry verdicts. */
  lemma OutcomeLines(remove: bool, dups: seq<seq<Path>>, s: Duplicates.Sweep)
    ensures Verdicts(DuplicatesOutcome(remove, dups, s)) == if dups == [] then [] else Verdicts(s.lines)
  {
    if dups == [] {
      VerdictsNone([NoDuplicates]);
    } else {
      var counters := if remove then [FilesRemoved(s.removed), SpaceFreed(s.freed)] else [];
      var tail := [SummaryHeader, GroupsFound(|dups|), TotalDuplicates(Duplicates.DuplicateCount(dups))] + counters;
      assert DuplicatesOutcome(remove, dups, s) == s.lines + tail;
      VerdictsAppend(s.lines, tail);
      VerdictsNone(tail);
    }
  }

  /** Only the group lines of the outcome classify files. */
  lemma OutcomeCount(remove: bool, dups: seq<seq<Path>>, s: Duplicates.Sweep)
    ensures Count(DuplicatesOutcome(remove, dups, s), IsVerdict) == if dups == [] then 0 else Count(s.lines, IsVerdict)
  {
    if dups == [] {
      CountZero([NoDuplicates], IsVerdict);
    } else {
      var counters := if remove then [FilesRemoved(s.removed), SpaceFreed(s.freed)] else [];
      var tail := [SummaryHeader, GroupsFound(|dups|), TotalDuplicates(Duplicates.DuplicateCount(dups))] + counters;
      SummaryNoVerdicts(|dups|, Duplicates.DuplicateCount(dups), counters);
      assert DuplicatesOutcome(remove, dups, s) == s.lines + tail;
      CountAppend(s.lines, tail, IsVerdict);
    }
  }

  /** The summary lines classify no file. */
  lemma SummaryNoVerdicts(groups: nat, total: nat, counters: seq<Message>)
    requires forall i :: 0 <= i < |counters| ==> !IsVerdict(counters[i])
    ensures Count([SummaryHeader, GroupsFound(groups), TotalDuplicates(total)] + counters, IsVerdict) == 0
  {
    var head := [SummaryHeader, GroupsFound(groups), TotalDuplicates(total)];
    assert forall i :: 0 <= i < |head| ==> !IsVerdict(head[i]);
    CountZero(head, IsVerdict);
    CountZero(counters, IsVerdict);
    CountAppend(head, counters, IsVerdict);
  }

  class FileManager {
    /** The lines of the last operation. */
    var report: seq<Message>
    /** The category table, in insertion order. */
    const categories: Table

    constructor ()
      ensures report == [] && categories == DefaultTable
    {
      report := [];
      categories := DefaultTable;
    }

    /** `clear_report`. */
    method ClearReport()
      modifies this
      ensures report == []
    {
      report := [];
    }

    /** `add_to_report`; the echo to the console is not modelled. */
    method AddToReport(m: Message)
      modifies this
      ensures report == old(report) + [m]
    {
      report := report + [m];
    }

    /** `bulk_rename`, literal or regular-expression mode, over the entries
        `listing` that `iterdir()` yields for `dir`, in its order; when
        `listFails`, the traversal raises after them. `faults` are the
        files the system refuses to rename. */
    method BulkRename(fs: FileSystem, dir: Path, pattern: string, replacement: string, useRegex: bool,
                      regexSub: string -> string, listing: seq<Path>, listFails: bool, faults: set<Path>)
      modifies this, fs
      ensures fs.dirs == old(fs.dirs)
      ensures !old(fs.Exists(dir)) ==>
        && fs.files == old(fs.files)
        && report == [RenameStarted(dir), RenamePattern(pattern, replacement), RegexMode(useRegex), DirectoryMissing(dir)]
      ensures old(fs.Exists(dir)) ==>
        var entries := if dir in old(fs.files) then [] else listing;
        var r := Rename.RenameAll(Rename.Start(old(fs.files)), old(fs.dirs),
                                  Rename.Substitution(pattern, replacement, useRegex, regexSub), faults, entries);
        && fs.files == r.files
        && report == [RenameStarted(dir), RenamePattern(pattern, replacement), RegexMode(useRegex)]
                     + r.lines + (if dir in old(fs.files) || listFails then [RenameInterrupted] else [])
                     + [RenameSummary(r.renamed, r.errors)]
    {
      ClearReport();
      AddToReport(RenameStarted(dir));
      AddToReport(RenamePattern(pattern, replacement));
      AddToReport(RegexMode(useRegex));
      if !fs.Exists(dir) {
        AddToReport(DirectoryMissing(dir));
        return;
      }
      RenameListed(fs, dir, pattern, replacement, useRegex, regexSub, listing, listFails, faults);
    }

    /** The part of `bulk_rename` after the existence check. */
    method RenameListed(fs: FileSystem, dir: Path, pattern: string, replacement: string, useRegex: bool,
                        regexSub: string -> string, listing: seq<Path>, listFails: bool, faults: set<Path>)
      modifies this, fs
      ensures fs.dirs == old(fs.dirs)
      ensures var entries := if dir in old(fs.files) then [] else listing;
        var r := Rename.RenameAll(Rename.Start(old(fs.files)), old(fs.dirs),
                                  Rename.Substitution(pattern, replacement, useRegex, regexSub), faults, entries);
        && fs.files == r.files
        && report == old(report) + r.lines + (if dir in old(fs.files) || listFails then [RenameInterrupted] else [])
                     + [RenameSummary(r.renamed, r.errors)]
    {
      var entries, raised := fs.IterDir(dir, listing, listFails);
      var renamed, errors := RenameEntries(fs, entries, pattern, replacement, useRegex, regexSub, faults);
      if raised {
        AddToReport(RenameInterrupted);
      }
      AddToReport(RenameSummary(renamed, errors));
    }

    /** The rename loop: every entry in listing order; returns the
        `renamed` and `errors` counters. */
    method RenameEntries(fs: FileSystem, entries: seq<Path>, pattern: string, replacement: string, useRegex: bool,
                         regexSub: string -> string, faults: set<Path>)
      returns (renamed: nat, errors: nat)
      modifies this, fs
      ensures var r := Rename.RenameAll(Rename.Start(old(fs.files)), old(fs.dirs),
                                        Rename.Substitution(pattern, replacement, useRegex, regexSub), faults, entries);
        && fs.files == r.files && fs.dirs == old(fs.dirs)
        && renamed == r.renamed && errors == r.errors && report == old(report) + r.lines
    {
      ghost var sub := Rename.Substitution(pattern, replacement, useRegex, regexSub);
      ghost var header := report;
      ghost var start := Rename.Start(fs.files);
      ghost var dirs := fs.dirs;
      renamed, errors := 0, 0;
      for i := 0 to |entries|
        invariant fs.dirs == dirs
        invariant var r := Rename.RenameAll(start, dirs, sub, faults, entries[..i]);
          fs.files == r.files && renamed == r.renamed && errors == r.errors && report == header + r.lines
      {
        assert entries[..i + 1][..i] == entries[..i];
        renamed, errors := RenameEntry(fs, entries[i], pattern, replacement, useRegex, regexSub, faults, renamed, errors,
                                       header, Rename.RenameAll(start, dirs, sub, faults, entries[..i]));
      }
      assert entries[..|entries|] == entries;
    }
  
    /** The body of the rename loop for one entry: a regular file whose new
        name differs is renamed unless the target exists, cannot be reached
        or the system refuses; the counters and the report follow
        `Rename.Step`. */
    method RenameEntry(fs: FileSystem, item: Path, pattern: string, replacement: string, useRegex: bool,
                       regexSub: string -> string, faults: set<Path>, renamed: nat, errors: nat,
                       ghost header: seq<Message>, ghost pre: Rename.State)
      returns (renamed': nat, errors': nat)
      requires fs.files == pre.files && renamed == pre.renamed && errors == pre.errors && report == header + pre.lines
      modifies this, fs
      ensures var post := Rename.Step(pre, old(fs.dirs), Rename.Substitution(pattern, replacement, useRegex, regexSub), faults, item);
        && fs.files == post.files && fs.dirs == old(fs.dirs)
        && renamed' == post.renamed && errors' == post.errors && report == header + post.lines
    {
      renamed', errors' := renamed, errors;
      if item in fs.files {
        var oldName := Name(item);
        var newName := if useRegex then regexSub(oldName) else Replace(oldName, pattern, replacement);
        if newName != oldName {
          var newPath := Rename.Target(fs.dirs, item, newName);
          if fs.ExistsAt(newPath) {
            AddToReport(SkippedTargetExists(oldName));
            assert report == header + (pre.lines + [SkippedTargetExists(oldName)]);
            errors' := errors' + 1;
          } else if newPath.Unreachable? {
            AddToReport(RenameFailed(oldName));
            assert report == header + (pre.lines + [RenameFailed(oldName)]);
            errors' := errors' + 1;
          } else {
            var ok := fs.Move(item, newPath.path, item in faults);
            if ok {
              AddToReport(Renamed(oldName, newName));
              assert report == header + (pre.lines + [Renamed(oldName, newName)]);
              renamed' := renamed' + 1;
            } else {
              AddToReport(RenameFailed(oldName));
              assert report == header + (pre.lines + [RenameFailed(oldName)]);
              errors' := errors' + 1;
            }
          }
        }
      }
    }
  
    /** `sort_files` over the entries `listing` that `iterdir()` yields for
        `dir`, in its order; when `listFails`, the traversal raises after
        them. `faults` are the folders the system refuses to create and the
        files it refuses to move. */
    method SortFiles(fs: FileSystem, dir: Path, createSubdirs: bool, listing: seq<Path>, listFails: bool,
                     faults: Sorting.Faults)
      modifies this, fs
      ensures !old(fs.Exists(dir)) ==>
        fs.files == old(fs.files) && fs.dirs == old(fs.dirs) && report == [SortStarted(dir), DirectoryMissing(dir)]
      ensures old(fs.Exists(dir)) ==>
        var entries := if dir in old(fs.files) then [] else listing;
        var r := Sorting.SortAll(Sorting.Start(old(fs.files), old(fs.dirs)), dir, categories, createSubdirs, faults, entries);
        fs.files == r.files && fs.dirs == r.dirs
      ensures old(fs.Exists(dir)) ==>
        var entries := if dir in old(fs.files) then [] else listing;
        var r := Sorting.SortAll(Sorting.Start(old(fs.files), old(fs.dirs)), dir, categories, createSubdirs, faults, entries);
        report == [SortStarted(dir)] + r.lines
                  + (if (dir in old(fs.files) || listFails) && !r.interrupted then [SortInterrupted] else [])
                  + Sorting.Summary(r.moved, r.errors)
    {
      ClearReport();
      AddToReport(SortStarted(dir));
      if !fs.Exists(dir) {
        AddToReport(DirectoryMissing(dir));
        return;
      }
      ghost var start := Sorting.Start(fs.files, fs.dirs);
      var entries, raised := fs.IterDir(dir, listing, listFails);
      ghost var r := Sorting.SortAll(start, dir, categories, createSubdirs, faults, entries);
      var moved, errors, interrupted := SortEntries(fs, dir, createSubdirs, entries, faults);
      assert report == [SortStarted(dir)] + r.lines;
      if raised && !interrupted {
        AddToReport(SortInterrupted);
      }
      ghost var body := report;
      assert body == [SortStarted(dir)] + r.lines + (if raised && !r.interrupted then [SortInterrupted] else []);
      AddSortSummary(moved, errors);
      assert report == body + Sorting.Summary(r.moved, r.errors);
    }

    /** The traversal of the sort: every entry in listing order until a
        folder cannot be created; returns `moved_files`, `error_count` and
        whether the traversal was cut short. */
    method SortEntries(fs: FileSystem, dir: Path, createSubdirs: bool, listing: seq<Path>, faults: Sorting.Faults)
      returns (moved: seq<Sorting.Tally>, errors: nat, interrupted: bool)
      modifies this, fs
      ensures var r := Sorting.SortAll(Sorting.Start(old(fs.files), old(fs.dirs)), dir, categories, createSubdirs, faults, listing);
        && fs.files == r.files && fs.dirs == r.dirs && moved == r.moved && errors == r.errors
        && interrupted == r.interrupted && report == old(report) + r.lines
    {
      ghost var header := report;
      ghost var start := Sorting.Start(fs.files, fs.dirs);
      interrupted := false;
      moved, errors := [], 0;
      var i := 0;
      while i < |listing| && !interrupted
        invariant 0 <= i <= |listing|
        invariant var r := Sorting.SortAll(start, dir, categories, createSubdirs, faults, listing[..i]);
          && fs.files == r.files && fs.dirs == r.dirs && moved == r.moved && errors == r.errors
          && interrupted == r.interrupted && report == header + r.lines
      {
        ghost var pre := Sorting.SortAll(start, dir, categories, createSubdirs, faults, listing[..i]);
        assert listing[..i + 1][..i] == listing[..i];
        moved, errors, interrupted := SortEntry(fs, dir, createSubdirs, listing[i], faults, moved, errors, header, pre);
        i := i + 1;
      }
      if interrupted {
        Sorting.SortStopsWhenInterrupted(start, dir, categories, createSubdirs, faults, listing, i);
      } else {
        assert listing[..i] == listing;
      }
    }

    /** The summary after the sort loop: a line per category in name
        order while `total_moved` sums the counts, then the totals. */
    method AddSortSummary(moved: seq<Sorting.Tally>, errors: nat)
      modifies this
      ensures report == old(report) + Sorting.Summary(moved, errors)
    {
      ghost var start := report;
      AddToReport(CategorySummary);
      var sorted := Sorting.SortByName(moved);
      var totalMoved := AddCountLines(sorted);
      assert totalMoved == Sorting.Total(moved) by {
        Sorting.SortByNameProperties(moved);
      }
      AddToReport(SortTotal(totalMoved, errors));
      assert report == start + Sorting.Summary(moved, errors) by {
        AppendThree(start, [CategorySummary], Sorting.CountLines(sorted), [SortTotal(totalMoved, errors)]);
      }
    }

    /** One `Category: N files` line per tally, in the given order, adding
        up the counts on the way. */
    method AddCountLines(sorted: seq<Sorting.Tally>) returns (totalMoved: nat)
      modifies this
      ensures report == old(report) + Sorting.CountLines(sorted)
      ensures totalMoved == Sorting.Total(sorted)
    {
      totalMoved := 0;
      for j := 0 to |sorted|
        invariant totalMoved + Sorting.Total(sorted[j..]) == Sorting.Total(sorted)
        invariant report == old(report) + Sorting.CountLines(sorted[..j])
      {
        Sorting.TotalFrom(sorted, j);
        Sorting.CountLinesSnoc(sorted, j);
        AddToReport(CategoryCount(sorted[j].category, sorted[j].count));
        totalMoved := totalMoved + sorted[j].count;
      }
      assert sorted[..|sorted|] == sorted;
      assert sorted[|sorted|..] == [];
    }

    /** The body of the sort loop for one entry: look up the category,
        create its folder when asked to (a refusal ends the traversal),
        resolve a name collision, and move the file unless it is already in
        place; the tally and the report follow `Sorting.Step`. */
    method SortEntry(fs: FileSystem, dir: Path, createSubdirs: bool, item: Path, faults: Sorting.Faults,
                     moved: seq<Sorting.Tally>, errors: nat, ghost header: seq<Message>, ghost pre: Sorting.State)
      returns (moved': seq<Sorting.Tally>, errors': nat, interrupted: bool)
      requires fs.files == pre.files && fs.dirs == pre.dirs && moved == pre.moved && errors == pre.errors
      requires !pre.interrupted && report == header + pre.lines
      modifies this, fs
      ensures var post := Sorting.Step(pre, dir, categories, createSubdirs, faults, item);
        && fs.files == post.files && fs.dirs == post.dirs && moved' == post.moved && errors' == post.errors
        && interrupted == post.interrupted && report == header + post.lines
    {
      moved', errors', interrupted := moved, errors, false;
      if item in fs.files {
        var ext := Lower(Suffix(Name(item)));
        var category := LookupCategory(categories, ext);
        var categoryPath := dir;
        if createSubdirs {
          categoryPath := Join(dir, category);
          var ok := fs.MakeDir(categoryPath, categoryPath in faults.mkdir);
          if !ok {
            AddToReport(SortInterrupted);
            assert report == header + (pre.lines + [SortInterrupted]);
            interrupted := true;
            return;
          }
        }
        var destination := Sorting.ResolveCollision(fs, item, categoryPath, ext);
        if destination != item {
          var ok := fs.Move(item, destination, item in faults.move);
          if ok {
            AddToReport(Moved(Name(item), category));
            assert report == header + (pre.lines + [Moved(Name(item), category)]);
            moved' := Sorting.Bump(moved', category);
          } else {
            AddToReport(MoveFailed(Name(item)));
            assert report == header + (pre.lines + [MoveFailed(Name(item))]);
            errors' := errors' + 1;
          }
        }
      }
    }
  
    /** `find_duplicates` over the entries `listing` of the recursive walk
        of `dir`; `md5` gives the digest of a file's bytes, `unreadable`
        the files whose hashing fails and `undeletable` those the system
        refuses to unlink. */
    method FindDuplicates(fs: FileSystem, dir: Path, remove: bool, listing: seq<Path>, md5: Content -> Duplicates.Digest,
                          unreadable: set<Path>, undeletable: set<Path>)
      requires Distinct(listing)
      modifies this, fs
      ensures fs.dirs == old(fs.dirs)
      ensures !old(fs.Exists(dir)) ==>
        fs.files == old(fs.files) && report == [ScanStarted(dir), RemoveMode(remove), DirectoryMissing(dir)]
      ensures old(fs.Exists(dir)) ==>
        var hs := Duplicates.Hashed(old(fs.files), unreadable, md5, listing);
        var b := Duplicates.BucketsOf(hs);
        var dups := Duplicates.DuplicateGroups(b.order, b.groups);
        var s := Duplicates.SweepAll(Duplicates.Sweep(old(fs.files), 0, 0, []), dups, remove, undeletable);
        && fs.files == (if dups == [] then old(fs.files) else s.files)
        && report == [ScanStarted(dir), RemoveMode(remove), CalculatingHashes, Scanned(|hs|)]
                     + DuplicatesOutcome(remove, dups, s)
    {
      ClearReport();
      AddToReport(ScanStarted(dir));
      AddToReport(RemoveMode(remove));
      if !fs.Exists(dir) {
        AddToReport(DirectoryMissing(dir));
        return;
      }
      AddToReport(CalculatingHashes);
      var buckets, scanned := Duplicates.ScanHashes(fs, listing, md5, unreadable);
      AddToReport(Scanned(scanned));
      ghost var head := report;
      assert head == [ScanStarted(dir), RemoveMode(remove), CalculatingHashes, Scanned(scanned)];
      ghost var files := fs.files;
      var dups := Duplicates.SelectDuplicates(buckets);
      assert Duplicates.NonEmptyGroups(dups) && Distinct(Duplicates.Flatten(dups))
             && forall k :: 0 <= k < |dups| ==> dups[k][0] in fs.files by {
        Duplicates.GroupsReady(fs.files, unreadable, md5, listing);
      }
      ReportDuplicates(fs, dups, remove, undeletable);
      ghost var sweep := Duplicates.SweepAll(Duplicates.Sweep(files, 0, 0, []), dups, remove, undeletable);
      assert report == head + DuplicatesOutcome(remove, dups, sweep);
    }

    /** Everything after the scan: no groups is reported as such; otherwise
        the pass over the groups and the summary, with the removal counters
        only when removing. */
    method ReportDuplicates(fs: FileSystem, dups: seq<seq<Path>>, remove: bool, undeletable: set<Path>)
      requires Duplicates.NonEmptyGroups(dups) && Distinct(Duplicates.Flatten(dups))
      requires forall k :: 0 <= k < |dups| ==> dups[k][0] in fs.files
      modifies this, fs
      ensures var s := Duplicates.SweepAll(Duplicates.Sweep(old(fs.files), 0, 0, []), dups, remove, undeletable);
        && fs.files == (if dups == [] then old(fs.files) else s.files) && fs.dirs == old(fs.dirs)
        && report == old(report) + DuplicatesOutcome(remove, dups, s)
    {
      if dups == [] {
        AddToReport(NoDuplicates);
        return;
      }
      var removed, freed := ReportGroups(fs, dups, remove, undeletable);
      ghost var s := Duplicates.SweepAll(Duplicates.Sweep(old(fs.files), 0, 0, []), dups, remove, undeletable);
      ghost var mid := report;
      var totalDuplicates := Duplicates.DuplicateCount(dups);
      AddToReport(SummaryHeader);
      AddToReport(GroupsFound(|dups|));
      AddToReport(TotalDuplicates(totalDuplicates));
      ghost var summary := [SummaryHeader, GroupsFound(|dups|), TotalDuplicates(totalDuplicates)];
      ghost var counters: seq<Message> := if remove then [FilesRemoved(removed), SpaceFreed(freed)] else [];
      assert report == mid + summary;
      if remove {
        AddToReport(FilesRemoved(removed));
        AddToReport(SpaceFreed(freed));
      }
      assert report == mid + summary + counters;
      AppendThree(old(report), s.lines, summary, counters);
    }

    /** The pass over the duplicate groups: returns `removed_count` and
        `space_freed`. */
    method ReportGroups(fs: FileSystem, dups: seq<seq<Path>>, remove: bool, undeletable: set<Path>)
      returns (removed: nat, freed: nat)
      requires Duplicates.NonEmptyGroups(dups) && Distinct(Duplicates.Flatten(dups))
      requires forall k :: 0 <= k < |dups| ==> dups[k][0] in fs.files
      modifies this, fs
      ensures var s := Duplicates.SweepAll(Duplicates.Sweep(old(fs.files), 0, 0, []), dups, remove, undeletable);
        && fs.files == s.files && fs.dirs == old(fs.dirs)
        && removed == s.removed && freed == s.freed && report == old(report) + s.lines
    {
      ghost var header := report;
      ghost var st0 := Duplicates.Sweep(fs.files, 0, 0, []);
      removed, freed := 0, 0;
      for k := 0 to |dups|
        invariant fs.dirs == old(fs.dirs)
        invariant var s := Duplicates.SweepAll(st0, dups[..k], remove, undeletable);
          fs.files == s.files && removed == s.removed && freed == s.freed && report == header + s.lines
      {
        assert dups[..k + 1][..k] == dups[..k];
        Duplicates.HeadPresent(st0, dups, k, remove, undeletable);
        removed, freed := ReportGroup(fs, dups[k], remove, undeletable, removed, freed, header,
                                      Duplicates.SweepAll(st0, dups[..k], remove, undeletable));
      }
      assert dups[..|dups|] == dups;
    }

    /** One duplicate group: the header with the first file's size, KEEP for
        the first file, and for every other file either DUPLICATE or an
        unlink that is reported and counted. */
    method ReportGroup(fs: FileSystem, g: seq<Path>, remove: bool, undeletable: set<Path>, removed: nat, freed: nat,
                       ghost header: seq<Message>, ghost pre: Duplicates.Sweep)
      returns (removed': nat, freed': nat)
      requires |g| >= 1 && g[0] in fs.files
      requires fs.files == pre.files && removed == pre.removed && freed == pre.freed && report == header + pre.lines
      modifies this, fs
      ensures var post := Duplicates.SweepGroup(pre, g, remove, undeletable);
        && fs.files == post.files && fs.dirs == old(fs.dirs)
        && removed' == post.removed && freed' == post.freed && report == header + post.lines
    {
      removed', freed' := removed, freed;
      var fileSize := fs.Size(g[0]);
      ghost var start := pre.(lines := pre.lines + Duplicates.GroupHead(pre.files, g));
      AddToReport(GroupHeader(|g|, fileSize));
      for i := 0 to |g|
        invariant fs.dirs == old(fs.dirs)
        invariant i == 0 ==> fs.files == pre.files && removed' == pre.removed && freed' == pre.freed
                             && report == header + pre.lines + [GroupHeader(|g|, fileSize)]
        invariant i > 0 ==> var v := Duplicates.VisitAll(start, g[1..i], fileSize, remove, undeletable);
          fs.files == v.files && removed' == v.removed && freed' == v.freed && report == header + v.lines
      {
        if i == 0 {
          AddToReport(Keep(g[0]));
          assert g[1..1] == [];
        } else {
          ghost var v := Duplicates.VisitAll(start, g[1..i], fileSize, remove, undeletable);
          assert g[1..i + 1][..i - 1] == g[1..i];
          var filePath := g[i];
          if remove {
            var ok := fs.Unlink(filePath, filePath in undeletable);
            if ok {
              AddToReport(Removed(filePath));
              assert report == header + (v.lines + [Removed(filePath)]);
              removed' := removed' + 1;
              freed' := freed' + fileSize;
            } else {
              AddToReport(RemoveFailed(filePath));
              assert report == header + (v.lines + [RemoveFailed(filePath)]);
            }
          } else {
            AddToReport(Duplicate(filePath));
            assert report == header + (v.lines + [Duplicate(filePath)]);
          }
        }
      }
      assert g[1..|g|] == g[1..];
    }
  }
}
