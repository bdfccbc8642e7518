/** Bulk rename as a specification: one step per directory entry, folded
    over the entries in `iterdir()` order. `FileManager.BulkRename` is
    proved to produce exactly `RenameAll` of its listing. */
module Rename {
  import opened Paths
  import opened Fs
  import opened Report
  import opened Text

  /** How a new name is computed: literal `str.replace`, or the regular
      expression substitution `re.sub(pattern, replacement, name)`, which is
      given as the function `regexSub`. */
  datatype Substitution = Substitution(pattern: string, replacement: string, useRegex: bool, regexSub: string -> string)
  {
    function Apply(name: string): string {
      if useRegex then regexSub(name) else Replace(name, pattern, replacement)
    }
  }

  /** The regular files, the two counters and the lines added so far. */
  datatype State = State(files: map<Path, Content>, renamed: nat, errors: nat, lines: seq<Message>)

  /** The state before the first entry. */
  function Start(files: map<Path, Content>): State {
    State(files, 0, 0, [])
  }

  /** What the system finds at `item.parent / new_name`: the components of
      the new name are looked up from the entry's folder, or from the root
      when the name is absolute. A name holding a NUL character makes
      `exists()` answer false and the rename raise, like a path no lookup
      reaches. */
  function Target(dirs: set<Path>, item: Path, newName: string): Lookup {
    if '\0' in newName then Unreachable
    else Walk(dirs, if Absolute(newName) then [] else Parent(item), Components(newName))
  }

  /** One entry of the directory. Directories and vanished entries are
      passed over; an unchanged name is ignored; an existing target, a
      target the system cannot reach and a refused rename are errors;
      otherwise the file moves to the target. */
  function Step(st: State, dirs: set<Path>, sub: Substitution, faults: set<Path>, item: Path): State {
    if item !in st.files then st
    else
      var oldName := Name(item);
      var newName := sub.Apply(oldName);
      if newName == oldName then st
      else
        var target := Target(dirs, item, newName);
        if Found(st.files, dirs, target) then
          State(st.files, st.renamed, st.errors + 1, st.lines + [SkippedTargetExists(oldName)])
        else if target.Unreachable? || item in faults then
          State(st.files, st.renamed, st.errors + 1, st.lines + [RenameFailed(oldName)])
        else
          State((st.files - {item})[target.path := st.files[item]], st.renamed + 1, st.errors,
                st.lines + [Renamed(oldName, newName)])
  }

  /** All entries, in listing order. */
  function RenameAll(st: State, dirs: set<Path>, sub: Substitution, faults: set<Path>, items: seq<Path>): State
    decreases |items|
  {
    if items == [] then st
    else Step(RenameAll(st, dirs, sub, faults, items[..|items| - 1]), dirs, sub, faults, items[|items| - 1])
  }

  predicate IsRenamed(m: Message) {
    m.Renamed?
  }

  predicate IsRenameError(m: Message) {
    m.SkippedTargetExists? || m.RenameFailed?
  }

  /** The counters agree with the lines, and every line is one of the three
      per-file kinds. */
  predicate Tallied(st: State) {
    && st.renamed == Count(st.lines, IsRenamed)
    && st.errors == Count(st.lines, IsRenameError)
    && |st.lines| == st.renamed + st.errors
  }

  /** A step adds at most one line and keeps the counters in line with them. */
  lemma StepTallied(st: State, dirs: set<Path>, sub: Substitution, faults: set<Path>, item: Path)
    requires Tallied(st)
    ensures Tallied(Step(st, dirs, sub, faults, item))
    ensures |Step(st, dirs, sub, faults, item).lines| <= |st.lines| + (if item in st.files then 1 else 0)
  {
    if item in st.files && sub.Apply(Name(item)) != Name(item) {
      var oldName := Name(item);
      var target := Target(dirs, item, sub.Apply(oldName));
      var m := if Found(st.files, dirs, target) then SkippedTargetExists(oldName)
               else if target.Unreachable? || item in faults then RenameFailed(oldName)
               else Renamed(oldName, sub.Apply(oldName));
      assert Step(st, dirs, sub, faults, item).lines == st.lines + [m];
      CountSnoc(st.lines, m, IsRenamed);
      CountSnoc(st.lines, m, IsRenameError);
    }
  }

  /** A step never loses or overwrites a file: it only ever moves one file
      to a path where nothing was. */
  lemma StepKeepsFileCount(st: State, dirs: set<Path>, sub: Substitution, faults: set<Path>, item: Path)
    ensures |Step(st, dirs, sub, faults, item).files| == |st.files|
  {
    var r := Step(st, dirs, sub, faults, item);
    var t := Target(dirs, item, sub.Apply(Name(item)));
    if item in st.files && sub.Apply(Name(item)) != Name(item) && !Found(st.files, dirs, t) && !t.Unreachable? && item !in faults {
      assert r.files == (st.files - {item})[t.path := st.files[item]];
      assert t.path !in st.files;
      assert (st.files - {item}).Keys == st.files.Keys - {item};
      assert r.files.Keys == (st.files.Keys - {item}) + {t.path};
    } else {
      assert r.files == st.files;
    }
  }

  /** Entries not yet reached keep their kind: a later entry is a file
      exactly when it was one at the start. */
  lemma {:induction false} LaterEntriesUnchanged(st0: State, dirs: set<Path>, sub: Substitution, faults: set<Path>,
                                                 items: seq<Path>, n: nat, j: nat)
    requires Listing(st0.files, dirs, items) && n <= j < |items|
    ensures (items[j] in RenameAll(st0, dirs, sub, faults, items[..n]).files) == (items[j] in st0.files)
    decreases n
  {
    if n > 0 {
      ListingEntries(st0.files, dirs, items);
      RenameAllPrefix(st0, dirs, sub, faults, items, n);
      LaterEntriesUnchanged(st0, dirs, sub, faults, items, n - 1, j);
      StepOthers(RenameAll(st0, dirs, sub, faults, items[..n - 1]), dirs, sub, faults, items[n - 1], items[j]);
    }
  }

  /** A step changes the kind of no other existing entry. */
  lemma StepOthers(st: State, dirs: set<Path>, sub: Substitution, faults: set<Path>, item: Path, q: Path)
    requires q != item && (q in st.files || q in dirs)
    ensures (q in Step(st, dirs, sub, faults, item).files) == (q in st.files)
  {
  }

  /** Renamed plus errors never exceeds the number of regular files in the
      directory, and the counters agree with the report lines. */
  lemma {:induction false} RenameCountsPrefix(files: map<Path, Content>, dirs: set<Path>, sub: Substitution,
                                              faults: set<Path>, items: seq<Path>, n: nat)
    requires Listing(files, dirs, items) && n <= |items|
    ensures Tallied(RenameAll(Start(files), dirs, sub, faults, items[..n]))
    ensures |RenameAll(Start(files), dirs, sub, faults, items[..n]).lines| <= FileCount(files, items[..n])
    decreases n
  {
    if n == 0 {
      assert items[..0] == [];
    } else {
      var st := RenameAll(Start(files), dirs, sub, faults, items[..n - 1]);
      var item := items[n - 1];
      var bound := FileCount(files, items[..n - 1]);
      assert Tallied(st) && |st.lines| <= bound by {
        RenameCountsPrefix(files, dirs, sub, faults, items, n - 1);
      }
      assert (item in st.files) == (item in files) by {
        LaterEntriesUnchanged(Start(files), dirs, sub, faults, items, n - 1, n - 1);
      }
      FileCountPrefix(files, items, n);
      RenameAllPrefix(Start(files), dirs, sub, faults, items, n);
      StepBounded(st, dirs, sub, faults, item, bound);
    }
  }

  /** One more entry of the listing is one more step. */
  lemma RenameAllPrefix(st: State, dirs: set<Path>, sub: Substitution, faults: set<Path>, items: seq<Path>, n: nat)
    requires 0 < n <= |items|
    ensures RenameAll(st, dirs, sub, faults, items[..n])
         == Step(RenameAll(st, dirs, sub, faults, items[..n - 1]), dirs, sub, faults, items[n - 1])
  {
    assert items[..n][..n - 1] == items[..n - 1];
  }

  lemma StepBounded(st: State, dirs: set<Path>, sub: Substitution, faults: set<Path>, item: Path, bound: nat)
    requires Tallied(st) && |st.lines| <= bound
    ensures var r := Step(st, dirs, sub, faults, item);
      Tallied(r) && |r.lines| <= bound + (if item in st.files then 1 else 0)
  {
    StepTallied(st, dirs, sub, faults, item);
  }

  /** The summary numbers: renamed counts the success lines, errors counts
      the collision and failure lines, and together they are at most the
      number of regular files the directory held. */
  lemma RenameCounts(files: map<Path, Content>, dirs: set<Path>, sub: Substitution, faults: set<Path>, items: seq<Path>)
    requires Listing(files, dirs, items)
    ensures var r := RenameAll(Start(files), dirs, sub, faults, items);
      && r.renamed == Count(r.lines, IsRenamed)
      && r.errors == Count(r.lines, IsRenameError)
      && r.renamed + r.errors == |r.lines| <= FileCount(files, items)
  {
    RenameCountsPrefix(files, dirs, sub, faults, items, |items|);
    assert items[..|items|] == items;
  }

  /** Bulk rename keeps the number of files: nothing is deleted and no
      rename overwrites. */
  lemma {:induction false} RenameKeepsFileCount(st: State, dirs: set<Path>, sub: Substitution, faults: set<Path>, items: seq<Path>)
    ensures |RenameAll(st, dirs, sub, faults, items).files| == |st.files|
    decreases |items|
  {
    if items != [] {
      RenameKeepsFileCount(st, dirs, sub, faults, items[..|items| - 1]);
      StepKeepsFileCount(RenameAll(st, dirs, sub, faults, items[..|items| - 1]), dirs, sub, faults, items[|items| - 1]);
    }
  }

  /** A file that is not in the listing, or whose name the substitution
      leaves as it is, keeps its path and its bytes. */
  lemma {:induction false} RenameUntouched(st: State, dirs: set<Path>, sub: Substitution, faults: set<Path>, items: seq<Path>, p: Path)
    requires p in st.files
    requires p !in items || sub.Apply(Name(p)) == Name(p)
    ensures p in RenameAll(st, dirs, sub, faults, items).files
    ensures RenameAll(st, dirs, sub, faults, items).files[p] == st.files[p]
    decreases |items|
  {
    if items != [] {
      var front := items[..|items| - 1];
      assert p !in items ==> p !in front;
      RenameUntouched(st, dirs, sub, faults, front, p);
      StepUntouched(RenameAll(st, dirs, sub, faults, front), dirs, sub, faults, items[|items| - 1], p);
    }
  }

  /** A step leaves every other file, and a file it does not rename, as it was. */
  lemma StepUntouched(st: State, dirs: set<Path>, sub: Substitution, faults: set<Path>, item: Path, p: Path)
    requires p in st.files
    requires p != item || sub.Apply(Name(p)) == Name(p)
    ensures p in Step(st, dirs, sub, faults, item).files
    ensures Step(st, dirs, sub, faults, item).files[p] == st.files[p]
  {
  }

  /** A changed name whose target exists leaves the file where it is and
      costs one error and one collision line; an unchanged name leaves the
      state as it was, with no line and no counter change. */
  lemma StepSkips(st: State, dirs: set<Path>, sub: Substitution, faults: set<Path>, item: Path)
    requires item in st.files
    ensures var newName := sub.Apply(Name(item));
      var r := Step(st, dirs, sub, faults, item);
      && (newName == Name(item) ==> r == st)
      && (newName != Name(item) && Found(st.files, dirs, Target(dirs, item, newName)) ==>
            r.files == st.files && r.renamed == st.renamed && r.errors == st.errors + 1
            && r.lines == st.lines + [SkippedTargetExists(Name(item))])
  {
  }

  /** A changed name whose target does not exist but cannot be reached, or
      whose rename the system refuses, leaves the file where it is and
      costs one error and one failure line. */
  lemma StepFails(st: State, dirs: set<Path>, sub: Substitution, faults: set<Path>, item: Path)
    requires item in st.files
    requires var target := Target(dirs, item, sub.Apply(Name(item)));
      sub.Apply(Name(item)) != Name(item) && !Found(st.files, dirs, target) && (target.Unreachable? || item in faults)
    ensures Step(st, dirs, sub, faults, item) == State(st.files, st.renamed, st.errors + 1, st.lines + [RenameFailed(Name(item))])
  {
  }

  /** A successful step puts the file's bytes at its target, a path in a
      reachable folder where nothing was before. */
  lemma StepRenames(st: State, dirs: set<Path>, sub: Substitution, faults: set<Path>, item: Path)
    requires item in st.files
    requires Step(st, dirs, sub, faults, item).renamed == st.renamed + 1
    ensures var target := Target(dirs, item, sub.Apply(Name(item)));
      var r := Step(st, dirs, sub, faults, item);
      && target.AtEntry? && target.path !in st.files && target.path !in dirs && item !in faults
      && target.path in r.files && r.files[target.path] == st.files[item]
      && item !in r.files
  {
  }

  /** The step for a file whose new name `newName` reaches the free entry
      `t`: the file moves there and one success line is added. */
  lemma StepRenamesTo(st: State, dirs: set<Path>, sub: Substitution, faults: set<Path>, item: Path, newName: string, t: Path)
    requires item in st.files && sub.Apply(Name(item)) == newName && newName != Name(item)
    requires Target(dirs, item, newName) == AtEntry(t) && t !in st.files && t !in dirs && item !in faults
    ensures Step(st, dirs, sub, faults, item)
         == State((st.files - {item})[t := st.files[item]], st.renamed + 1, st.errors,
                  st.lines + [Renamed(Name(item), newName)])
  {
  }

  /** The step for a file whose new name `newName` reaches an existing
      path: one collision line and one more error. */
  lemma StepSkipsTo(st: State, dirs: set<Path>, sub: Substitution, faults: set<Path>, item: Path, newName: string)
    requires item in st.files && sub.Apply(Name(item)) == newName && newName != Name(item)
    requires Found(st.files, dirs, Target(dirs, item, newName))
    ensures Step(st, dirs, sub, faults, item)
         == State(st.files, st.renamed, st.errors + 1, st.lines + [SkippedTargetExists(Name(item))])
  {
  }

  /** A proper new name without NUL is looked up as a sibling of the entry. */
  lemma TargetPlain(dirs: set<Path>, item: Path, newName: string)
    requires ProperName(newName) && '\0' !in newName
    ensures Target(dirs, item, newName) == AtEntry(Parent(item) + [newName])
  {
    ComponentsNoSlash(newName);
    assert [newName][1..] == [];
  }

  /** Without "..", a target the lookup reaches is pathlib's
      `item.parent / new_name`. */
  lemma TargetLexical(dirs: set<Path>, item: Path, newName: string)
    requires '\0' !in newName && ".." !in Components(newName)
    ensures var t := Target(dirs, item, newName);
      t == Unreachable || t.path == Join(Parent(item), newName)
  {
    WalkLexical(dirs, if Absolute(newName) then [] else Parent(item), Components(newName));
  }

  /** A new name ".." names the folder above the entry's folder, which
      exists: the file is skipped as a collision. */
  lemma StepParentName(st: State, dirs: set<Path>, sub: Substitution, faults: set<Path>, item: Path)
    requires item in st.files && sub.Apply(Name(item)) == ".." && Name(item) != ".."
    ensures Step(st, dirs, sub, faults, item)
         == State(st.files, st.renamed, st.errors + 1, st.lines + [SkippedTargetExists(Name(item))])
  {
    ComponentsNoSlash("..");
    assert [".."][1..] == [];
  }

  /** A new name `folder/leaf` moves into the subfolder `folder` when it
      exists, and otherwise names a path the system cannot reach. */
  lemma TargetIntoFolder(dirs: set<Path>, item: Path, folder: string, leaf: string)
    requires ProperName(folder) && ProperName(leaf) && '\0' !in folder + "/" + leaf
    ensures Target(dirs, item, folder + "/" + leaf)
         == if Parent(item) + [folder] in dirs then AtEntry(Parent(item) + [folder, leaf]) else Unreachable
  {
    var name := folder + "/" + leaf;
    SplitAtSlash(folder, leaf);
    SplitNoSlash(leaf);
    assert name[0] == folder[0] && folder[0] in folder;
    assert Split(name) == [folder, leaf];
    assert [folder, leaf][1..] == [leaf] && [leaf][1..] == [];
    assert Kept([leaf]) == [leaf] + Kept([]);
    assert Kept([folder, leaf]) == [folder] + Kept([leaf]);
    assert Components(name) == [folder, leaf];
    assert [folder, leaf][0] == folder && [folder, leaf][1..] == [leaf];
    var up := Parent(item) + [folder];
    assert !Absolute(name);
    assert Walk(dirs, up, [leaf]) == AtEntry(up + [leaf]);
    assert Walk(dirs, Parent(item), [folder, leaf]) == if up in dirs then Walk(dirs, up, [leaf]) else Unreachable;
    assert up + [leaf] == Parent(item) + [folder, leaf];
  }

  /** "foobar.txt".replace("foo", "bar") is "barbar.txt". */
  lemma FoobarReplace()
    ensures Replace("foobar.txt", "foo", "bar") == "barbar.txt"
  {
    var s: string := "foobar.txt";
    assert |s| >= 3 && s[..3] == "foo";
    assert Replace(s, "foo", "bar") == "bar" + Replace(s[3..], "foo", "bar");
    assert s[3..] == "bar.txt";
    BarTxtUnchanged();
    assert "bar" + "bar.txt" == "barbar.txt";
  }

  /** "bar.txt" holds no "foo". */
  lemma BarTxtUnchanged()
    ensures Replace("bar.txt", "foo", "bar") == "bar.txt"
  {
    var s: string := "bar.txt";
    ReplaceKeep(s[6..]);
    ReplaceKeep(s[5..]);
    ReplaceKeep(s[4..]);
    ReplaceKeep(s[3..]);
    ReplaceKeep(s[2..]);
    ReplaceKeep(s[1..]);
    ReplaceKeep(s);
  }

  /** One character that does not start "foo" is kept. */
  lemma ReplaceKeep(s: string)
    requires |s| > 0 && s[0] != 'f' && Replace(s[1..], "foo", "bar") == s[1..]
    ensures Replace(s, "foo", "bar") == s
  {
    if |s| >= 3 {
      assert s[..3][0] != "foo"[0];
    }
    assert [s[0]] + s[1..] == s;
  }

  /** "barbar.txt" is a plain entry name. */
  lemma BarbarPlain()
    ensures ProperName("barbar.txt") && '\0' !in "barbar.txt"
  {
    var s: string := "barbar.txt";
    forall i | 0 <= i < |s| ensures s[i] != '/' && s[i] != '\0' {
    }
  }

  /** Renaming `foobar.txt` with pattern "foo" and replacement "bar" gives
      `barbar.txt`. */
  lemma FoobarRenamed(c: Content, regexSub: string -> string)
    ensures RenameAll(Start(map[["D", "foobar.txt"] := c]), {["D"]}, Substitution("foo", "bar", false, regexSub), {},
                      [["D", "foobar.txt"]])
         == State(map[["D", "barbar.txt"] := c], 1, 0, [Renamed("foobar.txt", "barbar.txt")])
  {
    var items: seq<Path> := [["D", "foobar.txt"]];
    assert items[..0] == [];
    FoobarStep(c, regexSub);
  }

  lemma FoobarStep(c: Content, regexSub: string -> string)
    ensures Step(Start(map[["D", "foobar.txt"] := c]), {["D"]}, Substitution("foo", "bar", false, regexSub), {},
                 ["D", "foobar.txt"])
         == State(map[["D", "barbar.txt"] := c], 1, 0, [Renamed("foobar.txt", "barbar.txt")])
  {
    var sub := Substitution("foo", "bar", false, regexSub);
    var item: Path := ["D", "foobar.txt"];
    var files := map[item := c];
    var target: Path := ["D", "barbar.txt"];
    assert Name(item) == "foobar.txt" && Parent(item) + ["barbar.txt"] == target;
    assert Target({["D"]}, item, "barbar.txt") == AtEntry(target) by { BarbarPlain(); TargetPlain({["D"]}, item, "barbar.txt"); }
    assert sub.Apply(Name(item)) == "barbar.txt" by { FoobarReplace(); }
    assert "barbar.txt" != "foobar.txt" by { assert "barbar.txt"[0] != "foobar.txt"[0]; }
    assert target != item by { assert target[1] != item[1]; }
    StepRenamesAlone(c, {["D"]}, sub, item, "barbar.txt", target);
  }

  /** The only file of a folder, renamed to the free entry `t`. */
  lemma StepRenamesAlone(c: Content, dirs: set<Path>, sub: Substitution, item: Path, newName: string, t: Path)
    requires sub.Apply(Name(item)) == newName && newName != Name(item)
    requires Target(dirs, item, newName) == AtEntry(t) && t != item && t !in dirs
    ensures Step(Start(map[item := c]), dirs, sub, {}, item) == State(map[t := c], 1, 0, [Renamed(Name(item), newName)])
  {
    StepRenamesTo(Start(map[item := c]), dirs, sub, {}, item, newName, t);
    assert (map[item := c] - {item})[t := c] == map[t := c];
  }

  /** When `barbar.txt` already exists, `foobar.txt` keeps its name and a
      collision line is reported. */
  lemma FoobarCollision(c: Content, d: Content, regexSub: string -> string)
    ensures var files := map[["D", "foobar.txt"] := c, ["D", "barbar.txt"] := d];
      RenameAll(Start(files), {["D"]}, Substitution("foo", "bar", false, regexSub), {}, [["D", "foobar.txt"]])
      == State(files, 0, 1, [SkippedTargetExists("foobar.txt")])
  {
    var items: seq<Path> := [["D", "foobar.txt"]];
    assert items[..0] == [];
    FoobarCollisionStep(c, d, regexSub);
  }

  lemma FoobarCollisionStep(c: Content, d: Content, regexSub: string -> string)
    ensures var files := map[["D", "foobar.txt"] := c, ["D", "barbar.txt"] := d];
      Step(Start(files), {["D"]}, Substitution("foo", "bar", false, regexSub), {}, ["D", "foobar.txt"])
      == State(files, 0, 1, [SkippedTargetExists("foobar.txt")])
  {
    var sub := Substitution("foo", "bar", false, regexSub);
    var item: Path := ["D", "foobar.txt"];
    var target: Path := ["D", "barbar.txt"];
    assert Name(item) == "foobar.txt" && Parent(item) + ["barbar.txt"] == target;
    assert Target({["D"]}, item, "barbar.txt") == AtEntry(target) by { BarbarPlain(); TargetPlain({["D"]}, item, "barbar.txt"); }
    assert sub.Apply(Name(item)) == "barbar.txt" by { FoobarReplace(); }
    assert "barbar.txt" != "foobar.txt" by { assert "barbar.txt"[0] != "foobar.txt"[0]; }
    StepSkipsTo(Start(map[item := c, ["D", "barbar.txt"] := d]), {["D"]}, sub, {}, item, "barbar.txt");
  }
}
