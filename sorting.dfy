/** Sorting files into category folders as a specification: the collision
    counter, one step per directory entry folded in `iterdir()` order, the
    per-category tally and its summary in name order. `FileManager.SortFiles`
    is proved to produce exactly `SortAll` of its listing. */
module Sorting {
  import opened Paths
  import opened Fs
  import opened Report
  import opened Text
  import opened Categories

  /** One entry of `moved_files`: a category and how many files went there. */
  datatype Tally = Tally(category: string, count: nat)

  /** Which calls the system refuses: creating a category folder, moving a file. */
  datatype Faults = Faults(mkdir: set<Path>, move: set<Path>)

  /** The file system, `moved_files` (in insertion order), the error counter,
      the lines added so far, and whether the traversal was cut short. */
  datatype State = State(files: map<Path, Content>, dirs: set<Path>, moved: seq<Tally>, errors: nat,
                         lines: seq<Message>, interrupted: bool)

  /** The state before the first entry. */
  function Start(files: map<Path, Content>, dirs: set<Path>): State {
    State(files, dirs, [], 0, [], false)
  }

  predicate Taken(files: map<Path, Content>, dirs: set<Path>, p: Path) {
    p in files || p in dirs
  }

  /** `item.suffix.lower()`. */
  function Extension(item: Path): string {
    Lower(Suffix(Name(item)))
  }

  /** The N-th collision name in a category folder: `{stem}_{N}{ext}`. */
  function Candidate(catPath: Path, stem: string, ext: string, k: nat): Path {
    catPath + [stem + "_" + NatToString(k) + ext]
  }

  /** Different counters give different names. */
  lemma CandidateInjective(catPath: Path, stem: string, ext: string, a: nat, b: nat)
    requires Candidate(catPath, stem, ext, a) == Candidate(catPath, stem, ext, b)
    ensures a == b
  {
    var x := stem + "_" + NatToString(a) + ext;
    var y := stem + "_" + NatToString(b) + ext;
    assert x == Candidate(catPath, stem, ext, a)[|catPath|] == y;
    var lo := |stem| + 1;
    assert x[lo..lo + |NatToString(a)|] == NatToString(a);
    assert y[lo..lo + |NatToString(b)|] == NatToString(b);
    NatToStringInjective(a, b);
  }

  /** The first n collision names are n different paths. */
  lemma {:induction false} CandidateSetSize(catPath: Path, stem: string, ext: string, n: nat)
    ensures |set j | 1 <= j <= n :: Candidate(catPath, stem, ext, j)| == n
    decreases n
  {
    if n > 0 {
      var s := set j | 1 <= j <= n - 1 :: Candidate(catPath, stem, ext, j);
      CandidateSetSize(catPath, stem, ext, n - 1);
      assert (set j | 1 <= j <= n :: Candidate(catPath, stem, ext, j)) == s + {Candidate(catPath, stem, ext, n)};
      if Candidate(catPath, stem, ext, n) in s {
        var j :| 1 <= j <= n - 1 && Candidate(catPath, stem, ext, j) == Candidate(catPath, stem, ext, n);
        CandidateInjective(catPath, stem, ext, j, n);
      }
    }
  }

  /** If the first n collision names are all taken, the folder holds at
      least n entries: the counter loop cannot run past the number of
      existing paths. */
  lemma CandidatesTakenBound(files: map<Path, Content>, dirs: set<Path>, catPath: Path, stem: string, ext: string, n: nat)
    requires forall j | 1 <= j <= n :: Taken(files, dirs, Candidate(catPath, stem, ext, j))
    ensures n <= |files.Keys + dirs|
  {
    var s := set j | 1 <= j <= n :: Candidate(catPath, stem, ext, j);
    CandidateSetSize(catPath, stem, ext, n);
    assert s <= files.Keys + dirs;
    SubsetSize(s, files.Keys + dirs);
  }

  lemma SubsetSize<T>(a: set<T>, b: set<T>)
    requires a <= b
    ensures |a| <= |b|
  {
    assert b == a + (b - a);
  }

  /** The first free counter in [k, bound), or bound. */
  function FreeFrom(files: map<Path, Content>, dirs: set<Path>, catPath: Path, stem: string, ext: string,
                    k: nat, bound: nat): (r: nat)
    ensures k <= r && (k <= bound ==> r <= bound)
    ensures forall j | k <= j < r :: Taken(files, dirs, Candidate(catPath, stem, ext, j))
    ensures r < bound ==> !Taken(files, dirs, Candidate(catPath, stem, ext, r))
    decreases bound - k
  {
    if k >= bound || !Taken(files, dirs, Candidate(catPath, stem, ext, k)) then k
    else FreeFrom(files, dirs, catPath, stem, ext, k + 1, bound)
  }

  /** The counter the collision loop settles on: the smallest N >= 1 whose
      name `{stem}_{N}{ext}` is free in the category folder. */
  function FreeCounter(files: map<Path, Content>, dirs: set<Path>, catPath: Path, stem: string, ext: string): (n: nat)
    ensures n >= 1
    ensures !Taken(files, dirs, Candidate(catPath, stem, ext, n))
  {
    FreeWithinBound(files, dirs, catPath, stem, ext);
    FreeFrom(files, dirs, catPath, stem, ext, 1, |files.Keys + dirs| + 1)
  }

  /** Every smaller counter names a taken path, so the counter is the
      smallest free one. */
  lemma FreeCounterLeast(files: map<Path, Content>, dirs: set<Path>, catPath: Path, stem: string, ext: string)
    ensures forall j | 1 <= j < FreeCounter(files, dirs, catPath, stem, ext) :: Taken(files, dirs, Candidate(catPath, stem, ext, j))
  {
  }

  /** Searching up to one more than the number of existing paths always
      ends on a free name. */
  lemma FreeWithinBound(files: map<Path, Content>, dirs: set<Path>, catPath: Path, stem: string, ext: string)
    ensures var n := FreeFrom(files, dirs, catPath, stem, ext, 1, |files.Keys + dirs| + 1);
      !Taken(files, dirs, Candidate(catPath, stem, ext, n))
  {
    var bound := |files.Keys + dirs| + 1;
    var r := FreeFrom(files, dirs, catPath, stem, ext, 1, bound);
    if r == bound && Taken(files, dirs, Candidate(catPath, stem, ext, r)) {
      assert forall j | 1 <= j <= r :: Taken(files, dirs, Candidate(catPath, stem, ext, j)) by {
        forall j | 1 <= j <= r ensures Taken(files, dirs, Candidate(catPath, stem, ext, j)) {
          assert j < r || j == r;
        }
      }
      CandidatesTakenBound(files, dirs, catPath, stem, ext, r);
      assert false;
    }
  }

  /** Where an entry is moved: `category_path / item.name`, unless that is
      taken by another entry, in which case the first free collision name. */
  function Destination(files: map<Path, Content>, dirs: set<Path>, item: Path, catPath: Path, ext: string): Path {
    var d := Join(catPath, Name(item));
    if Taken(files, dirs, d) && d != item then
      Candidate(catPath, Stem(Name(item)), ext, FreeCounter(files, dirs, catPath, Stem(Name(item)), ext))
    else d
  }

  /** A destination other than the entry itself is always a free path. */
  lemma DestinationFree(files: map<Path, Content>, dirs: set<Path>, item: Path, catPath: Path, ext: string)
    ensures var d := Destination(files, dirs, item, catPath, ext);
      d == item || !Taken(files, dirs, d)
  {
  }

  /** The collision loop of `sort_files`: starting from
      `category_path / item.name`, try `{stem}_1{ext}`, `{stem}_2{ext}`, ...
      while the candidate exists. */
  method ResolveCollision(fs: FileSystem, item: Path, catPath: Path, ext: string) returns (dest: Path)
    ensures dest == Destination(fs.files, fs.dirs, item, catPath, ext)
    ensures dest == item || !fs.Exists(dest)
  {
    dest := Join(catPath, Name(item));
    if fs.Exists(dest) && dest != item {
      var stem := Stem(Name(item));
      var counter: nat := 1;
      ghost var bound := |fs.files.Keys + fs.dirs|;
      while fs.Exists(dest)
        invariant 1 <= counter <= bound + 2
        invariant counter == 1 ==> dest == Join(catPath, Name(item)) && fs.Exists(dest)
        invariant counter > 1 ==> dest == Candidate(catPath, stem, ext, counter - 1)
        invariant forall j | 1 <= j < counter - 1 :: Taken(fs.files, fs.dirs, Candidate(catPath, stem, ext, j))
        decreases bound + 2 - counter
      {
        if counter > 1 {
          CandidatesTakenBound(fs.files, fs.dirs, catPath, stem, ext, counter - 1);
        }
        dest := Candidate(catPath, stem, ext, counter);
        counter := counter + 1;
      }
      FreeCounterLeast(fs.files, fs.dirs, catPath, stem, ext);
    }
  }

  /** `moved_files[category] += 1` on an insertion-ordered dictionary. */
  function Bump(moved: seq<Tally>, cat: string): (r: seq<Tally>)
    ensures Total(r) == Total(moved) + 1
    ensures TalliedNames(r) == TalliedNames(moved) + {cat}
    ensures DistinctCategories(moved) ==> DistinctCategories(r)
    decreases |moved|
  {
    if moved == [] then [Tally(cat, 1)]
    else if moved[0].category == cat then [Tally(cat, moved[0].count + 1)] + moved[1..]
    else
      var rest := Bump(moved[1..], cat);
      assert ([moved[0]] + rest)[1..] == rest;
      [moved[0]] + rest
  }

  /** The sum of the counts. */
  function Total(moved: seq<Tally>): nat
    decreases |moved|
  {
    if moved == [] then 0 else moved[0].count + Total(moved[1..])
  }

  /** The categories that have a tally. */
  function TalliedNames(moved: seq<Tally>): set<string>
    decreases |moved|
  {
    if moved == [] then {} else {moved[0].category} + TalliedNames(moved[1..])
  }

  /** No category is tallied twice, as in a dictionary. */
  predicate DistinctCategories(moved: seq<Tally>)
    decreases |moved|
  {
    moved == [] || (moved[0].category !in TalliedNames(moved[1..]) && DistinctCategories(moved[1..]))
  }

  /** How many files the tally holds for category `c`: zero when the
      dictionary has no such key. */
  function CountOf(moved: seq<Tally>, c: string): nat
    decreases |moved|
  {
    if moved == [] then 0
    else (if moved[0].category == c then moved[0].count else 0) + CountOf(moved[1..], c)
  }

  /** `moved_files[cat] += 1` adds one to the count of `cat` and leaves the
      count of every other category as it was. */
  lemma {:induction false} BumpCounts(moved: seq<Tally>, cat: string, c: string)
    ensures CountOf(Bump(moved, cat), c) == CountOf(moved, c) + (if c == cat then 1 else 0)
    decreases |moved|
  {
    if moved == [] {
      assert [Tally(cat, 1)][1..] == [];
    } else if moved[0].category == cat {
      assert ([Tally(cat, moved[0].count + 1)] + moved[1..])[1..] == moved[1..];
    } else {
      BumpCounts(moved[1..], cat, c);
      var rest := Bump(moved[1..], cat);
      assert ([moved[0]] + rest)[1..] == rest;
    }
  }

  /** Every tallied category holds at least one file. */
  predicate Positive(moved: seq<Tally>) {
    forall i :: 0 <= i < |moved| ==> moved[i].count > 0
  }

  lemma {:induction false} BumpPositive(moved: seq<Tally>, cat: string)
    requires Positive(moved)
    ensures Positive(Bump(moved, cat))
    decreases |moved|
  {
    if moved != [] && moved[0].category != cat {
      BumpPositive(moved[1..], cat);
      assert Bump(moved, cat) == [moved[0]] + Bump(moved[1..], cat);
    }
  }

  lemma {:induction false} TalliedNamesMember(moved: seq<Tally>, k: nat)
    requires k < |moved|
    ensures moved[k].category in TalliedNames(moved)
    decreases k
  {
    if k > 0 {
      TalliedNamesMember(moved[1..], k - 1);
    }
  }

  lemma {:induction false} CountOfAbsent(moved: seq<Tally>, c: string)
    requires c !in TalliedNames(moved)
    ensures CountOf(moved, c) == 0
    decreases |moved|
  {
    if moved != [] {
      CountOfAbsent(moved[1..], c);
    }
  }

  /** In a dictionary-like tally, the count of a tallied category is the
      count of its one entry. */
  lemma {:induction false} CountOfMember(moved: seq<Tally>, k: nat)
    requires DistinctCategories(moved) && k < |moved|
    ensures CountOf(moved, moved[k].category) == moved[k].count
    decreases k
  {
    if k == 0 {
      CountOfAbsent(moved[1..], moved[0].category);
    } else {
      assert moved[1..][k - 1] == moved[k];
      TalliedNamesMember(moved[1..], k - 1);
      CountOfMember(moved[1..], k - 1);
    }
  }

  /** A category with a non-zero count has an entry. */
  lemma {:induction false} CountOfPositive(moved: seq<Tally>, c: string)
    requires CountOf(moved, c) > 0
    ensures exists k :: 0 <= k < |moved| && moved[k].category == c
    decreases |moved|
  {
    if moved[0].category != c {
      CountOfPositive(moved[1..], c);
      var k :| 0 <= k < |moved[1..]| && moved[1..][k].category == c;
      assert moved[k + 1] == moved[1..][k];
    }
  }

  /** Python's `sorted(moved_files.items())`, ordering by category name. */
  function SortByName(moved: seq<Tally>): seq<Tally>
    decreases |moved|
  {
    if moved == [] then [] else Insert(moved[0], SortByName(moved[1..]))
  }

  function Insert(t: Tally, s: seq<Tally>): seq<Tally>
    decreases |s|
  {
    if s == [] then [t]
    else if StrLessEq(t.category, s[0].category) then [t] + s
    else [s[0]] + Insert(t, s[1..])
  }

  /** Each name is at most the next one. */
  predicate SortedByName(s: seq<Tally>)
    decreases |s|
  {
    |s| < 2 || (StrLessEq(s[0].category, s[1].category) && SortedByName(s[1..]))
  }

  /** Inserting keeps the order and starts either with the new tally or
      with the old first one. */
  lemma {:induction false} InsertSorted(t: Tally, s: seq<Tally>)
    requires SortedByName(s)
    ensures SortedByName(Insert(t, s))
    ensures |Insert(t, s)| == |s| + 1
    ensures Insert(t, s)[0] == t || (s != [] && Insert(t, s)[0] == s[0])
    decreases |s|
  {
    if s != [] && !StrLessEq(t.category, s[0].category) {
      InsertSorted(t, s[1..]);
      StrLessEqTotal(t.category, s[0].category);
      var r := Insert(t, s[1..]);
      assert Insert(t, s) == [s[0]] + r;
      assert ([s[0]] + r)[1..] == r;
      assert r[0] == t || r[0] == s[1];
    } else if s != [] {
      assert ([t] + s)[1..] == s;
    }
  }

  /** Inserting adds its count to the total. */
  lemma {:induction false} InsertTotal(t: Tally, s: seq<Tally>)
    ensures Total(Insert(t, s)) == t.count + Total(s)
    decreases |s|
  {
    if s != [] && !StrLessEq(t.category, s[0].category) {
      InsertTotal(t, s[1..]);
      assert ([s[0]] + Insert(t, s[1..]))[1..] == Insert(t, s[1..]);
    } else if s != [] {
      assert ([t] + s)[1..] == s;
    }
  }

  /** Inserting adds exactly the new tally. */
  lemma {:induction false} InsertContents(t: Tally, s: seq<Tally>)
    ensures multiset(Insert(t, s)) == multiset(s) + multiset{t}
    decreases |s|
  {
    if s != [] && !StrLessEq(t.category, s[0].category) {
      InsertContents(t, s[1..]);
      assert Insert(t, s) == [s[0]] + Insert(t, s[1..]);
      MultisetCons(s);
    }
  }

  lemma MultisetCons(s: seq<Tally>)
    requires s != []
    ensures multiset(s) == multiset{s[0]} + multiset(s[1..])
  {
    assert s == [s[0]] + s[1..];
  }

  /** Inserting adds the new category and keeps the categories distinct
      when it was not there yet. */
  lemma {:induction false} InsertNames(t: Tally, s: seq<Tally>)
    ensures TalliedNames(Insert(t, s)) == TalliedNames(s) + {t.category}
    ensures t.category !in TalliedNames(s) && DistinctCategories(s) ==> DistinctCategories(Insert(t, s))
    decreases |s|
  {
    if s != [] && !StrLessEq(t.category, s[0].category) {
      InsertNames(t, s[1..]);
      var r := Insert(t, s[1..]);
      assert Insert(t, s) == [s[0]] + r;
      assert ([s[0]] + r)[1..] == r;
    } else if s != [] {
      assert ([t] + s)[1..] == s;
    } else {
      assert [t][1..] == [];
    }
  }

  lemma {:induction false} SortByNameDistinct(moved: seq<Tally>)
    ensures TalliedNames(SortByName(moved)) == TalliedNames(moved)
    ensures DistinctCategories(moved) ==> DistinctCategories(SortByName(moved))
    decreases |moved|
  {
    if moved != [] {
      SortByNameDistinct(moved[1..]);
      InsertNames(moved[0], SortByName(moved[1..]));
    }
  }

  lemma {:induction false} DistinctIndices(s: seq<Tally>, i: nat, j: nat)
    requires DistinctCategories(s) && i < j < |s|
    ensures s[i].category != s[j].category
    decreases i
  {
    if i == 0 {
      assert s[1..][j - 1] == s[j];
      TalliedNamesMember(s[1..], j - 1);
    } else {
      DistinctIndices(s[1..], i - 1, j - 1);
    }
  }

  lemma {:induction false} SortedAdjacent(s: seq<Tally>, i: nat)
    requires SortedByName(s) && i + 1 < |s|
    ensures StrLessEq(s[i].category, s[i + 1].category)
    decreases i
  {
    if i > 0 {
      SortedAdjacent(s[1..], i - 1);
    }
  }

  /** The category lines of a dictionary-like tally: one line per
      category, in name order, each with that category's count, and a line
      for every category with a non-zero count. */
  lemma SummaryLines(moved: seq<Tally>)
    requires DistinctCategories(moved)
    ensures var s := SortByName(moved);
      var ls := CountLines(s);
      && |ls| == |moved|
      && (forall i | 0 <= i < |ls| :: ls[i] == CategoryCount(s[i].category, CountOf(moved, s[i].category)))
      && (forall c | CountOf(moved, c) > 0 :: exists i :: 0 <= i < |ls| && ls[i] == CategoryCount(c, CountOf(moved, c)))
      && (forall i, j | 0 <= i < j < |ls| :: ls[i].category != ls[j].category)
      && (forall i | 0 <= i < |ls| - 1 :: StrLessEq(ls[i].category, ls[i + 1].category))
  {
    var s := SortByName(moved);
    var ls := CountLines(s);
    SortByNameProperties(moved);
    SortByNameDistinct(moved);
    assert |s| == |moved| by {
      assert |multiset(s)| == |multiset(moved)|;
    }
    forall i | 0 <= i < |ls|
      ensures ls[i] == CategoryCount(s[i].category, CountOf(moved, s[i].category))
    {
      assert s[i] in multiset(moved);
      var k :| 0 <= k < |moved| && moved[k] == s[i];
      CountOfMember(moved, k);
    }
    forall c | CountOf(moved, c) > 0
      ensures exists i :: 0 <= i < |ls| && ls[i] == CategoryCount(c, CountOf(moved, c))
    {
      CountOfPositive(moved, c);
      var k :| 0 <= k < |moved| && moved[k].category == c;
      assert moved[k] in multiset(s);
      var i :| 0 <= i < |s| && s[i] == moved[k];
      CountOfMember(moved, k);
      assert ls[i] == CategoryCount(c, CountOf(moved, c));
    }
    forall i, j | 0 <= i < j < |ls|
      ensures ls[i].category != ls[j].category
    {
      DistinctIndices(s, i, j);
    }
    forall i | 0 <= i < |ls| - 1
      ensures StrLessEq(ls[i].category, ls[i + 1].category)
    {
      SortedAdjacent(s, i);
    }
  }

  /** The category summary lists the same tallies, in name order, with the
      same total. */
  lemma {:induction false} SortByNameProperties(moved: seq<Tally>)
    ensures SortedByName(SortByName(moved))
    ensures multiset(SortByName(moved)) == multiset(moved)
    ensures Total(SortByName(moved)) == Total(moved)
    decreases |moved|
  {
    if moved != [] {
      var rest := SortByName(moved[1..]);
      SortByNameProperties(moved[1..]);
      assert SortByName(moved) == Insert(moved[0], rest);
      assert SortedByName(SortByName(moved)) by {
        InsertSorted(moved[0], rest);
      }
      assert multiset(SortByName(moved)) == multiset(moved) by {
        InsertContents(moved[0], rest);
        MultisetCons(moved);
      }
      assert Total(SortByName(moved)) == Total(moved) by {
        InsertTotal(moved[0], rest);
      }
    }
  }

  /** One entry of the directory, with the category table `table`:
      directories and vanished entries are passed over, the others are
      routed to the folder of their category. */
  function Step(st: State, dir: Path, table: Table, createSubdirs: bool, faults: Faults, item: Path): State {
    if st.interrupted || item !in st.files then st
    else
      var cat := Categorize(table, Extension(item));
      Route(st, item, cat, if createSubdirs then Join(dir, cat) else dir, createSubdirs, faults)
  }

  /** Creating the category folder when asked to; `mkdir` raising ends the
      whole traversal, since the exception leaves the loop. */
  function Route(st: State, item: Path, cat: string, catPath: Path, createSubdirs: bool, faults: Faults): State
    requires item in st.files
  {
    if createSubdirs && catPath !in st.dirs && (catPath in st.files || catPath in faults.mkdir) then
      State(st.files, st.dirs, st.moved, st.errors, st.lines + [SortInterrupted], true)
    else
      var dirs := if createSubdirs then st.dirs + {catPath} else st.dirs;
      Place(st.(dirs := dirs), item, cat, Destination(st.files, dirs, item, catPath, Extension(item)), faults.move)
  }

  /** Moving the entry to `dest`, unless it is already there. */
  function Place(st: State, item: Path, cat: string, dest: Path, moveFaults: set<Path>): State
    requires item in st.files
  {
    if dest == item then st
    else if item in moveFaults then
      st.(errors := st.errors + 1, lines := st.lines + [MoveFailed(Name(item))])
    else
      st.(files := (st.files - {item})[dest := st.files[item]], moved := Bump(st.moved, cat),
          lines := st.lines + [Moved(Name(item), cat)])
  }

  /** All entries, in listing order. */
  function SortAll(st: State, dir: Path, table: Table, createSubdirs: bool, faults: Faults, items: seq<Path>): State
    decreases |items|
  {
    if items == [] then st
    else Step(SortAll(st, dir, table, createSubdirs, faults, items[..|items| - 1]), dir, table, createSubdirs, faults, items[|items| - 1])
  }

  /** The lines after the traversal: per-category counts in name order, then
      the total and the error count. */
  function Summary(moved: seq<Tally>, errors: nat): seq<Message> {
    [CategorySummary] + CountLines(SortByName(moved)) + [SortTotal(Total(moved), errors)]
  }

  /** One `Category: N files` line per tally, in the given order. */
  function CountLines(s: seq<Tally>): seq<Message> {
    seq(|s|, i requires 0 <= i < |s| => CategoryCount(s[i].category, s[i].count))
  }

  predicate IsMoved(m: Message) {
    m.Moved?
  }

  predicate IsMoveError(m: Message) {
    m.MoveFailed?
  }

  /** The tally agrees with the lines. */
  predicate Tallied(st: State) {
    && DistinctCategories(st.moved)
    && Total(st.moved) == Count(st.lines, IsMoved)
    && st.errors == Count(st.lines, IsMoveError)
  }

  /** A move counts at most one file. */
  lemma PlaceTallied(st: State, item: Path, cat: string, dest: Path, moveFaults: set<Path>)
    requires item in st.files && Tallied(st)
    ensures var r := Place(st, item, cat, dest, moveFaults);
      Tallied(r) && Total(r.moved) + r.errors <= Total(st.moved) + st.errors + 1
  {
    var r := Place(st, item, cat, dest, moveFaults);
    if dest != item {
      if item in moveFaults {
        assert r.moved == st.moved && r.errors == st.errors + 1 && r.lines == st.lines + [MoveFailed(Name(item))];
        CountSnoc(st.lines, MoveFailed(Name(item)), IsMoved);
        CountSnoc(st.lines, MoveFailed(Name(item)), IsMoveError);
      } else {
        assert r.moved == Bump(st.moved, cat) && r.errors == st.errors && r.lines == st.lines + [Moved(Name(item), cat)];
        CountSnoc(st.lines, Moved(Name(item), cat), IsMoved);
        CountSnoc(st.lines, Moved(Name(item), cat), IsMoveError);
      }
    }
  }

  /** A step counts at most one file, and only a file it was given. */
  lemma StepTallied(st: State, dir: Path, table: Table, createSubdirs: bool, faults: Faults, item: Path)
    requires Tallied(st)
    ensures var r := Step(st, dir, table, createSubdirs, faults, item);
      && Tallied(r)
      && Total(r.moved) + r.errors <= Total(st.moved) + st.errors + (if item in st.files then 1 else 0)
  {
    if !st.interrupted && item in st.files {
      var cat := Categorize(table, Extension(item));
      var catPath := if createSubdirs then Join(dir, cat) else dir;
      if createSubdirs && catPath !in st.dirs && (catPath in st.files || catPath in faults.mkdir) {
        CountSnoc(st.lines, SortInterrupted, IsMoved);
        CountSnoc(st.lines, SortInterrupted, IsMoveError);
      } else {
        var dirs := if createSubdirs then st.dirs + {catPath} else st.dirs;
        PlaceTallied(st.(dirs := dirs), item, cat, Destination(st.files, dirs, item, catPath, Extension(item)), faults.move);
      }
    }
  }

  /** A move to a free path never loses or overwrites a file and changes no
      other file. */
  lemma PlaceFrame(st: State, item: Path, cat: string, dest: Path, moveFaults: set<Path>)
    requires item in st.files
    requires dest == item || !Taken(st.files, st.dirs, dest)
    ensures var r := Place(st, item, cat, dest, moveFaults);
      && |r.files| == |st.files|
      && r.dirs == st.dirs
      && (forall p | p in st.files && p != item :: p in r.files && r.files[p] == st.files[p])
      && (forall p | p in r.files && p !in st.files :: p !in st.dirs)
  {
    if dest != item && item !in moveFaults {
      var r := Place(st, item, cat, dest, moveFaults);
      assert (st.files - {item}).Keys == st.files.Keys - {item};
      assert r.files.Keys == (st.files.Keys - {item}) + {dest};
    }
  }

  /** A step never loses or overwrites a file, keeps the directories it
      had, and changes no file other than the entry it is given. */
  lemma StepFrame(st: State, dir: Path, table: Table, createSubdirs: bool, faults: Faults, item: Path)
    ensures var r := Step(st, dir, table, createSubdirs, faults, item);
      && |r.files| == |st.files|
      && st.dirs <= r.dirs
      && (forall p | p in st.files && p != item :: p in r.files && r.files[p] == st.files[p])
      && (forall p | p in r.files && p !in st.files :: p !in st.dirs)
  {
    if !st.interrupted && item in st.files {
      var cat := Categorize(table, Extension(item));
      var catPath := if createSubdirs then Join(dir, cat) else dir;
      if !(createSubdirs && catPath !in st.dirs && (catPath in st.files || catPath in faults.mkdir)) {
        var dirs := if createSubdirs then st.dirs + {catPath} else st.dirs;
        var dest := Destination(st.files, dirs, item, catPath, Extension(item));
        DestinationFree(st.files, dirs, item, catPath, Extension(item));
        PlaceFrame(st.(dirs := dirs), item, cat, dest, faults.move);
      }
    }
  }

  /** Entries not yet reached keep their kind. */
  lemma {:induction false} LaterEntriesUnchanged(st0: State, dir: Path, table: Table, createSubdirs: bool, faults: Faults,
                                                 items: seq<Path>, n: nat, j: nat)
    requires Listing(st0.files, st0.dirs, items) && n <= j < |items|
    ensures var st := SortAll(st0, dir, table, createSubdirs, faults, items[..n]);
      (items[j] in st.files) == (items[j] in st0.files) && (items[j] in st.files || items[j] in st.dirs)
    decreases n
  {
    ListingEntries(st0.files, st0.dirs, items);
    if n > 0 {
      SortAllPrefix(st0, dir, table, createSubdirs, faults, items, n);
      LaterEntriesUnchanged(st0, dir, table, createSubdirs, faults, items, n - 1, j);
      var st := SortAll(st0, dir, table, createSubdirs, faults, items[..n - 1]);
      StepFrame(st, dir, table, createSubdirs, faults, items[n - 1]);
      assert items[n - 1] != items[j];
    }
  }

  lemma {:induction false} SortCountsPrefix(files: map<Path, Content>, dirs: set<Path>, dir: Path, table: Table,
                                            createSubdirs: bool, faults: Faults, items: seq<Path>, n: nat)
    requires Listing(files, dirs, items) && n <= |items|
    ensures var r := SortAll(Start(files, dirs), dir, table, createSubdirs, faults, items[..n]);
      Tallied(r) && Total(r.moved) + r.errors <= FileCount(files, items[..n])
    decreases n
  {
    if n == 0 {
      assert items[..0] == [];
    } else {
      var st := SortAll(Start(files, dirs), dir, table, createSubdirs, faults, items[..n - 1]);
      var item := items[n - 1];
      var bound := FileCount(files, items[..n - 1]);
      assert Tallied(st) && Total(st.moved) + st.errors <= bound by {
        SortCountsPrefix(files, dirs, dir, table, createSubdirs, faults, items, n - 1);
      }
      assert (item in st.files) == (item in files) by {
        LaterEntriesUnchanged(Start(files, dirs), dir, table, createSubdirs, faults, items, n - 1, n - 1);
      }
      FileCountPrefix(files, items, n);
      SortAllPrefix(Start(files, dirs), dir, table, createSubdirs, faults, items, n);
      StepBounded(st, dir, table, createSubdirs, faults, item, bound);
    }
  }

  /** One more entry of the listing is one more step. */
  lemma SortAllPrefix(st: State, dir: Path, table: Table, createSubdirs: bool, faults: Faults, items: seq<Path>, n: nat)
    requires 0 < n <= |items|
    ensures SortAll(st, dir, table, createSubdirs, faults, items[..n])
         == Step(SortAll(st, dir, table, createSubdirs, faults, items[..n - 1]), dir, table, createSubdirs, faults, items[n - 1])
  {
    assert items[..n][..n - 1] == items[..n - 1];
  }

  lemma StepBounded(st: State, dir: Path, table: Table, createSubdirs: bool, faults: Faults, item: Path, bound: nat)
    requires Tallied(st) && Total(st.moved) + st.errors <= bound
    ensures var r := Step(st, dir, table, createSubdirs, faults, item);
      Tallied(r) && Total(r.moved) + r.errors <= bound + (if item in st.files then 1 else 0)
  {
    StepTallied(st, dir, table, createSubdirs, faults, item);
  }

  /** Whether a line reports a file moved into category `c`. */
  function MoveTo(c: string): Message -> bool {
    (m: Message) => m.Moved? && m.category == c
  }

  lemma PlaceTalliedTo(st: State, item: Path, cat: string, dest: Path, moveFaults: set<Path>, c: string)
    requires item in st.files && Positive(st.moved) && CountOf(st.moved, c) == Count(st.lines, MoveTo(c))
    ensures var r := Place(st, item, cat, dest, moveFaults);
      Positive(r.moved) && CountOf(r.moved, c) == Count(r.lines, MoveTo(c))
  {
    if dest != item {
      if item in moveFaults {
        CountSnoc(st.lines, MoveFailed(Name(item)), MoveTo(c));
      } else {
        BumpCounts(st.moved, cat, c);
        BumpPositive(st.moved, cat);
        CountSnoc(st.lines, Moved(Name(item), cat), MoveTo(c));
      }
    }
  }

  /** A step adds one to the count of category `c` exactly when it reports
      a move into `c`. */
  lemma StepTalliedTo(st: State, dir: Path, table: Table, createSubdirs: bool, faults: Faults, item: Path, c: string)
    requires Positive(st.moved) && CountOf(st.moved, c) == Count(st.lines, MoveTo(c))
    ensures var r := Step(st, dir, table, createSubdirs, faults, item);
      Positive(r.moved) && CountOf(r.moved, c) == Count(r.lines, MoveTo(c))
  {
    if !st.interrupted && item in st.files {
      var cat := Categorize(table, Extension(item));
      var catPath := if createSubdirs then Join(dir, cat) else dir;
      if createSubdirs && catPath !in st.dirs && (catPath in st.files || catPath in faults.mkdir) {
        CountSnoc(st.lines, SortInterrupted, MoveTo(c));
      } else {
        var dirs := if createSubdirs then st.dirs + {catPath} else st.dirs;
        PlaceTalliedTo(st.(dirs := dirs), item, cat, Destination(st.files, dirs, item, catPath, Extension(item)), faults.move, c);
      }
    }
  }

  lemma {:induction false} SortCountsTo(st: State, dir: Path, table: Table, createSubdirs: bool, faults: Faults,
                                        items: seq<Path>, c: string)
    requires Positive(st.moved) && CountOf(st.moved, c) == Count(st.lines, MoveTo(c))
    ensures var r := SortAll(st, dir, table, createSubdirs, faults, items);
      Positive(r.moved) && CountOf(r.moved, c) == Count(r.lines, MoveTo(c))
    decreases |items|
  {
    if items != [] {
      var prefix := items[..|items| - 1];
      SortCountsTo(st, dir, table, createSubdirs, faults, prefix, c);
      StepTalliedTo(SortAll(st, dir, table, createSubdirs, faults, prefix), dir, table, createSubdirs, faults,
                    items[|items| - 1], c);
    }
  }

  /** The summary numbers: the total moved equals the number of successful
      moves, the errors equal the failed moves, and together they are at
      most the number of regular files the directory held. */
  lemma SortCounts(files: map<Path, Content>, dirs: set<Path>, dir: Path, table: Table, createSubdirs: bool,
                   faults: Faults, items: seq<Path>)
    requires Listing(files, dirs, items)
    ensures var r := SortAll(Start(files, dirs), dir, table, createSubdirs, faults, items);
      && Total(r.moved) == Count(r.lines, IsMoved)
      && r.errors == Count(r.lines, IsMoveError)
      && Total(r.moved) + r.errors <= FileCount(files, items)
      && DistinctCategories(r.moved)
      && Positive(r.moved)
      && (forall c :: CountOf(r.moved, c) == Count(r.lines, MoveTo(c)))
  {
    SortCountsPrefix(files, dirs, dir, table, createSubdirs, faults, items, |items|);
    assert items[..|items|] == items;
    forall c
      ensures CountOf(SortAll(Start(files, dirs), dir, table, createSubdirs, faults, items).moved, c)
           == Count(SortAll(Start(files, dirs), dir, table, createSubdirs, faults, items).lines, MoveTo(c))
    {
      SortCountsTo(Start(files, dirs), dir, table, createSubdirs, faults, items, c);
    }
    SortCountsTo(Start(files, dirs), dir, table, createSubdirs, faults, items, "");
  }

  /** The category summary of a sort: one line per category, in name
      order, each saying how many moves into that category the report
      lists, and a line for every category that received a file. */
  lemma SortSummary(files: map<Path, Content>, dirs: set<Path>, dir: Path, table: Table, createSubdirs: bool,
                    faults: Faults, items: seq<Path>)
    requires Listing(files, dirs, items)
    ensures var r := SortAll(Start(files, dirs), dir, table, createSubdirs, faults, items);
      var ls := CountLines(SortByName(r.moved));
      && (forall i | 0 <= i < |ls| ::
            ls[i].CategoryCount? && ls[i].count == Count(r.lines, MoveTo(ls[i].category)) && ls[i].count > 0)
      && (forall c | Count(r.lines, MoveTo(c)) > 0 ::
            exists i :: 0 <= i < |ls| && ls[i] == CategoryCount(c, Count(r.lines, MoveTo(c))))
      && (forall i, j | 0 <= i < j < |ls| :: ls[i].category != ls[j].category)
      && (forall i | 0 <= i < |ls| - 1 :: StrLessEq(ls[i].category, ls[i + 1].category))
  {
    var r := SortAll(Start(files, dirs), dir, table, createSubdirs, faults, items);
    var s := SortByName(r.moved);
    var ls := CountLines(s);
    SortCounts(files, dirs, dir, table, createSubdirs, faults, items);
    SummaryLines(r.moved);
    forall i | 0 <= i < |ls|
      ensures ls[i].CategoryCount? && ls[i].count == Count(r.lines, MoveTo(ls[i].category)) && ls[i].count > 0
    {
      assert ls[i] == CategoryCount(s[i].category, CountOf(r.moved, s[i].category));
      assert CountOf(r.moved, s[i].category) > 0 by {
        SortByNameProperties(r.moved);
        assert s[i] in multiset(r.moved);
        var k :| 0 <= k < |r.moved| && r.moved[k] == s[i];
        CountOfMember(r.moved, k);
      }
    }
  }

  /** Sorting keeps the number of files, keeps every directory, and leaves
      every file outside the listing where it was with its bytes. */
  lemma {:induction false} SortFrame(st: State, dir: Path, table: Table, createSubdirs: bool, faults: Faults, items: seq<Path>)
    ensures var r := SortAll(st, dir, table, createSubdirs, faults, items);
      && |r.files| == |st.files|
      && st.dirs <= r.dirs
      && (forall p | p in st.files && p !in items :: p in r.files && r.files[p] == st.files[p])
    decreases |items|
  {
    if items != [] {
      var front := items[..|items| - 1];
      SortFrame(st, dir, table, createSubdirs, faults, front);
      var mid := SortAll(st, dir, table, createSubdirs, faults, front);
      StepFrame(mid, dir, table, createSubdirs, faults, items[|items| - 1]);
      forall p | p in st.files && p !in items
        ensures p in SortAll(st, dir, table, createSubdirs, faults, items).files
      {
        assert p !in front;
      }
    }
  }

  /** Without category folders every entry's destination is itself, so
      nothing moves, no line is added and no counter changes. */
  lemma {:induction false} SortInPlace(st: State, dir: Path, table: Table, faults: Faults, items: seq<Path>)
    requires forall i :: 0 <= i < |items| ==> IsChild(dir, items[i])
    ensures SortAll(st, dir, table, false, faults, items) == st
    decreases |items|
  {
    if items != [] {
      SortInPlace(st, dir, table, faults, items[..|items| - 1]);
      ChildIsJoin(dir, items[|items| - 1]);
    }
  }

  /** A move that neither `mkdir` nor the move itself refuses puts the
      file's bytes in its category folder: under its own name when that is
      free, otherwise under the first free collision name `{stem}_{N}{ext}`;
      the entry's old path is gone and the move is reported and tallied. */
  lemma StepMoves(st: State, dir: Path, table: Table, faults: Faults, item: Path)
    requires IsChild(dir, item) && ProperTable(table)
    requires !st.interrupted && item in st.files && item !in faults.move
    requires var catPath := dir + [Categorize(table, Extension(item))];
      catPath in st.dirs || (catPath !in st.files && catPath !in faults.mkdir)
    ensures var cat := Categorize(table, Extension(item));
      var catPath := dir + [cat];
      var plain := catPath + [Name(item)];
      var r := Step(st, dir, table, true, faults, item);
      var dirs := st.dirs + {catPath};
      var dest := if Taken(st.files, dirs, plain)
                  then Candidate(catPath, Stem(Name(item)), Extension(item),
                                 FreeCounter(st.files, dirs, catPath, Stem(Name(item)), Extension(item)))
                  else plain;
      && !Taken(st.files, dirs, dest)
      && item !in r.files && dest in r.files && r.files[dest] == st.files[item]
      && r.dirs == dirs
      && r.moved == Bump(st.moved, cat)
      && r.lines == st.lines + [Moved(Name(item), cat)]
  {
    var cat := Categorize(table, Extension(item));
    CategoryNameProper(table, Extension(item));
    var catPath := Join(dir, cat);
    assert catPath == dir + [cat];
    var dirs := st.dirs + {catPath};
    var dest := Destination(st.files, dirs, item, catPath, Extension(item));
    assert |dest| == |dir| + 2;
    assert Step(st, dir, table, true, faults, item) == Place(st.(dirs := dirs), item, cat, dest, faults.move);
  }

  /** Category names of the table, and "Others", are single proper names. */
  predicate ProperTable(table: Table) {
    forall i :: 0 <= i < |table| ==> ProperName(table[i].name)
  }

  lemma CategoryNameProper(table: Table, ext: string)
    requires ProperTable(table)
    ensures ProperName(Categorize(table, ext))
  {
    var k := FirstMatch(table, ext, 0);
    if k < |table| {
      assert ProperName(table[k].name);
    }
  }

  /** Once the traversal has been cut short, the remaining entries change
      nothing. */
  lemma {:induction false} SortStopsWhenInterrupted(st: State, dir: Path, table: Table, createSubdirs: bool, faults: Faults,
                                                    items: seq<Path>, n: nat)
    requires n <= |items| && SortAll(st, dir, table, createSubdirs, faults, items[..n]).interrupted
    ensures SortAll(st, dir, table, createSubdirs, faults, items) == SortAll(st, dir, table, createSubdirs, faults, items[..n])
    decreases |items| - n
  {
    if n < |items| {
      assert items[..n + 1][..n] == items[..n];
      SortStopsWhenInterrupted(st, dir, table, createSubdirs, faults, items, n + 1);
    } else {
      assert items[..n] == items;
    }
  }

  lemma TotalFrom(s: seq<Tally>, j: nat)
    requires j < |s|
    ensures Total(s[j..]) == s[j].count + Total(s[j + 1..])
  {
    assert s[j..][1..] == s[j + 1..];
  }

  lemma CountLinesSnoc(s: seq<Tally>, j: nat)
    requires j < |s|
    ensures CountLines(s[..j + 1]) == CountLines(s[..j]) + [CategoryCount(s[j].category, s[j].count)]
  {
    var r := CountLines(s[..j]) + [CategoryCount(s[j].category, s[j].count)];
    assert forall i | 0 <= i < j + 1 :: CountLines(s[..j + 1])[i] == r[i];
  }
}
