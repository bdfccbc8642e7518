/** The file system the file manager works on: regular files with their
    bytes, and directories. The operating-system calls the source makes
    are methods here; whether the system refuses one (permissions, locks)
    is decided by the caller and passed in as `fails`. */
module Fs {
  import opened Paths

  type Byte = bv8
  type Content = seq<Byte>

  /** No element appears twice. */
  predicate Distinct<T(==)>(s: seq<T>) {
    forall i, j :: 0 <= i < j < |s| ==> s[i] != s[j]
  }

  /** A directory listing of the system: every entry is a regular file
      or a directory, and no entry is listed twice. */
  predicate Listing(files: map<Path, Content>, dirs: set<Path>, items: seq<Path>)
    decreases |items|
  {
    items == [] ||
    var last := items[|items| - 1];
    && Listing(files, dirs, items[..|items| - 1])
    && (last in files || last in dirs)
    && last !in items[..|items| - 1]
  }

  /** A listing names existing entries, each once. */
  lemma {:induction false} ListingEntries(files: map<Path, Content>, dirs: set<Path>, items: seq<Path>)
    requires Listing(files, dirs, items)
    ensures Distinct(items)
    ensures forall i :: 0 <= i < |items| ==> items[i] in files || items[i] in dirs
    decreases |items|
  {
    if items != [] {
      var front := items[..|items| - 1];
      ListingEntries(files, dirs, front);
      forall i, j | 0 <= i < j < |items| ensures items[i] != items[j] {
        if j < |items| - 1 {
          assert items[i] == front[i] && items[j] == front[j];
        } else {
          assert items[i] == front[i];
        }
      }
      forall i | 0 <= i < |items| ensures items[i] in files || items[i] in dirs {
        if i < |items| - 1 {
          assert items[i] == front[i];
        }
      }
    }
  }

  /** The number of entries of `items` that are regular files. */
  function FileCount(files: map<Path, Content>, items: seq<Path>): (n: nat)
    ensures n <= |items|
    decreases |items|
  {
    if items == [] then 0
    else FileCount(files, items[..|items| - 1]) + (if items[|items| - 1] in files then 1 else 0)
  }

  /** One more entry counts one more file when it is one. */
  lemma FileCountPrefix(files: map<Path, Content>, items: seq<Path>, n: nat)
    requires 0 < n <= |items|
    ensures FileCount(files, items[..n]) == FileCount(files, items[..n - 1]) + (if items[n - 1] in files then 1 else 0)
  {
    assert items[..n][..n - 1] == items[..n - 1];
  }

  /** Where the system's lookup of a path, component by component, ends:
      on a directory it walked through or climbed to with "..", on an
      entry named by the last component (which may or may not exist), or
      nowhere, because a component before the last is not a directory. */
  datatype Lookup = AtDirectory(path: Path) | AtEntry(path: Path) | Unreachable

  /** Looking up the components `comps` starting from the directory `cur`:
      ".." climbs to the parent (the root is its own parent), any other
      component must name a directory unless it is the last one. */
  function Walk(dirs: set<Path>, cur: Path, comps: seq<string>): (l: Lookup)
    decreases |comps|
  {
    if comps == [] then AtDirectory(cur)
    else if comps[0] == ".." then Walk(dirs, Parent(cur), comps[1..])
    else if |comps| == 1 then AtEntry(cur + [comps[0]])
    else if cur + [comps[0]] in dirs then Walk(dirs, cur + [comps[0]], comps[1..])
    else Unreachable
  }

  /** `exists()` on a looked-up path: directories reached on the way exist,
      an entry exists when a file or a directory is there. */
  predicate Found(files: map<Path, Content>, dirs: set<Path>, l: Lookup) {
    l.AtDirectory? || (l.AtEntry? && (l.path in files || l.path in dirs))
  }

  /** Without "..", a lookup that gets through reaches exactly the path
      the components spell out. */
  lemma {:induction false} WalkLexical(dirs: set<Path>, cur: Path, comps: seq<string>)
    requires ".." !in comps
    ensures Walk(dirs, cur, comps) == Unreachable || Walk(dirs, cur, comps).path == cur + comps
    ensures Walk(dirs, cur, comps).AtDirectory? ==> comps == []
    decreases |comps|
  {
    if |comps| > 1 && cur + [comps[0]] in dirs {
      assert ".." !in comps[1..] by {
        forall i | 0 <= i < |comps[1..]| ensures comps[1..][i] != ".." {
          assert comps[1..][i] == comps[i + 1];
        }
      }
      WalkLexical(dirs, cur + [comps[0]], comps[1..]);
      assert cur + [comps[0]] + comps[1..] == cur + comps;
    } else if |comps| == 1 {
      assert comps == [comps[0]];
    }
  }

  class FileSystem {
    var files: map<Path, Content>
    var dirs: set<Path>

    constructor (files0: map<Path, Content>, dirs0: set<Path>)
      ensures files == files0 && dirs == dirs0
    {
      files := files0;
      dirs := dirs0;
    }

    /** `Path.exists()`: a file or a directory is there. */
    predicate Exists(p: Path)
      reads this
    {
      p in files || p in dirs
    }

    /** `exists()` on the outcome of a lookup. */
    predicate ExistsAt(l: Lookup)
      reads this
    {
      Found(files, dirs, l)
    }

    /** `iterdir()` on an existing path: the entries it yields and whether
        it raises after them. The entries are given as `yielded`, and
        `fails` says whether the system refuses to go on (an unreadable
        folder refuses at once); a regular file raises before any entry. */
    method IterDir(p: Path, yielded: seq<Path>, fails: bool) returns (entries: seq<Path>, raised: bool)
      ensures entries == if p in files then [] else yielded
      ensures raised == (p in files || fails)
    {
      if p in files {
        entries, raised := [], true;
      } else {
        entries, raised := yielded, fails;
      }
    }

    /** `stat().st_size` of a regular file. */
    method Size(p: Path) returns (n: nat)
      requires p in files
      ensures n == |files[p]|
    {
      n := |files[p]|;
    }

    /** `Path.rename` / `shutil.move` of a regular file to a free path. */
    method Move(src: Path, dst: Path, fails: bool) returns (ok: bool)
      requires src in files && !Exists(dst)
      modifies this
      ensures ok == !fails
      ensures dirs == old(dirs)
      ensures files == if ok then (old(files) - {src})[dst := old(files)[src]] else old(files)
    {
      ok := !fails;
      if ok {
        files := (files - {src})[dst := files[src]];
      }
    }

    /** `Path.mkdir(exist_ok=True)`: succeeds at once on an existing
        directory, raises when a regular file is in the way. */
    method MakeDir(p: Path, fails: bool) returns (ok: bool)
      modifies this
      ensures ok == (p in old(dirs) || (p !in old(files) && !fails))
      ensures files == old(files)
      ensures dirs == if ok then old(dirs) + {p} else old(dirs)
    {
      ok := p in dirs || (p !in files && !fails);
      if ok {
        dirs := dirs + {p};
      }
    }

    /** `Path.unlink()`: raises when the file is gone or the system refuses. */
    method Unlink(p: Path, fails: bool) returns (ok: bool)
      modifies this
      ensures ok == (p in old(files) && !fails)
      ensures dirs == old(dirs)
      ensures files == if ok then old(files) - {p} else old(files)
    {
      ok := p in files && !fails;
      if ok {
        files := files - {p};
      }
    }
  }
}
