/** The duplicate engine as a specification: hashing the files of a
    recursive walk, grouping them by digest in traversal order, keeping the
    groups of two or more, and the keep/remove pass over those groups.
    `FileManager.FindDuplicates` is proved to produce exactly these values. */
module Duplicates {
  import opened Paths
  import opened Fs
  import opened Report

  datatype Option<T> = None | Some(value: T)

  /** An MD5 hex digest: always 32 characters, so never the empty string
      that `if file_hash:` would reject. */
  type Digest = d: string | |d| == 32 witness "00000000000000000000000000000000"

  /** `get_file_hash`: the digest of the file's bytes, or None when the file
      cannot be read. The digest function itself is a parameter. */
  function FileHash(files: map<Path, Content>, unreadable: set<Path>, md5: Content -> Digest, p: Path): Option<Digest> {
    if p in files && p !in unreadable then Some(md5(files[p])) else None
  }

  // ---------------------------------------------------------------------
  // Scanning: which files get a digest

  /** The entries of the walk that are regular files and hash, with their
      digests, in traversal order. */
  function Hashed(files: map<Path, Content>, unreadable: set<Path>, md5: Content -> Digest, items: seq<Path>): seq<(Path, Digest)>
    decreases |items|
  {
    if items == [] then []
    else
      var front := Hashed(files, unreadable, md5, items[..|items| - 1]);
      var item := items[|items| - 1];
      if item in files then
        match FileHash(files, unreadable, md5, item)
        case Some(h) => front + [(item, h)]
        case None => front
      else front
  }

  /** No path is hashed twice. */
  predicate DistinctPaths(hs: seq<(Path, Digest)>) {
    forall i, j :: 0 <= i < j < |hs| ==> hs[i].0 != hs[j].0
  }

  /** The scan hashes exactly the readable regular files of the walk, each
      once, and pairs each with the digest of its bytes; a file whose hash
      fails is in no bucket and is not counted. */
  lemma {:induction false} HashedSpec(files: map<Path, Content>, unreadable: set<Path>, md5: Content -> Digest, items: seq<Path>)
    ensures var hs := Hashed(files, unreadable, md5, items);
      && (forall k :: 0 <= k < |hs| ==>
            hs[k].0 in items && hs[k].0 in files && hs[k].0 !in unreadable && hs[k].1 == md5(files[hs[k].0]))
      && (forall i :: 0 <= i < |items| && items[i] in files && items[i] !in unreadable ==>
            (items[i], md5(files[items[i]])) in hs)
      && (Distinct(items) ==> DistinctPaths(hs))
      && |hs| <= |items|
    decreases |items|
  {
    if items != [] {
      var front := items[..|items| - 1];
      var last := items[|items| - 1];
      HashedSpec(files, unreadable, md5, front);
      var hs := Hashed(files, unreadable, md5, items);
      var fs := Hashed(files, unreadable, md5, front);
      assert forall k :: 0 <= k < |fs| ==> fs[k].0 in front;
      forall i | 0 <= i < |items| && items[i] in files && items[i] !in unreadable
        ensures (items[i], md5(files[items[i]])) in hs
      {
        if i < |items| - 1 {
          assert items[i] == front[i];
        }
      }
      if Distinct(items) {
        assert Distinct(front);
        forall k | 0 <= k < |fs| ensures fs[k].0 != last {
          var i :| 0 <= i < |front| && front[i] == fs[k].0;
          assert items[i] == front[i];
        }
      }
    }
  }

  // ---------------------------------------------------------------------
  // Grouping by digest

  /** `hash_map`: a defaultdict of lists, keys in first-insertion order. */
  datatype Buckets = Buckets(order: seq<Digest>, groups: map<Digest, seq<Path>>)

  /** `hash_map[h].append(p)`. */
  function Insert(b: Buckets, h: Digest, p: Path): Buckets {
    if h in b.groups then Buckets(b.order, b.groups[h := b.groups[h] + [p]])
    else Buckets(b.order + [h], b.groups[h := [p]])
  }

  /** The buckets after appending every hashed file in traversal order. */
  function BucketsOf(hs: seq<(Path, Digest)>): Buckets
    decreases |hs|
  {
    if hs == [] then Buckets([], map[])
    else Insert(BucketsOf(hs[..|hs| - 1]), hs[|hs| - 1].1, hs[|hs| - 1].0)
  }

  /** Reference definition of a bucket: the paths with digest h, in
      traversal order. */
  function Select(hs: seq<(Path, Digest)>, h: Digest): seq<Path>
    decreases |hs|
  {
    if hs == [] then []
    else Select(hs[..|hs| - 1], h) + (if hs[|hs| - 1].1 == h then [hs[|hs| - 1].0] else [])
  }

  /** Every key is listed once in the order, every listed key has a
      non-empty bucket. */
  ghost predicate WellFormed(b: Buckets) {
    && Distinct(b.order)
    && (forall h :: h in b.groups <==> h in b.order)
    && (forall h | h in b.groups :: b.groups[h] != [])
  }

  /** The grouping fold builds exactly the reference buckets: the bucket of
      a digest holds the files with that digest in traversal order, and a
      digest has a bucket exactly when some file has it. */
  lemma {:induction false} BucketsOfSelect(hs: seq<(Path, Digest)>)
    ensures WellFormed(BucketsOf(hs))
    ensures forall h :: (h in BucketsOf(hs).groups) == (Select(hs, h) != [])
    ensures forall h | h in BucketsOf(hs).groups :: BucketsOf(hs).groups[h] == Select(hs, h)
    decreases |hs|
  {
    if hs != [] {
      BucketsOfSelect(hs[..|hs| - 1]);
      var b := BucketsOf(hs[..|hs| - 1]);
      var l := hs[|hs| - 1];
      if l.1 !in b.groups {
        forall i, j | 0 <= i < j < |b.order + [l.1]| ensures (b.order + [l.1])[i] != (b.order + [l.1])[j] {
          if j == |b.order| {
            assert b.order[i] in b.order;
          }
        }
      }
    }
  }

  /** Members of a bucket really carry its digest. */
  lemma {:induction false} SelectSound(hs: seq<(Path, Digest)>, h: Digest)
    ensures forall k :: 0 <= k < |Select(hs, h)| ==> (Select(hs, h)[k], h) in hs
    decreases |hs|
  {
    if hs != [] {
      var front := hs[..|hs| - 1];
      SelectSound(front, h);
      forall k | 0 <= k < |Select(hs, h)| ensures (Select(hs, h)[k], h) in hs {
        if k < |Select(front, h)| {
          assert Select(hs, h)[k] == Select(front, h)[k];
          assert (Select(front, h)[k], h) in front;
        } else {
          assert Select(hs, h)[k] == hs[|hs| - 1].0;
        }
      }
    }
  }

  /** Every file with the digest is in its bucket. */
  lemma {:induction false} SelectComplete(hs: seq<(Path, Digest)>, h: Digest)
    ensures forall i :: 0 <= i < |hs| && hs[i].1 == h ==> hs[i].0 in Select(hs, h)
    decreases |hs|
  {
    if hs != [] {
      var front := hs[..|hs| - 1];
      SelectComplete(front, h);
      forall i | 0 <= i < |hs| && hs[i].1 == h ensures hs[i].0 in Select(hs, h) {
        if i < |hs| - 1 {
          assert hs[i] == front[i];
        }
      }
    }
  }

  /** A bucket holds no path twice, and two buckets share no path. */
  lemma {:induction false} SelectDistinct(hs: seq<(Path, Digest)>, h: Digest, h': Digest)
    requires DistinctPaths(hs)
    ensures Distinct(Select(hs, h))
    ensures h != h' ==> forall p :: p in Select(hs, h) ==> p !in Select(hs, h')
    decreases |hs|
  {
    if hs != [] {
      var front := hs[..|hs| - 1];
      var l := hs[|hs| - 1];
      assert DistinctPaths(front);
      SelectDistinct(front, h, h');
      SelectSound(front, h);
      SelectSound(front, h');
      forall p | p in Select(front, h) ensures p != l.0 {
        var k :| 0 <= k < |Select(front, h)| && Select(front, h)[k] == p;
        assert (p, h) in front;
      }
      forall p | p in Select(front, h') ensures p != l.0 {
        var k :| 0 <= k < |Select(front, h')| && Select(front, h')[k] == p;
        assert (p, h') in front;
      }
    }
  }

  // ---------------------------------------------------------------------
  // Selecting the duplicate groups

  /** The digests, in bucket order, whose bucket holds more than one file. */
  function DupDigests(order: seq<Digest>, groups: map<Digest, seq<Path>>): (dd: seq<Digest>)
    ensures forall k :: 0 <= k < |dd| ==> dd[k] in groups && |groups[dd[k]]| > 1
    ensures forall h :: h in dd <==> h in order && h in groups && |groups[h]| > 1
    ensures Distinct(order) ==> Distinct(dd)
    decreases |order|
  {
    if order == [] then []
    else
      var front := DupDigests(order[..|order| - 1], groups);
      var h := order[|order| - 1];
      assert forall g :: g in order[..|order| - 1] ==> g in order;
      assert forall g :: g in order ==> g in order[..|order| - 1] || g == h;
      if h in groups && |groups[h]| > 1 then front + [h] else front
  }

  /** `duplicates_found`: the buckets of more than one file, in bucket order. */
  function DuplicateGroups(order: seq<Digest>, groups: map<Digest, seq<Path>>): (found: seq<seq<Path>>)
    ensures |found| == |DupDigests(order, groups)|
    ensures forall k :: 0 <= k < |found| ==> found[k] == groups[DupDigests(order, groups)[k]] && |found[k]| >= 2
  {
    var dd := DupDigests(order, groups);
    seq(|dd|, k requires 0 <= k < |dd| => groups[dd[k]])
  }

  /** All the files of the groups, group after group. */
  function Flatten(gs: seq<seq<Path>>): seq<Path>
    decreases |gs|
  {
    if gs == [] then [] else Flatten(gs[..|gs| - 1]) + gs[|gs| - 1]
  }

  /** The bucket of each digest of dd, in that order. */
  function SelectAll(hs: seq<(Path, Digest)>, dd: seq<Digest>): seq<seq<Path>> {
    seq(|dd|, k requires 0 <= k < |dd| => Select(hs, dd[k]))
  }

  /** The reported groups are the reference buckets of the shared digests:
      every group has at least two files, all with the same digest, and
      every digest shared by two or more hashed files has its group. */
  lemma DuplicateGroupsSelect(hs: seq<(Path, Digest)>)
    ensures var b := BucketsOf(hs);
      var dd := DupDigests(b.order, b.groups);
      && DuplicateGroups(b.order, b.groups) == SelectAll(hs, dd)
      && (forall k :: 0 <= k < |dd| ==> |Select(hs, dd[k])| >= 2)
      && Distinct(dd)
      && (forall h :: h in dd <==> |Select(hs, h)| >= 2)
  {
    BucketsOfSelect(hs);
    var b := BucketsOf(hs);
    var dd := DupDigests(b.order, b.groups);
    forall h ensures h in dd <==> |Select(hs, h)| >= 2 {
      if |Select(hs, h)| >= 2 {
        assert h in b.groups;
      }
    }
  }

  /** No group is reported exactly when no digest is shared by two hashed
      files. */
  lemma NoGroupsIff(hs: seq<(Path, Digest)>)
    ensures var b := BucketsOf(hs);
      DuplicateGroups(b.order, b.groups) == [] <==> forall h :: |Select(hs, h)| < 2
  {
    var b := BucketsOf(hs);
    var dd := DupDigests(b.order, b.groups);
    var found := DuplicateGroups(b.order, b.groups);
    assert |found| == |dd|;
    assert forall h :: h in dd <==> |Select(hs, h)| >= 2 by {
      DuplicateGroupsSelect(hs);
    }
    if dd != [] {
      assert |Select(hs, dd[0])| >= 2;
      assert found != [];
    } else {
      assert found == [];
      forall h ensures |Select(hs, h)| < 2 {
        assert h !in dd;
      }
    }
  }

  /** Every member of a reported group is a readable file of the walk
      whose bytes have the group's digest, and no file is in two groups or
      twice in one. */
  lemma DuplicateGroupsSpec(files: map<Path, Content>, unreadable: set<Path>, md5: Content -> Digest, items: seq<Path>)
    requires Distinct(items)
    ensures var hs := Hashed(files, unreadable, md5, items);
      var b := BucketsOf(hs);
      var dd := DupDigests(b.order, b.groups);
      var found := DuplicateGroups(b.order, b.groups);
      && (forall k, i :: 0 <= k < |found| && 0 <= i < |found[k]| ==>
            found[k][i] in files && found[k][i] in items && found[k][i] !in unreadable && md5(files[found[k][i]]) == dd[k])
      && Distinct(Flatten(found))
  {
    var hs := Hashed(files, unreadable, md5, items);
    var b := BucketsOf(hs);
    var dd := DupDigests(b.order, b.groups);
    var found := DuplicateGroups(b.order, b.groups);
    assert found == SelectAll(hs, dd) && Distinct(dd) by {
      DuplicateGroupsSelect(hs);
    }
    forall k, i | 0 <= k < |found| && 0 <= i < |found[k]|
      ensures found[k][i] in files && found[k][i] in items && found[k][i] !in unreadable && md5(files[found[k][i]]) == dd[k]
    {
      assert (found[k][i], dd[k]) in hs by {
        SelectSound(hs, dd[k]);
        assert found[k] == Select(hs, dd[k]);
      }
      HashedMember(files, unreadable, md5, items, found[k][i], dd[k]);
    }
    assert Distinct(Flatten(found)) by {
      HashedSpec(files, unreadable, md5, items);
      FlattenDistinct(hs, dd);
    }
  }

  /** A pair of the hashed walk is a readable file of it with its digest. */
  lemma HashedMember(files: map<Path, Content>, unreadable: set<Path>, md5: Content -> Digest, items: seq<Path>,
                     p: Path, h: Digest)
    requires (p, h) in Hashed(files, unreadable, md5, items)
    ensures p in files && p in items && p !in unreadable && md5(files[p]) == h
  {
    HashedSpec(files, unreadable, md5, items);
    var hs := Hashed(files, unreadable, md5, items);
    var j :| 0 <= j < |hs| && hs[j] == (p, h);
  }

  /** Buckets of distinct digests, laid end to end, hold no path twice. */
  lemma {:induction false} FlattenDistinct(hs: seq<(Path, Digest)>, dd: seq<Digest>)
    requires DistinctPaths(hs) && Distinct(dd)
    ensures Distinct(Flatten(SelectAll(hs, dd)))
    ensures forall p :: p in Flatten(SelectAll(hs, dd)) ==> exists k :: 0 <= k < |dd| && p in Select(hs, dd[k])
    decreases |dd|
  {
    if dd != [] {
      var n := |dd|;
      var front := dd[..n - 1];
      assert SelectAll(hs, dd)[..n - 1] == SelectAll(hs, front);
      assert Distinct(front);
      FlattenDistinct(hs, front);
      var a, g := Flatten(SelectAll(hs, front)), Select(hs, dd[n - 1]);
      assert Flatten(SelectAll(hs, dd)) == a + g;
      SelectDistinct(hs, dd[n - 1], dd[n - 1]);
      forall p | p in a ensures p !in g {
        var k :| 0 <= k < n - 1 && p in Select(hs, front[k]);
        assert front[k] == dd[k];
        SelectDistinct(hs, dd[k], dd[n - 1]);
      }
      DistinctConcat(a, g);
      forall p | p in a + g ensures exists k :: 0 <= k < n && p in Select(hs, dd[k]) {
        if p in a {
          var k :| 0 <= k < n - 1 && p in Select(hs, front[k]);
          assert front[k] == dd[k];
        } else {
          assert p in Select(hs, dd[n - 1]);
        }
      }
    }
  }

  lemma DistinctConcat(a: seq<Path>, b: seq<Path>)
    requires Distinct(a) && Distinct(b)
    requires forall p :: p in a ==> p !in b
    ensures Distinct(a + b)
  {
    forall i, j | 0 <= i < j < |a + b| ensures (a + b)[i] != (a + b)[j] {
      if i < |a| && j >= |a| {
        assert (a + b)[i] in a;
        assert (a + b)[j] == b[j - |a|];
      }
    }
  }

  /** `total_duplicates`: the sum over groups of the group size minus one. */
  function DuplicateCount(groups: seq<seq<Path>>): nat
    decreases |groups|
  {
    if groups == [] then 0
    else DuplicateCount(groups[..|groups| - 1]) + (if |groups[|groups| - 1]| > 0 then |groups[|groups| - 1]| - 1 else 0)
  }

  /** The total counts every grouped file except one per group. */
  lemma {:induction false} DuplicateCountFlatten(groups: seq<seq<Path>>)
    requires forall k :: 0 <= k < |groups| ==> |groups[k]| >= 1
    ensures DuplicateCount(groups) == |Flatten(groups)| - |groups|
    ensures DuplicateCount(groups) >= |groups| <== forall k :: 0 <= k < |groups| ==> |groups[k]| >= 2
    decreases |groups|
  {
    if groups != [] {
      DuplicateCountFlatten(groups[..|groups| - 1]);
    }
  }

  // ---------------------------------------------------------------------
  // The keep/remove pass over the groups

  /** What the pass has done so far: the files left, the removal counters
      and the report lines. */
  datatype Sweep = Sweep(files: map<Path, Content>, removed: nat, freed: nat, lines: seq<Message>)

  /** `stat().st_size`: the byte count of a file (0 for a missing path,
      which the pass never asks about). */
  function SizeOf(files: map<Path, Content>, p: Path): nat {
    if p in files then |files[p]| else 0
  }

  /** The verdict on one member after the first: listed as a duplicate, or
      unlinked (counted, its size freed), or reported as not removable when
      the unlink fails. */
  function Visit(st: Sweep, p: Path, size: nat, remove: bool, faults: set<Path>): Sweep {
    if !remove then st.(lines := st.lines + [Duplicate(p)])
    else if p in st.files && p !in faults then
      Sweep(st.files - {p}, st.removed + 1, st.freed + size, st.lines + [Removed(p)])
    else st.(lines := st.lines + [RemoveFailed(p)])
  }

  function VisitAll(st: Sweep, ms: seq<Path>, size: nat, remove: bool, faults: set<Path>): Sweep
    decreases |ms|
  {
    if ms == [] then st
    else Visit(VisitAll(st, ms[..|ms| - 1], size, remove, faults), ms[|ms| - 1], size, remove, faults)
  }

  /** The lines opening a group: its header and the kept first file. */
  function GroupHead(files: map<Path, Content>, g: seq<Path>): seq<Message>
    requires |g| >= 1
  {
    [GroupHeader(|g|, SizeOf(files, g[0])), Keep(g[0])]
  }

  /** One group: the header, KEEP for the first file, a verdict for each
      other file; every removal frees the size of the first file. */
  function SweepGroup(st: Sweep, g: seq<Path>, remove: bool, faults: set<Path>): Sweep
    requires |g| >= 1
  {
    VisitAll(st.(lines := st.lines + GroupHead(st.files, g)), g[1..], SizeOf(st.files, g[0]), remove, faults)
  }

  predicate NonEmptyGroups(gs: seq<seq<Path>>) {
    forall k :: 0 <= k < |gs| ==> |gs[k]| >= 1
  }

  function SweepAll(st: Sweep, gs: seq<seq<Path>>, remove: bool, faults: set<Path>): Sweep
    requires NonEmptyGroups(gs)
    decreases |gs|
  {
    if gs == [] then st
    else SweepGroup(SweepAll(st, gs[..|gs| - 1], remove, faults), gs[|gs| - 1], remove, faults)
  }

  // Reference definitions of what the pass removes

  function Elements(s: seq<Path>): set<Path> {
    set p | p in s
  }

  /** The members that an unlink removes: present and not refused. */
  function Removable(files: map<Path, Content>, ms: seq<Path>, faults: set<Path>): seq<Path>
    decreases |ms|
  {
    if ms == [] then []
    else
      var p := ms[|ms| - 1];
      Removable(files, ms[..|ms| - 1], faults) + (if p in files && p !in faults then [p] else [])
  }

  /** Only members that are present and not refused are removed. */
  lemma {:induction false} RemovableWithin(files: map<Path, Content>, ms: seq<Path>, faults: set<Path>)
    ensures forall p :: p in Removable(files, ms, faults) ==> p in ms && p in files && p !in faults
    decreases |ms|
  {
    if ms != [] {
      var front := ms[..|ms| - 1];
      RemovableWithin(files, front, faults);
      assert forall p :: p in front ==> p in ms;
    }
  }

  /** The removed files of all groups, group after group. */
  function RemovedBy(files: map<Path, Content>, gs: seq<seq<Path>>, faults: set<Path>): seq<Path>
    requires NonEmptyGroups(gs)
    decreases |gs|
  {
    if gs == [] then []
    else RemovedBy(files, gs[..|gs| - 1], faults) + Removable(files, gs[|gs| - 1][1..], faults)
  }

  /** The bytes freed: per group, the size of its first file times the
      number of its files removed. */
  function Freed(files: map<Path, Content>, gs: seq<seq<Path>>, faults: set<Path>): nat
    requires NonEmptyGroups(gs)
    decreases |gs|
  {
    if gs == [] then 0
    else
      var g := gs[|gs| - 1];
      Freed(files, gs[..|gs| - 1], faults) + SizeOf(files, g[0]) * |Removable(files, g[1..], faults)|
  }

  lemma ElementsConcat(a: seq<Path>, b: seq<Path>)
    ensures Elements(a + b) == Elements(a) + Elements(b)
  {
  }

  /** Removable depends only on which members are present. */
  lemma {:induction false} RemovableFrame(files: map<Path, Content>, files': map<Path, Content>, ms: seq<Path>, faults: set<Path>)
    requires forall p :: p in ms ==> (p in files <==> p in files')
    ensures Removable(files, ms, faults) == Removable(files', ms, faults)
    decreases |ms|
  {
    if ms != [] {
      RemovableFrame(files, files', ms[..|ms| - 1], faults);
    }
  }

  /** Removing never exceeds the members. */
  lemma {:induction false} RemovableBound(files: map<Path, Content>, ms: seq<Path>, faults: set<Path>)
    ensures |Removable(files, ms, faults)| <= |ms|
    decreases |ms|
  {
    if ms != [] {
      RemovableBound(files, ms[..|ms| - 1], faults);
    }
  }

  /** When every member is present and none is refused, all are removable. */
  lemma {:induction false} RemovableAll(files: map<Path, Content>, ms: seq<Path>, faults: set<Path>)
    requires forall i :: 0 <= i < |ms| ==> ms[i] in files && ms[i] !in faults
    ensures Removable(files, ms, faults) == ms
    decreases |ms|
  {
    if ms != [] {
      var front := ms[..|ms| - 1];
      assert forall i :: 0 <= i < |front| ==> front[i] == ms[i];
      RemovableAll(files, front, faults);
      assert front + [ms[|ms| - 1]] == ms;
    }
  }

  /** With removal on, exactly the removable members of a group
      disappear, each one counted and freeing `size` bytes, and no other
      file changes. */
  lemma VisitAllRemoves(st: Sweep, ms: seq<Path>, size: nat, faults: set<Path>)
    requires Distinct(ms)
    ensures VisitAll(st, ms, size, true, faults).files == st.files - Elements(Removable(st.files, ms, faults))
    ensures VisitAll(st, ms, size, true, faults).removed == st.removed + |Removable(st.files, ms, faults)|
    ensures VisitAll(st, ms, size, true, faults).freed == st.freed + size * |Removable(st.files, ms, faults)|
  {
    VisitAllFiles(st, ms, size, faults);
    VisitAllCounters(st, ms, size, faults);
  }

  lemma {:induction false} VisitAllFiles(st: Sweep, ms: seq<Path>, size: nat, faults: set<Path>)
    requires Distinct(ms)
    ensures VisitAll(st, ms, size, true, faults).files == st.files - Elements(Removable(st.files, ms, faults))
    decreases |ms|
  {
    if ms != [] {
      var front, p := ms[..|ms| - 1], ms[|ms| - 1];
      assert Distinct(front);
      VisitAllFiles(st, front, size, faults);
      var mid := VisitAll(st, front, size, true, faults);
      var gone := Removable(st.files, front, faults);
      if p in st.files && p !in faults {
        assert p !in front by {
          forall i | 0 <= i < |front| ensures front[i] != p {
            assert front[i] == ms[i];
          }
        }
        assert p in mid.files by {
          RemovableWithin(st.files, front, faults);
        }
        assert Removable(st.files, ms, faults) == gone + [p];
        ElementsConcat(gone, [p]);
        MapMinus(st.files, Elements(gone), {p});
      } else {
        assert Removable(st.files, ms, faults) == gone;
      }
    }
  }

  lemma {:induction false} VisitAllCounters(st: Sweep, ms: seq<Path>, size: nat, faults: set<Path>)
    requires Distinct(ms)
    ensures VisitAll(st, ms, size, true, faults).removed == st.removed + |Removable(st.files, ms, faults)|
    ensures VisitAll(st, ms, size, true, faults).freed == st.freed + size * |Removable(st.files, ms, faults)|
    decreases |ms|
  {
    if ms != [] {
      var front, p := ms[..|ms| - 1], ms[|ms| - 1];
      assert Distinct(front);
      VisitAllCounters(st, front, size, faults);
      var gone := Removable(st.files, front, faults);
      if p in st.files && p !in faults {
        assert p !in front by {
          forall i | 0 <= i < |front| ensures front[i] != p {
            assert front[i] == ms[i];
          }
        }
        assert p in VisitAll(st, front, size, true, faults).files by {
          VisitAllFiles(st, front, size, faults);
          RemovableWithin(st.files, front, faults);
        }
        assert Removable(st.files, ms, faults) == gone + [p];
        MulSucc(size, |gone|);
      } else {
        assert Removable(st.files, ms, faults) == gone;
        assert p !in VisitAll(st, front, size, true, faults).files || p in faults by {
          VisitAllFiles(st, front, size, faults);
        }
      }
    }
  }

  lemma MulSucc(a: nat, b: nat)
    ensures a * (b + 1) == a * b + a
  {
  }

  lemma MapMinus(m: map<Path, Content>, a: set<Path>, b: set<Path>)
    ensures (m - a) - b == m - (a + b)
  {
  }

  /** With removal off, the verdicts change no file and no counter. */
  lemma {:induction false} VisitAllReports(st: Sweep, ms: seq<Path>, size: nat, faults: set<Path>)
    ensures var r := VisitAll(st, ms, size, false, faults);
      r.files == st.files && r.removed == st.removed && r.freed == st.freed
    decreases |ms|
  {
    if ms != [] {
      VisitAllReports(st, ms[..|ms| - 1], size, faults);
    }
  }

  /** Every member after the first gets exactly one verdict line. */
  lemma {:induction false} VisitAllVerdicts(st: Sweep, ms: seq<Path>, size: nat, remove: bool, faults: set<Path>)
    ensures Count(VisitAll(st, ms, size, remove, faults).lines, IsVerdict) == Count(st.lines, IsVerdict) + |ms|
    decreases |ms|
  {
    if ms != [] {
      var front := ms[..|ms| - 1];
      var p := ms[|ms| - 1];
      VisitAllVerdicts(st, front, size, remove, faults);
      var mid := VisitAll(st, front, size, remove, faults);
      var m := if !remove then Duplicate(p) else if p in mid.files && p !in faults then Removed(p) else RemoveFailed(p);
      assert VisitAll(st, ms, size, remove, faults).lines == mid.lines + [m];
      CountAppend(mid.lines, [m], IsVerdict);
    }
  }

  lemma DistinctSplit(a: seq<Path>, b: seq<Path>)
    requires Distinct(a + b)
    ensures Distinct(a) && Distinct(b)
    ensures forall p :: p in a ==> p !in b
  {
    forall i, j | 0 <= i < |a| && 0 <= j < |b| ensures a[i] != b[j] {
      assert (a + b)[i] == a[i];
      assert (a + b)[|a| + j] == b[j];
    }
    forall i, j | 0 <= i < j < |b| ensures b[i] != b[j] {
      assert (a + b)[|a| + i] == b[i];
      assert (a + b)[|a| + j] == b[j];
    }
    forall i, j | 0 <= i < j < |a| ensures a[i] != a[j] {
      assert (a + b)[i] == a[i];
      assert (a + b)[j] == a[j];
    }
  }

  /** A group, and the tail of a group, are parts of the flattened groups. */
  lemma {:induction false} FlattenMembers(gs: seq<seq<Path>>)
    ensures forall k, i :: 0 <= k < |gs| && 0 <= i < |gs[k]| ==> gs[k][i] in Flatten(gs)
    decreases |gs|
  {
    if gs != [] {
      FlattenMembers(gs[..|gs| - 1]);
      forall k, i | 0 <= k < |gs| && 0 <= i < |gs[k]| ensures gs[k][i] in Flatten(gs) {
        if k < |gs| - 1 {
          assert gs[k] == gs[..|gs| - 1][k];
        }
      }
    }
  }

  /** Only grouped files that were present and not refused are removed. */
  lemma {:induction false} RemovedByWithin(files: map<Path, Content>, gs: seq<seq<Path>>, faults: set<Path>)
    requires NonEmptyGroups(gs)
    ensures forall p :: p in RemovedBy(files, gs, faults) ==> p in Flatten(gs) && p in files && p !in faults
    decreases |gs|
  {
    if gs != [] {
      RemovedByWithin(files, gs[..|gs| - 1], faults);
      var g := gs[|gs| - 1];
      RemovableWithin(files, g[1..], faults);
      forall p | p in Removable(files, g[1..], faults) ensures p in g {
        assert p in g[1..];
      }
    }
  }

  /** The first file of a group is never removed. */
  lemma {:induction false} HeadsKept(files: map<Path, Content>, gs: seq<seq<Path>>, faults: set<Path>)
    requires NonEmptyGroups(gs) && Distinct(Flatten(gs))
    ensures forall k :: 0 <= k < |gs| ==> gs[k][0] !in RemovedBy(files, gs, faults)
    decreases |gs|
  {
    if gs != [] {
      var front, g := gs[..|gs| - 1], gs[|gs| - 1];
      DistinctSplit(Flatten(front), g);
      HeadsKept(files, front, faults);
      RemovedByWithin(files, front, faults);
      FlattenMembers(front);
      forall k | 0 <= k < |gs| ensures gs[k][0] !in RemovedBy(files, gs, faults) {
        var rem := Removable(files, g[1..], faults);
        assert RemovedBy(files, gs, faults) == RemovedBy(files, front, faults) + rem;
        RemovableWithin(files, g[1..], faults);
        if k < |gs| - 1 {
          assert gs[k] == front[k];
          assert gs[k][0] in Flatten(front);
        } else {
          assert g[0] !in g[1..] by {
            forall i | 0 <= i < |g[1..]| ensures g[1..][i] != g[0] {
              assert g[1..][i] == g[i + 1];
            }
          }
        }
      }
    }
  }

  /** With removal on, the pass over all groups deletes exactly the
      removable non-first members, counts them, and frees per group the
      size of its first file for each; nothing else changes. */
  lemma {:induction false} SweepAllRemoves(st: Sweep, gs: seq<seq<Path>>, faults: set<Path>)
    requires NonEmptyGroups(gs) && Distinct(Flatten(gs))
    ensures SweepAll(st, gs, true, faults).files == st.files - Elements(RemovedBy(st.files, gs, faults))
    ensures SweepAll(st, gs, true, faults).removed == st.removed + |RemovedBy(st.files, gs, faults)|
    ensures SweepAll(st, gs, true, faults).freed == st.freed + Freed(st.files, gs, faults)
    decreases |gs|
  {
    if gs != [] {
      var front, g := gs[..|gs| - 1], gs[|gs| - 1];
      DistinctSplit(Flatten(front), g);
      SweepAllRemoves(st, front, faults);
      RemovedByWithin(st.files, front, faults);
      var mid := SweepAll(st, front, true, faults);
      var gone := RemovedBy(st.files, front, faults);
      assert mid.files == st.files - Elements(gone);
      assert forall p :: p in g ==> p !in Elements(gone);
      assert g[0] in g;
      assert SizeOf(mid.files, g[0]) == SizeOf(st.files, g[0]);
      var size := SizeOf(st.files, g[0]);
      forall p | p in g[1..] ensures p in g {
      }
      RemovableFrame(mid.files, st.files, g[1..], faults);
      var rem := Removable(st.files, g[1..], faults);
      var mid' := mid.(lines := mid.lines + GroupHead(mid.files, g));
      assert Distinct(g[1..]) by {
        forall i, j | 0 <= i < j < |g[1..]| ensures g[1..][i] != g[1..][j] {
          assert g[1..][i] == g[i + 1] && g[1..][j] == g[j + 1];
        }
      }
      VisitAllRemoves(mid', g[1..], size, faults);
      ElementsConcat(gone, rem);
      MapMinus(st.files, Elements(gone), Elements(rem));
    }
  }

  /** With removal off, the pass changes no file and no counter. */
  lemma {:induction false} SweepAllReports(st: Sweep, gs: seq<seq<Path>>, faults: set<Path>)
    requires NonEmptyGroups(gs)
    ensures var r := SweepAll(st, gs, false, faults);
      r.files == st.files && r.removed == st.removed && r.freed == st.freed
    decreases |gs|
  {
    if gs != [] {
      var front, g := gs[..|gs| - 1], gs[|gs| - 1];
      SweepAllReports(st, front, faults);
      var mid := SweepAll(st, front, false, faults);
      VisitAllReports(mid.(lines := mid.lines + GroupHead(mid.files, g)), g[1..], SizeOf(mid.files, g[0]), faults);
    }
  }

  /** Every grouped file gets exactly one verdict line (KEEP, REMOVED,
      ERROR or DUPLICATE). */
  lemma {:induction false} SweepAllVerdicts(st: Sweep, gs: seq<seq<Path>>, remove: bool, faults: set<Path>)
    requires NonEmptyGroups(gs)
    ensures Count(SweepAll(st, gs, remove, faults).lines, IsVerdict) == Count(st.lines, IsVerdict) + |Flatten(gs)|
    decreases |gs|
  {
    if gs != [] {
      var front, g := gs[..|gs| - 1], gs[|gs| - 1];
      SweepAllVerdicts(st, front, remove, faults);
      var mid := SweepAll(st, front, remove, faults);
      var head := GroupHead(mid.files, g);
      CountAppend(mid.lines, head, IsVerdict);
      assert head[..1] == [GroupHeader(|g|, SizeOf(mid.files, g[0]))];
      assert Count(head, IsVerdict) == 1;
      VisitAllVerdicts(mid.(lines := mid.lines + head), g[1..], SizeOf(mid.files, g[0]), remove, faults);
    }
  }

  // Reference definition of the verdict lines

  /** The first file of each group, group after group. */
  function Heads(gs: seq<seq<Path>>): seq<Path>
    requires NonEmptyGroups(gs)
    decreases |gs|
  {
    if gs == [] then [] else Heads(gs[..|gs| - 1]) + [gs[|gs| - 1][0]]
  }

  /** The k-th head is the first file of the k-th group. */
  lemma {:induction false} HeadsSpec(gs: seq<seq<Path>>)
    requires NonEmptyGroups(gs)
    ensures |Heads(gs)| == |gs|
    ensures forall k :: 0 <= k < |gs| ==> Heads(gs)[k] == gs[k][0]
    decreases |gs|
  {
    if gs != [] {
      var front := gs[..|gs| - 1];
      HeadsSpec(front);
      forall k | 0 <= k < |gs| ensures Heads(gs)[k] == gs[k][0] {
        if k < |gs| - 1 {
          assert Heads(gs)[k] == Heads(front)[k];
          assert front[k] == gs[k];
        }
      }
    }
  }

  /** The verdict the pass gives a grouped file: KEEP for the first file of
      its group; otherwise DUPLICATE when removal is off, REMOVED when the
      file is there and its unlink succeeds, ERROR when it fails. */
  function Verdict(files: map<Path, Content>, remove: bool, faults: set<Path>, p: Path, head: bool): Message {
    if head then Keep(p)
    else if !remove then Duplicate(p)
    else if p in files && p !in faults then Removed(p)
    else RemoveFailed(p)
  }

  /** The verdicts on the members of a group after the first. */
  function MemberVerdicts(files: map<Path, Content>, ms: seq<Path>, remove: bool, faults: set<Path>): seq<Message> {
    seq(|ms|, i requires 0 <= i < |ms| => Verdict(files, remove, faults, ms[i], false))
  }

  /** One verdict per grouped file, in the order of the flattened groups. */
  function VerdictsFor(files: map<Path, Content>, gs: seq<seq<Path>>, remove: bool, faults: set<Path>): seq<Message>
    requires NonEmptyGroups(gs)
  {
    var all := Flatten(gs);
    seq(|all|, i requires 0 <= i < |all| => Verdict(files, remove, faults, all[i], all[i] in Heads(gs)))
  }

  /** The heads are grouped files. */
  lemma {:induction false} HeadsInFlatten(gs: seq<seq<Path>>)
    requires NonEmptyGroups(gs)
    ensures forall p :: p in Heads(gs) ==> p in Flatten(gs)
    decreases |gs|
  {
    if gs != [] {
      var front, g := gs[..|gs| - 1], gs[|gs| - 1];
      HeadsInFlatten(front);
      assert g[0] in g;
    }
  }

  /** Adding a group adds its KEEP line and the verdicts of its other
      members. */
  lemma VerdictsForSnoc(files: map<Path, Content>, gs: seq<seq<Path>>, remove: bool, faults: set<Path>)
    requires NonEmptyGroups(gs) && gs != [] && Distinct(Flatten(gs))
    ensures var front, g := gs[..|gs| - 1], gs[|gs| - 1];
      VerdictsFor(files, gs, remove, faults)
      == VerdictsFor(files, front, remove, faults) + [Keep(g[0])] + MemberVerdicts(files, g[1..], remove, faults)
  {
    var front, g := gs[..|gs| - 1], gs[|gs| - 1];
    var a := Flatten(front);
    DistinctSplit(a, g);
    HeadsInFlatten(front);
    var v := VerdictsFor(files, gs, remove, faults);
    var w := VerdictsFor(files, front, remove, faults) + [Keep(g[0])] + MemberVerdicts(files, g[1..], remove, faults);
    assert Heads(gs) == Heads(front) + [g[0]];
    assert g[0] in g;
    forall i | 0 <= i < |v|
      ensures v[i] == w[i]
    {
      var p := Flatten(gs)[i];
      if i < |a| {
        assert p == a[i];
        assert p in a;
      } else {
        assert p == g[i - |a|];
        assert p !in Heads(front);
        if i > |a| {
          assert g[i - |a|] != g[0];
          assert p == g[1..][i - |a| - 1];
        }
      }
    }
  }

  /** A file outside the groups is where it was after the pass. */
  lemma SweepAllOutside(st: Sweep, gs: seq<seq<Path>>, remove: bool, faults: set<Path>, p: Path)
    requires NonEmptyGroups(gs) && Distinct(Flatten(gs)) && p !in Flatten(gs)
    ensures (p in SweepAll(st, gs, remove, faults).files) == (p in st.files)
  {
    if remove {
      SweepAllRemoves(st, gs, faults);
      RemovedByWithin(st.files, gs, faults);
    } else {
      SweepAllReports(st, gs, faults);
    }
  }

  /** The verdicts on the members after the first, in order. */
  lemma {:induction false} VisitAllLines(st: Sweep, ms: seq<Path>, size: nat, remove: bool, faults: set<Path>)
    requires Distinct(ms)
    ensures Verdicts(VisitAll(st, ms, size, remove, faults).lines) == Verdicts(st.lines) + MemberVerdicts(st.files, ms, remove, faults)
    decreases |ms|
  {
    if ms != [] {
      var front, p := ms[..|ms| - 1], ms[|ms| - 1];
      assert Distinct(front);
      VisitAllLines(st, front, size, remove, faults);
      var mid := VisitAll(st, front, size, remove, faults);
      assert (p in mid.files) == (p in st.files) by {
        if remove {
          assert p !in front by {
            forall i | 0 <= i < |front| ensures front[i] != p {
              assert front[i] == ms[i];
            }
          }
          VisitAllFiles(st, front, size, faults);
          RemovableWithin(st.files, front, faults);
        } else {
          VisitAllReports(st, front, size, faults);
        }
      }
      var m := Verdict(st.files, remove, faults, p, false);
      assert VisitAll(st, ms, size, remove, faults).lines == mid.lines + [m];
      VerdictsSingle(mid.lines, m);
      MemberVerdictsSnoc(st.files, ms, remove, faults);
    }
  }

  lemma VerdictsSingle(lines: seq<Message>, m: Message)
    requires IsVerdict(m)
    ensures Verdicts(lines + [m]) == Verdicts(lines) + [m]
  {
    assert (lines + [m])[..|lines|] == lines;
  }

  lemma MemberVerdictsSnoc(files: map<Path, Content>, ms: seq<Path>, remove: bool, faults: set<Path>)
    requires ms != []
    ensures MemberVerdicts(files, ms, remove, faults)
         == MemberVerdicts(files, ms[..|ms| - 1], remove, faults) + [Verdict(files, remove, faults, ms[|ms| - 1], false)]
  {
  }

  /** The pass adds exactly the reference verdicts: one line per grouped
      file, in group order, KEEP for the first file of each group and the
      outcome of its unlink (or DUPLICATE) for the others. */
  lemma {:induction false} SweepAllLines(st: Sweep, gs: seq<seq<Path>>, remove: bool, faults: set<Path>)
    requires NonEmptyGroups(gs) && Distinct(Flatten(gs))
    ensures Verdicts(SweepAll(st, gs, remove, faults).lines) == Verdicts(st.lines) + VerdictsFor(st.files, gs, remove, faults)
    decreases |gs|
  {
    if gs == [] {
      assert VerdictsFor(st.files, gs, remove, faults) == [];
    } else {
      var front, g := gs[..|gs| - 1], gs[|gs| - 1];
      FlattenPrefixDistinct(gs, |gs| - 1);
      SweepAllLines(st, front, remove, faults);
      assert Flatten(gs) == Flatten(front) + g;
      SweepAllLinesStep(st, front, g, remove, faults);
      VerdictsForSnoc(st.files, gs, remove, faults);
    }
  }

  /** The induction step of `SweepAllLines`: one more group. */
  lemma SweepAllLinesStep(st: Sweep, front: seq<seq<Path>>, g: seq<Path>, remove: bool, faults: set<Path>)
    requires NonEmptyGroups(front) && |g| >= 1 && Distinct(Flatten(front) + g)
    requires Verdicts(SweepAll(st, front, remove, faults).lines) == Verdicts(st.lines) + VerdictsFor(st.files, front, remove, faults)
    ensures Verdicts(SweepGroup(SweepAll(st, front, remove, faults), g, remove, faults).lines)
         == Verdicts(st.lines) + (VerdictsFor(st.files, front, remove, faults) + [Keep(g[0])] + MemberVerdicts(st.files, g[1..], remove, faults))
  {
    var mid := SweepAll(st, front, remove, faults);
    DistinctSplit(Flatten(front), g);
    GroupUntouched(st, front, remove, faults, g);
    SweepGroupLines(mid, st.files, g, remove, faults);
    AppendThree(Verdicts(st.lines), VerdictsFor(st.files, front, remove, faults), [Keep(g[0])],
                MemberVerdicts(st.files, g[1..], remove, faults));
  }

  /** The files of a later group are where they were after the pass over
      the earlier groups. */
  lemma GroupUntouched(st: Sweep, gs: seq<seq<Path>>, remove: bool, faults: set<Path>, g: seq<Path>)
    requires NonEmptyGroups(gs) && Distinct(Flatten(gs))
    requires forall p :: p in g ==> p !in Flatten(gs)
    ensures forall p :: p in g ==> ((p in SweepAll(st, gs, remove, faults).files) == (p in st.files))
  {
    forall p | p in g
      ensures (p in SweepAll(st, gs, remove, faults).files) == (p in st.files)
    {
      SweepAllOutside(st, gs, remove, faults, p);
    }
  }

  /** One group adds its KEEP line and the verdicts of its other members. */
  lemma SweepGroupLines(st: Sweep, files: map<Path, Content>, g: seq<Path>, remove: bool, faults: set<Path>)
    requires |g| >= 1 && Distinct(g)
    requires forall p :: p in g ==> (p in st.files) == (p in files)
    ensures Verdicts(SweepGroup(st, g, remove, faults).lines)
         == Verdicts(st.lines) + [Keep(g[0])] + MemberVerdicts(files, g[1..], remove, faults)
  {
    var head := GroupHead(st.files, g);
    VerdictsAppend(st.lines, head);
    assert Verdicts(head) == [Keep(g[0])] by {
      var h := [GroupHeader(|g|, SizeOf(st.files, g[0]))];
      assert Verdicts(h) == [] by {
        assert h[..0] == [];
      }
      assert head == h + [Keep(g[0])];
      VerdictsSingle(h, Keep(g[0]));
    }
    var ms := g[1..];
    assert Distinct(ms) by {
      forall i, j | 0 <= i < j < |ms| ensures ms[i] != ms[j] {
        assert ms[i] == g[i + 1] && ms[j] == g[j + 1];
      }
    }
    VisitAllLines(st.(lines := st.lines + head), ms, SizeOf(st.files, g[0]), remove, faults);
    assert MemberVerdicts(st.files, ms, remove, faults) == MemberVerdicts(files, ms, remove, faults) by {
      forall i | 0 <= i < |ms| ensures (ms[i] in st.files) == (ms[i] in files) {
        assert ms[i] == g[i + 1];
      }
    }
  }

  /** The bytes the non-first members of the groups take, counted at the
      size of each group's first file. */
  function Wasted(files: map<Path, Content>, gs: seq<seq<Path>>): nat
    requires NonEmptyGroups(gs)
    decreases |gs|
  {
    if gs == [] then 0
    else Wasted(files, gs[..|gs| - 1]) + SizeOf(files, gs[|gs| - 1][0]) * (|gs[|gs| - 1]| - 1)
  }

  lemma MulMono(a: nat, b: nat, c: nat)
    requires b <= c
    ensures a * b <= a * c
  {
  }

  /** `removed_count` never exceeds `total_duplicates`, and the space
      freed never exceeds the duplicate bytes. */
  lemma {:induction false} RemovedBound(files: map<Path, Content>, gs: seq<seq<Path>>, faults: set<Path>)
    requires NonEmptyGroups(gs)
    ensures |RemovedBy(files, gs, faults)| <= DuplicateCount(gs)
    ensures Freed(files, gs, faults) <= Wasted(files, gs)
    decreases |gs|
  {
    if gs != [] {
      var front, g := gs[..|gs| - 1], gs[|gs| - 1];
      RemovedBound(files, front, faults);
      RemovableBound(files, g[1..], faults);
      var size, rem := SizeOf(files, g[0]), Removable(files, g[1..], faults);
      assert RemovedBy(files, gs, faults) == RemovedBy(files, front, faults) + rem;
      assert DuplicateCount(gs) == DuplicateCount(front) + (|g| - 1);
      MulMono(size, |rem|, |g| - 1);
      assert Freed(files, gs, faults) == Freed(files, front, faults) + size * |rem|;
      assert Wasted(files, gs) == Wasted(files, front) + size * (|g| - 1);
    }
  }

  /** Every grouped file is present and none of them is refused. */
  predicate AllRemovable(files: map<Path, Content>, gs: seq<seq<Path>>, faults: set<Path>) {
    forall k, i :: 0 <= k < |gs| && 0 <= i < |gs[k]| ==> gs[k][i] in files && gs[k][i] !in faults
  }

  /** When every grouped file is present and no unlink fails, every
      non-first member is removed, so the counters reach their bounds. */
  lemma {:induction false} AllRemoved(files: map<Path, Content>, gs: seq<seq<Path>>, faults: set<Path>)
    requires NonEmptyGroups(gs) && AllRemovable(files, gs, faults)
    ensures |RemovedBy(files, gs, faults)| == DuplicateCount(gs)
    ensures Freed(files, gs, faults) == Wasted(files, gs)
    ensures forall k, i :: 0 <= k < |gs| && 1 <= i < |gs[k]| ==> gs[k][i] in RemovedBy(files, gs, faults)
    decreases |gs|
  {
    if gs != [] {
      var front, g := gs[..|gs| - 1], gs[|gs| - 1];
      assert AllRemovable(files, front, faults) by {
        forall k, i | 0 <= k < |front| && 0 <= i < |front[k]| ensures front[k][i] in files && front[k][i] !in faults {
          assert front[k] == gs[k];
        }
      }
      AllRemoved(files, front, faults);
      assert Removable(files, g[1..], faults) == g[1..] by {
        forall i | 0 <= i < |g[1..]| ensures g[1..][i] in files && g[1..][i] !in faults {
          assert g[1..][i] == gs[|gs| - 1][i + 1];
        }
        RemovableAll(files, g[1..], faults);
      }
      assert RemovedBy(files, gs, faults) == RemovedBy(files, front, faults) + g[1..];
      assert Freed(files, gs, faults) == Freed(files, front, faults) + SizeOf(files, g[0]) * (|g| - 1);
      forall k, i | 0 <= k < |gs| && 1 <= i < |gs[k]| ensures gs[k][i] in RemovedBy(files, gs, faults) {
        if k < |gs| - 1 {
          assert gs[k] == front[k];
        } else {
          assert g[i] == g[1..][i - 1];
        }
      }
    }
  }

  /** Distinctness of all groups carries over to a prefix of them. */
  lemma {:induction false} FlattenPrefixDistinct(gs: seq<seq<Path>>, j: nat)
    requires j <= |gs| && Distinct(Flatten(gs))
    ensures Distinct(Flatten(gs[..j]))
    decreases |gs|
  {
    if j < |gs| {
      var front := gs[..|gs| - 1];
      DistinctSplit(Flatten(front), gs[|gs| - 1]);
      FlattenPrefixDistinct(front, j);
      assert front[..j] == gs[..j];
    } else {
      assert gs[..j] == gs;
    }
  }

  /** The first file of a group is still there, unchanged, when the pass
      reaches its group, and after the whole pass. */
  lemma HeadPresent(st: Sweep, gs: seq<seq<Path>>, k: nat, remove: bool, faults: set<Path>)
    requires NonEmptyGroups(gs) && Distinct(Flatten(gs)) && k < |gs| && gs[k][0] in st.files
    ensures var r := SweepAll(st, gs[..k], remove, faults);
      gs[k][0] in r.files && r.files[gs[k][0]] == st.files[gs[k][0]]
    ensures var r := SweepAll(st, gs, remove, faults);
      gs[k][0] in r.files && r.files[gs[k][0]] == st.files[gs[k][0]]
  {
    FlattenPrefixDistinct(gs, k + 1);
    var pre := gs[..k];
    assert gs[..k + 1][..k] == pre;
    assert Flatten(gs[..k + 1]) == Flatten(pre) + gs[k];
    DistinctSplit(Flatten(pre), gs[k]);
    FlattenPrefixDistinct(gs, k);
    assert gs[k][0] in gs[k];
    RemovedByWithin(st.files, pre, faults);
    HeadsKept(st.files, gs, faults);
    if remove {
      SweepAllRemoves(st, pre, faults);
      SweepAllRemoves(st, gs, faults);
    } else {
      SweepAllReports(st, pre, faults);
      SweepAllReports(st, gs, faults);
    }
  }

  /** When every grouped file is present and no unlink fails, removal
      leaves exactly one file of each group: its first. */
  lemma OneSurvivor(st: Sweep, gs: seq<seq<Path>>)
    requires NonEmptyGroups(gs) && Distinct(Flatten(gs))
    requires forall k, i :: 0 <= k < |gs| && 0 <= i < |gs[k]| ==> gs[k][i] in st.files
    ensures var r := SweepAll(st, gs, true, {});
      forall k, i :: 0 <= k < |gs| && 0 <= i < |gs[k]| ==> (gs[k][i] in r.files <==> i == 0)
  {
    SweepAllRemoves(st, gs, {});
    AllRemoved(st.files, gs, {});
    HeadsKept(st.files, gs, {});
  }

  /** Scanning again after a removal in which no unlink failed, over a
      walk of what is left, finds no duplicates: each digest has kept one
      file. */
  lemma SecondRunFindsNothing(files: map<Path, Content>, unreadable: set<Path>, md5: Content -> Digest,
                              items: seq<Path>, items': seq<Path>)
    requires Distinct(items) && Distinct(items')
    requires forall p :: p in items' ==> p in items
    ensures var b := BucketsOf(Hashed(files, unreadable, md5, items));
      var dups := DuplicateGroups(b.order, b.groups);
      var after := SweepAll(Sweep(files, 0, 0, []), dups, true, {}).files;
      var b' := BucketsOf(Hashed(after, unreadable, md5, items'));
      DuplicateGroups(b'.order, b'.groups) == []
  {
    var hs := Hashed(files, unreadable, md5, items);
    var b := BucketsOf(hs);
    var dups := DuplicateGroups(b.order, b.groups);
    GroupsReady(files, unreadable, md5, items);
    var after := SweepAll(Sweep(files, 0, 0, []), dups, true, {}).files;
    var hs' := Hashed(after, unreadable, md5, items');
    SweepAllRemoves(Sweep(files, 0, 0, []), dups, {});
    forall h
      ensures |Select(hs', h)| < 2
    {
      if |Select(hs', h)| >= 2 {
        var p, q := SharedDigest(after, unreadable, md5, items', h);
        assert p in files && after[p] == files[p] && q in files && after[q] == files[q];
        HashedSpec(files, unreadable, md5, items);
        SelectComplete(hs, h);
        var i :| 0 <= i < |items| && items[i] == p;
        var j :| 0 <= j < |items| && items[j] == q;
        assert (p, h) in hs && (q, h) in hs;
        var ip :| 0 <= ip < |hs| && hs[ip] == (p, h);
        var iq :| 0 <= iq < |hs| && hs[iq] == (q, h);
        GroupKeepsOne(files, unreadable, md5, items, h, p, q);
        assert false;
      }
    }
    NoGroupsIff(hs');
  }

  /** Two different files of a walk that share a digest. */
  lemma SharedDigest(files: map<Path, Content>, unreadable: set<Path>, md5: Content -> Digest, items: seq<Path>, h: Digest)
    returns (p: Path, q: Path)
    requires Distinct(items) && |Select(Hashed(files, unreadable, md5, items), h)| >= 2
    ensures p != q && p in items && q in items && p !in unreadable && q !in unreadable
    ensures p in files && q in files && md5(files[p]) == h && md5(files[q]) == h
  {
    var hs := Hashed(files, unreadable, md5, items);
    HashedSpec(files, unreadable, md5, items);
    SelectSound(hs, h);
    SelectDistinct(hs, h, h);
    p, q := Select(hs, h)[0], Select(hs, h)[1];
    HashedMember(files, unreadable, md5, items, p, h);
    HashedMember(files, unreadable, md5, items, q, h);
  }

  /** Of two files in the same group, removal keeps at most one. */
  lemma GroupKeepsOne(files: map<Path, Content>, unreadable: set<Path>, md5: Content -> Digest, items: seq<Path>,
                      h: Digest, p: Path, q: Path)
    requires Distinct(items) && p != q
    requires p in Select(Hashed(files, unreadable, md5, items), h) && q in Select(Hashed(files, unreadable, md5, items), h)
    ensures var b := BucketsOf(Hashed(files, unreadable, md5, items));
      var dups := DuplicateGroups(b.order, b.groups);
      var after := SweepAll(Sweep(files, 0, 0, []), dups, true, {}).files;
      p !in after || q !in after
  {
    var hs := Hashed(files, unreadable, md5, items);
    var b := BucketsOf(hs);
    var dups := DuplicateGroups(b.order, b.groups);
    var k, ip, iq := GroupOf(hs, h, p, q);
    GroupsReady(files, unreadable, md5, items);
    assert forall k', i :: 0 <= k' < |dups| && 0 <= i < |dups[k']| ==> dups[k'][i] in files by {
      DuplicateGroupsSpec(files, unreadable, md5, items);
    }
    SurvivorsDiffer(Sweep(files, 0, 0, []), dups, k, ip, iq);
  }

  /** Two different files with the same digest are in the same reported
      group. */
  lemma GroupOf(hs: seq<(Path, Digest)>, h: Digest, p: Path, q: Path) returns (k: nat, ip: nat, iq: nat)
    requires p != q && p in Select(hs, h) && q in Select(hs, h)
    ensures var b := BucketsOf(hs);
      var dups := DuplicateGroups(b.order, b.groups);
      && k < |dups| && ip < |dups[k]| && iq < |dups[k]| && ip != iq
      && dups[k][ip] == p && dups[k][iq] == q
  {
    var b := BucketsOf(hs);
    var dd := DupDigests(b.order, b.groups);
    var dups := DuplicateGroups(b.order, b.groups);
    var sel := Select(hs, h);
    assert |sel| >= 2;
    assert h in dd && dups == SelectAll(hs, dd) by {
      DuplicateGroupsSelect(hs);
    }
    k :| 0 <= k < |dd| && dd[k] == h;
    assert dups[k] == sel;
    ip :| 0 <= ip < |dups[k]| && dups[k][ip] == p;
    iq :| 0 <= iq < |dups[k]| && dups[k][iq] == q;
  }

  /** Removal without failures leaves no two files of one group. */
  lemma SurvivorsDiffer(st: Sweep, gs: seq<seq<Path>>, k: nat, i: nat, j: nat)
    requires NonEmptyGroups(gs) && Distinct(Flatten(gs))
    requires forall k', i' :: 0 <= k' < |gs| && 0 <= i' < |gs[k']| ==> gs[k'][i'] in st.files
    requires k < |gs| && i < |gs[k]| && j < |gs[k]| && i != j
    ensures var r := SweepAll(st, gs, true, {});
      gs[k][i] !in r.files || gs[k][j] !in r.files
  {
    OneSurvivor(st, gs);
  }

  // ---------------------------------------------------------------------
  // The scanning and selecting loops

  /** The scan loop: every regular file of the walk whose hash succeeds is
      appended to the bucket of its digest and counted. */
  method ScanHashes(fs: FileSystem, listing: seq<Path>, md5: Content -> Digest, unreadable: set<Path>)
    returns (b: Buckets, scanned: nat)
    ensures b == BucketsOf(Hashed(fs.files, unreadable, md5, listing))
    ensures scanned == |Hashed(fs.files, unreadable, md5, listing)|
    ensures WellFormed(b)
  {
    b, scanned := Buckets([], map[]), 0;
    for i := 0 to |listing|
      invariant b == BucketsOf(Hashed(fs.files, unreadable, md5, listing[..i]))
      invariant scanned == |Hashed(fs.files, unreadable, md5, listing[..i])|
    {
      assert listing[..i + 1][..i] == listing[..i];
      var item := listing[i];
      if item in fs.files {
        var fileHash := FileHash(fs.files, unreadable, md5, item);
        if fileHash.Some? {
          b := Insert(b, fileHash.value, item);
          scanned := scanned + 1;
        }
      }
    }
    assert listing[..|listing|] == listing;
    BucketsOfSelect(Hashed(fs.files, unreadable, md5, listing));
  }

  /** The selecting loop: the buckets holding more than one file, in
      bucket order. */
  method SelectDuplicates(b: Buckets) returns (found: seq<seq<Path>>)
    requires WellFormed(b)
    ensures found == DuplicateGroups(b.order, b.groups)
  {
    found := [];
    for i := 0 to |b.order|
      invariant found == DuplicateGroups(b.order[..i], b.groups)
    {
      assert b.order[..i + 1][..i] == b.order[..i];
      var h := b.order[i];
      assert h in b.order;
      var files := b.groups[h];
      if |files| > 1 {
        found := found + [files];
      }
    }
    assert b.order[..|b.order|] == b.order;
  }

  /** What the pass needs of the groups found: non-empty, no file twice,
      and every first file present. */
  lemma GroupsReady(files: map<Path, Content>, unreadable: set<Path>, md5: Content -> Digest, items: seq<Path>)
    requires Distinct(items)
    ensures var b := BucketsOf(Hashed(files, unreadable, md5, items));
      var dups := DuplicateGroups(b.order, b.groups);
      && NonEmptyGroups(dups) && Distinct(Flatten(dups))
      && forall k :: 0 <= k < |dups| ==> dups[k][0] in files
  {
    DuplicateGroupsSpec(files, unreadable, md5, items);
  }
}
