/** The operation report: the lines each operation adds, one constructor
    per message the source emits. Exception texts and number formatting
    are not part of a line here. */
module Report {
  import opened Paths

  datatype Message =
      // bulk rename
    | RenameStarted(dir: Path)
    | RenamePattern(pattern: string, replacement: string)
    | RegexMode(on: bool)
    | SkippedTargetExists(oldName: string)
    | Renamed(oldName: string, newName: string)
    | RenameFailed(oldName: string)
    | RenameInterrupted
    | RenameSummary(renamed: nat, errors: nat)
      // sort
    | SortStarted(dir: Path)
    | Moved(name: string, category: string)
    | MoveFailed(name: string)
    | SortInterrupted
    | CategorySummary
    | CategoryCount(category: string, count: nat)
    | SortTotal(moved: nat, errors: nat)
      // duplicates
    | ScanStarted(dir: Path)
    | RemoveMode(on: bool)
    | CalculatingHashes
    | Scanned(count: nat)
    | NoDuplicates
    | GroupHeader(size: nat, bytes: nat)
    | Keep(path: Path)
    | Removed(path: Path)
    | RemoveFailed(path: Path)
    | Duplicate(path: Path)
    | SummaryHeader
    | GroupsFound(count: nat)
    | TotalDuplicates(count: nat)
    | FilesRemoved(count: nat)
    | SpaceFreed(bytes: nat)
      // every operation
    | DirectoryMissing(dir: Path)

  /** A line that classifies one member of a duplicate group. */
  predicate IsVerdict(m: Message) {
    m.Keep? || m.Removed? || m.RemoveFailed? || m.Duplicate?
  }

  /** The verdict lines, in report order. */
  function Verdicts(lines: seq<Message>): seq<Message>
    decreases |lines|
  {
    if lines == [] then []
    else Verdicts(lines[..|lines| - 1]) + (if IsVerdict(lines[|lines| - 1]) then [lines[|lines| - 1]] else [])
  }

  /** The verdicts of two runs of lines are those of the first, then those
      of the second. */
  lemma {:induction false} VerdictsAppend(a: seq<Message>, b: seq<Message>)
    ensures Verdicts(a + b) == Verdicts(a) + Verdicts(b)
    decreases |b|
  {
    if b == [] {
      assert a + b == a;
    } else {
      assert (a + b)[..|a + b| - 1] == a + b[..|b| - 1];
      VerdictsAppend(a, b[..|b| - 1]);
    }
  }

  /** Lines that classify no file have no verdicts. */
  lemma {:induction false} VerdictsNone(lines: seq<Message>)
    requires forall i :: 0 <= i < |lines| ==> !IsVerdict(lines[i])
    ensures Verdicts(lines) == []
    decreases |lines|
  {
    if lines != [] {
      var front := lines[..|lines| - 1];
      assert forall i :: 0 <= i < |front| ==> front[i] == lines[i];
      VerdictsNone(front);
    }
  }

  /** The number of lines satisfying `kind`. */
  function Count(lines: seq<Message>, kind: Message -> bool): (n: nat)
    ensures n <= |lines|
    decreases |lines|
  {
    if lines == [] then 0
    else Count(lines[..|lines| - 1], kind) + (if kind(lines[|lines| - 1]) then 1 else 0)
  }

  /** One more line counts one more when it is of the kind. */
  lemma CountSnoc(lines: seq<Message>, m: Message, kind: Message -> bool)
    ensures Count(lines + [m], kind) == Count(lines, kind) + (if kind(m) then 1 else 0)
  {
    assert (lines + [m])[..|lines + [m]| - 1] == lines;
  }

  /** No line is counted exactly when no line is of the kind. */
  lemma {:induction false} CountZero(lines: seq<Message>, kind: Message -> bool)
    ensures Count(lines, kind) == 0 <==> forall i :: 0 <= i < |lines| ==> !kind(lines[i])
    decreases |lines|
  {
    if lines != [] {
      var front := lines[..|lines| - 1];
      CountZero(front, kind);
      assert forall i :: 0 <= i < |front| ==> front[i] == lines[i];
    }
  }

  /** Counting distributes over concatenation. */
  lemma {:induction false} CountAppend(a: seq<Message>, b: seq<Message>, kind: Message -> bool)
    ensures Count(a + b, kind) == Count(a, kind) + Count(b, kind)
    decreases |b|
  {
    if b == [] {
      assert a + b == a;
    } else {
      assert (a + b)[..|a + b| - 1] == a + b[..|b| - 1];
      CountAppend(a, b[..|b| - 1], kind);
    }
  }

  /** Lines appended in three pieces are the same lines as appended at once. */
  lemma AppendThree(a: seq<Message>, b: seq<Message>, c: seq<Message>, d: seq<Message>)
    ensures a + b + c + d == a + (b + c + d)
  {
  }
}
