/** Paths as sequences of components, with the few pathlib properties the
    file manager uses: `name`, `parent`, `/`, `suffix` and `stem`. */
module Paths {

  /** A path is the sequence of its components; `[]` is the root. */
  type Path = seq<string>

  /** pathlib's `name`: the last component. */
  function Name(p: Path): string {
    if p == [] then "" else p[|p| - 1]
  }

  /** pathlib's `parent`: every component but the last. */
  function Parent(p: Path): Path {
    if p == [] then [] else p[..|p| - 1]
  }

  /** The pieces of `name` between its slashes, in order: "a//b/" gives
      "a", "", "b" and "". */
  function Split(name: string): (parts: seq<string>)
    ensures |parts| >= 1
    decreases |name|
  {
    if name == [] then [""]
    else
      var rest := Split(name[1..]);
      if name[0] == '/' then [""] + rest else [[name[0]] + rest[0]] + rest[1..]
  }

  /** The pieces pathlib keeps: empty pieces and "." are dropped, ".." is kept. */
  function Kept(parts: seq<string>): seq<string>
    decreases |parts|
  {
    if parts == [] then []
    else (if parts[0] == "" || parts[0] == "." then [] else [parts[0]]) + Kept(parts[1..])
  }

  /** The components pathlib makes of a name. */
  function Components(name: string): seq<string> {
    Kept(Split(name))
  }

  /** A name starting with '/' is an absolute path and replaces the left operand of `/`. */
  predicate Absolute(name: string) {
    |name| > 0 && name[0] == '/'
  }

  /** pathlib's `dir / name`: no file system access, so ".." stays a
      component; a name without '/' that is neither "" nor "." becomes the
      last component, "" and "." add nothing. */
  function Join(dir: Path, name: string): (p: Path)
    ensures '/' !in name && name != "" && name != "." ==> p == dir + [name]
    ensures '/' !in name && (name == "" || name == ".") ==> p == dir
  {
    ComponentsNoSlash(name);
    (if Absolute(name) then [] else dir) + Components(name)
  }

  /** A name without '/' is one component, or none when it is "" or ".". */
  lemma ComponentsNoSlash(name: string)
    ensures '/' !in name ==> !Absolute(name) && Components(name) == if name == "" || name == "." then [] else [name]
  {
    if '/' !in name {
      SplitNoSlash(name);
      assert [name][1..] == [];
      assert Kept([name]) == (if name == "" || name == "." then [] else [name]) + Kept([]);
      if name != [] {
        assert name[0] in name;
      }
    }
  }

  /** A name without '/' is a single piece. */
  lemma {:induction false} SplitNoSlash(name: string)
    ensures '/' !in name ==> Split(name) == [name]
    decreases |name|
  {
    if name != [] && '/' !in name {
      assert '/' !in name[1..] by {
        forall i | 0 <= i < |name[1..]| ensures name[1..][i] != '/' {
          assert name[1..][i] == name[i + 1];
        }
      }
      SplitNoSlash(name[1..]);
      assert [name[0]] + name[1..] == name;
    }
  }

  /** A slash-free first piece, then '/', then the rest. */
  lemma {:induction false} SplitAtSlash(a: string, b: string)
    requires '/' !in a
    ensures Split(a + "/" + b) == [a] + Split(b)
    decreases |a|
  {
    if a == [] {
      assert a + "/" + b == "/" + b;
      assert ("/" + b)[1..] == b;
    } else {
      var s := a + "/" + b;
      assert s[0] == a[0] && s[1..] == a[1..] + "/" + b;
      assert '/' !in a[1..] by {
        forall i | 0 <= i < |a[1..]| ensures a[1..][i] != '/' {
          assert a[1..][i] == a[i + 1];
        }
      }
      SplitAtSlash(a[1..], b);
      assert [a[0]] + a[1..] == a;
    }
  }

  /** A name a directory entry can carry. */
  predicate ProperName(name: string) {
    name != "" && name != "." && name != ".." && '/' !in name
  }

  /** p is an entry directly inside dir. */
  predicate IsChild(dir: Path, p: Path) {
    |p| == |dir| + 1 && p[..|dir|] == dir && ProperName(p[|dir|])
  }

  /** p lies somewhere below dir. */
  predicate IsBelow(dir: Path, p: Path) {
    |p| > |dir| && p[..|dir|] == dir
  }

  /** An entry directly inside dir is dir joined with its own name. */
  lemma ChildIsJoin(dir: Path, p: Path)
    requires IsChild(dir, p)
    ensures Join(dir, Name(p)) == p && Parent(p) == dir
  {
    assert p == p[..|dir|] + [p[|dir|]];
  }

  /** `str.rfind('.')`: the index of the last dot, or -1 when there is none. */
  function LastDot(name: string): (i: int)
    ensures -1 <= i < |name|
    ensures 0 <= i ==> name[i] == '.'
    decreases |name|
  {
    if name == [] then -1
    else if name[|name| - 1] == '.' then |name| - 1
    else LastDot(name[..|name| - 1])
  }

  /** No dot follows the one `LastDot` finds, and without one there is no dot. */
  lemma {:induction false} LastDotIsLast(name: string)
    ensures forall j :: LastDot(name) < j < |name| ==> name[j] != '.'
    decreases |name|
  {
    if name != [] && name[|name| - 1] != '.' {
      var init := name[..|name| - 1];
      LastDotIsLast(init);
      assert forall j :: LastDot(name) < j < |init| ==> name[j] == init[j];
    }
  }

  /** pathlib's `suffix`: from the last dot on, provided that dot is neither
      the first nor the last character of the name; otherwise empty. */
  function Suffix(name: string): string {
    var i := LastDot(name);
    if 0 < i < |name| - 1 then name[i..] else ""
  }

  /** pathlib's `stem`: the name without its suffix. */
  function Stem(name: string): string {
    var i := LastDot(name);
    if 0 < i < |name| - 1 then name[..i] else name
  }

  /** The stem and the suffix split the name; a suffix is a dot, at least one
      more character and no further dot, and never the whole name. */
  lemma SuffixSplit(name: string)
    ensures Stem(name) + Suffix(name) == name
    ensures Suffix(name) != "" ==> |Suffix(name)| >= 2 && Suffix(name)[0] == '.' && |Suffix(name)| < |name|
    ensures forall j :: 0 < j < |Suffix(name)| ==> Suffix(name)[j] != '.'
  {
    LastDotIsLast(name);
  }
}
