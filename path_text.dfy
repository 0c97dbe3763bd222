/**
 * The installer's `copy` works on path strings: the destination of a source
 * file is `<destination>/` followed by the file's real path with its first
 * `strlen(dirname($source)) + 1` bytes cut off. This module renders paths as
 * those strings and compares the cut with the segment arithmetic of
 * `TreeCopy.Target`.
 */
module PathText {
  import opened FileSystem
  import opened TreeCopy

  /** The segments joined by "/". */
  function Join(names: seq<Name>): (r: string)
    ensures names == [] ==> r == ""
    ensures |names| == 1 ==> r == names[0]
    decreases |names|
  {
    if names == [] then ""
    else if |names| == 1 then names[0]
    else Join(names[..|names| - 1]) + "/" + names[|names| - 1]
  }

  /** The absolute path string of `p`; the root is "/", as `dirname` reports it. */
  function Render(p: Path): (r: string)
    ensures |r| == |Join(p)| + 1 && r[0] == '/'
  {
    "/" + Join(p)
  }

  /** Joining two non-empty runs of segments puts one "/" between them. */
  lemma {:induction false} JoinAppend(a: seq<Name>, b: seq<Name>)
    requires a != [] && b != []
    ensures Join(a + b) == Join(a) + "/" + Join(b)
    decreases |b|
  {
    var n := |b| - 1;
    assert (a + b)[..|a + b| - 1] == a + b[..n];
    if n == 0 {
      assert a + b == a + [b[0]];
    } else {
      JoinAppend(a, b[..n]);
    }
  }

  /** `substr($sourceFile, strlen(dirname($source)) + 1)` for the source directory `src` and a file `f` below it, as written. */
  function TrimmedName(src: Path, f: Path): (r: string)
    requires 0 < |src| && src < f
    ensures |r| <= |Render(f)|
  {
    var full := Render(f);
    var k := |Render(Parent(src))| + 1;
    if k <= |full| then full[k..] else ""
  }

  /**
   * Below the root the cut is right: the name left is the file's path below
   * the parent of `src`, which `Target` puts under the destination.
   */
  lemma TrimmedNameBelowRoot(src: Path, f: Path)
    requires 2 <= |src| && src < f
    ensures TrimmedName(src, f) == Join(f[|src| - 1..])
  {
    var k := |src| - 1;
    assert f[..k] == Parent(src);
    assert f[..k] + f[k..] == f;
    JoinAppend(f[..k], f[k..]);
    var full := Render(f);
    assert full == Render(Parent(src)) + "/" + Join(f[k..]);
  }

  /**
   * At the root it is one byte too many: `dirname("/css")` is "/", so the
   * cut removes the "/" and the first letter of the namespace, and
   * "/css/a.css" is copied to "<destination>/ss/a.css" instead of
   * "<destination>/css/a.css".
   */
  lemma TrimmedNameAtRoot()
    ensures TrimmedName(["css"], ["css", "a.css"]) == "ss/a.css"
    ensures Trimmed(["css"], ["css", "a.css"]) == "css/a.css"
  {
    var f: Path := ["css", "a.css"];
    assert f[..1] == ["css"];
    assert Render(f) == "/css/a.css";
    assert Render(Parent(["css"])) == "/";
  }

  /** The cut as intended: the parent's length without a trailing "/", plus one. */
  function Trimmed(src: Path, f: Path): (r: string)
    requires 0 < |src| && src < f
  {
    var full := Render(f);
    var k := (if |src| == 1 then 0 else |Render(Parent(src))|) + 1;
    if k <= |full| then full[k..] else ""
  }

  /**
   * With the intended cut, `sprintf('%s/%s', $destination, ...)` names
   * exactly `Target`: the file's path below the parent of `src`, under
   * the destination, for every source directory including one at the root.
   */
  lemma TrimmedLandsOnTarget(src: Path, dest: Path, f: Path)
    requires 0 < |src| && src < f && dest != []
    ensures Render(dest) + "/" + Trimmed(src, f) == Render(Target(src, dest, f))
  {
    var k := |src| - 1;
    var rest := f[k..];
    if k == 0 {
      assert rest == f;
      assert Trimmed(src, f) == Join(rest);
    } else {
      TrimmedNameBelowRoot(src, f);
    }
    JoinAppend(dest, rest);
    assert Render(Target(src, dest, f)) == "/" + (Join(dest) + "/" + Join(rest));
  }
}
