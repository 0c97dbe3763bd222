/**
 * An abstract filesystem: regular files with their contents and a set of
 * directories, both keyed by a path given as its sequence of segments
 * (`/var/www/public` is ["var", "www", "public"], the root is []).
 *
 * The PHP built-ins the synchronisers call (`is_dir`, `file_exists`, `mkdir`
 * with recursion, `copy`, `file_put_contents`, `unlink`, `rmdir`, directory
 * listings) are functions from one disk state to the next; a call that PHP
 * would refuse (it returns false and warns) leaves the disk as it was.
 */
module FileSystem {
  import opened Wrappers

  /** One path segment. */
  type Name = string

  /** A path as its segments below the root. */
  type Path = seq<Name>

  /** PHP strings are byte strings; one char stands for one byte. */
  type Content = string

  datatype Disk = Disk(files: map<Path, Content>, dirs: set<Path>)

  /** A segment a real filesystem can hold: not empty, not "." or "..", no '/'. */
  predicate ValidName(n: Name) {
    n != "" && n != "." && n != ".." && '/' !in n
  }

  predicate NamesOk(p: Path) {
    forall i :: 0 <= i < |p| ==> ValidName(p[i])
  }

  function Parent(p: Path): Path
    requires |p| > 0
  {
    p[..|p| - 1]
  }

  /** The invariant every operation keeps: the disk is a tree (`IsTree`). */
  ghost predicate Valid(d: Disk) {
    IsTree(d)
  }

  /** The root is a directory, nothing is both a file and a directory, and every entry's parent is a directory. */
  ghost predicate IsTree(d: Disk) {
    && [] in d.dirs
    && (forall p :: p in d.files ==> p !in d.dirs)
    && (forall p :: p in d.files ==> |p| > 0 && Parent(p) in d.dirs && NamesOk(p))
    && (forall p :: p in d.dirs && p != [] ==> Parent(p) in d.dirs && NamesOk(p))
  }

  /** `file_exists`: true for regular files and for directories. */
  predicate Exists(d: Disk, p: Path) {
    p in d.files || p in d.dirs
  }

  /** Every proper prefix of an existing entry is a directory. */
  lemma {:induction false} AncestorsAreDirs(d: Disk, p: Path, k: nat)
    requires Valid(d) && Exists(d, p) && k < |p|
    ensures p[..k] in d.dirs
    decreases |p|
  {
    var q := Parent(p);
    assert q in d.dirs;
    if k < |q| {
      AncestorsAreDirs(d, q, k);
      assert q[..k] == p[..k];
    }
  }

  /** No regular file lies below another regular file. */
  lemma FileNotBelowFile(d: Disk, f: Path, g: Path)
    requires Valid(d) && f in d.files && g in d.files
    ensures !(f < g)
  {
    if f < g {
      assert g[..|f|] == f;
      AncestorsAreDirs(d, g, |f|);
    }
  }

  // ---------------------------------------------------------------------
  // Operations

  /** Some prefix of `p`, `p` included, is a regular file. */
  predicate FileOnPath(d: Disk, p: Path) {
    exists i :: 0 <= i <= |p| && p[..i] in d.files
  }

  /** All prefixes of `p`, from the root to `p` itself. */
  function Prefixes(p: Path): (r: set<Path>)
    ensures p in r && [] in r
  {
    assert p[..|p|] == p && p[..0] == [];
    set i | 0 <= i <= |p| :: p[..i]
  }

  /**
   * `mkdir($p, 0775, true)`: creates every missing directory on the way to
   * `p`. When a prefix of `p` is a regular file it fails and creates nothing.
   * (The mode is not modelled.)
   */
  function MakeDirs(d: Disk, p: Path): (r: Disk)
    ensures r.files == d.files
    ensures FileOnPath(d, p) ==> r == d
    ensures !FileOnPath(d, p) ==> r.dirs == d.dirs + Prefixes(p)
  {
    if FileOnPath(d, p) then d else d.(dirs := d.dirs + Prefixes(p))
  }

  /** On a tree no directory lies on a path through a regular file. */
  lemma DirNotOnFilePath(d: Disk, p: Path)
    requires Valid(d) && p in d.dirs
    ensures !FileOnPath(d, p)
  {
    forall i | 0 <= i < |p| ensures p[..i] !in d.files {
      AncestorsAreDirs(d, p, i);
    }
    assert p[..|p|] == p;
  }

  /**
   * `copy` onto `p` and `file_put_contents($p, ...)`: writes `c` when the
   * parent of `p` is a directory and `p` is not one; otherwise nothing.
   */
  function PutFile(d: Disk, p: Path, c: Content): (r: Disk)
    ensures r.dirs == d.dirs
    ensures |p| > 0 && Parent(p) in d.dirs && p !in d.dirs ==> r.files == d.files[p := c]
    ensures !(|p| > 0 && Parent(p) in d.dirs && p !in d.dirs) ==> r == d
  {
    if |p| > 0 && Parent(p) in d.dirs && p !in d.dirs then d.(files := d.files[p := c]) else d
  }

  /** Writing a file under a valid name keeps the disk a tree. */
  lemma PutFileValid(d: Disk, p: Path, c: Content)
    requires Valid(d) && NamesOk(p)
    ensures Valid(PutFile(d, p, c))
  {
  }

  /** `file_get_contents`: the bytes of a regular file; any other path gives None (PHP's `false`, or the '' it reads from a directory). */
  function ReadFile(d: Disk, p: Path): (r: Option<Content>)
    ensures r.Some? <==> p in d.files
  {
    if p in d.files then Some(d.files[p]) else None
  }

  /** `unlink`: removes a regular file. */
  function Unlink(d: Disk, p: Path): (r: Disk)
    ensures r.dirs == d.dirs && r.files.Keys == d.files.Keys - {p}
    ensures forall q :: q in r.files ==> r.files[q] == d.files[q]
  {
    d.(files := d.files - {p})
  }

  /** Nothing lies below `p`. */
  predicate IsEmptyDir(d: Disk, p: Path) {
    (forall q :: q in d.files ==> !(p < q)) && (forall q :: q in d.dirs ==> !(p < q))
  }

  /** `rmdir`: removes an empty directory other than the root; otherwise nothing. */
  function Rmdir(d: Disk, p: Path): (r: Disk)
    ensures r.files == d.files
    ensures p in d.dirs && p != [] && IsEmptyDir(d, p) ==> r.dirs == d.dirs - {p}
    ensures !(p in d.dirs && p != [] && IsEmptyDir(d, p)) ==> r == d
  {
    if p in d.dirs && p != [] && IsEmptyDir(d, p) then d.(dirs := d.dirs - {p}) else d
  }

  /** The disk with everything at or below `t` gone. */
  function RemoveTree(d: Disk, t: Path): (r: Disk)
    ensures forall p :: p in r.files <==> p in d.files && !(t <= p)
    ensures forall p :: p in r.files ==> r.files[p] == d.files[p]
    ensures forall p :: p in r.dirs <==> p in d.dirs && !(t <= p)
  {
    Disk(map p | p in d.files && !(t <= p) :: d.files[p], set p | p in d.dirs && !(t <= p))
  }

  /** Two disks with the same entries and the same bytes are the same disk. */
  lemma SameDisk(a: Disk, b: Disk)
    requires forall p :: p in a.files <==> p in b.files
    requires forall p :: p in a.files ==> a.files[p] == b.files[p]
    requires forall p :: p in a.dirs <==> p in b.dirs
    ensures a == b
  {
    assert a.files == b.files;
    assert a.dirs == b.dirs;
  }

  /** On a tree every prefix of a directory is a directory. */
  lemma PrefixesAreDirs(d: Disk, p: Path)
    requires Valid(d) && p in d.dirs
    ensures Prefixes(p) <= d.dirs
  {
    forall q | q in Prefixes(p) ensures q in d.dirs {
      var i :| 0 <= i <= |p| && q == p[..i];
      if i < |p| { AncestorsAreDirs(d, p, i); } else { assert p[..i] == p; }
    }
  }

  /** Overwriting a file and then writing its old bytes back restores the disk. */
  lemma PutFileRestores(d: Disk, p: Path, c: Content)
    requires p in d.files
    ensures PutFile(PutFile(d, p, c), p, d.files[p]) == d
  {
    if |p| > 0 && Parent(p) in d.dirs && p !in d.dirs {
      assert d.files[p := c][p := d.files[p]] == d.files;
    }
  }

  /** Removing a subtree that does not hold `p` commutes with writing `p`. */
  lemma RemoveTreePutFile(d: Disk, t: Path, p: Path, c: Content)
    requires |t| > 0 && !(t <= p)
    ensures RemoveTree(PutFile(d, p, c), t) == PutFile(RemoveTree(d, t), p, c)
  {
    if |p| > 0 && Parent(p) in d.dirs && p !in d.dirs {
      assert !(t <= Parent(p)) by { assert Parent(p) <= p; }
      assert RemoveTree(PutFile(d, p, c), t).files == RemoveTree(d, t).files[p := c];
    }
  }

  /** Removing a whole subtree (not the root) keeps the disk a tree. */
  lemma RemoveTreeValid(d: Disk, t: Path)
    requires Valid(d) && t != []
    ensures Valid(RemoveTree(d, t))
  {
    assert !(t <= []);
  }

  // ---------------------------------------------------------------------
  // Listings

  /** The names directly inside `p`. */
  function ChildNames(d: Disk, p: Path): set<Name>
  {
    (set q | q in d.dirs && |q| == |p| + 1 && p <= q :: q[|p|])
    + (set q | q in d.files && |q| == |p| + 1 && p <= q :: q[|p|])
  }

  /** One entry of a directory listing, as `DirectoryIterator` and `scandir` report it. */
  datatype Entry = Entry(name: Name, isDir: bool)

  /** The listing of directory `p`, with its "." and ".." entries; the order is left open. */
  function Listing(d: Disk, p: Path): (r: set<Entry>)
    ensures Entry(".", true) in r && Entry("..", true) in r
  {
    {Entry(".", true), Entry("..", true)} + set n | n in ChildNames(d, p) :: Entry(n, p + [n] in d.dirs)
  }

  /** The subdirectories of `p` by name. */
  function SubdirNames(d: Disk, p: Path): (r: set<Name>)
    ensures forall n :: n in r <==> p + [n] in d.dirs
  {
    var r := set q | q in d.dirs && |q| == |p| + 1 && p <= q :: q[|p|];
    assert forall n :: p + [n] in d.dirs ==> n in r by {
      forall n | p + [n] in d.dirs ensures n in r {
        var q := p + [n];
        assert |q| == |p| + 1 && p <= q && q[|p|] == n;
      }
    }
    assert forall n :: n in r ==> p + [n] in d.dirs by {
      forall n | n in r ensures p + [n] in d.dirs {
        var q :| q in d.dirs && |q| == |p| + 1 && p <= q && q[|p|] == n;
        assert q == p + [n];
      }
    }
    r
  }

  /** The directory entries of a listing, other than "." and "..", are exactly the subdirectories. */
  lemma ListingSubdirs(d: Disk, p: Path)
    requires Valid(d)
    ensures forall e :: e in Listing(d, p) && e.isDir && e.name != "." && e.name != ".." <==>
                        e.name in SubdirNames(d, p) && e.isDir
    ensures forall e :: e in Listing(d, p) ==> e.isDir == (e.name == "." || e.name == ".." || p + [e.name] in d.dirs)
  {
    forall n | n in SubdirNames(d, p) ensures Entry(n, true) in Listing(d, p) {
      var q := p + [n];
      assert |q| == |p| + 1 && p <= q && q[|p|] == n;
      assert n in ChildNames(d, p);
    }
    forall e | e in Listing(d, p) && e.name != "." && e.name != ".."
      ensures e.isDir == (p + [e.name] in d.dirs)
    {
      assert e.name in ChildNames(d, p);
    }
  }

  // ---------------------------------------------------------------------
  // Path strings

  /** The '/'-separated pieces of `s`, empty pieces included. */
  function SplitSlashes(s: string): (r: seq<string>)
    ensures |r| >= 1
    ensures forall i :: 0 <= i < |r| ==> '/' !in r[i]
    decreases |s|
  {
    if s == [] then [""]
    else if s[0] == '/' then [""] + SplitSlashes(s[1..])
    else
      var rest := SplitSlashes(s[1..]);
      [[s[0]] + rest[0]] + rest[1..]
  }

  /** Applies the pieces of a path string to `base`: empty and "." pieces stay, ".." goes up. */
  function Walk(base: Path, pieces: seq<string>): (p: Path)
    requires NamesOk(base)
    requires forall i :: 0 <= i < |pieces| ==> '/' !in pieces[i]
    ensures NamesOk(p)
    decreases |pieces|
  {
    if pieces == [] then base
    else
      var piece := pieces[0];
      var next := if piece == "" || piece == "." then base
                  else if piece == ".." then (if base == [] then [] else Parent(base))
                  else base + [piece];
      Walk(next, pieces[1..])
  }

  /**
   * The directory a declared path string names: absolute when it starts with
   * '/', otherwise relative to the working directory `cwd`. Symbolic links
   * are not modelled, so ".." is resolved by dropping the last segment.
   */
  function ResolvePath(cwd: Path, s: string): (p: Path)
    requires NamesOk(cwd)
    ensures NamesOk(p)
  {
    Walk(if |s| > 0 && s[0] == '/' then [] else cwd, SplitSlashes(s))
  }
}
