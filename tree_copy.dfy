/**
 * The specification of the installer's recursive `copy($source, $destination)`:
 * every regular file below the namespace directory `src` is copied to the
 * same path below `src`'s parent, re-rooted at `dest`, with its bytes; the
 * missing destination directories are created first. The source iterates in
 * an order it does not define, so the specification is the closed form
 * `CopyTree`, and `CopyStep` shows that one more file copied in any order
 * keeps the state on that closed form.
 */
module TreeCopy {
  import opened FileSystem

  /** Where a source file `f` lands: its path below `src`'s parent, under `dest`. */
  function Target(src: Path, dest: Path, f: Path): (t: Path)
    requires 0 < |src| <= |f|
    ensures |t| == |dest| + |f| - |src| + 1 && dest <= t
  {
    dest + f[|src| - 1..]
  }

  /** The regular files below `src`: what the leaves-only recursive iterator yields as files. */
  function SourceFiles(d: Disk, src: Path): set<Path>
  {
    set f | f in d.files && src < f
  }

  /** All of `done` are regular files below `src`. */
  predicate Sources(d: Disk, src: Path, done: set<Path>) {
    forall f :: f in done ==> f in d.files && src < f
  }

  /** The destination directory of `f` can be created (or already exists): no file lies on its path. */
  predicate Mkdirable(d: Disk, src: Path, dest: Path, f: Path)
    requires 0 < |src| < |f|
  {
    !FileOnPath(d, Parent(Target(src, dest, f)))
  }

  /** The copy of `f` can land: its directory can be made and its destination is not a directory. */
  predicate Placeable(d: Disk, src: Path, dest: Path, f: Path)
    requires 0 < |src| < |f|
  {
    Mkdirable(d, src, dest, f) && Target(src, dest, f) !in d.dirs
  }

  /** The directories created for the files of `done`. */
  function MadeDirs(d: Disk, src: Path, dest: Path, done: set<Path>): set<Path>
    requires 0 < |src| && Sources(d, src, done)
  {
    set f, i | f in done && Mkdirable(d, src, dest, f) && 0 <= i < |Target(src, dest, f)| :: Target(src, dest, f)[..i]
  }

  /** The destinations written for the files of `done`. */
  function PlacedTargets(d: Disk, src: Path, dest: Path, done: set<Path>): (r: set<Path>)
    requires 0 < |src| && Sources(d, src, done)
    ensures forall t :: t in r ==> |dest| <= |t| && Origin(src, dest, t) in done && t == Target(src, dest, Origin(src, dest, t))
  {
    OriginsOfTargets(src, dest, done);
    set f | f in done && Placeable(d, src, dest, f) :: Target(src, dest, f)
  }

  /** The source file a destination came from. */
  function Origin(src: Path, dest: Path, t: Path): Path
    requires 0 < |src| && |dest| <= |t|
  {
    src[..|src| - 1] + t[|dest|..]
  }

  lemma OriginOfTarget(src: Path, dest: Path, f: Path)
    requires src < f
    ensures |src| > 0 ==> Origin(src, dest, Target(src, dest, f)) == f
  {
    if |src| > 0 {
      var k := |src| - 1;
      assert (dest + f[k..])[|dest|..] == f[k..];
      assert f[..k] == src[..k];
      assert f[..k] + f[k..] == f;
    }
  }

  lemma OriginsOfTargets(src: Path, dest: Path, done: set<Path>)
    requires forall f :: f in done ==> src < f
    ensures forall f :: f in done && |src| > 0 ==> Origin(src, dest, Target(src, dest, f)) == f
  {
    forall f | f in done && |src| > 0 ensures Origin(src, dest, Target(src, dest, f)) == f {
      OriginOfTarget(src, dest, f);
    }
  }

  /** The disk after the files of `done` have been copied. */
  ghost function CopyDone(d: Disk, src: Path, dest: Path, done: set<Path>): Disk
    requires 0 < |src| && Sources(d, src, done)
  {
    Disk(d.files + CopiedBytes(d.files, src, dest, PlacedTargets(d, src, dest, done)),
         d.dirs + MadeDirs(d, src, dest, done))
  }

  /** The bytes written: each destination gets those of its origin. */
  function CopiedBytes(files: map<Path, Content>, src: Path, dest: Path, placed: set<Path>): (m: map<Path, Content>)
    requires 0 < |src|
    requires forall t :: t in placed ==> |dest| <= |t| && Origin(src, dest, t) in files
    ensures m.Keys == placed
    ensures forall t :: t in placed ==> m[t] == files[Origin(src, dest, t)]
  {
    map t | t in placed :: files[Origin(src, dest, t)]
  }

  /** The disk after `copy(src, dest)`. */
  ghost function CopyTree(d: Disk, src: Path, dest: Path): Disk
    requires 0 < |src|
  {
    CopyDone(d, src, dest, SourceFiles(d, src))
  }

  // ---------------------------------------------------------------------
  // Why the order of the copies does not matter

  /** No destination is a proper prefix of another: a file is never copied onto a directory the copy needs. */
  lemma TargetNotOnTargetPath(d: Disk, src: Path, dest: Path, f: Path, g: Path, i: nat)
    requires Valid(d) && 0 < |src|
    requires f in d.files && src < f && g in d.files && src < g
    requires i < |Target(src, dest, g)|
    ensures Target(src, dest, f) != Target(src, dest, g)[..i]
  {
    var k := |src| - 1;
    var tf, tg := Target(src, dest, f), Target(src, dest, g);
    if tf == tg[..i] {
      assert |f| < |g|;
      forall j | 0 <= j < |f| ensures f[j] == g[j] {
        if j < k {
          assert f[j] == src[j] == g[j];
        } else {
          assert f[j] == tf[|dest| + j - k] == tg[|dest| + j - k] == g[j];
        }
      }
      assert f == g[..|f|];
      FileNotBelowFile(d, f, g);
    }
  }

  /** Copying never puts a file on the path of a later destination directory. */
  lemma FileOnPathUnchanged(d: Disk, src: Path, dest: Path, done: set<Path>, f: Path)
    requires Valid(d) && 0 < |src| && Sources(d, src, done)
    requires f in d.files && src < f
    ensures FileOnPath(CopyDone(d, src, dest, done), Parent(Target(src, dest, f)))
        == FileOnPath(d, Parent(Target(src, dest, f)))
  {
    var e := CopyDone(d, src, dest, done);
    var t := Target(src, dest, f);
    var q := Parent(t);
    if FileOnPath(e, q) {
      var i :| 0 <= i <= |q| && q[..i] in e.files;
      if q[..i] !in d.files {
        assert q[..i] in PlacedTargets(d, src, dest, done);
        var g := Origin(src, dest, q[..i]);
        ParentPrefix(t, i);
        TargetNotOnTargetPath(d, src, dest, g, f, i);
      }
    }
  }

  /** A prefix of the parent is a prefix of the path. */
  lemma ParentPrefix(t: Path, i: nat)
    requires i < |t|
    ensures Parent(t)[..i] == t[..i]
  {
  }

  /** A directory the copies have made, or one that was there, has no file on its path and all its prefixes present. */
  lemma CopiedDirFacts(d: Disk, src: Path, dest: Path, done: set<Path>, q: Path)
    requires Valid(d) && 0 < |src| && Sources(d, src, done)
    requires q in d.dirs + MadeDirs(d, src, dest, done)
    ensures !FileOnPath(d, q)
    ensures Prefixes(q) <= d.dirs + MadeDirs(d, src, dest, done)
  {
    var dirs := d.dirs + MadeDirs(d, src, dest, done);
    if q in d.dirs {
      DirNotOnFilePath(d, q);
      forall p | p in Prefixes(q) ensures p in dirs {
        var j :| 0 <= j <= |q| && p == q[..j];
        if j < |q| { AncestorsAreDirs(d, q, j); }
      }
    } else {
      var g, i :| g in done && Mkdirable(d, src, dest, g) && 0 <= i < |Target(src, dest, g)| && q == Target(src, dest, g)[..i];
      var tg := Target(src, dest, g);
      forall j | 0 <= j <= |q| ensures q[..j] !in d.files && q[..j] in dirs {
        assert q[..j] == tg[..j] == Parent(tg)[..j];
      }
      forall p | p in Prefixes(q) ensures p in dirs {
        var j :| 0 <= j <= |q| && p == q[..j];
      }
    }
  }

  /** No destination file is a directory that some copy made. */
  lemma TargetNotMadeDir(d: Disk, src: Path, dest: Path, done: set<Path>, f: Path)
    requires Valid(d) && 0 < |src| && Sources(d, src, done)
    requires f in d.files && src < f
    ensures Target(src, dest, f) !in MadeDirs(d, src, dest, done)
  {
    if Target(src, dest, f) in MadeDirs(d, src, dest, done) {
      var g, i :| g in done && Mkdirable(d, src, dest, g) && 0 <= i < |Target(src, dest, g)|
                  && Target(src, dest, f) == Target(src, dest, g)[..i];
      TargetNotOnTargetPath(d, src, dest, f, g, i);
    }
  }

  /** The directories made for one file are the prefixes of its destination directory. */
  lemma MadeDirsAddOne(d: Disk, src: Path, dest: Path, done: set<Path>, f: Path)
    requires 0 < |src| && Sources(d, src, done) && f in d.files && src < f
    ensures MadeDirs(d, src, dest, done + {f}) ==
            MadeDirs(d, src, dest, done) + (if Mkdirable(d, src, dest, f) then Prefixes(Parent(Target(src, dest, f))) else {})
  {
    var t := Target(src, dest, f);
    if Mkdirable(d, src, dest, f) {
      forall p | p in Prefixes(Parent(t)) ensures p in MadeDirs(d, src, dest, done + {f}) {
        var j :| 0 <= j <= |Parent(t)| && p == Parent(t)[..j];
        assert p == t[..j];
      }
      forall p | p in MadeDirs(d, src, dest, done + {f}) && p !in MadeDirs(d, src, dest, done)
        ensures p in Prefixes(Parent(t))
      {
        var j :| 0 <= j < |t| && p == t[..j];
        assert p == Parent(t)[..j];
      }
    }
  }

  /** The destinations written after one more copy. */
  lemma PlacedAddOne(d: Disk, src: Path, dest: Path, done: set<Path>, f: Path)
    requires 0 < |src| && Sources(d, src, done) && f in d.files && src < f
    ensures PlacedTargets(d, src, dest, done + {f}) ==
            PlacedTargets(d, src, dest, done) + (if Placeable(d, src, dest, f) then {Target(src, dest, f)} else {})
  {
  }

  /** Overriding with one more destination whose bytes are those of its origin. */
  lemma OverrideAddOne(files: map<Path, Content>, src: Path, dest: Path, a: set<Path>, t: Path)
    requires 0 < |src| && |dest| <= |t| && Origin(src, dest, t) in files
    requires forall x :: x in a ==> |dest| <= |x| && Origin(src, dest, x) in files
    ensures files + CopiedBytes(files, src, dest, a + {t})
         == (files + CopiedBytes(files, src, dest, a))[t := files[Origin(src, dest, t)]]
  {
    var left := files + CopiedBytes(files, src, dest, a + {t});
    var right := (files + CopiedBytes(files, src, dest, a))[t := files[Origin(src, dest, t)]];
    assert left.Keys == right.Keys;
    forall x | x in left ensures left[x] == right[x] {
    }
  }

  /** The files after one more copy: the destination gets the bytes exactly when the copy can land. */
  lemma CopyStepFiles(d: Disk, src: Path, dest: Path, done: set<Path>, f: Path)
    requires Valid(d) && 0 < |src| && Sources(d, src, done)
    requires f in d.files && src < f
    ensures CopyDone(d, src, dest, done + {f}).files ==
            if Placeable(d, src, dest, f) then CopyDone(d, src, dest, done).files[Target(src, dest, f) := d.files[f]]
            else CopyDone(d, src, dest, done).files
  {
    CopyStepBytes(d, src, dest, done, f);
  }

  lemma CopyStepBytes(d: Disk, src: Path, dest: Path, done: set<Path>, f: Path)
    requires 0 < |src| && Sources(d, src, done)
    requires f in d.files && src < f
    ensures d.files + CopiedBytes(d.files, src, dest, PlacedTargets(d, src, dest, done + {f})) ==
            if Placeable(d, src, dest, f)
            then (d.files + CopiedBytes(d.files, src, dest, PlacedTargets(d, src, dest, done)))[Target(src, dest, f) := d.files[f]]
            else d.files + CopiedBytes(d.files, src, dest, PlacedTargets(d, src, dest, done))
  {
    var t := Target(src, dest, f);
    var a := PlacedTargets(d, src, dest, done);
    var b := PlacedTargets(d, src, dest, done + {f});
    OriginOfTarget(src, dest, f);
    PlacedAddOne(d, src, dest, done, f);
    if Placeable(d, src, dest, f) {
      assert b == a + {t};
      OverrideAddOne(d.files, src, dest, a, t);
    } else {
      assert b == a;
    }
  }

  /** The directories after one more `mkdir`: the prefixes of the destination directory, unless a file blocks it. */
  lemma CopyStepDirs(d: Disk, src: Path, dest: Path, done: set<Path>, f: Path)
    requires Valid(d) && 0 < |src| && Sources(d, src, done)
    requires f in d.files && src < f
    ensures var e := CopyDone(d, src, dest, done);
            var q := Parent(Target(src, dest, f));
            (if q in e.dirs then e else MakeDirs(e, q)) == e.(dirs := CopyDone(d, src, dest, done + {f}).dirs)
  {
    var e := CopyDone(d, src, dest, done);
    var q := Parent(Target(src, dest, f));
    var made := MadeDirs(d, src, dest, done);
    var grown := d.dirs + MadeDirs(d, src, dest, done + {f});
    assert e.dirs == d.dirs + made;
    FileOnPathUnchanged(d, src, dest, done, f);
    MadeDirsAddOne(d, src, dest, done, f);
    if !Mkdirable(d, src, dest, f) {
      assert grown == e.dirs;
    } else if q in e.dirs {
      CopiedDirFacts(d, src, dest, done, q);
      assert grown == e.dirs + Prefixes(q) == e.dirs;
    } else {
      assert grown == e.dirs + Prefixes(q);
    }
  }

  /** After one more step the copy of `f` finds room exactly when it is placeable. */
  lemma RoomForTarget(d: Disk, src: Path, dest: Path, done: set<Path>, f: Path)
    requires Valid(d) && 0 < |src| && Sources(d, src, done)
    requires f in d.files && src < f
    ensures var dirs := d.dirs + MadeDirs(d, src, dest, done + {f});
            var t := Target(src, dest, f);
            (Parent(t) in dirs && t !in dirs) <==> Placeable(d, src, dest, f)
  {
    var t := Target(src, dest, f);
    var dirs := d.dirs + MadeDirs(d, src, dest, done + {f});
    MadeDirsAddOne(d, src, dest, done, f);
    TargetNotMadeDir(d, src, dest, done + {f}, f);
    if Parent(t) in dirs {
      CopiedDirFacts(d, src, dest, done + {f}, Parent(t));
    }
  }

  /**
   * One more file copied, in whatever order: `mkdir` of its directory when
   * that is not yet a directory, then `copy` of its bytes, takes the state
   * for `done` to the state for `done + {f}`.
   */
  lemma CopyStep(d: Disk, src: Path, dest: Path, done: set<Path>, f: Path)
    requires Valid(d) && 0 < |src| && Sources(d, src, done)
    requires f in d.files && src < f
    ensures var e := CopyDone(d, src, dest, done);
            var q := Parent(Target(src, dest, f));
            var e1 := if q in e.dirs then e else MakeDirs(e, q);
            PutFile(e1, Target(src, dest, f), d.files[f]) == CopyDone(d, src, dest, done + {f})
  {
    var e := CopyDone(d, src, dest, done);
    var t := Target(src, dest, f);
    var q := Parent(t);
    var next := CopyDone(d, src, dest, done + {f});
    var e1 := if q in e.dirs then e else MakeDirs(e, q);
    CopyStepDirs(d, src, dest, done, f);
    assert e1 == Disk(e.files, next.dirs);
    CopyStepFiles(d, src, dest, done, f);
    RoomForTarget(d, src, dest, done, f);
    if Placeable(d, src, dest, f) {
      assert PutFile(e1, t, d.files[f]) == Disk(e.files[t := d.files[f]], next.dirs);
    } else {
      assert PutFile(e1, t, d.files[f]) == e1;
    }
  }

  // ---------------------------------------------------------------------
  // What the copy does to the disk

  /** The directories the copies make are trees too: each has its parent among them and valid names. */
  lemma MadeDirsClosed(d: Disk, src: Path, dest: Path, done: set<Path>)
    requires Valid(d) && 0 < |src| && Sources(d, src, done) && NamesOk(dest)
    ensures forall q :: q in MadeDirs(d, src, dest, done) && q != [] ==>
              Parent(q) in MadeDirs(d, src, dest, done) && NamesOk(q)
  {
    forall q | q in MadeDirs(d, src, dest, done) && q != []
      ensures Parent(q) in MadeDirs(d, src, dest, done) && NamesOk(q)
    {
      var g, i :| g in done && Mkdirable(d, src, dest, g) && 0 <= i < |Target(src, dest, g)| && q == Target(src, dest, g)[..i];
      var tg := Target(src, dest, g);
      assert Parent(q) == tg[..i - 1];
      assert NamesOk(g);
      forall j | 0 <= j < |q| ensures ValidName(q[j]) {
        if j >= |dest| {
          assert q[j] == g[j - |dest| + |src| - 1];
        }
      }
    }
  }

  /** Each written destination sits in a made directory, has valid names and is not a directory. */
  lemma PlacedFit(d: Disk, src: Path, dest: Path, done: set<Path>)
    requires Valid(d) && 0 < |src| && Sources(d, src, done) && NamesOk(dest)
    ensures forall t :: t in PlacedTargets(d, src, dest, done) ==>
              |t| > 0 && Parent(t) in MadeDirs(d, src, dest, done) && NamesOk(t)
              && t !in d.dirs && t !in MadeDirs(d, src, dest, done)
  {
    forall t | t in PlacedTargets(d, src, dest, done)
      ensures |t| > 0 && Parent(t) in MadeDirs(d, src, dest, done) && NamesOk(t)
              && t !in d.dirs && t !in MadeDirs(d, src, dest, done)
    {
      var g :| g in done && Placeable(d, src, dest, g) && t == Target(src, dest, g);
      assert Parent(t) == t[..|t| - 1];
      assert NamesOk(g);
      forall j | 0 <= j < |t| ensures ValidName(t[j]) {
        if j >= |dest| {
          assert t[j] == g[j - |dest| + |src| - 1];
        }
      }
      TargetNotMadeDir(d, src, dest, done, g);
    }
  }

  /** Copying keeps the disk a tree (the destination must name a real path). */
  lemma CopyDoneValid(d: Disk, src: Path, dest: Path, done: set<Path>)
    requires Valid(d) && 0 < |src| && Sources(d, src, done) && NamesOk(dest)
    ensures Valid(CopyDone(d, src, dest, done))
  {
    var e := CopyDone(d, src, dest, done);
    var made := MadeDirs(d, src, dest, done);
    var placed := PlacedTargets(d, src, dest, done);
    MadeDirsClosed(d, src, dest, done);
    PlacedFit(d, src, dest, done);
    assert e.files.Keys == d.files.Keys + placed;
    assert e.dirs == d.dirs + made;
    forall p | p in e.files ensures p !in e.dirs {
      if p in d.files && p in made {
        CopiedDirFacts(d, src, dest, done, p);
      }
    }
  }

  /** `CopyTree` keeps the disk a tree. */
  lemma CopyTreeValid(d: Disk, src: Path, dest: Path)
    requires Valid(d) && 0 < |src| && NamesOk(dest)
    ensures Valid(CopyTree(d, src, dest))
  {
    CopyDoneValid(d, src, dest, SourceFiles(d, src));
  }

  /** The destinations all lie below `dest/<last segment of src>`. */
  lemma PlacedBelowTop(d: Disk, src: Path, dest: Path, done: set<Path>)
    requires 0 < |src| && Sources(d, src, done)
    ensures forall t :: t in PlacedTargets(d, src, dest, done) ==> dest + [src[|src| - 1]] <= t
  {
    forall t | t in PlacedTargets(d, src, dest, done) ensures dest + [src[|src| - 1]] <= t {
      var g :| g in done && Placeable(d, src, dest, g) && t == Target(src, dest, g);
      assert g[|src| - 1] == src[|src| - 1];
    }
  }

  /** The directories made lie on the way to `dest` or below `dest/<last segment of src>`. */
  lemma MadeDirsWhere(d: Disk, src: Path, dest: Path, done: set<Path>)
    requires 0 < |src| && Sources(d, src, done)
    ensures forall p :: p in MadeDirs(d, src, dest, done) ==> dest + [src[|src| - 1]] <= p || p in Prefixes(dest)
  {
    var top := dest + [src[|src| - 1]];
    forall p | p in MadeDirs(d, src, dest, done) ensures top <= p || p in Prefixes(dest) {
      var g, i :| g in done && Mkdirable(d, src, dest, g) && 0 <= i < |Target(src, dest, g)| && p == Target(src, dest, g)[..i];
      var tg := Target(src, dest, g);
      assert g[|src| - 1] == src[|src| - 1];
      assert tg[..|top|] == top;
      if i <= |dest| {
        assert p == dest[..i];
      } else {
        assert p[..|top|] == top;
      }
    }
  }

  /** Each source file whose destination can be made is copied with its bytes. */
  lemma CopyTreePlaces(d: Disk, src: Path, dest: Path, f: Path)
    requires 0 < |src| && f in d.files && src < f && Placeable(d, src, dest, f)
    ensures Target(src, dest, f) in CopyTree(d, src, dest).files
    ensures CopyTree(d, src, dest).files[Target(src, dest, f)] == d.files[f]
  {
    OriginOfTarget(src, dest, f);
    assert f in SourceFiles(d, src);
    assert Target(src, dest, f) in PlacedTargets(d, src, dest, SourceFiles(d, src));
  }

  /**
   * The copy preserves relative paths and bytes: each file below `src` whose
   * destination can be made lands at `Target`, below `dest/<last segment of
   * src>`, with identical content. Everything else written or made lies
   * below `dest/<last segment of src>` or on the way to `dest`; every file
   * outside that subtree, and every file inside it that is no destination,
   * keeps its bytes.
   */
  lemma CopyTreeEffect(d: Disk, src: Path, dest: Path)
    requires 0 < |src|
    ensures var r := CopyTree(d, src, dest);
            var top := dest + [src[|src| - 1]];
            && (forall f :: f in d.files && src < f && Placeable(d, src, dest, f) ==>
                  Target(src, dest, f) in r.files && r.files[Target(src, dest, f)] == d.files[f])
            && (forall p :: p in d.files && !(top <= p) ==> p in r.files && r.files[p] == d.files[p])
            && (forall p :: p in d.files && p !in PlacedTargets(d, src, dest, SourceFiles(d, src)) ==>
                  p in r.files && r.files[p] == d.files[p])
            && (forall p :: p in r.files ==> p in d.files || top <= p)
            && (forall p :: p in r.dirs ==> p in d.dirs || top <= p || p in Prefixes(dest))
  {
    PlacedBelowTop(d, src, dest, SourceFiles(d, src));
    MadeDirsWhere(d, src, dest, SourceFiles(d, src));
    forall f | f in d.files && src < f && Placeable(d, src, dest, f)
      ensures Target(src, dest, f) in CopyTree(d, src, dest).files
      ensures CopyTree(d, src, dest).files[Target(src, dest, f)] == d.files[f]
    {
      CopyTreePlaces(d, src, dest, f);
    }
  }

  /** A path no longer than `dest` plus one segment is never a destination: such files are kept as they were. */
  lemma ShallowFilesKept(d: Disk, src: Path, dest: Path, p: Path)
    requires 0 < |src| && |p| <= |dest| + 1
    ensures p in CopyTree(d, src, dest).files <==> p in d.files
    ensures p in d.files ==> CopyTree(d, src, dest).files[p] == d.files[p]
  {
    var placed := PlacedTargets(d, src, dest, SourceFiles(d, src));
    assert p !in placed;
  }

  /** A sibling of `dest/<last segment of src>` that is not a directory does not become one. */
  lemma SiblingNotMade(d: Disk, src: Path, dest: Path, p: Path)
    requires 0 < |src| && p !in d.dirs
    requires |p| == |dest| + 1 && p != dest + [src[|src| - 1]]
    ensures p !in CopyTree(d, src, dest).dirs
  {
    MadeDirsWhere(d, src, dest, SourceFiles(d, src));
  }

  /**
   * Copying into a namespace that does not yet exist under an existing `dest`
   * places every source file, with its bytes, and adds no other file.
   */
  lemma CopyIntoFreshNamespace(d: Disk, src: Path, dest: Path)
    requires Valid(d) && 0 < |src| && dest in d.dirs
    requires forall p :: Exists(d, p) ==> !(dest + [src[|src| - 1]] <= p)
    ensures var r := CopyTree(d, src, dest);
            && (forall f :: f in d.files && src < f ==>
                  Target(src, dest, f) in r.files && r.files[Target(src, dest, f)] == d.files[f])
            && (forall p :: p in r.files && p !in d.files ==> exists f :: f in d.files && src < f && p == Target(src, dest, f))
  {
    var top := dest + [src[|src| - 1]];
    forall f | f in d.files && src < f ensures Placeable(d, src, dest, f) {
      var t := Target(src, dest, f);
      assert f[|src| - 1] == src[|src| - 1];
      assert top <= t && !Exists(d, t);
      forall i | 0 <= i <= |Parent(t)| ensures Parent(t)[..i] !in d.files {
        if i <= |dest| {
          assert Parent(t)[..i] == dest[..i];
          if i < |dest| { AncestorsAreDirs(d, dest, i); } else { assert dest[..i] == dest; }
        } else {
          assert top <= Parent(t)[..i] && !Exists(d, Parent(t)[..i]);
        }
      }
    }
    CopyTreeEffect(d, src, dest);
  }

  /**
   * A copy into a namespace that did not exist is undone by removing that
   * namespace's tree: nothing else was written, and the only other
   * directories it could make already existed.
   */
  lemma FreshCopyUndone(d: Disk, src: Path, dest: Path)
    requires Valid(d) && 0 < |src| && dest in d.dirs
    requires forall p :: Exists(d, p) ==> !(dest + [src[|src| - 1]] <= p)
    ensures RemoveTree(CopyTree(d, src, dest), dest + [src[|src| - 1]]) == d
  {
    var top := dest + [src[|src| - 1]];
    var c := CopyTree(d, src, dest);
    var e := RemoveTree(c, top);
    CopyTreeEffect(d, src, dest);
    PrefixesAreDirs(d, dest);
    assert c.dirs == d.dirs + MadeDirs(d, src, dest, SourceFiles(d, src));
    forall p ensures p in e.dirs <==> p in d.dirs {
      if p in d.dirs { assert Exists(d, p); }
    }
    forall p | p in d.files ensures p in e.files {
      assert Exists(d, p);
    }
    SameDisk(e, d);
  }

  /** A copy of a namespace holding at least one file `f` makes the namespace directory. */
  lemma FreshCopyMakesTop(d: Disk, src: Path, dest: Path, f: Path)
    requires Valid(d) && 0 < |src| && NamesOk(dest) && dest in d.dirs
    requires forall p :: Exists(d, p) ==> !(dest + [src[|src| - 1]] <= p)
    requires f in d.files && src < f
    ensures dest + [src[|src| - 1]] in CopyTree(d, src, dest).dirs
  {
    var top := dest + [src[|src| - 1]];
    var c := CopyTree(d, src, dest);
    var t := Target(src, dest, f);
    CopyIntoFreshNamespace(d, src, dest);
    CopyTreeValid(d, src, dest);
    TargetBelowTop(src, dest, f);
    AncestorsAreDirs(c, t, |top|);
  }

  /** A destination lies strictly below the namespace directory `dest + [last of src]`. */
  lemma TargetBelowTop(src: Path, dest: Path, f: Path)
    requires 0 < |src| && src < f
    ensures var top := dest + [src[|src| - 1]];
            |top| < |Target(src, dest, f)| && Target(src, dest, f)[..|top|] == top
  {
    assert f[|src| - 1] == src[|src| - 1];
  }
}
