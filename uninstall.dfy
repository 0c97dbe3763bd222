/**
 * The uninstall synchroniser: when a package is removed, every asset
 * namespace it declares that is recorded in `public/.gitignore` and present
 * as a directory `public/<ns>` is deleted recursively and its line dropped;
 * the remaining lines are then written back to the ledger.
 *
 * The ledger lines are held in the `gitignore` field between the read and
 * the final write. As for the installer, the filesystem is the `disk`
 * field, the package's configuration value and install path are inputs of
 * `Invoke`, and the listing orders PHP leaves open are returned as ghost
 * values that the specification functions take.
 */
module Uninstall {
  import opened Wrappers
  import opened FileSystem
  import opened Ledger
  import opened PackageConfig

  // ---------------------------------------------------------------------
  // Specification

  /** The state the loop of `__invoke` works on: the disk and the ledger lines held in memory. */
  datatype Progress = Progress(disk: Disk, ledger: seq<string>)

  /**
   * `removeAssets` on one namespace `ns`: when `ns/` is a line of the ledger
   * and `public/ns` is a directory, the tree goes and the first such line
   * is dropped; otherwise nothing happens.
   */
  function RemoveNamespace(s: Progress, publicPath: Path, ns: Name): Progress
  {
    var entry := EntryFor(ns);
    var target := publicPath + [ns];
    if entry in s.ledger && target in s.disk.dirs then Progress(RemoveTree(s.disk, target), RemoveFirst(s.ledger, entry))
    else s
  }

  /** `removeAssets(path, public)` visiting the namespaces in `order`. */
  function RemoveNamespaces(s: Progress, publicPath: Path, order: seq<Name>): Progress
    decreases |order|
  {
    if order == [] then s
    else RemoveNamespace(RemoveNamespaces(s, publicPath, order[..|order| - 1]), publicPath, order[|order| - 1])
  }

  /** The fold one namespace further. */
  lemma RemoveNamespacesStep(s: Progress, publicPath: Path, order: seq<Name>, ns: Name)
    ensures RemoveNamespaces(s, publicPath, order + [ns])
         == RemoveNamespace(RemoveNamespaces(s, publicPath, order), publicPath, ns)
  {
    assert (order + [ns])[..|order|] == order;
  }

  /** Removing namespaces keeps the disk a tree. */
  lemma {:induction false} RemoveNamespacesValid(s: Progress, publicPath: Path, order: seq<Name>)
    requires Valid(s.disk)
    ensures Valid(RemoveNamespaces(s, publicPath, order).disk)
    decreases |order|
  {
    if order != [] {
      var n := |order| - 1;
      RemoveNamespacesValid(s, publicPath, order[..n]);
      RemoveTreeValid(RemoveNamespaces(s, publicPath, order[..n]).disk, publicPath + [order[n]]);
    }
  }

  /** One declared path value: skipped unless it names a directory. */
  function RemovePath(s: Progress, cwd: Path, publicPath: Path, v: PhpValue, order: seq<Name>): Progress
    requires NamesOk(cwd)
  {
    match DeclaredDir(cwd, v)
    case None => s
    case Some(p) => if p in s.disk.dirs then RemoveNamespaces(s, publicPath, order) else s
  }

  /** The loop of `__invoke` over the declared paths; `orders[i]` is the listing order used for `paths[i]`. */
  function RemovePaths(s: Progress, cwd: Path, publicPath: Path, paths: seq<PhpValue>, orders: seq<seq<Name>>): Progress
    requires NamesOk(cwd) && |orders| == |paths|
    decreases |paths|
  {
    if paths == [] then s
    else
      var n := |paths| - 1;
      RemovePath(RemovePaths(s, cwd, publicPath, paths[..n], orders[..n]), cwd, publicPath, paths[n], orders[n])
  }

  /** The whole loop over declared paths keeps the disk a tree. */
  lemma {:induction false} RemovePathsValid(s: Progress, cwd: Path, publicPath: Path, paths: seq<PhpValue>, orders: seq<seq<Name>>)
    requires NamesOk(cwd) && |orders| == |paths| && Valid(s.disk)
    ensures Valid(RemovePaths(s, cwd, publicPath, paths, orders).disk)
    decreases |paths|
  {
    if paths != [] {
      var n := |paths| - 1;
      RemovePathsValid(s, cwd, publicPath, paths[..n], orders[..n]);
      RemoveNamespacesValid(RemovePaths(s, cwd, publicPath, paths[..n], orders[..n]), publicPath, orders[n]);
    }
  }

  /** Each order in `orders` is a listing of its declared path at the moment the loop reached it. */
  ghost predicate OrdersFit(s: Progress, cwd: Path, publicPath: Path, paths: seq<PhpValue>, orders: seq<seq<Name>>)
    requires NamesOk(cwd) && |orders| == |paths|
    decreases |paths|
  {
    paths == [] ||
    var n := |paths| - 1;
    && OrdersFit(s, cwd, publicPath, paths[..n], orders[..n])
    && ListsSubdirs(RemovePaths(s, cwd, publicPath, paths[..n], orders[..n]).disk, cwd, paths[n], orders[n])
  }

  /** The loop over declared paths one path further. */
  lemma RemovePathsStep(s: Progress, cwd: Path, publicPath: Path, paths: seq<PhpValue>, i: nat,
                        orders: seq<seq<Name>>, order: seq<Name>)
    requires NamesOk(cwd) && i < |paths| && |orders| == i
    ensures RemovePaths(s, cwd, publicPath, paths[..i + 1], orders + [order])
         == RemovePath(RemovePaths(s, cwd, publicPath, paths[..i], orders), cwd, publicPath, paths[i], order)
    ensures OrdersFit(s, cwd, publicPath, paths[..i], orders)
            && ListsSubdirs(RemovePaths(s, cwd, publicPath, paths[..i], orders).disk, cwd, paths[i], order)
        ==> OrdersFit(s, cwd, publicPath, paths[..i + 1], orders + [order])
  {
    assert paths[..i + 1][..i] == paths[..i];
    assert (orders + [order])[..i] == orders;
  }

  /**
   * The guards of `__invoke` all pass: there is a `public/` directory, the
   * ledger exists, there is a configuration file, and it declares paths.
   */
  predicate Proceeds(d: Disk, projectPath: Path, packagePath: Path, config: PhpValue) {
    && PublicPath(projectPath) in d.dirs
    && Exists(d, GitignorePath(PublicPath(projectPath)))
    && Exists(d, ConfigPath(packagePath))
    && DeclaredPaths(config).Some?
  }

  // ---------------------------------------------------------------------
  // The recursive removal, one level of the tree at a time

  /** `p` lies at or below `tree + [n]` for one of `names`. */
  predicate UnderChild(tree: Path, names: set<Name>, p: Path) {
    |tree| < |p| && p[..|tree|] == tree && p[|tree|] in names
  }

  lemma BelowChild(tree: Path, n: Name, p: Path)
    ensures tree + [n] <= p <==> UnderChild(tree, {n}, p)
  {
    if UnderChild(tree, {n}, p) {
      assert p[..|tree| + 1] == p[..|tree|] + [p[|tree|]];
    }
  }

  /** The disk after the loop of `remove(tree)` has dealt with the children `names`. */
  function RemoveChildren(d: Disk, tree: Path, names: set<Name>): (r: Disk)
    ensures forall p :: p in r.files <==> p in d.files && !UnderChild(tree, names, p)
    ensures forall p :: p in r.files ==> r.files[p] == d.files[p]
    ensures forall p :: p in r.dirs <==> p in d.dirs && !UnderChild(tree, names, p)
  {
    Disk(map p | p in d.files && !UnderChild(tree, names, p) :: d.files[p],
         set p | p in d.dirs && !UnderChild(tree, names, p))
  }

  /** The directories at or below `t`: the measure the recursion of `remove` goes down. */
  function SubtreeDirs(d: Disk, t: Path): set<Path> {
    set q | q in d.dirs && t <= q
  }

  /** Removing whole subtrees of children keeps the disk a tree. */
  lemma RemoveChildrenValid(d: Disk, tree: Path, names: set<Name>)
    requires Valid(d)
    ensures Valid(RemoveChildren(d, tree, names))
  {
    var r := RemoveChildren(d, tree, names);
    forall p | p in r.files || (p in r.dirs && p != [])
      ensures Parent(p) in r.dirs
    {
      var q := Parent(p);
    }
  }

  /** Dealing with one more child `n`: the names below it join the removed ones. */
  lemma UnderOneMore(tree: Path, done: set<Name>, n: Name)
    ensures forall p :: UnderChild(tree, done + {n}, p) <==> UnderChild(tree, done, p) || tree + [n] <= p
  {
    forall p ensures UnderChild(tree, done + {n}, p) <==> UnderChild(tree, done, p) || tree + [n] <= p {
      BelowChild(tree, n, p);
    }
  }

  /** A child that is a directory is removed as a tree, and its subtree is smaller than the one being removed. */
  lemma RemoveChildDir(d: Disk, tree: Path, done: set<Name>, n: Name)
    requires tree in d.dirs && n !in done && tree + [n] in RemoveChildren(d, tree, done).dirs
    ensures RemoveTree(RemoveChildren(d, tree, done), tree + [n]) == RemoveChildren(d, tree, done + {n})
    ensures SubtreeDirs(RemoveChildren(d, tree, done), tree + [n]) < SubtreeDirs(d, tree)
  {
    var e := RemoveChildren(d, tree, done);
    var c := tree + [n];
    var next := RemoveChildren(d, tree, done + {n});
    UnderOneMore(tree, done, n);
    assert RemoveTree(e, c).files == next.files;
    assert RemoveTree(e, c).dirs == next.dirs;
    assert tree in SubtreeDirs(d, tree) && tree !in SubtreeDirs(e, c);
  }

  /** A child that is not a directory is a regular file with nothing below it: unlinking it removes it. */
  lemma RemoveChildFile(d: Disk, tree: Path, done: set<Name>, n: Name)
    requires Valid(d) && n in ChildNames(d, tree) && n !in done
    requires tree + [n] !in RemoveChildren(d, tree, done).dirs
    ensures Unlink(RemoveChildren(d, tree, done), tree + [n]) == RemoveChildren(d, tree, done + {n})
  {
    var e := RemoveChildren(d, tree, done);
    var c := tree + [n];
    var next := RemoveChildren(d, tree, done + {n});
    UnderOneMore(tree, done, n);
    assert !UnderChild(tree, done, c);
    assert c in d.files by {
      var q :| (q in d.dirs || q in d.files) && |q| == |tree| + 1 && tree <= q && q[|tree|] == n;
      assert q == c;
    }
    forall p | c < p ensures p !in d.files && p !in d.dirs {
      assert p[..|c|] == c;
      if p in d.files || p in d.dirs {
        AncestorsAreDirs(d, p, |c|);
      }
    }
    forall p ensures p in Unlink(e, c).files <==> p in next.files {
      if p != c && c <= p {
        assert c < p;
      }
    }
    forall p ensures p in Unlink(e, c).dirs <==> p in next.dirs {
      if c <= p {
        assert p == c || c < p;
      }
    }
    SameDisk(Unlink(e, c), next);
  }

  /** Once every child is dealt with, `rmdir(tree)` succeeds and the whole tree is gone. */
  lemma RemovedAllChildren(d: Disk, tree: Path)
    requires Valid(d) && tree in d.dirs && tree != []
    ensures Rmdir(RemoveChildren(d, tree, ChildNames(d, tree)), tree) == RemoveTree(d, tree)
  {
    var names := ChildNames(d, tree);
    var e := RemoveChildren(d, tree, names);
    forall q | (q in d.files || q in d.dirs) && tree < q
      ensures UnderChild(tree, names, q)
    {
      var c := q[..|tree| + 1];
      if |q| > |tree| + 1 {
        AncestorsAreDirs(d, q, |tree| + 1);
      } else {
        assert c == q;
      }
      assert |c| == |tree| + 1 && tree <= c && c[|tree|] == q[|tree|];
      assert q[|tree|] in names;
    }
    assert IsEmptyDir(e, tree);
    forall p ensures tree <= p <==> p == tree || UnderChild(tree, names, p) || (tree < p && p !in d.files && p !in d.dirs) {
    }
    SameDisk(Rmdir(e, tree), RemoveTree(d, tree));
  }

  // ---------------------------------------------------------------------
  // The synchroniser

  class AssetUninstaller {
    /** The filesystem the uninstaller works on. */
    var disk: Disk
    /** The ledger lines read by `fetchIgnoreRules`, shrinking as namespaces are removed. */
    var gitignore: seq<string>
    /** The project root; `public/` lies directly below it. */
    var projectPath: Path
    /** The process working directory, against which relative declared paths resolve. */
    const cwd: Path

    /** The project path defaults to the working directory; no ledger lines are held yet. */
    constructor(fs: Disk, workingDir: Path)
      ensures disk == fs && gitignore == [] && projectPath == workingDir && cwd == workingDir
    {
      disk := fs;
      gitignore := [];
      projectPath := workingDir;
      cwd := workingDir;
    }

    /** `setProjectPath`: overrides the project root. */
    method SetProjectPath(path: Path)
      modifies this`projectPath
      ensures projectPath == path
    {
      projectPath := path;
    }

    /**
     * `fetchIgnoreRules(file)`: the ledger's lines, split at "\r\n", "\r" or
     * "\n". A file that cannot be read gives one empty line. Without '\r' in
     * it, joining the lines with "\n" gives the file back.
     */
    function FetchIgnoreRules(file: Path): (lines: seq<string>)
      reads this
      ensures |lines| >= 1
      ensures forall i :: 0 <= i < |lines| ==> NoBreaks(lines[i])
      ensures file !in disk.files ==> lines == [""]
      ensures file in disk.files && '\r' !in disk.files[file] ==> JoinLines(lines) == disk.files[file]
    {
      assert file in disk.files && '\r' !in disk.files[file] ==> JoinLines(SplitLines(disk.files[file])) == disk.files[file] by {
        if file in disk.files && '\r' !in disk.files[file] {
          JoinSplit(disk.files[file]);
        }
      }
      LedgerLines(disk, file)
    }

    /**
     * `remove(tree)`: each entry of the tree's listing is removed, a
     * directory recursively and anything else by `unlink`, and then the now
     * empty directory itself.
     */
    method Remove(tree: Path)
      requires Valid(disk) && tree in disk.dirs && tree != []
      modifies this`disk
      ensures disk == RemoveTree(old(disk), tree)
      decreases SubtreeDirs(disk, tree)
    {
      ghost var d := disk;
      var files := ChildNames(disk, tree);
      ghost var done: set<Name> := {};
      while files != {}
        invariant files + done == ChildNames(d, tree) && files !! done
        invariant disk == RemoveChildren(d, tree, done)
        decreases files
      {
        var file :| file in files;
        var path := tree + [file];
        RemoveChildrenValid(d, tree, done);
        if path in disk.dirs {
          RemoveChildDir(d, tree, done, file);
          Remove(path);
        } else {
          RemoveChildFile(d, tree, done, file);
          disk := Unlink(disk, path);
        }
        files := files - {file};
        done := done + {file};
      }
      RemovedAllChildren(d, tree);
      disk := Rmdir(disk, tree);
    }

    /**
     * `removeAssets(path, public)`: unless `path` is not a directory, each
     * entry of its listing that is a directory other than "." and ".." is a
     * namespace; it is removed, with its ledger line, when it is recorded
     * and present. The listing is taken once, at the start.
     */
    method RemoveAssets(path: Path, publicPath: Path) returns (ghost order: seq<Name>)
      requires Valid(disk)
      modifies this`disk, this`gitignore
      ensures Valid(disk)
      ensures path in old(disk).dirs ==> Enumerates(order, SubdirNames(old(disk), path))
      ensures path !in old(disk).dirs ==> order == []
      ensures Progress(disk, gitignore) == RemoveNamespaces(Progress(old(disk), old(gitignore)), publicPath, order)
    {
      order := [];
      if path in disk.dirs {
        ghost var s := Progress(disk, gitignore);
        var entries := Listing(disk, path);
        ghost var seen: set<Entry> := {};
        while entries != {}
          invariant Valid(disk)
          invariant entries + seen == Listing(s.disk, path) && entries !! seen
          invariant forall n :: n in order <==> Entry(n, true) in seen && n != "." && n != ".."
          invariant NoDuplicates(order)
          invariant Progress(disk, gitignore) == RemoveNamespaces(s, publicPath, order)
          decreases entries
        {
          var file :| file in entries;
          entries := entries - {file};
          seen := seen + {file};
          if file.isDir && file.name != "." && file.name != ".." {
            var assetPath := file.name;
            assert Entry(assetPath, true) !in seen - {file};
            AppendKeepsNoDuplicates(order, assetPath);
            var gitignoreEntry := EntryFor(assetPath);
            var pathToRemove := publicPath + [assetPath];
            if gitignoreEntry in gitignore && pathToRemove in disk.dirs {
              RemoveTreeValid(disk, pathToRemove);
              Remove(pathToRemove);
              gitignore := RemoveFirst(gitignore, gitignoreEntry);
            }
            RemoveNamespacesStep(s, publicPath, order, assetPath);
            order := order + [assetPath];
          }
        }
        ListingSubdirs(s.disk, path);
      }
    }

    /**
     * `__invoke`: the guards, then the ledger is read, `removeAssets` runs
     * for each declared path in order, and the remaining lines are written
     * back joined by "\n". `config` is the value the package's
     * configuration file returns.
     */
    method Invoke(packagePath: Path, config: PhpValue) returns (ghost orders: seq<seq<Name>>)
      requires Valid(disk) && NamesOk(projectPath) && NamesOk(cwd)
      modifies this`disk, this`gitignore
      ensures Valid(disk)
      ensures if !Proceeds(old(disk), old(projectPath), packagePath, config) then
                disk == old(disk) && gitignore == old(gitignore) && orders == []
              else
                var paths := DeclaredPaths(config).value;
                var publicPath := PublicPath(old(projectPath));
                var s := Progress(old(disk), LedgerLines(old(disk), GitignorePath(publicPath)));
                && |orders| == |paths|
                && OrdersFit(s, cwd, publicPath, paths, orders)
                && var r := RemovePaths(s, cwd, publicPath, paths, orders);
                && gitignore == r.ledger
                && disk == PutFile(r.disk, GitignorePath(publicPath), JoinLines(r.ledger))
    {
      orders := [];
      var publicPath := PublicPath(projectPath);
      var gitignoreFile := GitignorePath(publicPath);
      // the guards: each failing one ends the call with nothing changed
      if publicPath in disk.dirs && Exists(disk, gitignoreFile) && Exists(disk, ConfigPath(packagePath))
         && DeclaredPaths(config).Some? {
        var paths := DeclaredPaths(config).value;
        gitignore := FetchIgnoreRules(gitignoreFile);
        ghost var s := Progress(disk, gitignore);
        assert s == Progress(old(disk), LedgerLines(old(disk), gitignoreFile));
        var i := 0;
        while i < |paths|
          invariant 0 <= i <= |paths| && |orders| == i
          invariant OrdersFit(s, cwd, publicPath, paths[..i], orders)
          invariant Progress(disk, gitignore) == RemovePaths(s, cwd, publicPath, paths[..i], orders)
        {
          ghost var before := Progress(disk, gitignore);
          RemovePathsValid(s, cwd, publicPath, paths[..i], orders);
          var dir := DeclaredDir(cwd, paths[i]);
          ghost var order: seq<Name> := [];
          if dir.Some? {
            order := RemoveAssets(dir.value, publicPath);
          }
          assert ListsSubdirs(before.disk, cwd, paths[i], order);
          assert Progress(disk, gitignore) == RemovePath(before, cwd, publicPath, paths[i], order);
          RemovePathsStep(s, cwd, publicPath, paths, i, orders, order);
          orders := orders + [order];
          i := i + 1;
        }
        assert paths[..i] == paths;
        RemovePathsValid(s, cwd, publicPath, paths, orders);
        PutFileValid(disk, gitignoreFile, JoinLines(gitignore));
        disk := PutFile(disk, gitignoreFile, JoinLines(gitignore));
      }
    }
  }
}
