/**
 * The install synchroniser: when a package is installed, every asset
 * namespace (an immediate subdirectory of a declared asset path) is copied
 * into the project's `public/` directory and recorded as the line `ns/` of
 * `public/.gitignore`.
 *
 * The filesystem is the `disk` field of the synchroniser; the value returned
 * by the package's configuration file and the package's install path are
 * inputs of `Invoke`. Directory listings come in an order PHP does not fix:
 * the methods return, as ghost values, the order they happened to use, and
 * the specification functions take that order.
 */
module Install {
  import opened Wrappers
  import opened FileSystem
  import opened Ledger
  import opened PackageConfig
  import opened TreeCopy

  // ---------------------------------------------------------------------
  // Specification

  /** What the installer reads from the ledger: a missing file reads as '', a directory gives no text that could be written back. */
  function LedgerText(d: Disk, file: Path): (r: Option<string>)
    ensures file in d.files ==> r == Some(d.files[file])
    ensures !Exists(d, file) ==> r == Some("")
    ensures file in d.dirs && file !in d.files ==> r.None?
  {
    if Exists(d, file) then ReadFile(d, file) else Some("")
  }

  /**
   * `updateGitignore(file, ns)`: appends the line `ns/` to the ledger unless
   * it is already one of its lines; when it is, the file is not written.
   */
  function RecordNamespace(d: Disk, file: Path, ns: Name): (r: Disk)
    ensures r.dirs == d.dirs
    ensures forall p :: p != file ==> (p in r.files <==> p in d.files)
    ensures forall p :: p != file && p in d.files ==> r.files[p] == d.files[p]
  {
    match LedgerText(d, file)
    case None => d
    case Some(text) =>
      match AppendEntry(text, ns)
      case None => d
      case Some(written) => PutFile(d, file, written)
  }

  /** One namespace `ns` of the asset directory `path`: its tree is copied, then it is recorded. */
  ghost function InstallOne(d: Disk, path: Path, publicPath: Path, ns: Name): Disk
  {
    RecordNamespace(CopyTree(d, path + [ns], publicPath), GitignorePath(publicPath), ns)
  }

  /** `copyAssets(path, public)` visiting the namespaces in `order`. */
  ghost function InstallNamespaces(d: Disk, path: Path, publicPath: Path, order: seq<Name>): Disk
    decreases |order|
  {
    if order == [] then d
    else InstallOne(InstallNamespaces(d, path, publicPath, order[..|order| - 1]), path, publicPath, order[|order| - 1])
  }

  /** One declared path value: skipped unless it names a directory. */
  ghost function InstallPath(d: Disk, cwd: Path, publicPath: Path, v: PhpValue, order: seq<Name>): Disk
    requires NamesOk(cwd)
  {
    match DeclaredDir(cwd, v)
    case None => d
    case Some(p) => if p in d.dirs then InstallNamespaces(d, p, publicPath, order) else d
  }

  /** The loop of `__invoke` over the declared paths; `orders[i]` is the listing order used for `paths[i]`. */
  ghost function InstallPaths(d: Disk, cwd: Path, publicPath: Path, paths: seq<PhpValue>, orders: seq<seq<Name>>): Disk
    requires NamesOk(cwd) && |orders| == |paths|
    decreases |paths|
  {
    if paths == [] then d
    else
      var n := |paths| - 1;
      InstallPath(InstallPaths(d, cwd, publicPath, paths[..n], orders[..n]), cwd, publicPath, paths[n], orders[n])
  }

  /** The fold one namespace further. */
  lemma InstallNamespacesStep(d: Disk, path: Path, publicPath: Path, order: seq<Name>, ns: Name)
    ensures InstallNamespaces(d, path, publicPath, order + [ns])
         == InstallOne(InstallNamespaces(d, path, publicPath, order), path, publicPath, ns)
  {
    assert (order + [ns])[..|order|] == order;
  }

  /** Each order in `orders` is a listing of its declared path at the moment the loop reached it. */
  ghost predicate OrdersFit(d: Disk, cwd: Path, publicPath: Path, paths: seq<PhpValue>, orders: seq<seq<Name>>)
    requires NamesOk(cwd) && |orders| == |paths|
    decreases |paths|
  {
    paths == [] ||
    var n := |paths| - 1;
    && OrdersFit(d, cwd, publicPath, paths[..n], orders[..n])
    && ListsSubdirs(InstallPaths(d, cwd, publicPath, paths[..n], orders[..n]), cwd, paths[n], orders[n])
  }

  /** The loop over declared paths one path further. */
  lemma InstallPathsStep(d: Disk, cwd: Path, publicPath: Path, paths: seq<PhpValue>, i: nat,
                         orders: seq<seq<Name>>, order: seq<Name>)
    requires NamesOk(cwd) && i < |paths| && |orders| == i
    ensures InstallPaths(d, cwd, publicPath, paths[..i + 1], orders + [order])
         == InstallPath(InstallPaths(d, cwd, publicPath, paths[..i], orders), cwd, publicPath, paths[i], order)
    ensures OrdersFit(d, cwd, publicPath, paths[..i + 1], orders + [order])
        <==> OrdersFit(d, cwd, publicPath, paths[..i], orders)
             && ListsSubdirs(InstallPaths(d, cwd, publicPath, paths[..i], orders), cwd, paths[i], order)
  {
    assert paths[..i + 1][..i] == paths[..i];
    assert (orders + [order])[..i] == orders;
  }

  /** The guards of `__invoke` all pass: there is a `public/` directory, a configuration file, and declared paths. */
  predicate Proceeds(d: Disk, projectPath: Path, packagePath: Path, config: PhpValue) {
    && PublicPath(projectPath) in d.dirs
    && Exists(d, ConfigPath(packagePath))
    && DeclaredPaths(config).Some?
  }

  // ---------------------------------------------------------------------
  // The synchroniser

  class AssetInstaller {
    /** The filesystem the installer works on. */
    var disk: Disk
    /** The project root; `public/` lies directly below it. */
    var projectPath: Path
    /** The process working directory, against which relative declared paths resolve. */
    const cwd: Path

    /** The project path defaults to the working directory. */
    constructor(fs: Disk, workingDir: Path)
      ensures disk == fs && projectPath == workingDir && cwd == workingDir
    {
      disk := fs;
      projectPath := workingDir;
      cwd := workingDir;
    }

    /** `setProjectPath`: overrides the project root. */
    method SetProjectPath(path: Path)
      modifies this`projectPath
      ensures projectPath == path
    {
      projectPath := path;
    }

    /**
     * `copy(source, destination)`: every regular file below `source`, in
     * whatever order the recursive iterator yields it, is copied to its
     * `Target` below `destination`, after its directory is created when it
     * is not one yet.
     */
    method Copy(source: Path, destination: Path)
      requires Valid(disk) && 0 < |source| && NamesOk(destination)
      modifies this`disk
      ensures Valid(disk)
      ensures disk == CopyTree(old(disk), source, destination)
    {
      ghost var d := disk;
      var bytes := disk.files;
      var todo := SourceFiles(disk, source);
      ghost var done: set<Path> := {};
      while todo != {}
        invariant todo + done == SourceFiles(d, source) && todo !! done
        invariant Sources(d, source, done)
        invariant disk == CopyDone(d, source, destination, done)
        decreases todo
      {
        var f :| f in todo;
        var target := Target(source, destination, f);
        var targetDir := Parent(target);
        if targetDir !in disk.dirs {
          disk := MakeDirs(disk, targetDir);
        }
        disk := PutFile(disk, target, bytes[f]);
        CopyStep(d, source, destination, done, f);
        todo := todo - {f};
        done := done + {f};
      }
      CopyTreeValid(d, source, destination);
    }

    /** `updateGitignore(file, ns)`. */
    method UpdateGitignore(file: Path, ns: Name)
      requires Valid(disk) && NamesOk(file)
      modifies this`disk
      ensures Valid(disk)
      ensures disk == RecordNamespace(old(disk), file, ns)
    {
      var contents: Option<string>;
      if Exists(disk, file) {
        contents := ReadFile(disk, file);
      } else {
        contents := Some("");
      }
      if contents.None? {
        return;
      }
      var entry := EntryFor(ns);
      var lines := SplitLines(contents.value);
      if entry in lines {
        return;
      }
      lines := lines + [entry];
      PutFileValid(disk, file, JoinLines(lines));
      disk := PutFile(disk, file, JoinLines(lines));
    }

    /**
     * `copyAssets(path, public)`: unless `path` is not a directory, each entry
     * of its listing that is a directory other than "." and ".." is a
     * namespace, copied and then recorded. The listing is taken once, at the
     * start.
     */
    method CopyAssets(path: Path, publicPath: Path) returns (ghost order: seq<Name>)
      requires Valid(disk) && NamesOk(publicPath)
      modifies this`disk
      ensures Valid(disk)
      ensures path in old(disk).dirs ==> Enumerates(order, SubdirNames(old(disk), path))
      ensures path !in old(disk).dirs ==> order == []
      ensures disk == InstallNamespaces(old(disk), path, publicPath, order)
    {
      order := [];
      if path !in disk.dirs {
        return;
      }
      ghost var d := disk;
      var gitignoreFile := GitignorePath(publicPath);
      var entries := Listing(disk, path);
      ghost var seen: set<Entry> := {};
      while entries != {}
        invariant Valid(disk)
        invariant entries + seen == Listing(d, path) && entries !! seen
        invariant forall n :: n in order <==> Entry(n, true) in seen && n != "." && n != ".."
        invariant NoDuplicates(order)
        invariant disk == InstallNamespaces(d, path, publicPath, order)
        decreases entries
      {
        var file :| file in entries;
        entries := entries - {file};
        seen := seen + {file};
        if !file.isDir {
          continue;
        }
        var ns := file.name;
        if ns == "." || ns == ".." {
          continue;
        }
        assert Entry(ns, true) !in seen - {file};
        AppendKeepsNoDuplicates(order, ns);
        ghost var before := disk;
        Copy(path + [ns], publicPath);
        UpdateGitignore(gitignoreFile, ns);
        assert disk == InstallOne(before, path, publicPath, ns);
        InstallNamespacesStep(d, path, publicPath, order, ns);
        order := order + [ns];
      }
      ListingSubdirs(d, path);
    }

    /**
     * `__invoke`: the guards, then `copyAssets` for each declared path in
     * order. `config` is the value the package's configuration file returns.
     */
    method Invoke(packagePath: Path, config: PhpValue) returns (ghost orders: seq<seq<Name>>)
      requires Valid(disk) && NamesOk(projectPath) && NamesOk(cwd)
      modifies this`disk
      ensures Valid(disk)
      ensures if !Proceeds(old(disk), old(projectPath), packagePath, config) then
                disk == old(disk) && orders == []
              else
                var paths := DeclaredPaths(config).value;
                && |orders| == |paths|
                && OrdersFit(old(disk), cwd, PublicPath(old(projectPath)), paths, orders)
                && disk == InstallPaths(old(disk), cwd, PublicPath(old(projectPath)), paths, orders)
    {
      orders := [];
      var publicPath := PublicPath(projectPath);
      // the guards: each failing one ends the call with nothing changed
      if publicPath in disk.dirs && Exists(disk, ConfigPath(packagePath)) {
        var declared := DeclaredPaths(config);
        if declared.Some? {
          var paths := declared.value;
          ghost var d := disk;
          var i := 0;
          while i < |paths|
            invariant 0 <= i <= |paths| && |orders| == i
            invariant Valid(disk)
            invariant OrdersFit(d, cwd, publicPath, paths[..i], orders)
            invariant disk == InstallPaths(d, cwd, publicPath, paths[..i], orders)
          {
            ghost var before := disk;
            var dir := DeclaredDir(cwd, paths[i]);
            ghost var order: seq<Name> := [];
            if dir.Some? {
              order := CopyAssets(dir.value, publicPath);
            }
            assert ListsSubdirs(before, cwd, paths[i], order);
            assert disk == InstallPath(before, cwd, publicPath, paths[i], order);
            InstallPathsStep(d, cwd, publicPath, paths, i, orders, order);
            orders := orders + [order];
            i := i + 1;
          }
          assert paths[..i] == paths;
        }
      }
    }
  }
}
