/**
 * Installing a new namespace and then uninstalling it gives back the
 * project as it was: the copied tree is removed, and the ledger
 * `public/.gitignore` is written back byte for byte.
 */
module RoundTrip {
  import opened Wrappers
  import opened FileSystem
  import opened Ledger
  import opened PackageConfig
  import opened TreeCopy
  import Install
  import opened Uninstall

  /**
   * The install half for a namespace that is new: the ledger gets the entry
   * appended to its old text, the copy leaves the ledger writable and makes
   * `public/<ns>`, and removing that directory's tree undoes the copy.
   */
  lemma FreshInstall(d: Disk, path: Path, publicPath: Path, ns: Name, f: Path)
    requires Valid(d) && NamesOk(publicPath) && publicPath in d.dirs
    requires ns != ".gitignore"
    requires GitignorePath(publicPath) in d.files
    requires EntryFor(ns) !in LedgerLines(d, GitignorePath(publicPath))
    requires forall p :: Exists(d, p) ==> !(publicPath + [ns] <= p)
    requires f in d.files && path + [ns] < f
    ensures var g := GitignorePath(publicPath);
            var c := CopyTree(d, path + [ns], publicPath);
            && AppendEntry(d.files[g], ns).Some?
            && Install.InstallOne(d, path, publicPath, ns) == PutFile(c, g, AppendEntry(d.files[g], ns).value)
            && Writable(c, g) && publicPath + [ns] in c.dirs
            && RemoveTree(c, publicPath + [ns]) == d
  {
    var g := GitignorePath(publicPath);
    var src := path + [ns];
    assert src[|src| - 1] == ns;
    var c := CopyTree(d, src, publicPath);
    ShallowFilesKept(d, src, publicPath, g);
    assert g !in d.dirs;
    SiblingNotMade(d, src, publicPath, g);
    FreshCopyMakesTop(d, src, publicPath, f);
    FreshCopyUndone(d, src, publicPath);
    assert c.dirs == d.dirs + MadeDirs(d, src, publicPath, SourceFiles(d, src));
    assert Install.LedgerText(c, g) == Some(d.files[g]);
  }

  /**
   * One namespace `ns` of `path` that holds at least one file `f`, neither
   * present below `public/` nor recorded in a ledger that exists and uses
   * plain line feeds: `copyAssets` installs and records it, and
   * `removeAssets` followed by the write-back of `__invoke` undoes both.
   */
  lemma InstallThenUninstall(d: Disk, path: Path, publicPath: Path, ns: Name, f: Path)
    requires Valid(d) && NamesOk(publicPath) && publicPath in d.dirs
    requires NoBreaks(ns) && ns != ".gitignore"
    requires GitignorePath(publicPath) in d.files
    requires '\r' !in d.files[GitignorePath(publicPath)]
    requires EntryFor(ns) !in LedgerLines(d, GitignorePath(publicPath))
    requires forall p :: Exists(d, p) ==> !(publicPath + [ns] <= p)
    requires f in d.files && path + [ns] < f
    ensures var g := GitignorePath(publicPath);
            var i := Install.InstallOne(d, path, publicPath, ns);
            var r := RemoveNamespace(Progress(i, LedgerLines(i, g)), publicPath, ns);
            PutFile(r.disk, g, JoinLines(r.ledger)) == d
  {
    var g := GitignorePath(publicPath);
    var top := publicPath + [ns];
    var c := CopyTree(d, path + [ns], publicPath);
    var text := d.files[g];
    FreshInstall(d, path, publicPath, ns, f);
    var written := AppendEntry(text, ns).value;
    var i := Install.InstallOne(d, path, publicPath, ns);
    assert i.files == c.files[g := written] && i.dirs == c.dirs;
    AppendEntryLines(text, ns);
    AppendThenRemove(text, ns);
    var r := RemoveNamespace(Progress(i, LedgerLines(i, g)), publicPath, ns);
    assert r == Progress(RemoveTree(i, top), RemoveFirst(SplitLines(written), EntryFor(ns)));
    assert !(top <= g) by { assert g[|publicPath|] == ".gitignore"; }
    RemoveTreePutFile(c, top, g, written);
    PutFileRestores(d, g, written);
  }
}
