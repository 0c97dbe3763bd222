/**
 * What an install run does to the ledger `public/.gitignore`: every
 * namespace it copies is recorded, lines already there stay first and in
 * order, no line is ever duplicated, and a second run over the same
 * namespaces leaves the file as it was.
 */
module InstallProperties {
  import opened Wrappers
  import opened FileSystem
  import opened Ledger
  import opened PackageConfig
  import opened TreeCopy
  import opened Install

  /**
   * `updateGitignore` on a writable ledger: afterwards the file exists and
   * its lines are the old ones with `ns/` appended exactly when it was
   * missing; when it was there, the disk is untouched.
   */
  lemma RecordNamespaceLedger(d: Disk, file: Path, ns: Name)
    requires Writable(d, file) && NoBreaks(ns)
    ensures var r := RecordNamespace(d, file, ns);
            && file in r.files
            && LedgerLines(r, file) == LedgerLines(d, file) + (if EntryFor(ns) in LedgerLines(d, file) then [] else [EntryFor(ns)])
            && (EntryFor(ns) in LedgerLines(d, file) ==> r == d)
  {
    var text := if file in d.files then d.files[file] else "";
    assert LedgerText(d, file) == Some(text);
    assert EntryFor(ns) != "" by { assert |EntryFor(ns)| == |ns| + 1; }
    if AppendEntry(text, ns).Some? {
      AppendEntryLines(text, ns);
    }
  }

  /** Recording the same namespace twice is recording it once. */
  lemma RecordNamespaceIdempotent(d: Disk, file: Path, ns: Name)
    requires Writable(d, file) && NoBreaks(ns)
    ensures RecordNamespace(RecordNamespace(d, file, ns), file, ns) == RecordNamespace(d, file, ns)
  {
    var r := RecordNamespace(d, file, ns);
    RecordNamespaceLedger(d, file, ns);
    RecordNamespaceLedger(r, file, ns);
  }

  /**
   * One namespace installed: the copy never touches the ledger file (every
   * destination is at least two segments below `public/`), and the namespace
   * is then recorded; the disk stays a tree and the ledger stays writable
   * (a namespace named ".gitignore" is excluded: its copy would make the
   * ledger path a directory).
   */
  lemma InstallOneLedger(e: Disk, path: Path, publicPath: Path, ns: Name)
    requires Valid(e) && NamesOk(publicPath) && publicPath in e.dirs
    requires Writable(e, GitignorePath(publicPath))
    requires NoBreaks(ns) && ns != ".gitignore"
    ensures var r := InstallOne(e, path, publicPath, ns);
            var g := GitignorePath(publicPath);
            && Valid(r) && publicPath in r.dirs && Writable(r, g) && g in r.files
            && LedgerLines(r, g) == LedgerLines(e, g) + (if EntryFor(ns) in LedgerLines(e, g) then [] else [EntryFor(ns)])
            && (EntryFor(ns) in LedgerLines(e, g) ==> SameLedger(e, r, g))
  {
    var g := GitignorePath(publicPath);
    var src := path + [ns];
    var c := CopyTree(e, src, publicPath);
    CopyTreeValid(e, src, publicPath);
    CopyTreeEffect(e, src, publicPath);
    ShallowFilesKept(e, src, publicPath, g);
    assert src[|src| - 1] == ns;
    SiblingNotMade(e, src, publicPath, g);
    assert publicPath in c.dirs;
    assert LedgerLines(c, g) == LedgerLines(e, g);
    RecordNamespaceLedger(c, g, ns);
    PutFileValid(c, g, if g in c.files then c.files[g] else "");
    var r := RecordNamespace(c, g, ns);
    if r != c {
      var text := if g in c.files then c.files[g] else "";
      PutFileValid(c, g, AppendEntry(text, ns).value);
    }
  }

  /** Every namespace of `order` may be recorded: no line breaks in it, and it is not ".gitignore". */
  predicate Recordable(order: seq<Name>) {
    forall i :: 0 <= i < |order| ==> NoBreaks(order[i]) && order[i] != ".gitignore"
  }

  /**
   * `copyAssets` over any listing order: the disk stays a tree, the old
   * ledger lines stay first and in order, the only lines added are entries
   * of the namespaces visited, each namespace visited is recorded, no line
   * is duplicated, and when every namespace was already recorded the
   * ledger file is left as it was.
   */
  lemma {:induction false} InstallNamespacesLedger(d: Disk, path: Path, publicPath: Path, order: seq<Name>)
    requires Valid(d) && NamesOk(publicPath) && publicPath in d.dirs
    requires Writable(d, GitignorePath(publicPath))
    requires Recordable(order)
    ensures var r := InstallNamespaces(d, path, publicPath, order);
            Valid(r) && publicPath in r.dirs && Writable(r, GitignorePath(publicPath))
    ensures var g := GitignorePath(publicPath);
            LedgersGrow(LedgerLines(d, g), LedgerLines(InstallNamespaces(d, path, publicPath, order), g), order)
    ensures order != [] ==> GitignorePath(publicPath) in InstallNamespaces(d, path, publicPath, order).files
    ensures var g := GitignorePath(publicPath);
            (forall ns :: ns in order ==> EntryFor(ns) in LedgerLines(d, g)) ==>
              SameLedger(d, InstallNamespaces(d, path, publicPath, order), g)
    decreases |order|
  {
    if order == [] {
      var lines := LedgerLines(d, GitignorePath(publicPath));
      assert lines <= lines;
    } else {
      var g := GitignorePath(publicPath);
      var n := |order| - 1;
      var prefix := order[..n];
      var ns := order[n];
      assert Recordable(prefix) by {
        forall i | 0 <= i < |prefix| ensures NoBreaks(prefix[i]) && prefix[i] != ".gitignore" {
          assert prefix[i] == order[i];
        }
      }
      InstallNamespacesLedger(d, path, publicPath, prefix);
      var e := InstallNamespaces(d, path, publicPath, prefix);
      var r := InstallNamespaces(d, path, publicPath, order);
      assert r == InstallOne(e, path, publicPath, ns);
      InstallOneLedger(e, path, publicPath, ns);
      LedgerLinesStep(LedgerLines(d, g), LedgerLines(e, g), LedgerLines(r, g), prefix, ns, order);
      if forall x :: x in order ==> EntryFor(x) in LedgerLines(d, g) {
        assert forall x :: x in prefix ==> x in order;
        assert EntryFor(ns) in LedgerLines(e, g);
      }
    }
  }

  /**
   * How the ledger lines grow over a run visiting `order`: the old lines stay
   * first and in order, the only lines added are entries of visited
   * namespaces, every visited namespace has its entry, and distinct lines
   * stay distinct.
   */
  ghost predicate LedgersGrow(old_lines: seq<string>, new_lines: seq<string>, order: seq<Name>) {
    && old_lines <= new_lines
    && (forall i :: |old_lines| <= i < |new_lines| ==> exists ns :: ns in order && new_lines[i] == EntryFor(ns))
    && (forall ns :: ns in order ==> EntryFor(ns) in new_lines)
    && (NoDuplicates(old_lines) ==> NoDuplicates(new_lines))
  }

  /** The ledger facts of `InstallNamespacesLedger`, carried one namespace further. */
  lemma LedgerLinesStep(old_lines: seq<string>, mid: seq<string>, new_lines: seq<string>, prefix: seq<Name>, ns: Name, order: seq<Name>)
    requires LedgersGrow(old_lines, mid, prefix)
    requires new_lines == mid + (if EntryFor(ns) in mid then [] else [EntryFor(ns)])
    requires 0 < |order| && prefix == order[..|order| - 1] && ns == order[|order| - 1]
    ensures LedgersGrow(old_lines, new_lines, order)
  {
    assert order == prefix + [ns];
    assert forall j :: |old_lines| <= j < |mid| ==> exists x :: x in prefix && mid[j] == EntryFor(x);
    forall i | |old_lines| <= i < |new_lines| ensures exists x :: x in order && new_lines[i] == EntryFor(x) {
      if i < |mid| {
        assert exists x :: x in prefix && mid[i] == EntryFor(x);
        var x :| x in prefix && mid[i] == EntryFor(x);
        assert x in order;
      } else {
        assert new_lines[i] == EntryFor(ns) && ns in order;
      }
    }
    forall x | x in order ensures EntryFor(x) in new_lines {
      if x in prefix {
        assert EntryFor(x) in mid;
      } else if EntryFor(ns) !in mid {
        assert new_lines[|mid|] == EntryFor(ns);
      }
    }
    if NoDuplicates(old_lines) && EntryFor(ns) !in mid {
      AppendKeepsNoDuplicates(mid, EntryFor(ns));
    }
  }

  /** The namespaces a run over several declared paths visits, path after path. */
  function Concat(orders: seq<seq<Name>>): seq<Name>
    decreases |orders|
  {
    if orders == [] then [] else Concat(orders[..|orders| - 1]) + orders[|orders| - 1]
  }

  /** A line past the old ones is the entry of a visited namespace. */
  lemma GrowthAdded(old_lines: seq<string>, new_lines: seq<string>, order: seq<Name>, i: int)
    requires LedgersGrow(old_lines, new_lines, order) && |old_lines| <= i < |new_lines|
    ensures exists x :: x in order && new_lines[i] == EntryFor(x)
  {
    var line := new_lines[i];
    assert exists x :: x in order && line == EntryFor(x);
  }

  /** Two stretches of ledger growth make one. */
  lemma LedgersGrowTrans(a: seq<string>, b: seq<string>, c: seq<string>, o1: seq<Name>, o2: seq<Name>)
    requires LedgersGrow(a, b, o1) && LedgersGrow(b, c, o2)
    ensures LedgersGrow(a, c, o1 + o2)
  {
    forall i | |a| <= i < |c| ensures exists x :: x in o1 + o2 && c[i] == EntryFor(x) {
      if i < |b| {
        assert c[i] == b[i];
        GrowthAdded(a, b, o1, i);
        var x :| x in o1 && b[i] == EntryFor(x);
        assert x in o1 + o2 && c[i] == EntryFor(x);
      } else {
        GrowthAdded(b, c, o2, i);
        var x :| x in o2 && c[i] == EntryFor(x);
        assert x in o1 + o2 && c[i] == EntryFor(x);
      }
    }
    assert a <= c;
    assert forall i :: |a| <= i < |c| ==> exists ns :: ns in o1 + o2 && c[i] == EntryFor(ns);
    assert NoDuplicates(a) ==> NoDuplicates(c);
    forall x | x in o1 + o2 ensures EntryFor(x) in c {
      if x in o1 {
        var j :| 0 <= j < |b| && b[j] == EntryFor(x);
        assert c[j] == b[j];
      }
    }
  }

  /** One declared path of `__invoke`: the ledger facts of `InstallNamespacesLedger`, or no change when the path is skipped. */
  lemma InstallPathLedger(m: Disk, cwd: Path, publicPath: Path, v: PhpValue, order: seq<Name>)
    requires NamesOk(cwd) && Valid(m) && NamesOk(publicPath) && publicPath in m.dirs
    requires Writable(m, GitignorePath(publicPath))
    requires ListsSubdirs(m, cwd, v, order) && Recordable(order)
    ensures var r := InstallPath(m, cwd, publicPath, v, order);
            Valid(r) && publicPath in r.dirs && Writable(r, GitignorePath(publicPath))
    ensures var g := GitignorePath(publicPath);
            LedgersGrow(LedgerLines(m, g), LedgerLines(InstallPath(m, cwd, publicPath, v, order), g), order)
    ensures var g := GitignorePath(publicPath);
            (forall ns :: ns in order ==> EntryFor(ns) in LedgerLines(m, g)) ==>
              SameLedger(m, InstallPath(m, cwd, publicPath, v, order), g)
  {
    var dir := DeclaredDir(cwd, v);
    if dir.Some? && dir.value in m.dirs {
      InstallNamespacesLedger(m, dir.value, publicPath, order);
    } else {
      InstallNamespacesLedger(m, [], publicPath, []);
    }
  }

  /**
   * A whole `__invoke` over the declared paths, whatever the listing
   * orders: the disk stays a tree with a writable ledger, the old lines stay
   * first and in order, only entries of visited namespaces are added, every
   * visited namespace is recorded, no line is duplicated, and when every
   * visited namespace was already recorded the ledger file is unchanged.
   */
  lemma {:induction false} InstallPathsLedger(d: Disk, cwd: Path, publicPath: Path, paths: seq<PhpValue>, orders: seq<seq<Name>>)
    requires NamesOk(cwd) && |orders| == |paths|
    requires Valid(d) && NamesOk(publicPath) && publicPath in d.dirs
    requires Writable(d, GitignorePath(publicPath))
    requires OrdersFit(d, cwd, publicPath, paths, orders)
    requires forall i :: 0 <= i < |orders| ==> Recordable(orders[i])
    ensures var r := InstallPaths(d, cwd, publicPath, paths, orders);
            Valid(r) && publicPath in r.dirs && Writable(r, GitignorePath(publicPath))
    ensures var g := GitignorePath(publicPath);
            LedgersGrow(LedgerLines(d, g), LedgerLines(InstallPaths(d, cwd, publicPath, paths, orders), g), Concat(orders))
    ensures var g := GitignorePath(publicPath);
            (forall ns :: ns in Concat(orders) ==> EntryFor(ns) in LedgerLines(d, g)) ==>
              SameLedger(d, InstallPaths(d, cwd, publicPath, paths, orders), g)
    decreases |paths|
  {
    var g := GitignorePath(publicPath);
    if paths == [] {
      var lines := LedgerLines(d, g);
      assert lines <= lines;
    } else {
      var n := |paths| - 1;
      var m := InstallPaths(d, cwd, publicPath, paths[..n], orders[..n]);
      var r := InstallPaths(d, cwd, publicPath, paths, orders);
      assert forall i :: 0 <= i < n ==> orders[..n][i] == orders[i];
      InstallPathsLedger(d, cwd, publicPath, paths[..n], orders[..n]);
      assert r == InstallPath(m, cwd, publicPath, paths[n], orders[n]);
      InstallPathLedger(m, cwd, publicPath, paths[n], orders[n]);
      LedgersGrowTrans(LedgerLines(d, g), LedgerLines(m, g), LedgerLines(r, g), Concat(orders[..n]), orders[n]);
      assert Concat(orders) == Concat(orders[..n]) + orders[n];
      if forall ns :: ns in Concat(orders) ==> EntryFor(ns) in LedgerLines(d, g) {
        assert forall ns :: ns in Concat(orders[..n]) ==> ns in Concat(orders);
        assert LedgerLines(m, g) == LedgerLines(d, g);
        assert forall ns :: ns in orders[n] ==> ns in Concat(orders);
      }
    }
  }

  /** Re-running the install over namespaces it has already recorded leaves the ledger file byte for byte as it was. */
  lemma ReinstallKeepsLedger(d: Disk, path: Path, publicPath: Path, order: seq<Name>, again: seq<Name>)
    requires Valid(d) && NamesOk(publicPath) && publicPath in d.dirs
    requires Writable(d, GitignorePath(publicPath))
    requires Recordable(order) && Recordable(again)
    requires forall ns :: ns in again ==> ns in order
    ensures var first := InstallNamespaces(d, path, publicPath, order);
            SameLedger(first, InstallNamespaces(first, path, publicPath, again), GitignorePath(publicPath))
  {
    InstallNamespacesLedger(d, path, publicPath, order);
    var first := InstallNamespaces(d, path, publicPath, order);
    InstallNamespacesLedger(first, path, publicPath, again);
  }

  /** The first namespace recorded into a missing ledger produces the text "\n<ns>/". */
  lemma FirstRecordIntoMissingLedger(d: Disk, file: Path, ns: Name)
    requires Writable(d, file) && file !in d.files
    ensures var r := RecordNamespace(d, file, ns);
            file in r.files && r.files[file] == "\n" + ns + "/"
  {
    AppendEntryToMissingLedger(ns);
  }

  /** When no declared path names a directory, the run changes nothing. */
  lemma {:induction false} NoDirectoryNoChange(d: Disk, cwd: Path, publicPath: Path, paths: seq<PhpValue>, orders: seq<seq<Name>>)
    requires NamesOk(cwd) && |orders| == |paths|
    requires forall i :: 0 <= i < |paths| ==> DeclaredDir(cwd, paths[i]).None? || DeclaredDir(cwd, paths[i]).value !in d.dirs
    ensures InstallPaths(d, cwd, publicPath, paths, orders) == d
    decreases |paths|
  {
    if paths != [] {
      var n := |paths| - 1;
      assert forall i :: 0 <= i < n ==> paths[..n][i] == paths[i];
      NoDirectoryNoChange(d, cwd, publicPath, paths[..n], orders[..n]);
    }
  }
}
