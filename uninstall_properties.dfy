/**
 * What an uninstall run may and must do: it only deletes what lies below
 * `public/<ns>` for a visited namespace whose line `ns/` is in the ledger,
 * it only drops such lines, it does delete every recorded namespace it
 * visits, and when nothing it visits is recorded the project is left as it
 * was.
 */
module UninstallProperties {
  import opened FileSystem
  import opened Ledger
  import opened PackageConfig
  import opened Uninstall

  /** The namespaces an order visits. */
  function Visited(order: seq<Name>): (names: set<Name>)
    ensures forall ns :: ns in names <==> ns in order
  {
    set ns | ns in order
  }

  /** The namespaces all the orders of a run visit. */
  function AllVisited(orders: seq<seq<Name>>): (names: set<Name>)
    ensures forall i, ns :: 0 <= i < |orders| && ns in orders[i] ==> ns in names
    ensures forall ns :: ns in names ==> exists i :: 0 <= i < |orders| && ns in orders[i]
  {
    set i, ns | 0 <= i < |orders| && ns in orders[i] :: ns
  }

  /** `x` is not the ledger line of any of `names`. */
  predicate Unlisted(x: string, names: set<Name>) {
    forall ns :: ns in names ==> x != EntryFor(ns)
  }

  /** `p` lies at or below `public/<ns>` for one of `names` whose line `ns/` is in the ledger of `s`. */
  ghost predicate Authorised(s: Progress, publicPath: Path, names: set<Name>, p: Path) {
    exists ns :: ns in names && EntryFor(ns) in s.ledger && publicPath + [ns] <= p
  }

  /**
   * From `s` to `r` the run only took things away: no file or directory
   * appears and no bytes change; whatever went was authorised by a line of
   * the ledger of `s` for one of `names`; the ledger lost lines and kept every
   * line that is not the entry of one of `names` as often as it had it.
   */
  ghost predicate Shrinks(s: Progress, r: Progress, publicPath: Path, names: set<Name>) {
    && (forall p :: p in r.disk.files ==> p in s.disk.files && r.disk.files[p] == s.disk.files[p])
    && (forall p :: p in r.disk.dirs ==> p in s.disk.dirs)
    && (forall p :: p in s.disk.files && p !in r.disk.files ==> Authorised(s, publicPath, names, p))
    && (forall p :: p in s.disk.dirs && p !in r.disk.dirs ==> Authorised(s, publicPath, names, p))
    && multiset(r.ledger) <= multiset(s.ledger)
    && (forall x :: Unlisted(x, names) ==> multiset(r.ledger)[x] == multiset(s.ledger)[x])
  }

  /** One namespace: the tree removed is the one its ledger line names, and that line is the only one dropped. */
  lemma RemoveNamespaceShrinks(s: Progress, publicPath: Path, ns: Name)
    ensures Shrinks(s, RemoveNamespace(s, publicPath, ns), publicPath, {ns})
  {
    var entry := EntryFor(ns);
    if entry in s.ledger && publicPath + [ns] in s.disk.dirs {
      RemoveFirstCounts(s.ledger, entry);
    }
  }

  /** Two stretches of a run that each only take away make one. */
  lemma ShrinksTrans(s: Progress, m: Progress, r: Progress, publicPath: Path, a: set<Name>, b: set<Name>, names: set<Name>)
    requires Shrinks(s, m, publicPath, a) && Shrinks(m, r, publicPath, b)
    requires a <= names && b <= names
    ensures Shrinks(s, r, publicPath, names)
  {
    forall p | (p in s.disk.files && p !in r.disk.files) || (p in s.disk.dirs && p !in r.disk.dirs)
      ensures Authorised(s, publicPath, names, p)
    {
      if (p in s.disk.files && p !in m.disk.files) || (p in s.disk.dirs && p !in m.disk.dirs) {
        var ns :| ns in a && EntryFor(ns) in s.ledger && publicPath + [ns] <= p;
        assert ns in names;
      } else {
        var ns :| ns in b && EntryFor(ns) in m.ledger && publicPath + [ns] <= p;
        assert multiset(m.ledger)[EntryFor(ns)] > 0;
        assert EntryFor(ns) in s.ledger;
      }
    }
  }

  /** `removeAssets` over any listing order only takes away, as authorised by the ledger it started from. */
  lemma {:induction false} RemoveNamespacesShrinks(s: Progress, publicPath: Path, order: seq<Name>)
    ensures Shrinks(s, RemoveNamespaces(s, publicPath, order), publicPath, Visited(order))
    decreases |order|
  {
    if order != [] {
      var n := |order| - 1;
      var m := RemoveNamespaces(s, publicPath, order[..n]);
      RemoveNamespacesShrinks(s, publicPath, order[..n]);
      RemoveNamespaceShrinks(m, publicPath, order[n]);
      ShrinksTrans(s, m, RemoveNamespace(m, publicPath, order[n]), publicPath, Visited(order[..n]), {order[n]}, Visited(order));
    }
  }

  /** The loop over declared paths only takes away, as authorised by the ledger read at the start. */
  lemma {:induction false} RemovePathsShrinks(s: Progress, cwd: Path, publicPath: Path, paths: seq<PhpValue>, orders: seq<seq<Name>>)
    requires NamesOk(cwd) && |orders| == |paths|
    ensures Shrinks(s, RemovePaths(s, cwd, publicPath, paths, orders), publicPath, AllVisited(orders))
    decreases |paths|
  {
    if paths != [] {
      var n := |paths| - 1;
      var m := RemovePaths(s, cwd, publicPath, paths[..n], orders[..n]);
      RemovePathsShrinks(s, cwd, publicPath, paths[..n], orders[..n]);
      RemoveNamespacesShrinks(m, publicPath, orders[n]);
      assert forall i :: 0 <= i < n ==> orders[..n][i] == orders[i];
      ShrinksTrans(s, m, RemovePaths(s, cwd, publicPath, paths, orders), publicPath,
                   AllVisited(orders[..n]), Visited(orders[n]), AllVisited(orders));
    }
  }

  /** Distinct namespaces have distinct ledger lines. */
  lemma EntryForInjective(a: Name, b: Name)
    requires EntryFor(a) == EntryFor(b)
    ensures a == b
  {
    assert a == EntryFor(a)[..|a|] && b == EntryFor(b)[..|b|];
  }

  /** `public/<ns>` is not below `public/<x>` for any other namespace `x`. */
  lemma SiblingNotAuthorised(s: Progress, publicPath: Path, names: set<Name>, ns: Name)
    requires ns !in names
    ensures !Authorised(s, publicPath, names, publicPath + [ns])
  {
    forall x | x in names ensures !(publicPath + [x] <= publicPath + [ns]) {
      assert (publicPath + [x])[|publicPath|] == x;
    }
  }

  /**
   * Every namespace the loop visits that is recorded in the ledger and
   * present as `public/<ns>` when the loop starts is gone afterwards, tree
   * and all, and its line is one fewer.
   */
  lemma {:induction false} RemoveNamespacesRemoves(s: Progress, publicPath: Path, order: seq<Name>, ns: Name)
    requires ns in order && EntryFor(ns) in s.ledger && publicPath + [ns] in s.disk.dirs
    ensures var r := RemoveNamespaces(s, publicPath, order);
            && (forall p :: publicPath + [ns] <= p ==> p !in r.disk.files && p !in r.disk.dirs)
            && multiset(r.ledger)[EntryFor(ns)] < multiset(s.ledger)[EntryFor(ns)]
    decreases |order|
  {
    var n := |order| - 1;
    var prefix := order[..n];
    var m := RemoveNamespaces(s, publicPath, prefix);
    var r := RemoveNamespaces(s, publicPath, order);
    assert r == RemoveNamespace(m, publicPath, order[n]);
    RemoveNamespaceShrinks(m, publicPath, order[n]);
    if ns in prefix {
      RemoveNamespacesRemoves(s, publicPath, prefix, ns);
    } else {
      assert order[n] == ns by { assert ns in order[..n] + [order[n]]; assert order[..n] + [order[n]] == order; }
      RemoveNamespacesShrinks(s, publicPath, prefix);
      assert Unlisted(EntryFor(ns), Visited(prefix)) by {
        forall x | x in Visited(prefix) ensures EntryFor(ns) != EntryFor(x) {
          if EntryFor(ns) == EntryFor(x) { EntryForInjective(ns, x); }
        }
      }
      SiblingNotAuthorised(s, publicPath, Visited(prefix), ns);
      assert EntryFor(ns) in m.ledger by { assert multiset(m.ledger)[EntryFor(ns)] > 0; }
      RemoveFirstCounts(m.ledger, EntryFor(ns));
    }
  }

  /** When none of the namespaces visited is recorded, `removeAssets` changes nothing. */
  lemma {:induction false} NothingRecordedNothingRemoved(s: Progress, publicPath: Path, order: seq<Name>)
    requires forall ns :: ns in order ==> EntryFor(ns) !in s.ledger
    ensures RemoveNamespaces(s, publicPath, order) == s
    decreases |order|
  {
    if order != [] {
      var n := |order| - 1;
      assert forall ns :: ns in order[..n] ==> ns in order;
      NothingRecordedNothingRemoved(s, publicPath, order[..n]);
    }
  }

  /** The ledger read at the start of a run. */
  function StartOf(d: Disk, publicPath: Path): Progress {
    Progress(d, LedgerLines(d, GitignorePath(publicPath)))
  }

  /** The disk after a run of `__invoke` that passed its guards: the loop, then the ledger written back. */
  ghost function Uninstalled(d: Disk, cwd: Path, publicPath: Path, paths: seq<PhpValue>, orders: seq<seq<Name>>): Disk
    requires NamesOk(cwd) && |orders| == |paths|
  {
    var r := RemovePaths(StartOf(d, publicPath), cwd, publicPath, paths, orders);
    PutFile(r.disk, GitignorePath(publicPath), JoinLines(r.ledger))
  }

  /** When none of the namespaces the loop visits is recorded, the loop changes nothing. */
  lemma {:induction false} NothingRecordedPaths(s: Progress, cwd: Path, publicPath: Path, paths: seq<PhpValue>, orders: seq<seq<Name>>)
    requires NamesOk(cwd) && |orders| == |paths|
    requires forall ns :: ns in AllVisited(orders) ==> EntryFor(ns) !in s.ledger
    ensures RemovePaths(s, cwd, publicPath, paths, orders) == s
    decreases |paths|
  {
    if paths != [] {
      var n := |paths| - 1;
      assert forall i :: 0 <= i < n ==> orders[..n][i] == orders[i];
      NothingRecordedPaths(s, cwd, publicPath, paths[..n], orders[..n]);
      assert forall ns :: ns in orders[n] ==> ns in AllVisited(orders);
      NothingRecordedNothingRemoved(s, publicPath, orders[n]);
    }
  }

  /**
   * A run none of whose visited namespaces is recorded leaves the project
   * exactly as it was, ledger bytes included, provided the ledger has plain
   * line feeds (a "\r\n" ledger is rewritten with "\n").
   */
  lemma NothingToUninstall(d: Disk, cwd: Path, publicPath: Path, paths: seq<PhpValue>, orders: seq<seq<Name>>)
    requires NamesOk(cwd) && |orders| == |paths|
    requires Exists(d, GitignorePath(publicPath))
    requires GitignorePath(publicPath) in d.files ==> '\r' !in d.files[GitignorePath(publicPath)]
    requires forall ns :: ns in AllVisited(orders) ==> EntryFor(ns) !in LedgerLines(d, GitignorePath(publicPath))
    ensures Uninstalled(d, cwd, publicPath, paths, orders) == d
  {
    var g := GitignorePath(publicPath);
    NothingRecordedPaths(StartOf(d, publicPath), cwd, publicPath, paths, orders);
    if g in d.files {
      JoinSplit(d.files[g]);
      PutFileRestores(d, g, d.files[g]);
    }
  }

  /**
   * What a whole run may change: no directory appears, no file other than
   * the ledger appears or changes its bytes, and every file or directory that goes lies
   * at or below `public/<ns>` for a visited namespace recorded in the ledger
   * read at the start.
   */
  lemma UninstallTouchesOnlyRecorded(d: Disk, cwd: Path, publicPath: Path, paths: seq<PhpValue>, orders: seq<seq<Name>>)
    requires NamesOk(cwd) && |orders| == |paths|
    ensures var e := Uninstalled(d, cwd, publicPath, paths, orders);
            var s := StartOf(d, publicPath);
            && (forall p :: p in e.dirs ==> p in d.dirs)
            && (forall p :: p in e.files && p != GitignorePath(publicPath) ==> p in d.files && e.files[p] == d.files[p])
            && (forall p :: p in d.files && p !in e.files ==> Authorised(s, publicPath, AllVisited(orders), p))
            && (forall p :: p in d.dirs && p !in e.dirs ==> Authorised(s, publicPath, AllVisited(orders), p))
  {
    var s := StartOf(d, publicPath);
    RemovePathsShrinks(s, cwd, publicPath, paths, orders);
  }

  /**
   * The authorisation guard over a whole run: a namespace whose line `ns/`
   * is not in the ledger read at the start keeps its whole tree
   * `public/<ns>`, bytes included, whatever the declared paths list.
   */
  lemma UnrecordedTreeKept(d: Disk, cwd: Path, publicPath: Path, paths: seq<PhpValue>, orders: seq<seq<Name>>, ns: Name)
    requires NamesOk(cwd) && |orders| == |paths|
    requires EntryFor(ns) !in LedgerLines(d, GitignorePath(publicPath)) && ns != ".gitignore"
    ensures var e := Uninstalled(d, cwd, publicPath, paths, orders);
            forall p :: publicPath + [ns] <= p ==>
              (p in d.dirs ==> p in e.dirs) && (p in d.files ==> p in e.files && e.files[p] == d.files[p])
  {
    var s := StartOf(d, publicPath);
    var g := GitignorePath(publicPath);
    var e := Uninstalled(d, cwd, publicPath, paths, orders);
    UninstallTouchesOnlyRecorded(d, cwd, publicPath, paths, orders);
    forall p | publicPath + [ns] <= p
      ensures (p in d.dirs ==> p in e.dirs) && (p in d.files ==> p in e.files && e.files[p] == d.files[p])
    {
      assert p != g by { assert p[|publicPath|] == ns && g[|publicPath|] == ".gitignore"; }
      UnrecordedNotAuthorised(s, publicPath, AllVisited(orders), ns, p);
    }
  }

  /** Nothing at or below `public/<ns>` is authorised when `ns/` is not a line of the ledger. */
  lemma UnrecordedNotAuthorised(s: Progress, publicPath: Path, names: set<Name>, ns: Name, p: Path)
    requires EntryFor(ns) !in s.ledger && publicPath + [ns] <= p
    ensures !Authorised(s, publicPath, names, p)
  {
    assert p[|publicPath|] == ns;
    forall x | x in names && EntryFor(x) in s.ledger ensures !(publicPath + [x] <= p) {
      assert (publicPath + [x])[|publicPath|] == x != ns;
    }
  }

  /**
   * A visited namespace without a directory `public/<ns>` when the loop
   * starts keeps every copy of its line `ns/`: removal never makes a
   * directory, and the lines other namespaces drop are not its own.
   */
  lemma {:induction false} MissingDirectoryKeepsLine(s: Progress, publicPath: Path, order: seq<Name>, ns: Name)
    requires publicPath + [ns] !in s.disk.dirs
    ensures var r := RemoveNamespaces(s, publicPath, order);
            publicPath + [ns] !in r.disk.dirs && multiset(r.ledger)[EntryFor(ns)] == multiset(s.ledger)[EntryFor(ns)]
    decreases |order|
  {
    if order != [] {
      var n := |order| - 1;
      var m := RemoveNamespaces(s, publicPath, order[..n]);
      MissingDirectoryKeepsLine(s, publicPath, order[..n], ns);
      var x := order[n];
      if EntryFor(x) in m.ledger && publicPath + [x] in m.disk.dirs {
        assert x != ns;
        RemoveFirstCounts(m.ledger, EntryFor(x));
        if EntryFor(x) == EntryFor(ns) { EntryForInjective(x, ns); }
      }
    }
  }

  /** When no namespace visited has a directory `public/<ns>`, `removeAssets` changes nothing, whatever the ledger lists. */
  lemma {:induction false} NoDirectoryNothingRemoved(s: Progress, publicPath: Path, order: seq<Name>)
    requires forall ns :: ns in order ==> publicPath + [ns] !in s.disk.dirs
    ensures RemoveNamespaces(s, publicPath, order) == s
    decreases |order|
  {
    if order != [] {
      var n := |order| - 1;
      assert forall ns :: ns in order[..n] ==> ns in order;
      NoDirectoryNothingRemoved(s, publicPath, order[..n]);
    }
  }

  /** When no namespace the loop visits has a directory `public/<ns>`, the loop changes nothing. */
  lemma {:induction false} NoDirectoryPaths(s: Progress, cwd: Path, publicPath: Path, paths: seq<PhpValue>, orders: seq<seq<Name>>)
    requires NamesOk(cwd) && |orders| == |paths|
    requires forall ns :: ns in AllVisited(orders) ==> publicPath + [ns] !in s.disk.dirs
    ensures RemovePaths(s, cwd, publicPath, paths, orders) == s
    decreases |paths|
  {
    if paths != [] {
      var n := |paths| - 1;
      assert forall i :: 0 <= i < n ==> orders[..n][i] == orders[i];
      NoDirectoryPaths(s, cwd, publicPath, paths[..n], orders[..n]);
      assert forall ns :: ns in orders[n] ==> ns in AllVisited(orders);
      NoDirectoryNothingRemoved(s, publicPath, orders[n]);
    }
  }

  /**
   * A run whose visited namespaces have no directory `public/<ns>` leaves
   * the project exactly as it was, ledger bytes included, even when the
   * ledger lists those namespaces, provided the ledger has plain line feeds.
   */
  lemma MissingDirectoriesKeepLedger(d: Disk, cwd: Path, publicPath: Path, paths: seq<PhpValue>, orders: seq<seq<Name>>)
    requires NamesOk(cwd) && |orders| == |paths|
    requires Exists(d, GitignorePath(publicPath))
    requires GitignorePath(publicPath) in d.files ==> '\r' !in d.files[GitignorePath(publicPath)]
    requires forall ns :: ns in AllVisited(orders) ==> publicPath + [ns] !in d.dirs
    ensures Uninstalled(d, cwd, publicPath, paths, orders) == d
  {
    var g := GitignorePath(publicPath);
    NoDirectoryPaths(StartOf(d, publicPath), cwd, publicPath, paths, orders);
    if g in d.files {
      JoinSplit(d.files[g]);
      PutFileRestores(d, g, d.files[g]);
    }
  }

  // ---------------------------------------------------------------------
  // A whole run: recorded namespaces go, the other lines keep their order

  /** The lines that are not the entry of one of `names`, in their order. */
  function Others(lines: seq<string>, names: set<Name>): (r: seq<string>)
    ensures forall x :: x in r ==> x in lines && Unlisted(x, names)
    decreases |lines|
  {
    if lines == [] then []
    else (if Unlisted(lines[0], names) then [lines[0]] else []) + Others(lines[1..], names)
  }

  /** `Others` of two runs of lines is the two results one after the other. */
  lemma {:induction false} OthersAppend(a: seq<string>, b: seq<string>, names: set<Name>)
    ensures Others(a + b, names) == Others(a, names) + Others(b, names)
    decreases |a|
  {
    if a != [] {
      assert (a + b)[0] == a[0] && (a + b)[1..] == a[1..] + b;
      OthersAppend(a[1..], b, names);
    } else {
      assert a + b == b;
    }
  }

  /** Lines that are all entries of `names` leave nothing. */
  lemma {:induction false} OthersOfListed(lines: seq<string>, names: set<Name>)
    requires forall i :: 0 <= i < |lines| ==> !Unlisted(lines[i], names)
    ensures Others(lines, names) == []
    decreases |lines|
  {
    if lines != [] {
      assert !Unlisted(lines[0], names);
      OthersOfListed(lines[1..], names);
    }
  }

  /** Lines none of which is an entry of `names` are left as they are. */
  lemma {:induction false} OthersOfUnlisted(lines: seq<string>, names: set<Name>)
    requires forall i :: 0 <= i < |lines| ==> Unlisted(lines[i], names)
    ensures Others(lines, names) == lines
    decreases |lines|
  {
    if lines != [] {
      assert Unlisted(lines[0], names);
      OthersOfUnlisted(lines[1..], names);
    }
  }

  /** An empty first line followed by entries of `names` only leaves the empty line. */
  lemma OthersOfFreshLedger(lines: seq<string>, names: set<Name>)
    requires |lines| >= 1 && lines[0] == ""
    requires forall i :: 1 <= i < |lines| ==> !Unlisted(lines[i], names)
    ensures Others(lines, names) == [""]
  {
    var rest := lines[1..];
    assert forall i :: 0 <= i < |rest| ==> rest[i] == lines[i + 1];
    OthersOfListed(rest, names);
    assert Unlisted("", names);
  }

  /** Taking a listed line out of the middle leaves the other lines as they were. */
  lemma OthersDropListed(before: seq<string>, e: string, after: seq<string>, names: set<Name>)
    requires !Unlisted(e, names)
    ensures Others(before + [e] + after, names) == Others(before + after, names)
  {
    OthersAppend(before + [e], after, names);
    OthersAppend(before, [e], names);
    OthersAppend(before, after, names);
    assert Others([e], names) == [] by { assert [e][1..] == []; }
  }

  /** Dropping the first entry of one of `names` leaves the other lines as they were, in order. */
  lemma OthersRemoveFirst(lines: seq<string>, names: set<Name>, ns: Name)
    requires ns in names
    ensures Others(RemoveFirst(lines, EntryFor(ns)), names) == Others(lines, names)
  {
    var e := EntryFor(ns);
    if e in lines {
      var i := IndexOf(lines, e).value;
      assert lines == lines[..i] + [e] + lines[i + 1..];
      OthersDropListed(lines[..i], e, lines[i + 1..], names);
    }
  }

  /** `removeAssets` keeps every line that is not the entry of one of `names`, in order, when `names` holds all it visits. */
  lemma {:induction false} RemoveNamespacesKeepsOthers(s: Progress, publicPath: Path, order: seq<Name>, names: set<Name>)
    requires forall ns :: ns in order ==> ns in names
    ensures Others(RemoveNamespaces(s, publicPath, order).ledger, names) == Others(s.ledger, names)
    decreases |order|
  {
    if order != [] {
      var n := |order| - 1;
      assert forall ns :: ns in order[..n] ==> ns in order;
      RemoveNamespacesKeepsOthers(s, publicPath, order[..n], names);
      OthersRemoveFirst(RemoveNamespaces(s, publicPath, order[..n]).ledger, names, order[n]);
    }
  }

  /**
   * Over a whole run the ledger lines that are not the entry of a visited
   * namespace keep their number and their relative order.
   */
  lemma {:induction false} RemovePathsKeepsOthers(s: Progress, cwd: Path, publicPath: Path, paths: seq<PhpValue>,
                                                 orders: seq<seq<Name>>, names: set<Name>)
    requires NamesOk(cwd) && |orders| == |paths| && AllVisited(orders) <= names
    ensures Others(RemovePaths(s, cwd, publicPath, paths, orders).ledger, names) == Others(s.ledger, names)
    decreases |paths|
  {
    if paths != [] {
      var n := |paths| - 1;
      assert forall i :: 0 <= i < n ==> orders[..n][i] == orders[i];
      RemovePathsKeepsOthers(s, cwd, publicPath, paths[..n], orders[..n], names);
      var m := RemovePaths(s, cwd, publicPath, paths[..n], orders[..n]);
      assert forall ns :: ns in orders[n] ==> ns in names;
      RemoveNamespacesKeepsOthers(m, publicPath, orders[n], names);
    }
  }

  /**
   * From `s` to `r` the line of a namespace and its directory go together:
   * `public/<ns>` goes only with one of its lines, and a line goes only
   * with the directory.
   */
  ghost predicate LinesFollowTrees(s: Progress, r: Progress, publicPath: Path) {
    forall ns :: FollowsTree(s, r, publicPath, ns)
  }

  /** The two directions of `LinesFollowTrees` for one namespace. */
  ghost predicate FollowsTree(s: Progress, r: Progress, publicPath: Path, ns: Name) {
    var gone := multiset(r.ledger)[EntryFor(ns)] < multiset(s.ledger)[EntryFor(ns)];
    && ((publicPath + [ns] in s.disk.dirs && publicPath + [ns] !in r.disk.dirs) ==> gone)
    && (gone ==> publicPath + [ns] !in r.disk.dirs)
  }

  /** One namespace: its tree and its line go together. */
  lemma RemoveNamespaceFollows(s: Progress, publicPath: Path, x: Name)
    ensures LinesFollowTrees(s, RemoveNamespace(s, publicPath, x), publicPath)
  {
    var r := RemoveNamespace(s, publicPath, x);
    if EntryFor(x) in s.ledger && publicPath + [x] in s.disk.dirs {
      RemoveFirstCounts(s.ledger, EntryFor(x));
      forall ns ensures FollowsTree(s, r, publicPath, ns)
      {
        if ns != x {
          assert (publicPath + [x])[|publicPath|] == x;
          assert !(publicPath + [x] <= publicPath + [ns]);
          if EntryFor(ns) == EntryFor(x) { EntryForInjective(ns, x); }
        }
      }
    }
  }

  /** Two stretches that each take away, lines together with trees, make one. */
  lemma FollowsTrans(s: Progress, m: Progress, r: Progress, publicPath: Path, a: set<Name>, b: set<Name>)
    requires Shrinks(s, m, publicPath, a) && Shrinks(m, r, publicPath, b)
    requires LinesFollowTrees(s, m, publicPath) && LinesFollowTrees(m, r, publicPath)
    ensures LinesFollowTrees(s, r, publicPath)
  {
    forall ns ensures FollowsTree(s, r, publicPath, ns)
    {
      var e := EntryFor(ns);
      assert FollowsTree(s, m, publicPath, ns) && FollowsTree(m, r, publicPath, ns);
      assert multiset(r.ledger)[e] <= multiset(m.ledger)[e] <= multiset(s.ledger)[e];
      assert publicPath + [ns] in r.disk.dirs ==> publicPath + [ns] in m.disk.dirs;
    }
  }

  /** `removeAssets`: trees and lines go together. */
  lemma {:induction false} RemoveNamespacesFollows(s: Progress, publicPath: Path, order: seq<Name>)
    ensures LinesFollowTrees(s, RemoveNamespaces(s, publicPath, order), publicPath)
    decreases |order|
  {
    if order == [] {
      assert RemoveNamespaces(s, publicPath, order) == s;
    } else {
      var n := |order| - 1;
      var m := RemoveNamespaces(s, publicPath, order[..n]);
      RemoveNamespacesFollows(s, publicPath, order[..n]);
      RemoveNamespacesShrinks(s, publicPath, order[..n]);
      RemoveNamespaceShrinks(m, publicPath, order[n]);
      RemoveNamespaceFollows(m, publicPath, order[n]);
      FollowsTrans(s, m, RemoveNamespace(m, publicPath, order[n]), publicPath, Visited(order[..n]), {order[n]});
    }
  }

  /** One declared path only takes away, lines together with trees. */
  lemma RemovePathFollows(s: Progress, cwd: Path, publicPath: Path, v: PhpValue, order: seq<Name>)
    requires NamesOk(cwd)
    ensures var r := RemovePath(s, cwd, publicPath, v, order);
            Shrinks(s, r, publicPath, Visited(order)) && LinesFollowTrees(s, r, publicPath)
  {
    RemoveNamespacesShrinks(s, publicPath, order);
    RemoveNamespacesFollows(s, publicPath, order);
    RemoveNamespacesFollows(s, publicPath, []);
    RemoveNamespacesShrinks(s, publicPath, []);
  }

  /** The whole loop over declared paths: trees and lines go together. */
  lemma {:induction false} RemovePathsFollows(s: Progress, cwd: Path, publicPath: Path, paths: seq<PhpValue>, orders: seq<seq<Name>>)
    requires NamesOk(cwd) && |orders| == |paths|
    ensures LinesFollowTrees(s, RemovePaths(s, cwd, publicPath, paths, orders), publicPath)
    decreases |paths|
  {
    if paths == [] {
      RemoveNamespacesFollows(s, publicPath, []);
    } else {
      var n := |paths| - 1;
      var m := RemovePaths(s, cwd, publicPath, paths[..n], orders[..n]);
      RemovePathsFollows(s, cwd, publicPath, paths[..n], orders[..n]);
      RemovePathsShrinks(s, cwd, publicPath, paths[..n], orders[..n]);
      RemovePathFollows(m, cwd, publicPath, paths[n], orders[n]);
      FollowsTrans(s, m, RemovePaths(s, cwd, publicPath, paths, orders), publicPath,
                   AllVisited(orders[..n]), Visited(orders[n]));
    }
  }

  /** On a tree, nothing lies at or below a directory that has gone. */
  lemma NothingBelowGone(d: Disk, e: Disk, t: Path)
    requires Valid(d) && Valid(e) && t in d.dirs && t !in e.dirs
    requires forall p :: p in e.files ==> p in d.files
    ensures forall p :: t <= p ==> p !in e.files && p !in e.dirs
  {
    forall p | t <= p ensures p !in e.files && p !in e.dirs {
      if p == t {
        assert t !in d.files;
      } else if Exists(e, p) {
        assert p[..|t|] == t;
        AncestorsAreDirs(e, p, |t|);
      }
    }
  }

  /** A declared path whose listing holds a recorded namespace present as `public/<ns>` drops one of its lines. */
  lemma RemovePathRemoves(m: Progress, cwd: Path, publicPath: Path, v: PhpValue, order: seq<Name>, ns: Name)
    requires NamesOk(cwd) && ListsSubdirs(m.disk, cwd, v, order)
    requires ns in order && EntryFor(ns) in m.ledger && publicPath + [ns] in m.disk.dirs
    ensures multiset(RemovePath(m, cwd, publicPath, v, order).ledger)[EntryFor(ns)] < multiset(m.ledger)[EntryFor(ns)]
  {
    assert RemovePath(m, cwd, publicPath, v, order) == RemoveNamespaces(m, publicPath, order);
    RemoveNamespacesRemoves(m, publicPath, order, ns);
  }

  /**
   * Over a whole run whose orders are the listings met, every visited
   * namespace that is recorded in the ledger and present as `public/<ns>`
   * at the start loses at least one copy of its line, whichever declared
   * path lists it and whatever the listing orders.
   */
  lemma {:induction false} RecordedVisitedDropped(s: Progress, cwd: Path, publicPath: Path, paths: seq<PhpValue>,
                                                 orders: seq<seq<Name>>, ns: Name)
    requires NamesOk(cwd) && |orders| == |paths|
    requires OrdersFit(s, cwd, publicPath, paths, orders)
    requires ns in AllVisited(orders) && EntryFor(ns) in s.ledger && publicPath + [ns] in s.disk.dirs
    ensures var r := RemovePaths(s, cwd, publicPath, paths, orders);
            multiset(r.ledger)[EntryFor(ns)] < multiset(s.ledger)[EntryFor(ns)]
    decreases |paths|
  {
    var e := EntryFor(ns);
    var n := |paths| - 1;
    var m := RemovePaths(s, cwd, publicPath, paths[..n], orders[..n]);
    var r := RemovePath(m, cwd, publicPath, paths[n], orders[n]);
    assert forall i :: 0 <= i < n ==> orders[..n][i] == orders[i];
    RemovePathFollows(m, cwd, publicPath, paths[n], orders[n]);
    assert multiset(r.ledger)[e] <= multiset(m.ledger)[e];
    if ns in AllVisited(orders[..n]) {
      RecordedVisitedDropped(s, cwd, publicPath, paths[..n], orders[..n], ns);
    } else {
      RemovePathsShrinks(s, cwd, publicPath, paths[..n], orders[..n]);
      RemovePathsFollows(s, cwd, publicPath, paths[..n], orders[..n]);
      assert FollowsTree(s, m, publicPath, ns);
      if multiset(m.ledger)[e] == multiset(s.ledger)[e] {
        assert e in m.ledger by { assert multiset(m.ledger)[e] > 0; }
        var i :| 0 <= i < |orders| && ns in orders[i];
        assert i == n;
        RemovePathRemoves(m, cwd, publicPath, paths[n], orders[n], ns);
      }
    }
  }

  /** The same namespace loses its whole tree `public/<ns>` over the run. */
  lemma RecordedVisitedRemoved(s: Progress, cwd: Path, publicPath: Path, paths: seq<PhpValue>,
                               orders: seq<seq<Name>>, ns: Name)
    requires NamesOk(cwd) && |orders| == |paths| && Valid(s.disk)
    requires OrdersFit(s, cwd, publicPath, paths, orders)
    requires ns in AllVisited(orders) && EntryFor(ns) in s.ledger && publicPath + [ns] in s.disk.dirs
    ensures var r := RemovePaths(s, cwd, publicPath, paths, orders);
            forall p :: publicPath + [ns] <= p ==> p !in r.disk.files && p !in r.disk.dirs
  {
    var r := RemovePaths(s, cwd, publicPath, paths, orders);
    RecordedVisitedDropped(s, cwd, publicPath, paths, orders, ns);
    RemovePathsShrinks(s, cwd, publicPath, paths, orders);
    RemovePathsFollows(s, cwd, publicPath, paths, orders);
    assert FollowsTree(s, r, publicPath, ns);
    RemovePathsValid(s, cwd, publicPath, paths, orders);
    NothingBelowGone(s.disk, r.disk, publicPath + [ns]);
  }

  /** A line occurs at most once in lines without duplicates. */
  lemma {:induction false} NoDuplicatesCount(lines: seq<string>, x: string)
    requires NoDuplicates(lines)
    ensures multiset(lines)[x] <= 1
    decreases |lines|
  {
    if lines != [] {
      assert lines == [lines[0]] + lines[1..];
      assert NoDuplicates(lines[1..]) by {
        forall i, j | 0 <= i < j < |lines| - 1 ensures lines[1..][i] != lines[1..][j] {
          assert lines[1..][i] == lines[i + 1] && lines[1..][j] == lines[j + 1];
        }
      }
      NoDuplicatesCount(lines[1..], x);
      if x == lines[0] {
        assert x !in lines[1..] by {
          forall j | 0 <= j < |lines| - 1 ensures lines[1..][j] != x {
            assert lines[1..][j] == lines[j + 1];
          }
        }
      }
    }
  }

  /**
   * Uninstalling a package whose namespaces are all that the ledger records:
   * when the ledger is an empty first line followed by distinct entries of
   * namespaces the run visits, each present as `public/<ns>` at the start,
   * the lines written back are the one empty line and the file becomes '',
   * whatever the listing orders.
   */
  lemma UninstallEveryListedNamespace(s: Progress, cwd: Path, publicPath: Path, paths: seq<PhpValue>, orders: seq<seq<Name>>)
    requires NamesOk(cwd) && |orders| == |paths|
    requires OrdersFit(s, cwd, publicPath, paths, orders)
    requires |s.ledger| >= 1 && s.ledger[0] == "" && NoDuplicates(s.ledger)
    requires forall i :: 1 <= i < |s.ledger| ==>
               exists ns :: ns in AllVisited(orders) && s.ledger[i] == EntryFor(ns) && publicPath + [ns] in s.disk.dirs
    ensures var r := RemovePaths(s, cwd, publicPath, paths, orders);
            r.ledger == [""] && JoinLines(r.ledger) == ""
  {
    var names := AllVisited(orders);
    var r := RemovePaths(s, cwd, publicPath, paths, orders);
    RemovePathsKeepsOthers(s, cwd, publicPath, paths, orders, names);
    RemovePathsShrinks(s, cwd, publicPath, paths, orders);
    // the starting ledger: the empty line, then only entries of visited namespaces
    forall i | 1 <= i < |s.ledger| ensures !Unlisted(s.ledger[i], names) {
      var ns :| ns in names && s.ledger[i] == EntryFor(ns) && publicPath + [ns] in s.disk.dirs;
    }
    OthersOfFreshLedger(s.ledger, names);
    // no entry of a visited namespace survives
    forall i | 0 <= i < |r.ledger| ensures Unlisted(r.ledger[i], names) {
      NoRecordedEntryLeft(s, cwd, publicPath, paths, orders, r.ledger[i]);
    }
    OthersOfUnlisted(r.ledger, names);
  }

  /** A line left after such a run is not the entry of a visited namespace. */
  lemma NoRecordedEntryLeft(s: Progress, cwd: Path, publicPath: Path, paths: seq<PhpValue>, orders: seq<seq<Name>>, x: string)
    requires NamesOk(cwd) && |orders| == |paths|
    requires OrdersFit(s, cwd, publicPath, paths, orders)
    requires |s.ledger| >= 1 && s.ledger[0] == "" && NoDuplicates(s.ledger)
    requires forall i :: 1 <= i < |s.ledger| ==>
               exists ns :: ns in AllVisited(orders) && s.ledger[i] == EntryFor(ns) && publicPath + [ns] in s.disk.dirs
    requires x in RemovePaths(s, cwd, publicPath, paths, orders).ledger
    ensures Unlisted(x, AllVisited(orders))
  {
    var names := AllVisited(orders);
    var r := RemovePaths(s, cwd, publicPath, paths, orders);
    RemovePathsShrinks(s, cwd, publicPath, paths, orders);
    forall ns | ns in names ensures x != EntryFor(ns) {
      if x == EntryFor(ns) {
        assert multiset(r.ledger)[x] > 0;
        assert x in s.ledger by { assert multiset(s.ledger)[x] > 0; }
        var k :| 0 <= k < |s.ledger| && s.ledger[k] == x;
        assert k != 0;
        var y :| y in names && s.ledger[k] == EntryFor(y) && publicPath + [y] in s.disk.dirs;
        EntryForInjective(ns, y);
        RecordedVisitedDropped(s, cwd, publicPath, paths, orders, ns);
        NoDuplicatesCount(s.ledger, x);
        assert false;
      }
    }
  }
}
