/**
 * Where an install run writes. Over a whole `__invoke`, every change lies at
 * or below `public/<ns>` for a namespace visited, on the way to `public/`,
 * or is the ledger itself; nothing is ever removed. And `copyAssets` over
 * namespaces new to `public/` puts every regular file of each of them at the
 * same relative path below `public/<ns>`, with its bytes, whatever the
 * listing order.
 */
module InstallPlacement {
  import opened FileSystem
  import opened Ledger
  import opened PackageConfig
  import opened TreeCopy
  import opened Install
  import opened InstallProperties

  /** `p` is `public/<ns>` or lies below it, for a namespace `ns` of `visited`. */
  predicate UnderVisited(publicPath: Path, visited: seq<Name>, p: Path) {
    publicPath < p && p[|publicPath|] in visited
  }

  /**
   * What may differ between `d` and a later disk `r`: nothing is removed; a
   * file other than the ledger changes its bytes or appears only at or below
   * `public/<ns>` for a visited `ns`; a directory appears only there or on
   * the way to `public/`.
   */
  ghost predicate WritesOnlyVisited(d: Disk, r: Disk, publicPath: Path, visited: seq<Name>) {
    && d.dirs <= r.dirs
    && (forall p :: p in d.files ==> p in r.files)
    && (forall p :: p in d.files && p != GitignorePath(publicPath) && !UnderVisited(publicPath, visited, p) ==>
          p in r.files && r.files[p] == d.files[p])
    && (forall p :: p in r.files && p !in d.files ==> p == GitignorePath(publicPath) || UnderVisited(publicPath, visited, p))
    && (forall p :: p in r.dirs && p !in d.dirs ==> UnderVisited(publicPath, visited, p) || p in Prefixes(publicPath))
  }

  /** One namespace installed writes only below `public/<ns>`, on the way to `public/`, and the ledger. */
  lemma InstallOneWrites(d: Disk, path: Path, publicPath: Path, ns: Name)
    ensures WritesOnlyVisited(d, InstallOne(d, path, publicPath, ns), publicPath, [ns])
  {
    var src := path + [ns];
    var top := publicPath + [ns];
    var g := GitignorePath(publicPath);
    var c := CopyTree(d, src, publicPath);
    var r := InstallOne(d, path, publicPath, ns);
    CopyTreeEffect(d, src, publicPath);
    assert src[|src| - 1] == ns;
    forall p | top <= p ensures UnderVisited(publicPath, [ns], p) {
      assert p[|publicPath|] == ns;
    }
    assert forall p :: p in d.files ==> p in c.files;
    assert g in c.files ==> g in r.files;
  }

  /** Two stretches of an install run compose: their visited namespaces add up. */
  lemma WritesTrans(d: Disk, m: Disk, r: Disk, publicPath: Path, a: seq<Name>, b: seq<Name>)
    requires WritesOnlyVisited(d, m, publicPath, a) && WritesOnlyVisited(m, r, publicPath, b)
    ensures WritesOnlyVisited(d, r, publicPath, a + b)
  {
    forall p | UnderVisited(publicPath, a, p) || UnderVisited(publicPath, b, p)
      ensures UnderVisited(publicPath, a + b, p)
    {
    }
  }

  /** `copyAssets` over any listing order writes only below the namespaces it visits, on the way to `public/`, and the ledger. */
  lemma {:induction false} InstallNamespacesWrites(d: Disk, path: Path, publicPath: Path, order: seq<Name>)
    ensures WritesOnlyVisited(d, InstallNamespaces(d, path, publicPath, order), publicPath, order)
    decreases |order|
  {
    if order != [] {
      var n := |order| - 1;
      var m := InstallNamespaces(d, path, publicPath, order[..n]);
      InstallNamespacesWrites(d, path, publicPath, order[..n]);
      InstallOneWrites(m, path, publicPath, order[n]);
      WritesTrans(d, m, InstallOne(m, path, publicPath, order[n]), publicPath, order[..n], [order[n]]);
      assert order[..n] + [order[n]] == order;
    }
  }

  /** One declared path: the same, and nothing at all when it names no directory. */
  lemma InstallPathWrites(m: Disk, cwd: Path, publicPath: Path, v: PhpValue, order: seq<Name>)
    requires NamesOk(cwd)
    ensures WritesOnlyVisited(m, InstallPath(m, cwd, publicPath, v, order), publicPath, order)
  {
    var dir := DeclaredDir(cwd, v);
    if dir.Some? && dir.value in m.dirs {
      InstallNamespacesWrites(m, dir.value, publicPath, order);
    }
  }

  /**
   * The frame of a whole `__invoke`: nothing is removed, the bytes of every
   * file change only in the ledger or at or below `public/<ns>` for a
   * visited namespace, new files appear only there, and new directories
   * only there or on the way to `public/`.
   */
  lemma {:induction false} InstallTouchesOnlyVisited(d: Disk, cwd: Path, publicPath: Path, paths: seq<PhpValue>, orders: seq<seq<Name>>)
    requires NamesOk(cwd) && |orders| == |paths|
    ensures WritesOnlyVisited(d, InstallPaths(d, cwd, publicPath, paths, orders), publicPath, Concat(orders))
    decreases |paths|
  {
    if paths != [] {
      var n := |paths| - 1;
      var m := InstallPaths(d, cwd, publicPath, paths[..n], orders[..n]);
      InstallTouchesOnlyVisited(d, cwd, publicPath, paths[..n], orders[..n]);
      InstallPathWrites(m, cwd, publicPath, paths[n], orders[n]);
      WritesTrans(d, m, InstallPath(m, cwd, publicPath, paths[n], orders[n]), publicPath, Concat(orders[..n]), orders[n]);
    }
  }

  /** Recording a namespace keeps the disk a tree. */
  lemma RecordNamespaceValid(d: Disk, file: Path, ns: Name)
    requires Valid(d) && NamesOk(file)
    ensures Valid(RecordNamespace(d, file, ns))
  {
    var text := LedgerText(d, file);
    if text.Some? && AppendEntry(text.value, ns).Some? {
      PutFileValid(d, file, AppendEntry(text.value, ns).value);
    }
  }

  /** `copyAssets` keeps the disk a tree, whatever it visits. */
  lemma {:induction false} InstallNamespacesValid(d: Disk, path: Path, publicPath: Path, order: seq<Name>)
    requires Valid(d) && NamesOk(publicPath)
    ensures Valid(InstallNamespaces(d, path, publicPath, order))
    decreases |order|
  {
    if order != [] {
      var n := |order| - 1;
      var m := InstallNamespaces(d, path, publicPath, order[..n]);
      InstallNamespacesValid(d, path, publicPath, order[..n]);
      CopyTreeValid(m, path + [order[n]], publicPath);
      RecordNamespaceValid(CopyTree(m, path + [order[n]], publicPath), GitignorePath(publicPath), order[n]);
    }
  }

  /** On a tree, nothing lies at or below a path that does not exist. */
  lemma NothingBelowMissing(d: Disk, q: Path, p: Path)
    requires Valid(d) && !Exists(d, q) && Exists(d, p)
    ensures !(q <= p)
  {
    assert p[..|p|] == p;
    if q <= p {
      assert p[..|q|] == q;
      if |q| < |p| {
        AncestorsAreDirs(d, p, |q|);
      }
    }
  }

  /** A file of a tree lies below no `public/<ns>` that does not exist. */
  lemma NotUnderMissing(d: Disk, publicPath: Path, visited: seq<Name>, f: Path)
    requires Valid(d) && f in d.files
    requires forall ns :: ns in visited ==> !Exists(d, publicPath + [ns])
    ensures !UnderVisited(publicPath, visited, f)
  {
    if UnderVisited(publicPath, visited, f) {
      var y := f[|publicPath|];
      assert f[..|publicPath| + 1] == publicPath + [y];
      NothingBelowMissing(d, publicPath + [y], f);
    }
  }

  /** Every regular file below a namespace of `order` in `d` is at its destination in `r`, with its bytes. */
  ghost predicate PlacedAll(d: Disk, r: Disk, path: Path, publicPath: Path, order: seq<Name>) {
    forall ns, f :: ns in order && f in d.files && path + [ns] < f ==>
      Target(path + [ns], publicPath, f) in r.files && r.files[Target(path + [ns], publicPath, f)] == d.files[f]
  }

  /**
   * `copyAssets` of a declared directory whose namespaces are all new to
   * `public/`, in any listing order: every regular file below a visited
   * namespace directory lands at the same relative path below `public/<ns>`
   * with identical bytes. A namespace directory must not hold `public/`
   * itself, nor be named ".gitignore".
   */
  lemma {:induction false} InstallPlacesFiles(d: Disk, path: Path, publicPath: Path, order: seq<Name>)
    requires Valid(d) && NamesOk(publicPath) && publicPath in d.dirs
    requires NoDuplicates(order)
    requires forall ns :: ns in order ==> ns != ".gitignore" && !Exists(d, publicPath + [ns]) && !(path + [ns] <= publicPath)
    ensures PlacedAll(d, InstallNamespaces(d, path, publicPath, order), path, publicPath, order)
    decreases |order|
  {
    if order != [] {
      var n := |order| - 1;
      var prefix := order[..n];
      var x := order[n];
      LastNotInPrefix(order);
      InstallPlacesFiles(d, path, publicPath, prefix);
      InstallNamespacesWrites(d, path, publicPath, prefix);
      InstallNamespacesValid(d, path, publicPath, prefix);
      PlacedOneMore(d, InstallNamespaces(d, path, publicPath, prefix), path, publicPath, prefix, x);
    }
  }

  /** A listing without repeats: its last name is not among the earlier ones, which repeat nothing either. */
  lemma LastNotInPrefix(order: seq<Name>)
    requires NoDuplicates(order) && order != []
    ensures var n := |order| - 1;
            NoDuplicates(order[..n]) && order[n] !in order[..n] && order[..n] + [order[n]] == order
            && (forall ns :: ns in order[..n] ==> ns in order)
  {
    var n := |order| - 1;
    forall i | 0 <= i < n ensures order[..n][i] != order[n] {
      assert order[..n][i] == order[i];
    }
  }

  /** The placement carried over one more fresh namespace `x`. */
  lemma PlacedOneMore(d: Disk, m: Disk, path: Path, publicPath: Path, prefix: seq<Name>, x: Name)
    requires Valid(d) && Valid(m) && publicPath in d.dirs
    requires WritesOnlyVisited(d, m, publicPath, prefix) && PlacedAll(d, m, path, publicPath, prefix)
    requires forall y :: y in prefix ==> !Exists(d, publicPath + [y])
    requires x !in prefix && x != ".gitignore" && !Exists(d, publicPath + [x]) && !(path + [x] <= publicPath)
    ensures PlacedAll(d, InstallOne(m, path, publicPath, x), path, publicPath, prefix + [x])
  {
    var r := InstallOne(m, path, publicPath, x);
    var src := path + [x];
    var c := CopyTree(m, src, publicPath);
    var g := GitignorePath(publicPath);
    InstallOneWrites(m, path, publicPath, x);
    assert src[|src| - 1] == x;
    FreshInMid(d, m, publicPath, prefix, x);
    CopyIntoFreshNamespace(m, src, publicPath);
    forall ns, f | ns in prefix + [x] && f in d.files && path + [ns] < f
      ensures Target(path + [ns], publicPath, f) in r.files && r.files[Target(path + [ns], publicPath, f)] == d.files[f]
    {
      var t := Target(path + [ns], publicPath, f);
      TargetBelowTop(path + [ns], publicPath, f);
      assert t[|publicPath|] == ns;
      assert t != g by { assert |t| > |g|; }
      if ns == x {
        SourceKept(d, m, path, publicPath, prefix, ns, f);
        assert t in c.files && c.files[t] == d.files[f];
      } else {
        assert ns in prefix;
        assert !UnderVisited(publicPath, [x], t);
      }
    }
  }

  /** Before `x` is copied, nothing lies at or below `public/<x>` yet: earlier namespaces wrote only below their own directories. */
  lemma FreshInMid(d: Disk, m: Disk, publicPath: Path, prefix: seq<Name>, x: Name)
    requires Valid(d) && publicPath in d.dirs && WritesOnlyVisited(d, m, publicPath, prefix)
    requires x !in prefix && x != ".gitignore" && !Exists(d, publicPath + [x])
    ensures publicPath in m.dirs
    ensures forall p :: Exists(m, p) ==> !(publicPath + [x] <= p)
  {
    var top := publicPath + [x];
    forall p | Exists(m, p) ensures !(top <= p) {
      if top <= p {
        assert p[|publicPath|] == x;
        if Exists(d, p) {
          NothingBelowMissing(d, top, p);
        }
      }
    }
  }

  /** A source file below a namespace that does not hold `public/` still has its bytes when that namespace is copied. */
  lemma SourceKept(d: Disk, m: Disk, path: Path, publicPath: Path, prefix: seq<Name>, ns: Name, f: Path)
    requires Valid(d) && WritesOnlyVisited(d, m, publicPath, prefix)
    requires forall y :: y in prefix ==> !Exists(d, publicPath + [y])
    requires f in d.files && path + [ns] < f && !(path + [ns] <= publicPath)
    ensures f in m.files && m.files[f] == d.files[f]
  {
    NotUnderMissing(d, publicPath, prefix, f);
  }
}
