/**
 * What the synchronisers take from a package: the value its
 * `config/module.config.php` returns (the `include` itself is not modelled;
 * its result is an input), the project and package layout, and how both
 * synchronisers read the ledger and the listings of the declared paths.
 */
module PackageConfig {
  import opened Wrappers
  import opened FileSystem
  import opened Ledger

  /** Array keys: PHP arrays are ordered maps from string or integer keys. */
  datatype PhpKey = KeyString(s: string) | KeyInt(i: int)

  /** The shape of a PHP value, as far as the guards look at it. */
  datatype PhpValue =
    | PArray(entries: seq<(PhpKey, PhpValue)>)
    | PString(s: string)
    | PNull
    | PScalar   // a boolean, an integer or a float
    | PObject

  /** `$array['key']`: the value stored under the first entry with that key. */
  function Lookup(entries: seq<(PhpKey, PhpValue)>, key: string): (r: Option<PhpValue>)
    ensures r.None? <==> forall i :: 0 <= i < |entries| ==> entries[i].0 != KeyString(key)
    ensures r.Some? ==> exists i :: 0 <= i < |entries| && entries[i] == (KeyString(key), r.value)
  {
    if |entries| == 0 then None
    else if entries[0].0 == KeyString(key) then Some(entries[0].1)
    else
      var r := Lookup(entries[1..], key);
      assert forall i :: 1 <= i < |entries| ==> entries[i] == entries[1..][i - 1];
      r
  }

  /** One step of `isset($v[...][...])`: `$v` is an array holding a non-null value under `key`. */
  function Field(v: PhpValue, key: string): (r: Option<PhpValue>)
    ensures r.Some? ==> v.PArray? && !r.value.PNull?
  {
    if !v.PArray? then None
    else
      match Lookup(v.entries, key)
      case Some(x) => if x.PNull? then None else Some(x)
      case None => None
  }

  /** The values of an array, in order: what `foreach ($paths as $path)` visits. */
  function Values(entries: seq<(PhpKey, PhpValue)>): (r: seq<PhpValue>)
    ensures |r| == |entries|
    ensures forall i :: 0 <= i < |r| ==> r[i] == entries[i].1
  {
    if |entries| == 0 then [] else [entries[0].1] + Values(entries[1..])
  }

  /**
   * The guards on the loaded configuration: it is an array, and
   * `['asset_manager']['resolver_configs']['paths']` is set and is an array.
   * The result is the list of declared paths, or None ("nothing to do").
   */
  function DeclaredPaths(config: PhpValue): (r: Option<seq<PhpValue>>)
    ensures r.Some? ==> config.PArray?
    ensures r.Some? <==>
              var manager := Field(config, "asset_manager");
              manager.Some? &&
              var resolver := Field(manager.value, "resolver_configs");
              resolver.Some? &&
              var paths := Field(resolver.value, "paths");
              paths.Some? && paths.value.PArray?
  {
    if !config.PArray? then None
    else
      match Field(config, "asset_manager")
      case None => None
      case Some(manager) =>
        match Field(manager, "resolver_configs")
        case None => None
        case Some(resolver) =>
          match Field(resolver, "paths")
          case None => None
          case Some(paths) => if paths.PArray? then Some(Values(paths.entries)) else None
  }

  /** The configuration a package writes to declare `paths`, as a list. */
  function AssetConfig(paths: seq<string>): PhpValue
  {
    PArray([(KeyString("asset_manager"),
      PArray([(KeyString("resolver_configs"),
        PArray([(KeyString("paths"), PArray(ListEntries(paths, 0)))]))]))])
  }

  /** `[$p0, $p1, ...]`: the strings under the keys start, start + 1, .... */
  function ListEntries(paths: seq<string>, start: int): (r: seq<(PhpKey, PhpValue)>)
    ensures |r| == |paths|
    ensures forall i :: 0 <= i < |r| ==> r[i] == (KeyInt(start + i), PString(paths[i]))
  {
    if |paths| == 0 then [] else [(KeyInt(start), PString(paths[0]))] + ListEntries(paths[1..], start + 1)
  }

  /** A package that declares its asset paths the documented way gets exactly those paths back. */
  lemma DeclaredPathsOfAssetConfig(paths: seq<string>)
    ensures DeclaredPaths(AssetConfig(paths)).Some?
    ensures var vals := DeclaredPaths(AssetConfig(paths)).value;
            |vals| == |paths| && forall i :: 0 <= i < |paths| ==> vals[i] == PString(paths[i])
  {
    var list := PArray(ListEntries(paths, 0));
    var resolver := PArray([(KeyString("paths"), list)]);
    var manager := PArray([(KeyString("resolver_configs"), resolver)]);
    assert Field(AssetConfig(paths), "asset_manager") == Some(manager);
    assert Field(manager, "resolver_configs") == Some(resolver);
    assert Field(resolver, "paths") == Some(list);
  }

  /** `return [];`, a non-array, or a null `paths` declare nothing. */
  lemma NothingDeclared()
    ensures DeclaredPaths(PArray([])) == None
    ensures forall s :: DeclaredPaths(PString(s)) == None
    ensures DeclaredPaths(PNull) == None
    ensures DeclaredPaths(PArray([(KeyString("asset_manager"),
              PArray([(KeyString("resolver_configs"), PArray([(KeyString("paths"), PNull)]))]))])) == None
    ensures DeclaredPaths(PArray([(KeyString("asset_manager"),
              PArray([(KeyString("resolver_configs"), PArray([(KeyString("paths"), PString("/assets"))]))]))])) == None
  {
  }

  // ---------------------------------------------------------------------
  // Layout

  /** `<project>/public`, the document root that receives the assets. */
  function PublicPath(project: Path): (p: Path)
    ensures NamesOk(project) ==> NamesOk(p)
  {
    assert ValidName("public") by { assert "public"[0] == 'p'; }
    project + ["public"]
  }

  /** `<public>/.gitignore`, the ledger file. */
  function GitignorePath(publicPath: Path): (p: Path)
    ensures NamesOk(publicPath) ==> NamesOk(p)
  {
    assert ValidName(".gitignore") by { assert ".gitignore"[1] == 'g'; }
    publicPath + [".gitignore"]
  }

  /** `<package>/config/module.config.php`. */
  function ConfigPath(packagePath: Path): Path { packagePath + ["config", "module.config.php"] }

  /**
   * The directory a declared path value names, if it can name one:
   * `is_dir` is false for the empty string and for values that are not
   * strings.
   */
  function DeclaredDir(cwd: Path, v: PhpValue): (r: Option<Path>)
    requires NamesOk(cwd)
    ensures r.Some? ==> NamesOk(r.value)
  {
    if v.PString? && v.s != "" then Some(ResolvePath(cwd, v.s)) else None
  }

  // ---------------------------------------------------------------------
  // The ledger and the listings on the disk

  /** The ledger lines as both synchronisers read them; a file that cannot be read reads as the one empty line of ''. */
  function LedgerLines(d: Disk, file: Path): (lines: seq<string>)
    ensures |lines| >= 1
    ensures file !in d.files ==> lines == [""]
  {
    if file in d.files then SplitLines(d.files[file]) else SplitLines("")
  }

  /** The ledger file reads the same on both disks. */
  predicate SameLedger(d: Disk, e: Disk, file: Path) {
    (file in d.files <==> file in e.files) && (file in d.files ==> d.files[file] == e.files[file])
  }

  /** The conditions under which the ledger can be written: its directory exists and it is not itself a directory. */
  predicate Writable(d: Disk, file: Path) {
    |file| > 0 && Parent(file) in d.dirs && file !in d.dirs
  }

  /** `order` lists each of `names` exactly once. */
  ghost predicate Enumerates(order: seq<Name>, names: set<Name>) {
    NoDuplicates(order) && forall n :: n in order <==> n in names
  }

  /** The namespaces visited for a declared path: the subdirectories it had when it was reached, or none. */
  ghost predicate ListsSubdirs(d: Disk, cwd: Path, v: PhpValue, order: seq<Name>)
    requires NamesOk(cwd)
  {
    match DeclaredDir(cwd, v)
    case None => order == []
    case Some(p) => if p in d.dirs then Enumerates(order, SubdirNames(d, p)) else order == []
  }
}
