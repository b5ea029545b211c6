/** Discovery of command folders, building of the command catalog, and merging
    of a description manifest into it (`cli_app/command_loader.py`).

    The file system is a value: the sequence of entries a recursive glob
    enumerates, each a path (a sequence of components relative to the working
    directory) and whether it is a directory. The empty path is the working
    directory itself. */
module CommandLoader {
  import opened Results
  import opened Text
  import opened Dicts
  import opened Config

  type Path = seq<string>

  datatype Entry = Entry(path: Path, isDir: bool)

  /** Every entry below the working directory, in the order a recursive glob
      yields them. */
  type Tree = seq<Entry>

  /** Folder -> command name -> description. */
  type Catalog = Dict<Dict<string>>

  /** The parsed description manifest: folder -> command -> field -> text. */
  type Manifest = map<string, map<string, map<string, string>>>

  /** What opening and parsing the manifest file gives. Only a missing file
      and malformed JSON are caught; any other exception (`PermissionError`
      or `IsADirectoryError` from `open`, `UnicodeDecodeError` from
      `json.load`) leaves the function. */
  datatype ManifestRead =
    | NotFound
    | NotJson
    | Raised(error: Error)
    | Parsed(manifest: Manifest)

  const InitFile: string := "__init__.py"
  const DefaultIgnoredFolders: seq<string> := ["cli_app", "shared", "lib", "tests"]
  const DefaultIgnoredSubfolders: seq<string> := ["lib", "tests"]
  const MissingDescription: string := "Module not found"

  predicate IsDir(t: Tree, p: Path) {
    p == [] || Entry(p, true) in t
  }

  predicate PathExists(t: Tree, p: Path) {
    p == [] || Entry(p, true) in t || Entry(p, false) in t
  }

  /** `p` lies strictly below `root`. */
  predicate Within(root: Path, p: Path) {
    |root| < |p| && p[..|root|] == root
  }

  /** `Path.name`: the last component, empty for the working directory. */
  function Name(p: Path): string {
    if p == [] then "" else p[|p| - 1]
  }

  lemma WithinChild(f: string, rest: Path)
    requires |rest| > 0
    ensures Within([f], [f] + rest)
  {
    assert ([f] + rest)[..1] == [f];
  }

  /** `root.rglob("*")`: the entries strictly below `root`, in tree order. */
  function Walk(t: Tree, root: Path): (r: Tree)
    ensures forall e :: e in r <==> e in t && Within(root, e.path)
  {
    if t == [] then []
    else
      var init := t[..|t| - 1];
      var last := t[|t| - 1];
      assert t == init + [last];
      Walk(init, root) + (if Within(root, last.path) then [last] else [])
  }

  // ---------------------------------------------------------------------
  // File names: Path.suffix and Path.stem

  /** `name.rfind('.')`. */
  function LastDot(name: string): (i: int)
    ensures -1 <= i < |name|
    ensures i >= 0 ==> name[i] == '.'
    ensures forall j :: i < j < |name| ==> name[j] != '.'
  {
    if name == [] then -1
    else if name[|name| - 1] == '.' then |name| - 1
    else LastDot(name[..|name| - 1])
  }

  /** `Path.suffix`: from the last dot on, unless that dot opens the name or
      closes it. */
  function Suffix(name: string): string {
    var i := LastDot(name);
    if 0 < i < |name| - 1 then name[i..] else ""
  }

  /** `Path.stem`: the name without its suffix. */
  function Stem(name: string): string {
    var i := LastDot(name);
    if 0 < i < |name| - 1 then name[..i] else name
  }

  /** A `.py` name is its stem followed by `.py`, and the stem is not empty. */
  lemma PySuffixSplitsName(name: string)
    requires Suffix(name) == ".py"
    ensures name == Stem(name) + ".py"
    ensures |Stem(name)| > 0
  {
  }

  /** Conversely, every non-empty stem comes back from `<stem>.py`. */
  lemma StemOfPyName(stem: string)
    requires |stem| > 0
    ensures Suffix(stem + ".py") == ".py"
    ensures Stem(stem + ".py") == stem
  {
    var name := stem + ".py";
    assert name[|stem|] == '.';
    assert name[|stem| + 1] != '.' && name[|stem| + 2] != '.';
    var i := LastDot(name);
    assert i == |stem|;
    assert name[i..] == ".py";
    assert name[..i] == stem;
  }

  // ---------------------------------------------------------------------
  // discover_folders_with_commands

  /** The ignore list, lower-cased. */
  function IgnoreSet(ignore: seq<string>): (s: set<string>)
    ensures forall n :: n in s <==> exists x :: x in ignore && Lower(x) == n
  {
    set x | x in ignore :: Lower(x)
  }

  /** A directory that opts in with `__init__.py` and whose lower-cased name
      is not ignored. */
  predicate IsGroupDir(t: Tree, e: Entry, ignored: set<string>) {
    && e.isDir
    && Lower(Name(e.path)) !in ignored
    && PathExists(t, e.path + [InitFile])
  }

  /** The keys of the comprehension `{folder.name: {} for folder in es if ...}`:
      the names of the qualifying directories, each once, in order of first
      appearance. */
  function GroupNames(t: Tree, es: Tree, ignored: set<string>): (r: seq<string>)
    ensures Distinct(r)
    ensures forall k :: k in r <==> exists e :: e in es && IsGroupDir(t, e, ignored) && Name(e.path) == k
  {
    if es == [] then []
    else
      var init := es[..|es| - 1];
      var e := es[|es| - 1];
      assert es == init + [e];
      var prev := GroupNames(t, init, ignored);
      if IsGroupDir(t, e, ignored) && Name(e.path) !in prev then prev + [Name(e.path)] else prev
  }

  /** `discover_folders_with_commands(root, ignore)`. The returned dict maps
      every key to an empty dict, so only its keys are kept, in insertion
      order. A root that is not a directory yields no folders, not a failure.
      Two qualifying directories with the same base name give one key. */
  function Discover(t: Tree, root: Path, ignore: seq<string>): (r: seq<string>)
    ensures !IsDir(t, root) ==> r == []
    ensures Distinct(r)
    ensures IsDir(t, root) ==>
      forall k :: k in r <==>
        exists e :: e in t && Within(root, e.path) && IsGroupDir(t, e, IgnoreSet(ignore)) && Name(e.path) == k
  {
    if !IsDir(t, root) then [] else GroupNames(t, Walk(t, root), IgnoreSet(ignore))
  }

  // ---------------------------------------------------------------------
  // load_commands

  function TooLongMessage(c: string): string {
    "Command name '" + c + "' is too long. Maximum allowed length is " + NatToString(MAX) + " characters."
  }

  function Placeholder(c: string): string {
    "Description for " + c
  }

  /** The glob entry the loop skips: a directory whose lower-cased name is in
      the (not lower-cased) list of ignored subfolders. Only the entry itself
      is skipped; what lies below it is still visited. */
  predicate IsSkippedDir(e: Entry, ignoreSub: seq<string>) {
    e.isDir && Lower(Name(e.path)) in ignoreSub
  }

  /** An entry registered as a command: not skipped, suffix `.py`, and not the
      package marker. Directories are not excluded by this test. */
  predicate IsCommandFile(e: Entry, ignoreSub: seq<string>) {
    && !IsSkippedDir(e, ignoreSub)
    && Suffix(Name(e.path)) == ".py"
    && Name(e.path) != InitFile
  }

  function CommandName(e: Entry): string {
    Stem(Name(e.path))
  }

  /** The stems of the command entries among `es`, in glob order. */
  function CommandNames(es: Tree, ignoreSub: seq<string>): (r: seq<string>)
    ensures forall c :: c in r <==> exists e :: e in es && IsCommandFile(e, ignoreSub) && CommandName(e) == c
  {
    if es == [] then []
    else
      var init := es[..|es| - 1];
      var e := es[|es| - 1];
      assert es == init + [e];
      CommandNames(init, ignoreSub) + (if IsCommandFile(e, ignoreSub) then [CommandName(e)] else [])
  }

  /** Registering names one by one: each goes in with the placeholder
      description, and the first name longer than `MAX` aborts the loop
      with that name in the error. */
  function Register(names: seq<string>): (r: Result<Dict<string>>)
    ensures r.Ok? <==> forall i :: 0 <= i < |names| ==> |names[i]| <= MAX
    ensures r.Ok? ==> forall c :: c in r.value.entries <==> c in names
    ensures r.Ok? ==> forall c :: c in r.value.entries ==> r.value.entries[c] == Placeholder(c)
    ensures r.Err? ==>
      exists i :: 0 <= i < |names| && |names[i]| > MAX && r.error == ValueError(TooLongMessage(names[i]))
        && (forall j :: 0 <= j < i ==> |names[j]| <= MAX)
  {
    if names == [] then Ok(Empty())
    else
      var init := names[..|names| - 1];
      var c := names[|names| - 1];
      assert names == init + [c];
      var d :- Register(init);
      if |c| > MAX then
        assert forall j :: 0 <= j < |init| ==> |names[j]| <= MAX by {
          forall j | 0 <= j < |init| ensures |names[j]| <= MAX { assert names[j] == init[j]; }
        }
        Err(ValueError(TooLongMessage(c)))
      else Ok(Insert(d, c, Placeholder(c)))
  }

  /** The inner loop of `load_commands` over one folder's glob entries. */
  function CollectCommands(es: Tree, ignoreSub: seq<string>): (r: Result<Dict<string>>)
    ensures r.Ok? <==> forall e :: e in es && IsCommandFile(e, ignoreSub) ==> |CommandName(e)| <= MAX
    ensures r.Ok? ==> forall c :: c in r.value.entries <==> exists e :: e in es && IsCommandFile(e, ignoreSub) && CommandName(e) == c
    ensures r.Ok? ==> forall c :: c in r.value.entries ==> r.value.entries[c] == Placeholder(c) && |c| <= MAX
    ensures r.Err? ==> r.error.ValueError?
  {
    var names := CommandNames(es, ignoreSub);
    var r := Register(names);
    assert r.Ok? <==> forall c :: c in names ==> |c| <= MAX by {
      if forall c :: c in names ==> |c| <= MAX {
        assert forall i :: 0 <= i < |names| ==> names[i] in names;
      }
    }
    r
  }

  /** Every command registered below folder `f` has a short enough name. */
  predicate NamesFit(t: Tree, f: string, ignoreSub: seq<string>) {
    forall e :: e in t && Within([f], e.path) && IsCommandFile(e, ignoreSub) ==> |CommandName(e)| <= MAX
  }

  /** No command name in the catalog is longer than `MAX`. */
  predicate CatalogFits(cat: Catalog) {
    forall f, c :: f in cat.entries && c in cat.entries[f].entries ==> |c| <= MAX
  }

  /** `load_commands(folders, ignoreSub)`. Each folder key is read as a path
      relative to the working directory; a key that is not an existing
      directory is left out of the result. One over-long command name under
      any listed folder makes the whole call fail, with no catalog. */
  function LoadCommands(t: Tree, folders: seq<string>, ignoreSub: seq<string>): (r: Result<Catalog>)
    ensures r.Ok? <==> forall f :: f in folders && IsDir(t, [f]) ==> NamesFit(t, f, ignoreSub)
    ensures r.Ok? ==> forall f :: f in r.value.entries <==> f in folders && IsDir(t, [f])
    ensures r.Ok? ==> forall f :: f in r.value.entries ==> CollectCommands(Walk(t, [f]), ignoreSub) == Ok(r.value.entries[f])
    ensures r.Ok? ==> CatalogFits(r.value)
    ensures r.Ok? ==> Subsequence(r.value.keys, folders)
    ensures r.Err? ==> r.error.ValueError?
  {
    if folders == [] then Ok(Empty())
    else
      var init := folders[..|folders| - 1];
      var f := folders[|folders| - 1];
      assert folders == init + [f];
      var cat :- LoadCommands(t, init, ignoreSub);
      if !IsDir(t, [f]) then
        SubsequenceAppend(cat.keys, init, f);
        Ok(cat)
      else
        var cmds :- CollectCommands(Walk(t, [f]), ignoreSub);
        KeysAfterInsert(cat, init, f, cmds);
        Ok(Insert(cat, f, cmds))
  }

  /** The listed folders that exist as directories, in list order. */
  function ExistingFolders(t: Tree, folders: seq<string>): seq<string> {
    if folders == [] then []
    else
      var init := folders[..|folders| - 1];
      var f := folders[|folders| - 1];
      ExistingFolders(t, init) + (if IsDir(t, [f]) then [f] else [])
  }

  /** With the distinct keys of a dict as input, loading visits them in
      order and keeps exactly the existing ones: the catalog's iteration
      order, which numbers the disambiguation menu, is the input's. */
  lemma {:induction false} LoadedKeysAreExistingFolders(t: Tree, folders: seq<string>, ignoreSub: seq<string>)
    requires Distinct(folders)
    ensures LoadCommands(t, folders, ignoreSub).Ok? ==>
      LoadCommands(t, folders, ignoreSub).value.keys == ExistingFolders(t, folders)
  {
    if folders != [] && LoadCommands(t, folders, ignoreSub).Ok? {
      var init := folders[..|folders| - 1];
      var f := folders[|folders| - 1];
      assert folders == init + [f];
      assert Distinct(init);
      LoadedKeysAreExistingFolders(t, init, ignoreSub);
      var cat := LoadCommands(t, init, ignoreSub).value;
      assert f !in cat.entries;
    }
  }

  /** Inserting the next listed folder keeps the keys in the list's order. */
  lemma KeysAfterInsert(cat: Catalog, init: seq<string>, f: string, cmds: Dict<string>)
    requires Subsequence(cat.keys, init)
    ensures Subsequence(Insert(cat, f, cmds).keys, init + [f])
  {
    if f in cat.entries {
      SubsequenceAppend(cat.keys, init, f);
    } else {
      SubsequenceExtend(cat.keys, init, f);
    }
  }

  /** Every loaded command is the stem of a `.py` entry (not `__init__.py`)
      somewhere below its folder, however deep, and carries the placeholder
      description. */
  lemma LoadedCommandsAreStems(t: Tree, folders: seq<string>, ignoreSub: seq<string>, f: string, c: string)
    requires LoadCommands(t, folders, ignoreSub).Ok?
    requires f in LoadCommands(t, folders, ignoreSub).value.entries
    requires c in LoadCommands(t, folders, ignoreSub).value.entries[f].entries
    ensures exists e :: e in t && Within([f], e.path) && IsCommandFile(e, ignoreSub) && CommandName(e) == c
    ensures LoadCommands(t, folders, ignoreSub).value.entries[f].entries[c] == Placeholder(c)
    ensures |c| <= MAX
  {
    var cat := LoadCommands(t, folders, ignoreSub).value;
    assert CollectCommands(Walk(t, [f]), ignoreSub) == Ok(cat.entries[f]);
  }

  /** Conversely, every command file below a loaded folder, however deep, is
      registered in that folder under its stem. */
  lemma CommandFilesAreLoaded(t: Tree, folders: seq<string>, ignoreSub: seq<string>, f: string, e: Entry)
    requires LoadCommands(t, folders, ignoreSub).Ok?
    requires f in folders && IsDir(t, [f])
    requires e in t && Within([f], e.path) && IsCommandFile(e, ignoreSub)
    ensures f in LoadCommands(t, folders, ignoreSub).value.entries
    ensures CommandName(e) in LoadCommands(t, folders, ignoreSub).value.entries[f].entries
  {
    var cat := LoadCommands(t, folders, ignoreSub).value;
    assert f in cat.entries;
    var w := Walk(t, [f]);
    assert e in w;
    assert CollectCommands(w, ignoreSub) == Ok(cat.entries[f]);
  }

  /** A file `<f>/<sub>/<stem>.py` is a command file below `f` named `stem`,
      whatever `sub` is called. */
  lemma NestedFileIsCommand(f: string, sub: string, stem: string, ignoreSub: seq<string>)
    requires |stem| > 0 && stem + ".py" != InitFile
    ensures var e := Entry([f, sub, stem + ".py"], false);
      Within([f], e.path) && IsCommandFile(e, ignoreSub) && CommandName(e) == stem
  {
    var name := stem + ".py";
    WithinChild(f, [sub, name]);
    assert [f] + [sub, name] == [f, sub, name];
    StemOfPyName(stem);
  }

  /** The ignore list does not prune: a `.py` file inside an ignored
      subfolder (say `lib/`) is still registered. */
  lemma IgnoredSubfolderNotPruned(t: Tree, folders: seq<string>, ignoreSub: seq<string>, f: string, sub: string, stem: string)
    requires LoadCommands(t, folders, ignoreSub).Ok?
    requires f in folders && IsDir(t, [f])
    requires Entry([f, sub], true) in t && Lower(sub) in ignoreSub
    requires |stem| > 0 && stem + ".py" != InitFile
    requires Entry([f, sub, stem + ".py"], false) in t
    ensures stem in LoadCommands(t, folders, ignoreSub).value.entries[f].entries
  {
    var e := Entry([f, sub, stem + ".py"], false);
    NestedFileIsCommand(f, sub, stem, ignoreSub);
    CommandFilesAreLoaded(t, folders, ignoreSub, f, e);
  }

  /** Discovery keys a package by its base name, while loading looks that
      name up directly below the working directory. A package nested one
      level down, at `a/b`, is therefore discovered as `b` but never loaded
      unless a directory `b` also exists at the top. */
  lemma NestedPackageNotLoaded(t: Tree, ignore: seq<string>, ignoreSub: seq<string>, a: string, b: string)
    requires Entry([a, b], true) in t && PathExists(t, [a, b, InitFile])
    requires Lower(b) !in IgnoreSet(ignore)
    requires Entry([b], true) !in t
    ensures b in Discover(t, [], ignore)
    ensures var r := LoadCommands(t, Discover(t, [], ignore), ignoreSub);
      r.Ok? ==> b !in r.value.entries
  {
    var e := Entry([a, b], true);
    assert [a, b] + [InitFile] == [a, b, InitFile];
    assert Within([], e.path) && Name(e.path) == b;
    assert IsGroupDir(t, e, IgnoreSet(ignore));
  }

  // ---------------------------------------------------------------------
  // generate_command_descriptions

  /** `manifest.get(f, {}).get(c, {}).get("description", "Module not found")`. */
  function ManifestDescription(m: Manifest, f: string, c: string): string {
    if f in m && c in m[f] && "description" in m[f][c] then m[f][c]["description"]
    else MissingDescription
  }

  function DescribeFolder(f: string, cmds: Dict<string>, m: Manifest): (r: Dict<string>)
    ensures r.keys == cmds.keys
    ensures forall c :: c in r.entries <==> c in cmds.entries
    ensures forall c :: c in r.entries ==> r.entries[c] == ManifestDescription(m, f, c)
  {
    RawDict(cmds.keys, map c | c in cmds.entries :: ManifestDescription(m, f, c))
  }

  /** `generate_command_descriptions(catalog, manifest)`. A missing or
      malformed manifest yields an empty catalog, never a partial one; any
      other failure to read it propagates unchanged. Otherwise the folders
      and, per folder, the command names are exactly the input's, in the
      same order, and each description comes from the manifest or is the
      "Module not found" sentinel. */
  function GenerateCommandDescriptions(cat: Catalog, file: ManifestRead): (r: Result<Catalog>)
    ensures file.NotFound? || file.NotJson? ==> r == Ok(Empty())
    ensures r.Err? <==> file.Raised?
    ensures file.Raised? ==> r.error == file.error
    ensures file.Parsed? ==> r.Ok? && r.value.keys == cat.keys
    ensures file.Parsed? ==> forall f :: f in r.value.entries <==> f in cat.entries
    ensures file.Parsed? ==>
      forall f :: f in r.value.entries ==>
        && r.value.entries[f].keys == cat.entries[f].keys
        && forall c :: c in r.value.entries[f].entries ==> r.value.entries[f].entries[c] == ManifestDescription(file.manifest, f, c)
  {
    match file
    case NotFound => Ok(Empty())
    case NotJson => Ok(Empty())
    case Raised(e) => Err(e)
    case Parsed(m) =>
      Ok(RawDict(cat.keys, map f | f in cat.entries :: DescribeFolder(f, cat.entries[f], m)))
  }

  /** Manifest entries for folders or commands the catalog does not hold make
      no difference: two manifests that agree on the catalog's own commands
      give the same result. */
  lemma DescriptionsIgnoreUnknownEntries(cat: Catalog, m1: Manifest, m2: Manifest)
    requires forall f, c :: f in cat.entries && c in cat.entries[f].entries ==> ManifestDescription(m1, f, c) == ManifestDescription(m2, f, c)
    ensures GenerateCommandDescriptions(cat, Parsed(m1)) == GenerateCommandDescriptions(cat, Parsed(m2))
  {
    var r1 := GenerateCommandDescriptions(cat, Parsed(m1)).value;
    var r2 := GenerateCommandDescriptions(cat, Parsed(m2)).value;
    forall f | f in r1.entries ensures r1.entries[f] == r2.entries[f] {
      DescribeFolderAgrees(f, cat.entries[f], m1, m2);
    }
    assert r1.entries == r2.entries;
  }

  lemma DescribeFolderAgrees(f: string, cmds: Dict<string>, m1: Manifest, m2: Manifest)
    requires forall c :: c in cmds.entries ==> ManifestDescription(m1, f, c) == ManifestDescription(m2, f, c)
    ensures DescribeFolder(f, cmds, m1) == DescribeFolder(f, cmds, m2)
  {
    assert DescribeFolder(f, cmds, m1).entries == DescribeFolder(f, cmds, m2).entries;
  }

  /** Merging descriptions only reads the catalog's folder and command
      names, so merging again with the same manifest changes nothing more. */
  lemma DescriptionsIdempotent(cat: Catalog, file: ManifestRead)
    ensures var r := GenerateCommandDescriptions(cat, file);
      r.Ok? ==> GenerateCommandDescriptions(r.value, file) == r
  {
    if file.Parsed? {
      var once := GenerateCommandDescriptions(cat, file).value;
      var twice := GenerateCommandDescriptions(once, file).value;
      forall f | f in twice.entries ensures twice.entries[f] == once.entries[f] {
        DescribeFolderIdempotent(f, cat.entries[f], file.manifest);
      }
      assert twice.entries == once.entries;
    }
  }

  lemma DescribeFolderIdempotent(f: string, cmds: Dict<string>, m: Manifest)
    ensures DescribeFolder(f, DescribeFolder(f, cmds, m), m) == DescribeFolder(f, cmds, m)
  {
    var once := DescribeFolder(f, cmds, m);
    assert DescribeFolder(f, once, m).entries == once.entries;
  }
}
