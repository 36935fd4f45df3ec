/**
 * `generateRegistry`: one registry item per block found under the components
 * directory, each with its title, description, dependency lists and files,
 * sorted by block name.
 */
module Registry {
  import opened Wrappers
  import opened Strings
  import opened Ordering
  import opened FsTree
  import opened Declarations
  import opened RegistryMetadata
  import opened RegistryDeps
  import opened RegistryWalk
  import opened RegistryTitle

  const Author: string := "ephraim duncan <https://ephraimduncan.com>"
  const Schema: string := "https://ui.shadcn.com/schema/registry.json"
  const Homepage: string := "https://blocks.so"
  const RegistryName: string := "blocks"
  const BlockType: string := "registry:block"

  datatype RegistryFile = RegistryFile(path: string, kind: string, target: string)

  datatype Item = Item(
    name: string,
    kind: string,
    title: string,
    description: string,
    author: string,
    registryDependencies: seq<string>,
    dependencies: seq<string>,
    files: seq<RegistryFile>)

  datatype RegistryJson = RegistryJson(schema: string, name: string, homepage: string, items: seq<Item>)

  /** Why the generator exits with status 1 instead of writing the registry:
      the metadata could not be loaded, or a directory listing failed (the path
      is given below the components directory). */
  datatype Failure = MetadataFailed(reason: LoadError) | DirectoryUnreadable(path: seq<string>)

  /** The metadata name of the block, or the title derived from its id. */
  function TitleFor(titles: map<string, string>, id: string): string {
    if id in titles && titles[id] != "" then titles[id] else FormatTitle(id)
  }

  function Description(title: string): string {
    "A " + Lower(title) + " block."
  }

  function MakeItem(titles: map<string, string>, id: string, files: seq<RegistryFile>, deps: Deps): Item {
    var title := TitleFor(titles, id);
    Item(id, BlockType, title, Description(title), Author,
         deps.registryDependencies, deps.dependencies, files)
  }

  /** An entry of a category directory that is never a block. */
  predicate Skipped(name: string) {
    StartsWith(name, ".") || StartsWith(name, "index.")
  }

  function SingleFile(category: string, name: string): RegistryFile {
    RegistryFile(Slashes(ComponentsDir + "/" + category + "/" + name), BlockType,
                 Slashes(BlocksTarget + "/" + name))
  }

  function FileOf(f: FoundFile): RegistryFile {
    RegistryFile(f.path, BlockType, f.target)
  }

  function FilesOf(fs: seq<FoundFile>): (r: seq<RegistryFile>)
    ensures |r| == |fs|
    ensures forall i :: 0 <= i < |fs| ==> r[i] == FileOf(fs[i])
  {
    if |fs| == 0 then [] else [FileOf(fs[0])] + FilesOf(fs[1..])
  }

  function DataOf(fs: seq<FoundFile>): (r: seq<ParseResult>)
    ensures |r| == |fs|
    ensures forall i :: 0 <= i < |fs| ==> r[i] == fs[i].data
  {
    if |fs| == 0 then [] else [fs[0].data] + DataOf(fs[1..])
  }

  /** What one entry of a category directory contributes: nothing, one item,
      or a failure that stops the generator. */
  function EntryOutcome(titles: map<string, string>, category: string, e: Node<ParseResult>)
    : Result<Option<Item>, Failure>
  {
    if Skipped(e.name) then Ok(None)
    else if e.File? && EndsWith(e.name, ".tsx") then Ok(Some(SingleFileItem(titles, category, e)))
    else if IsDirectory(e) then DirectoryOutcome(titles, category, e)
    else Ok(None)
  }

  /** A single-file block: its id is the file name without `.tsx`. */
  function SingleFileItem(titles: map<string, string>, category: string, e: Node<ParseResult>): Item
    requires e.File? && EndsWith(e.name, ".tsx")
  {
    MakeItem(titles, e.name[..|e.name| - 4], [SingleFile(category, e.name)], BlockDeps([e.data]))
  }

  /** A directory block: every `.tsx` file below it, or no item when there is none. */
  function DirectoryOutcome(titles: map<string, string>, category: string, e: Node<ParseResult>)
    : Result<Option<Item>, Failure>
  {
    match WalkDir(Block(category, e.name), e, [])
    case Err(p) => Err(DirectoryUnreadable([category, e.name] + p))
    case Ok(found) =>
      if |found| == 0 then Ok(None)
      else Ok(Some(MakeItem(titles, e.name, FilesOf(found), BlockDeps(DataOf(found)))))
  }

  /** The outcome of each entry of a category directory, in listing order. */
  function EntryOutcomes(titles: map<string, string>, category: string, entries: seq<Node<ParseResult>>)
    : (r: seq<Result<Option<Item>, Failure>>)
    ensures |r| == |entries|
    ensures forall j :: 0 <= j < |entries| ==> r[j] == EntryOutcome(titles, category, entries[j])
  {
    if |entries| == 0 then []
    else [EntryOutcome(titles, category, entries[0])] + EntryOutcomes(titles, category, entries[1..])
  }

  /** The items of a run of entry outcomes, in order; the first failure ends it. */
  function Gather(outs: seq<Result<Option<Item>, Failure>>): Result<seq<Item>, Failure>
    decreases |outs|
  {
    if |outs| == 0 then Ok([])
    else
      match Gather(outs[..|outs| - 1])
      case Err(f) => Err(f)
      case Ok(items) =>
        match outs[|outs| - 1]
        case Err(f) => Err(f)
        case Ok(None) => Ok(items)
        case Ok(Some(it)) => Ok(items + [it])
  }

  /** A category entry that is looked into: a directory whose name does not
      start with a dot. */
  predicate OpenCategory(c: Node<ParseResult>) {
    IsDirectory(c) && !StartsWith(c.name, ".")
  }

  function CategoryOutcome(titles: map<string, string>, c: Node<ParseResult>): Result<seq<Item>, Failure> {
    if !OpenCategory(c) then Ok([])
    else if c.LockedDir? then Err(DirectoryUnreadable([c.name]))
    else Gather(EntryOutcomes(titles, c.name, c.children))
  }

  function CategoryOutcomes(titles: map<string, string>, cats: seq<Node<ParseResult>>)
    : (r: seq<Result<seq<Item>, Failure>>)
    ensures |r| == |cats|
    ensures forall i :: 0 <= i < |cats| ==> r[i] == CategoryOutcome(titles, cats[i])
  {
    if |cats| == 0 then []
    else [CategoryOutcome(titles, cats[0])] + CategoryOutcomes(titles, cats[1..])
  }

  /** The items of a run of category outcomes, concatenated in order; the
      first failure ends it. */
  function Concat(outs: seq<Result<seq<Item>, Failure>>): Result<seq<Item>, Failure>
    decreases |outs|
  {
    if |outs| == 0 then Ok([])
    else
      match Concat(outs[..|outs| - 1])
      case Err(f) => Err(f)
      case Ok(items) =>
        match outs[|outs| - 1]
        case Err(f) => Err(f)
        case Ok(more) => Ok(items + more)
  }

  /** The items of all category entries, in discovery order. */
  function Collected(titles: map<string, string>, cats: seq<Node<ParseResult>>): Result<seq<Item>, Failure> {
    Concat(CategoryOutcomes(titles, cats))
  }

  function ItemRank(it: Item): nat { 0 }
  function ItemName(it: Item): string { it.name }

  /** The whole run: the metadata, then the listing of the components
      directory (absent, or not a readable directory, is a failure), the
      items, and their sort by name. */
  function RegistryOf(src: MetadataSource, components: Option<Node<ParseResult>>)
    : Result<RegistryJson, Failure>
  {
    if src.Unloadable? then Err(MetadataFailed(ImportFailed))
    else if src.NotAnArray? then Err(MetadataFailed(NotAnArrayError))
    else if components.None? || !components.value.Dir? then Err(DirectoryUnreadable([]))
    else
      var cats := components.value.children;
      match Collected(TitleMap(src.items), cats)
      case Err(f) => Err(f)
      case Ok(items) => Ok(RegistryJson(Schema, RegistryName, Homepage, SortBy(ItemRank, ItemName, items)))
  }

  // ---------------------------------------------------------------------------
  // The generator, loop by loop

  /** The body of the block loop for one entry of a category directory. */
  method BuildBlock(titles: map<string, string>, category: string, e: Node<ParseResult>)
    returns (r: Result<Option<Item>, Failure>)
    ensures r == EntryOutcome(titles, category, e)
  {
    if StartsWith(e.name, ".") || StartsWith(e.name, "index.") {
      return Ok(None);
    }
    if e.File? && EndsWith(e.name, ".tsx") {
      var d := ExtractDependencies(e.data);
      var allDeps := MergeDeps(Deps([], []), d);
      assert [e.data][..0] == [];
      assert BlockDeps([e.data]) == allDeps;
      r := Ok(Some(MakeItem(titles, e.name[..|e.name| - 4], [SingleFile(category, e.name)], allDeps)));
    } else if e.Dir? || e.LockedDir? {
      r := BuildDirectoryBlock(titles, category, e);
    } else {
      r := Ok(None);
    }
  }

  /** A block directory: its `.tsx` files are found, then each one's
      dependencies are merged and its file entry is pushed. */
  method BuildDirectoryBlock(titles: map<string, string>, category: string, e: Node<ParseResult>)
    returns (r: Result<Option<Item>, Failure>)
    ensures r == DirectoryOutcome(titles, category, e)
  {
    var found := FindTsxFiles(Block(category, e.name), e, []);
    if found.Err? {
      return Err(DirectoryUnreadable([category, e.name] + found.error));
    }
    var fs := found.value;
    var allDeps := Deps([], []);
    var blockFiles: seq<RegistryFile> := [];
    var i := 0;
    while i < |fs|
      invariant 0 <= i <= |fs|
      invariant allDeps == BlockDeps(DataOf(fs)[..i])
      invariant blockFiles == FilesOf(fs[..i])
    {
      var d := ExtractDependencies(fs[i].data);
      FoundStep(fs, i);
      allDeps := MergeDeps(allDeps, d);
      blockFiles := blockFiles + [FileOf(fs[i])];
      i := i + 1;
    }
    assert fs[..|fs|] == fs;
    assert DataOf(fs)[..|fs|] == DataOf(fs);
    if |blockFiles| > 0 {
      r := Ok(Some(MakeItem(titles, e.name, blockFiles, allDeps)));
    } else {
      r := Ok(None);
    }
  }

  /** One more found file: its dependencies are merged in and its entry appended. */
  lemma FoundStep(fs: seq<FoundFile>, i: nat)
    requires i < |fs|
    ensures BlockDeps(DataOf(fs)[..i + 1]) == MergeDeps(BlockDeps(DataOf(fs)[..i]), FileDeps(fs[i].data))
    ensures FilesOf(fs[..i + 1]) == FilesOf(fs[..i]) + [FileOf(fs[i])]
  {
    BlockDepsPrefix(DataOf(fs), i);
    FilesStep(fs, i);
  }

  lemma BlockDepsPrefix(files: seq<ParseResult>, i: nat)
    requires i < |files|
    ensures BlockDeps(files[..i + 1]) == MergeDeps(BlockDeps(files[..i]), FileDeps(files[i]))
  {
    assert files[..i + 1][..i] == files[..i];
  }

  lemma FilesStep(fs: seq<FoundFile>, i: nat)
    requires i < |fs|
    ensures FilesOf(fs[..i + 1]) == FilesOf(fs[..i]) + [FileOf(fs[i])]
  {
    var a := FilesOf(fs[..i + 1]);
    var b := FilesOf(fs[..i]) + [FileOf(fs[i])];
    assert |a| == |b|;
    forall k | 0 <= k < |a| ensures a[k] == b[k] {
      if k < i {
        assert fs[..i + 1][k] == fs[..i][k];
      }
    }
  }

  /** The entry loop of one category directory. */
  method BuildCategory(titles: map<string, string>, c: Node<ParseResult>)
    returns (r: Result<seq<Item>, Failure>)
    ensures r == CategoryOutcome(titles, c)
  {
    if !((c.Dir? || c.LockedDir?) && !StartsWith(c.name, ".")) {
      return Ok([]);
    }
    if c.LockedDir? {
      return Err(DirectoryUnreadable([c.name]));
    }
    var entries := c.children;
    ghost var outs := EntryOutcomes(titles, c.name, entries);
    var j := 0;
    var catItems: seq<Item> := [];
    while j < |entries|
      invariant 0 <= j <= |entries|
      invariant Gather(outs[..j]) == Ok(catItems)
    {
      var out := BuildBlock(titles, c.name, entries[j]);
      assert outs[..j + 1][..j] == outs[..j];
      assert outs[..j + 1][j] == out;
      if out.Err? {
        GatherFailureSticks(outs, j + 1);
        return Err(out.error);
      }
      if out.value.Some? {
        catItems := catItems + [out.value.value];
      }
      j := j + 1;
    }
    assert outs[..|entries|] == outs;
    r := Ok(catItems);
  }

  /** `generateRegistry()`, from the loaded metadata to the sorted items. */
  method GenerateRegistry(src: MetadataSource, components: Option<Node<ParseResult>>)
    returns (r: Result<RegistryJson, Failure>)
    ensures r == RegistryOf(src, components)
  {
    var loaded := LoadMetadata(src);
    if loaded.Err? {
      return Err(MetadataFailed(loaded.error));
    }
    var titles := loaded.value;
    if components.None? || !components.value.Dir? {
      return Err(DirectoryUnreadable([]));
    }
    var categories := components.value.children;
    ghost var outs := CategoryOutcomes(titles, categories);
    var registryItems: seq<Item> := [];
    var i := 0;
    while i < |categories|
      invariant 0 <= i <= |categories|
      invariant Concat(outs[..i]) == Ok(registryItems)
    {
      var more := BuildCategory(titles, categories[i]);
      assert outs[..i + 1][..i] == outs[..i];
      assert outs[..i + 1][i] == more;
      if more.Err? {
        ConcatFailureSticks(outs, i + 1);
        return Err(more.error);
      }
      registryItems := registryItems + more.value;
      i := i + 1;
    }
    assert outs[..|categories|] == outs;
    r := Ok(RegistryJson(Schema, RegistryName, Homepage, SortBy(ItemRank, ItemName, registryItems)));
  }

  /** Once a prefix of the outcomes has failed, the whole run fails the same way. */
  lemma {:induction false} GatherFailureSticks(outs: seq<Result<Option<Item>, Failure>>, k: nat)
    requires k <= |outs| && Gather(outs[..k]).Err?
    ensures Gather(outs) == Gather(outs[..k])
    decreases |outs|
  {
    if k < |outs| {
      var init := outs[..|outs| - 1];
      assert init[..k] == outs[..k];
      GatherFailureSticks(init, k);
    } else {
      assert outs[..k] == outs;
    }
  }

  lemma {:induction false} ConcatFailureSticks(outs: seq<Result<seq<Item>, Failure>>, k: nat)
    requires k <= |outs| && Concat(outs[..k]).Err?
    ensures Concat(outs) == Concat(outs[..k])
    decreases |outs|
  {
    if k < |outs| {
      var init := outs[..|outs| - 1];
      assert init[..k] == outs[..k];
      ConcatFailureSticks(init, k);
    } else {
      assert outs[..k] == outs;
    }
  }

  // ---------------------------------------------------------------------------
  // What the registry holds

  /** Every item is a `registry:block` by the site's author, with at least one
      file, a description derived from its title, and both dependency lists
      sorted without duplicates. */
  lemma ItemShape(titles: map<string, string>, category: string, e: Node<ParseResult>, it: Item)
    requires EntryOutcome(titles, category, e) == Ok(Some(it))
    ensures it.kind == BlockType && it.author == Author
    ensures |it.files| > 0 && forall f :: f in it.files ==> f.kind == BlockType
    ensures it.title == TitleFor(titles, it.name)
    ensures it.description == "A " + Lower(it.title) + " block."
    ensures StrictlySorted(it.registryDependencies) && StrictlySorted(it.dependencies)
  {
    if !(e.File? && EndsWith(e.name, ".tsx")) {
      var found := WalkDir(Block(category, e.name), e, []).value;
      forall f | f in it.files ensures f.kind == BlockType {
        var i :| 0 <= i < |it.files| && it.files[i] == f;
        assert it.files[i] == FileOf(found[i]);
      }
    }
  }

  /** A title comes from the last usable metadata entry with the block's id. */
  lemma TitleFromMetadata(items: seq<BlocksMetadata>, i: nat)
    requires i < |items| && Usable(items[i])
    requires forall j :: i < j < |items| ==> !(Usable(items[j]) && items[j].id == items[i].id)
    ensures TitleFor(TitleMap(items), items[i].id) == items[i].name
  {
    TitleMapLastWins(items, i);
  }

  /** Without a usable metadata entry the title is generated from the id. */
  lemma TitleGenerated(items: seq<BlocksMetadata>, id: string)
    requires forall i :: 0 <= i < |items| ==> !(Usable(items[i]) && items[i].id == id)
    ensures TitleFor(TitleMap(items), id) == FormatTitle(id)
  {
    TitleMapKeys(items, id);
  }

  /** A dot-file, a hidden directory or an `index.` entry never becomes an item
      and never fails; neither does an entry that is neither a `.tsx` file nor
      a directory. */
  lemma SkippedEntries(titles: map<string, string>, category: string, e: Node<ParseResult>)
    requires Skipped(e.name) || (!IsDirectory(e) && !(e.File? && EndsWith(e.name, ".tsx")))
    ensures EntryOutcome(titles, category, e) == Ok(None)
  {
  }

  /** A single `.tsx` file is an item named after the file without `.tsx`, with
      that file as its only file and that file's dependencies. */
  lemma SingleFileBlock(titles: map<string, string>, category: string, e: Node<ParseResult>)
    requires e.File? && EndsWith(e.name, ".tsx") && !Skipped(e.name)
    ensures EntryOutcome(titles, category, e).Ok? && EntryOutcome(titles, category, e).value.Some?
    ensures var it := EntryOutcome(titles, category, e).value.value;
            it.name + ".tsx" == e.name
            && it.files == [RegistryFile(Slashes(ComponentsDir + "/" + category + "/" + e.name), BlockType,
                                         Slashes(BlocksTarget + "/" + e.name))]
            && it.registryDependencies == FileDeps(e.data).registryDependencies
            && it.dependencies == FileDeps(e.data).dependencies
  {
    var it := EntryOutcome(titles, category, e).value.value;
    var n := e.name;
    assert n[..|n| - 4] + n[|n| - 4..] == n;
    var fd := FileDeps(e.data);
    var d := BlockDeps([e.data]);
    BlockDepsPrefix([e.data], 0);
    assert [e.data][..1] == [e.data] && [e.data][..0] == [];
    SortedUnique(d.registryDependencies, fd.registryDependencies);
    SortedUnique(d.dependencies, fd.dependencies);
  }

  /** Every file a directory walk finds is a `.tsx` file below the directory
      at its relative path, with the paths computed from that path. */
  lemma FoundSound(b: Block, e: Node<ParseResult>)
    requires WalkDir(b, e, []).Ok?
    ensures var found := WalkDir(b, e, []).value;
            forall i :: 0 <= i < |found| ==>
              TsxAt(e, found[i].rel, found[i].data)
              && found[i].path == SourcePath(b, found[i].rel)
              && found[i].target == TargetPath(b, found[i].rel)
  {
    var found := WalkDir(b, e, []).value;
    WalkDirFinds(b, e, []);
    forall i | 0 <= i < |found|
      ensures TsxAt(e, found[i].rel, found[i].data)
              && found[i].path == SourcePath(b, found[i].rel)
              && found[i].target == TargetPath(b, found[i].rel)
    {
      var f := found[i];
      assert Reported(b, [], f);
      assert [] + f.rel == f.rel;
      assert Lists(found, [] + f.rel, f.data);
    }
  }

  /** Every `.tsx` file below the directory is found by its walk. */
  lemma FoundComplete(b: Block, e: Node<ParseResult>)
    requires WalkDir(b, e, []).Ok?
    ensures var found := WalkDir(b, e, []).value;
            forall p, d :: TsxAt(e, p, d) ==>
              exists i :: 0 <= i < |found| && found[i].rel == p && found[i].data == d
    ensures var found := WalkDir(b, e, []).value;
            forall i :: 0 <= i < |found| ==>
              found[i].path == SourcePath(b, found[i].rel) && found[i].target == TargetPath(b, found[i].rel)
  {
    var found := WalkDir(b, e, []).value;
    WalkDirFinds(b, e, []);
    forall p, d | TsxAt(e, p, d)
      ensures exists i :: 0 <= i < |found| && found[i].rel == p && found[i].data == d
    {
      assert [] + p == p;
      assert Lists(found, [] + p, d);
      var f :| f in found && f.rel == p && f.data == d;
      var i :| 0 <= i < |found| && found[i] == f;
    }
    forall i | 0 <= i < |found|
      ensures found[i].path == SourcePath(b, found[i].rel) && found[i].target == TargetPath(b, found[i].rel)
    {
      assert Reported(b, [], found[i]);
    }
  }

  /** The item of a directory block is built from the files its walk found. */
  lemma DirectoryItemOf(titles: map<string, string>, category: string, e: Node<ParseResult>, it: Item)
    requires DirectoryOutcome(titles, category, e) == Ok(Some(it))
    ensures WalkDir(Block(category, e.name), e, []).Ok?
    ensures var found := WalkDir(Block(category, e.name), e, []).value;
            it.name == e.name && it.files == FilesOf(found)
            && it.registryDependencies == BlockDeps(DataOf(found)).registryDependencies
            && it.dependencies == BlockDeps(DataOf(found)).dependencies
  {
  }

  /** The registry file entry of the `.tsx` file at path `p` below a block directory. */
  function TreeFile(b: Block, p: seq<string>): RegistryFile {
    RegistryFile(SourcePath(b, p), BlockType, TargetPath(b, p))
  }

  /** `f` is the entry of some `.tsx` file below the directory `e`. */
  ghost predicate FromTree(b: Block, e: Node<ParseResult>, f: RegistryFile) {
    exists p, d :: TsxAt(e, p, d) && f == TreeFile(b, p)
  }

  /** Each file a directory block lists is a `.tsx` file below it, with the
      repository path and install target of its path below the block. */
  lemma DirectoryBlockFilesSound(titles: map<string, string>, category: string, e: Node<ParseResult>, it: Item)
    requires DirectoryOutcome(titles, category, e) == Ok(Some(it))
    ensures it.name == e.name
    ensures forall f :: f in it.files ==> FromTree(Block(category, e.name), e, f)
  {
    var b := Block(category, e.name);
    DirectoryItemOf(titles, category, e, it);
    var found := WalkDir(b, e, []).value;
    FoundSound(b, e);
    forall f | f in it.files ensures FromTree(b, e, f) {
      var i :| 0 <= i < |it.files| && it.files[i] == f;
      FoundFromTree(b, e, found[i]);
    }
  }

  /** A found file at a `.tsx` path, with that path's repository path and
      target, is the entry of a file below the directory. */
  lemma FoundFromTree(b: Block, e: Node<ParseResult>, f: FoundFile)
    requires TsxAt(e, f.rel, f.data) && f.path == SourcePath(b, f.rel) && f.target == TargetPath(b, f.rel)
    ensures FromTree(b, e, FileOf(f))
  {
    assert FileOf(f) == TreeFile(b, f.rel);
  }

  /** Every `.tsx` file below a directory block is listed among its files. */
  lemma DirectoryBlockFilesComplete(titles: map<string, string>, category: string, e: Node<ParseResult>, it: Item)
    requires DirectoryOutcome(titles, category, e) == Ok(Some(it))
    ensures forall p, d :: TsxAt(e, p, d) ==> TreeFile(Block(category, e.name), p) in it.files
  {
    var b := Block(category, e.name);
    DirectoryItemOf(titles, category, e, it);
    var found := WalkDir(b, e, []).value;
    FoundComplete(b, e);
    forall p, d | TsxAt(e, p, d) ensures TreeFile(b, p) in it.files {
      var i :| 0 <= i < |found| && found[i].rel == p && found[i].data == d;
      assert it.files[i] == FileOf(found[i]);
    }
  }

  /** A directory block depends on the UI primitives some `.tsx` file below it imports. */
  lemma DirectoryBlockRegistryDeps(titles: map<string, string>, category: string, e: Node<ParseResult>, it: Item, x: string)
    requires DirectoryOutcome(titles, category, e) == Ok(Some(it))
    ensures x in it.registryDependencies <==>
            exists p, d :: TsxAt(e, p, d) && x in FileDeps(d).registryDependencies
  {
    var b := Block(category, e.name);
    DirectoryItemOf(titles, category, e, it);
    var found := WalkDir(b, e, []).value;
    var ds := DataOf(found);
    BlockRegistryDeps(ds, x);
    if exists p, d :: TsxAt(e, p, d) && x in FileDeps(d).registryDependencies {
      var p, d :| TsxAt(e, p, d) && x in FileDeps(d).registryDependencies;
      FoundComplete(b, e);
      var i :| 0 <= i < |found| && found[i].rel == p && found[i].data == d;
      assert ds[i] == d;
    }
    if x in it.registryDependencies {
      var i :| 0 <= i < |ds| && x in FileDeps(ds[i]).registryDependencies;
      FoundSound(b, e);
      assert TsxAt(e, found[i].rel, found[i].data);
    }
  }

  /** A directory block depends on the packages some `.tsx` file below it imports. */
  lemma DirectoryBlockPackages(titles: map<string, string>, category: string, e: Node<ParseResult>, it: Item, x: string)
    requires DirectoryOutcome(titles, category, e) == Ok(Some(it))
    ensures x in it.dependencies <==>
            exists p, d :: TsxAt(e, p, d) && x in FileDeps(d).dependencies
  {
    var b := Block(category, e.name);
    DirectoryItemOf(titles, category, e, it);
    var found := WalkDir(b, e, []).value;
    var ds := DataOf(found);
    BlockPackages(ds, x);
    if exists p, d :: TsxAt(e, p, d) && x in FileDeps(d).dependencies {
      var p, d :| TsxAt(e, p, d) && x in FileDeps(d).dependencies;
      FoundComplete(b, e);
      var i :| 0 <= i < |found| && found[i].rel == p && found[i].data == d;
      assert ds[i] == d;
    }
    if x in it.dependencies {
      var i :| 0 <= i < |ds| && x in FileDeps(ds[i]).dependencies;
      FoundSound(b, e);
      assert TsxAt(e, found[i].rel, found[i].data);
    }
  }

  /** A directory with no `.tsx` file below it is no block. */
  lemma EmptyDirectoryBlock(titles: map<string, string>, category: string, e: Node<ParseResult>)
    requires WalkDir(Block(category, e.name), e, []).Ok?
    ensures DirectoryOutcome(titles, category, e) == Ok(None) <==> forall p, d :: !TsxAt(e, p, d)
  {
    var b := Block(category, e.name);
    var found := WalkDir(b, e, []).value;
    if |found| > 0 {
      FoundSound(b, e);
      assert TsxAt(e, found[0].rel, found[0].data);
    } else {
      FoundComplete(b, e);
    }
  }

  /** The items of a run are those of its successful outcomes, and a run
      fails exactly when one of its outcomes does. */
  lemma {:induction false} GatherMembers(outs: seq<Result<Option<Item>, Failure>>, it: Item)
    ensures Gather(outs).Err? <==> exists j :: 0 <= j < |outs| && outs[j].Err?
    ensures Gather(outs).Ok? ==>
              (it in Gather(outs).value <==> exists j :: 0 <= j < |outs| && outs[j] == Ok(Some(it)))
    decreases |outs|
  {
    if |outs| > 0 {
      var init := outs[..|outs| - 1];
      GatherMembers(init, it);
      forall j | 0 <= j < |init| ensures init[j] == outs[j] { }
    }
  }

  lemma {:induction false} ConcatMembers(outs: seq<Result<seq<Item>, Failure>>, it: Item)
    ensures Concat(outs).Err? <==> exists i :: 0 <= i < |outs| && outs[i].Err?
    ensures Concat(outs).Ok? ==>
              (it in Concat(outs).value <==> exists i :: 0 <= i < |outs| && outs[i].Ok? && it in outs[i].value)
    decreases |outs|
  {
    if |outs| > 0 {
      var init := outs[..|outs| - 1];
      ConcatMembers(init, it);
      forall i | 0 <= i < |init| ensures init[i] == outs[i] { }
    }
  }

  /** The registry holds exactly the items of the entries of the visible
      category directories. */
  lemma RegistryItems(src: MetadataSource, components: Option<Node<ParseResult>>, it: Item)
    requires RegistryOf(src, components).Ok?
    ensures src.Entries? && components.Some? && components.value.Dir?
    ensures var items := RegistryOf(src, components).value.items;
            var cats := components.value.children;
            it in items <==>
              exists c, e :: c in cats && OpenCategory(c) && c.Dir? && e in c.children
                && EntryOutcome(TitleMap(src.items), c.name, e) == Ok(Some(it))
  {
    var titles := TitleMap(src.items);
    var cats := components.value.children;
    var collected := Collected(titles, cats).value;
    var items := RegistryOf(src, components).value.items;
    assert multiset(items) == multiset(collected);
    assert it in items <==> it in collected by {
      assert it in items <==> it in multiset(items);
      assert it in collected <==> it in multiset(collected);
    }
    CollectedMember(titles, cats, it);
  }

  /** An item collected from the categories is an item of an entry of a
      visible category. */
  lemma CollectedMember(titles: map<string, string>, cats: seq<Node<ParseResult>>, it: Item)
    requires Collected(titles, cats).Ok?
    ensures it in Collected(titles, cats).value <==>
              exists c, e :: c in cats && OpenCategory(c) && c.Dir? && e in c.children
                && EntryOutcome(titles, c.name, e) == Ok(Some(it))
  {
    var couts := CategoryOutcomes(titles, cats);
    ConcatMembers(couts, it);
    if it in Collected(titles, cats).value {
      var i :| 0 <= i < |couts| && couts[i].Ok? && it in couts[i].value;
      CategoryMember(titles, cats[i], it);
      assert cats[i] in cats;
    }
    if exists c, e :: c in cats && OpenCategory(c) && c.Dir? && e in c.children
                && EntryOutcome(titles, c.name, e) == Ok(Some(it)) {
      var c, e :| c in cats && OpenCategory(c) && c.Dir? && e in c.children
                && EntryOutcome(titles, c.name, e) == Ok(Some(it));
      var i :| 0 <= i < |cats| && cats[i] == c;
      assert !couts[i].Err?;
      CategoryMember(titles, c, it);
    }
  }

  /** An item of a category is an item of one of its entries. */
  lemma CategoryMember(titles: map<string, string>, c: Node<ParseResult>, it: Item)
    requires CategoryOutcome(titles, c).Ok?
    ensures it in CategoryOutcome(titles, c).value <==>
            OpenCategory(c) && c.Dir? && exists e :: e in c.children && EntryOutcome(titles, c.name, e) == Ok(Some(it))
  {
    if OpenCategory(c) && c.Dir? {
      var outs := EntryOutcomes(titles, c.name, c.children);
      GatherMembers(outs, it);
      if exists e :: e in c.children && EntryOutcome(titles, c.name, e) == Ok(Some(it)) {
        var e :| e in c.children && EntryOutcome(titles, c.name, e) == Ok(Some(it));
        var j :| 0 <= j < |c.children| && c.children[j] == e;
        assert outs[j] == Ok(Some(it));
      }
      if it in CategoryOutcome(titles, c).value {
        var j :| 0 <= j < |outs| && outs[j] == Ok(Some(it));
        assert c.children[j] in c.children;
      }
    }
  }

  /** The items are ordered by name and are a permutation of the items in
      discovery order. */
  lemma RegistrySorted(src: MetadataSource, components: Option<Node<ParseResult>>)
    requires RegistryOf(src, components).Ok?
    ensures src.Entries? && components.Some? && components.value.Dir?
    ensures var items := RegistryOf(src, components).value.items;
            var cats := components.value.children;
            Collected(TitleMap(src.items), cats).Ok?
            && multiset(items) == multiset(Collected(TitleMap(src.items), cats).value)
            && forall i, j :: 0 <= i < j < |items| ==> !Less(items[j].name, items[i].name)
  {
    var items := RegistryOf(src, components).value.items;
    forall i, j | 0 <= i < j < |items| ensures !Less(items[j].name, items[i].name) {
      assert !Before(ItemRank, ItemName, items[j], items[i]);
    }
  }

  /** The registry document carries the fixed schema, name and homepage. */
  lemma RegistryHeader(src: MetadataSource, components: Option<Node<ParseResult>>)
    requires RegistryOf(src, components).Ok?
    ensures RegistryOf(src, components).value.schema == "https://ui.shadcn.com/schema/registry.json"
    ensures RegistryOf(src, components).value.name == "blocks"
    ensures RegistryOf(src, components).value.homepage == "https://blocks.so"
  {
  }

  /** A failed metadata import, or a value that is not an array, stops the run. */
  lemma MetadataFailureStops(src: MetadataSource, components: Option<Node<ParseResult>>)
    requires !src.Entries?
    ensures RegistryOf(src, components).Err? && RegistryOf(src, components).error.MetadataFailed?
  {
  }

  /** The run fails when a visible category directory cannot be listed, or an
      entry of one fails: the generator has no error handling per category or
      per block. */
  lemma CollectedFails(titles: map<string, string>, cats: seq<Node<ParseResult>>)
    ensures Collected(titles, cats).Err? <==>
            exists i :: 0 <= i < |cats| && CategoryOutcome(titles, cats[i]).Err?
  {
    var couts := CategoryOutcomes(titles, cats);
    ConcatMembers(couts, Item("", "", "", "", "", [], [], []));
    if exists i :: 0 <= i < |cats| && CategoryOutcome(titles, cats[i]).Err? {
      var i :| 0 <= i < |cats| && CategoryOutcome(titles, cats[i]).Err?;
      assert couts[i].Err?;
    }
  }

  /** A category fails when it is visible and unreadable, or when one of its
      entries fails. */
  lemma CategoryFails(titles: map<string, string>, c: Node<ParseResult>)
    ensures CategoryOutcome(titles, c).Err? <==>
            OpenCategory(c) && (c.LockedDir? || exists e :: e in c.children && EntryOutcome(titles, c.name, e).Err?)
  {
    if OpenCategory(c) && c.Dir? {
      var outs := EntryOutcomes(titles, c.name, c.children);
      GatherMembers(outs, Item("", "", "", "", "", [], [], []));
      if exists e :: e in c.children && EntryOutcome(titles, c.name, e).Err? {
        var e :| e in c.children && EntryOutcome(titles, c.name, e).Err?;
        var j :| 0 <= j < |c.children| && c.children[j] == e;
        assert outs[j].Err?;
      }
      if CategoryOutcome(titles, c).Err? {
        var j :| 0 <= j < |outs| && outs[j].Err?;
        assert c.children[j] in c.children;
      }
    }
  }
}
