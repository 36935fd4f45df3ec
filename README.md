# blocks.so content scripts and helpers, in Dafny

blocks.so is a catalogue of copy-and-paste UI blocks. This project models
the logic that turns the block sources into what the site and the
installation registry serve, and proves what that logic promises:

- **The registry generator** (`scripts/generate-registry.mjs`) walks
  `content/components/<category>/<block>` and emits one registry item per
  block. Each item has a title (from the block metadata, or derived from the
  id), a description, the sorted UI primitives and npm packages its files
  import, and its files with their install targets. The items are sorted by
  name. The model splits it into modules:
  - `RegistryTitle`: `formatTitle`;
  - `RegistryMetadata`: the id → name map;
  - `RegistryDeps`: import classification and the dependency sets;
  - `RegistryWalk`: `findTsxFiles`;
  - `Registry`: the block loop, item synthesis and the sort.
- **The content library** (`lib/blocks.ts`, module `BlocksLib`):
  - the front-matter parser of the Markdown sources;
  - the file tree shown for a directory block (folders first, then by name);
  - the selection of one category's blocks for its page.
- **The code-block editor** (`components/code-block-editor.tsx`, module
  `CodeBlockEditor`):
  - the depth-first searches for a file;
  - the initial and toggled set of expanded folders;
  - the flattening of the tree into sidebar rows with depth and visibility;
  - the language chosen from a file's extension.
- **The category list** (`content/blocks-categories.tsx`, module
  `BlocksCategories`): the per-category tally of the block metadata and its
  merge into the six preset categories.
- **The markdown generator** (`scripts/generate-markdown.ts`, module
  `GenerateMarkdown`). It rebuilds the sibling `markdown` folder of a
  components folder. Each category becomes a sub-folder in which every
  `.tsx` source is an `.mdx` file whose body is the trimmed source inside a
  ```` ```` ````tsx fence, and every other file, except `index.ts`, is copied
  as it is.
- **The block viewer** (`components/ui/block.tsx`, module `BlockView`):
  - `getCleanCode`, which takes such a fence off again;
  - the view/size toolbar state and the panel width it requests.

Shared modules:

- `Wrappers`: Option and Result.
- `Strings`:
  - prefix and suffix tests, `indexOf`, `split`/`join`, `trim`;
  - ASCII case mapping, backslash replacement, decimal rendering.
- `Ordering`:
  - the string order;
  - sets kept as strictly sorted sequences;
  - a stable sort by rank and key.
- `FsTree`: the directory tree seen through `readdir`.
- `Declarations`: the shared block and category records.

Modelling choices:

- **The file system.** The registry walk, the file tree and the block pages
  read a tree of named entries, in listing order. The entry kinds are a
  file, a directory, a directory whose listing throws, and anything else,
  such as a symbolic link. The markdown generator changes the disk in place.
  There it is a `Disk` object holding a map from paths to entries, and its
  methods are proved equal to ghost functions that state the result.
- **Parsing an import.** The ts-morph parse is the list of module
  specifiers of a file, or a parse failure.
- **Set-then-sort.** A JavaScript `Set` that is later spread and sorted is
  a strictly increasing sequence, and every `add` inserts into it.
- **String order.** `localeCompare` and the default `sort` are both the
  lexicographic order on code points.
- **Directory listings.** The markdown generator's listings come back
  sorted. Node.js reads directories through libuv's `scandir`, which sorts
  names byte-wise. This order decides what happens when `x.mdx` and `x.tsx`
  both exist: the `.tsx` file is written last and wins (`TsxCopied`).
- **Regular expressions.** Each pattern is written as an explicit search.
  - `/---\s*([\s\S]*?)\s*---/` runs from the leftmost `---` to the first
    `---` that does not overlap it. The captured group is the trimmed text
    between the two.
  - `/````(?:tsx|javascript|js|jsx|ts|[a-z]*)\n([\s\S]*?)````/g` has an
    alternation whose members are all runs of `[a-z]`. It therefore matches
    four backticks, the longest run of lower-case letters, a line break, and
    the shortest text up to the next four backticks. The replacement scans
    from left to right and resumes after each match.

Three behaviours of the code shape the model:

- **No per-block error handling in the registry generator.** There is no
  `try` around a block, so a block directory, or a directory below it, that
  cannot be listed aborts the whole run with exit status 1
  (`CategoryFails`, `CollectedFails`).
- **`findTsxFiles` keeps hidden and `index.*` files.** Only the top-level
  block loop skips them.
- **Plain prefix tests.** The `react` and `next` checks also ignore
  packages such as `react-hook-form` and `next-themes`
  (`FrameworkPrefixExamples`).

Two consequences of the code are proved outright:

- **A folder named `markdown` is its own output.** Given such a folder, the
  markdown generator deletes it and leaves an empty folder in its place
  (`ScriptOnOwnOutput`). Run on the working directory itself, the sibling
  `markdown` lies inside the folder being listed, so the category loop
  copies it as well. `ScriptMirrors` therefore covers only a folder other
  than the working directory.
- **The front-matter pattern is not anchored.** It matches the first two
  `---` anywhere in the text, not only at its start (`FrontmatterFirstBlock`).

## Model

| member | source | states |
|---|---|---|
| `RegistryTitle.Capitalize` | scripts/generate-registry.mjs:16 | same length; the first character upper-cased, the rest unchanged |
| `RegistryTitle.CapitalizeAll` | scripts/generate-registry.mjs:14-17 | the `map`: one capitalised word per segment, in order |
| `RegistryTitle.FormatTitleAt` | scripts/generate-registry.mjs:13-18 | the title has the id's length; each `-` becomes a space, the first character of each segment is upper-cased, every other character is kept |
| `RegistryTitle.FormatTitleChars` | scripts/generate-registry.mjs:13-18 | split/map/join equals the one-pass character description |
| `RegistryTitle.FormatTitleWords` | scripts/generate-registry.mjs:14-17 | the number of words is the number of hyphens plus one |
| `RegistryTitle.FormatTitleTwoWords` | scripts/generate-registry.mjs:13-18 | `a-b` (no hyphen in `a` or `b`) becomes `Capitalize(a) + " " + Capitalize(b)`, as `fancy-card` becomes `Fancy Card` |
| `RegistryMetadata.TitleMap` | scripts/generate-registry.mjs:32-43 | every key and every value of the map is non-empty |
| `RegistryMetadata.TitleMapKeys` | scripts/generate-registry.mjs:33-41 | an id is a key exactly when some entry with a truthy id and name carries it |
| `RegistryMetadata.TitleMapLastWins` | scripts/generate-registry.mjs:35 | the name stored for an id is that of the last usable entry with that id |
| `RegistryMetadata.LoadMetadata` | scripts/generate-registry.mjs:20-54 | a failed import and a non-array are the two fatal errors; otherwise the result is the map of the entries |
| `RegistryDeps.Classify` | scripts/generate-registry.mjs:66-79 | a specifier is a package exactly when none of the five prefix tests holds, and then it is kept verbatim; only `@/components/ui/` specifiers are UI primitives |
| `RegistryDeps.ClassifyUiPrimitive` | scripts/generate-registry.mjs:66-70 | a UI import names component `n` exactly when `n` is its non-empty, slash-free last segment |
| `RegistryDeps.UiLastSlash` | scripts/generate-registry.mjs:67 | `split("/").pop()` is the text after the last slash |
| `RegistryDeps.FrameworkPrefixExamples` | scripts/generate-registry.mjs:74-75 | `react-hook-form` and `next-themes` are ignored, because the checks are prefix tests |
| `RegistryDeps.ClassifyExamples` | scripts/generate-registry.mjs:66-78 | `@/lib/utils` is ignored, `lucide-react` is a package, and a UI import gives its last segment |
| `RegistryDeps.DepsOf` | scripts/generate-registry.mjs:63-80 | both sets stay strictly sorted, so they are free of duplicates |
| `RegistryDeps.FileDeps` | scripts/generate-registry.mjs:56-89 | the returned lists are strictly sorted; a file that fails to parse contributes nothing |
| `RegistryDeps.DepsOfRegistry` | scripts/generate-registry.mjs:66-70 | a registry dependency is exactly the component name of some UI import of the file |
| `RegistryDeps.DepsOfPackages` | scripts/generate-registry.mjs:71-78 | a dependency is exactly a specifier of the file classified as a package |
| `RegistryDeps.ExtractDependencies` | scripts/generate-registry.mjs:56-89 | the `forEach` over the imports yields `FileDeps` of the file |
| `RegistryDeps.AddImport` | scripts/generate-registry.mjs:69-78 | adding a classified specifier keeps both sets strictly sorted |
| `RegistryDeps.MergeDeps` | scripts/generate-registry.mjs:181-182 | merging a file's lists into the block's sets keeps them strictly sorted |
| `RegistryDeps.BlockDeps` | scripts/generate-registry.mjs:201-205 | the block's sets are strictly sorted |
| `RegistryDeps.BlockRegistryDeps` | scripts/generate-registry.mjs:201-224 | a block's registry dependencies are exactly the union of its files' |
| `RegistryDeps.BlockPackages` | scripts/generate-registry.mjs:201-225 | a block's packages are exactly the union of its files' |
| `RegistryWalk.TargetPathFlat` | scripts/generate-registry.mjs:98-100 | the target is `/components/blocks/<block>/` plus the relative path, with backslashes made slashes |
| `RegistryWalk.WalkErrorSticks` | scripts/generate-registry.mjs:93 | once a listing throws, the later entries change nothing: the walk has failed |
| `RegistryWalk.FindTsxFiles` | scripts/generate-registry.mjs:91-122 | the loop with its recursion computes the walk `WalkDir` |
| `RegistryWalk.WalkDirFinds` | scripts/generate-registry.mjs:91-122 | the walk reports a path exactly when it leads to a `.tsx` file at any depth, with that file's parse result; each report carries the repository path and target of its path |
| `RegistryWalk.WalkDirCount` | scripts/generate-registry.mjs:108-119 | one report per `.tsx` file below the directory and no more |
| `Registry.EntryOutcomes` | scripts/generate-registry.mjs:144-229 | one outcome per entry of a category, in listing order |
| `Registry.FilesOf` | scripts/generate-registry.mjs:207-211 | one registry file per found file, in discovery order |
| `Registry.BuildBlock` | scripts/generate-registry.mjs:144-228 | the loop body for one entry computes its outcome |
| `Registry.BuildDirectoryBlock` | scripts/generate-registry.mjs:189-228 | the file loop of a directory block computes its outcome |
| `Registry.BuildCategory` | scripts/generate-registry.mjs:136-231 | the entry loop of one category computes its outcome |
| `Registry.GenerateRegistry` | scripts/generate-registry.mjs:124-248 | the whole generator computes `RegistryOf` |
| `Registry.GatherFailureSticks` | scripts/generate-registry.mjs:244-247 | after a failing entry, the run's result is that failure |
| `Registry.ItemShape` | scripts/generate-registry.mjs:154-228 | every item is a `registry:block` by the site's author, with at least one file, its title, the description `"A " + lower(title) + " block."` and sorted dependency lists |
| `Registry.TitleFromMetadata` | scripts/generate-registry.mjs:154 | the title is the name of the last usable metadata entry with the id |
| `Registry.TitleGenerated` | scripts/generate-registry.mjs:155-160 | without a usable entry, the title is `formatTitle(id)` |
| `Registry.SkippedEntries` | scripts/generate-registry.mjs:145-147 | dot-files, `index.*` entries and non-directories not ending in `.tsx` give no item |
| `Registry.SingleFileBlock` | scripts/generate-registry.mjs:149-188 | a `.tsx` file is an item named after the file without `.tsx`; its one file has path `content/components/<category>/<name>` and target `/components/blocks/<name>`; its dependencies are the file's |
| `Registry.FoundSound` | scripts/generate-registry.mjs:195-212 | every found file is a `.tsx` file below the block directory, with the paths of its relative path |
| `Registry.FoundComplete` | scripts/generate-registry.mjs:195-212 | every `.tsx` file below the block directory is found |
| `Registry.DirectoryItemOf` | scripts/generate-registry.mjs:189-228 | a directory block's item lists the found files and the union of their dependencies |
| `Registry.DirectoryBlockFilesSound` | scripts/generate-registry.mjs:195-212 | each listed file is the entry of a `.tsx` file below the directory |
| `Registry.DirectoryBlockFilesComplete` | scripts/generate-registry.mjs:195-212 | every `.tsx` file below the directory is listed |
| `Registry.DirectoryBlockRegistryDeps` | scripts/generate-registry.mjs:201-224 | a directory block depends on exactly the UI primitives that some `.tsx` file below it imports |
| `Registry.DirectoryBlockPackages` | scripts/generate-registry.mjs:201-225 | a directory block depends on exactly the packages that some `.tsx` file below it imports |
| `Registry.EmptyDirectoryBlock` | scripts/generate-registry.mjs:217-228 | a directory gives no item exactly when it has no `.tsx` file below it |
| `Registry.GatherMembers` | scripts/generate-registry.mjs:144-229 | the block loop fails exactly when some entry fails; otherwise its items are those of the entries |
| `Registry.ConcatMembers` | scripts/generate-registry.mjs:135-231 | the category loop fails exactly when some category fails; otherwise its items are those of the categories |
| `Registry.CollectedMember` | scripts/generate-registry.mjs:135-146 | an item is collected exactly when it is the item of an entry of a visible category directory |
| `Registry.CategoryMember` | scripts/generate-registry.mjs:136-146 | a category's items are those of its entries; a hidden category or a non-directory has none |
| `Registry.RegistryItems` | scripts/generate-registry.mjs:135-237 | the registry holds exactly the items of the entries of the visible category directories |
| `Registry.RegistrySorted` | scripts/generate-registry.mjs:237 | the items are a permutation of the discovered items, ordered by name |
| `Registry.RegistryHeader` | scripts/generate-registry.mjs:233-238 | the document has the fixed schema, name and homepage |
| `Registry.MetadataFailureStops` | scripts/generate-registry.mjs:125 | a metadata failure stops the run |
| `Registry.CollectedFails` | scripts/generate-registry.mjs:130-247 | the run fails exactly when some category fails |
| `Registry.CategoryFails` | scripts/generate-registry.mjs:136-247 | a category fails exactly when it is visible and unreadable, or one of its entries fails |
| `BlocksLib.FenceMatch` | lib/blocks.ts:16-17 | a match has two non-overlapping fences within the text |
| `BlocksLib.FenceMatchFound` | lib/blocks.ts:16-17 | the match runs from the leftmost `---` to the first `---` that does not overlap it |
| `BlocksLib.FenceMatchNone` | lib/blocks.ts:16-19 | there is no match exactly when no two fences lie apart without overlapping |
| `BlocksLib.FenceMatchAt` | lib/blocks.ts:16-17 | the leftmost fence and the first fence after it fix the match |
| `BlocksLib.FrontmatterWithoutBlock` | lib/blocks.ts:19-24 | without a match, the metadata is empty and the content is the trimmed text |
| `BlocksLib.FrontmatterFirstBlock` | lib/blocks.ts:26-41 | with a match, only that match is cut out and the rest is trimmed; the block is read line by line |
| `BlocksLib.WithoutMatch` | lib/blocks.ts:27 | cutting out the match shortens the text by exactly its length |
| `BlocksLib.BlockLinesTrimmed` | lib/blocks.ts:28 | trimming the captured group a second time changes nothing |
| `BlocksLib.LineSplitJoin` | lib/blocks.ts:32-33 | `[key, ...rest] = line.split(": ")` gives the text before the first `": "`, and rest re-joined with `": "` is the text after it |
| `BlocksLib.FieldOfLine` | lib/blocks.ts:32-35 | `k: v`, with no `": "` in `k`, gives key `trim(k)` and value `unquote(trim(v))`, so `title: a: b` has value `a: b` |
| `BlocksLib.KeyTrimmed` | lib/blocks.ts:35 | every key is trimmed |
| `BlocksLib.UnquoteOnePair` | lib/blocks.ts:34 | exactly one surrounding pair of quotes comes off a one-line value |
| `BlocksLib.UnquoteUnquoted` | lib/blocks.ts:34 | a value that does not start with a quote is kept |
| `BlocksLib.LineFields` | lib/blocks.ts:31-36 | one parsed field per line, in order |
| `BlocksLib.MetadataHasKey` | lib/blocks.ts:31-35 | every line's key is present in the metadata |
| `BlocksLib.MetadataKeyLine` | lib/blocks.ts:31-35 | every key present comes from some line and is trimmed |
| `BlocksLib.MetadataLastWins` | lib/blocks.ts:35 | a repeated key keeps the value of its last line |
| `BlocksLib.ReadLine` | lib/blocks.ts:32-35 | one turn of the `forEach` gives the parsed field of the line |
| `BlocksLib.FillMetadata` | lib/blocks.ts:31-36 | the `forEach` builds the metadata of the lines |
| `BlocksLib.ParseFrontmatter` | lib/blocks.ts:15-42 | the parser computes `FrontmatterOf` |
| `BlocksLib.FileText` | lib/blocks.ts:117-133 | a file's content is the text read, or `// Error reading file: ` followed by the error message |
| `BlocksLib.EntryItemCases` | lib/blocks.ts:101-135 | an entry gives an item exactly when it is not hidden and is a file or a directory; a folder gets its subtree, a file its text, and the path is relative to the root |
| `BlocksLib.LockedDirEmpty` | lib/blocks.ts:109-138 | a directory whose listing fails is shown as a folder without children |
| `BlocksLib.UnreadableFileListed` | lib/blocks.ts:125-133 | an unreadable file is still listed, with the error line as its content |
| `BlocksLib.FileTreeEmpty` | lib/blocks.ts:95-98 | a missing path or a non-directory gives `[]` |
| `BlocksLib.TreeShaped` | lib/blocks.ts:89-146 | at every depth the items are sorted folders first and by name, carry no hidden names, and have paths relative to the root |
| `BlocksLib.FoldersFirst` | lib/blocks.ts:140-144 | in a sorted level, every folder comes before every file, and names ascend within a group |
| `BlocksLib.TreeMembers` | lib/blocks.ts:101-145 | the items of a directory are exactly those its entries contribute |
| `BlocksLib.GenerateFileTree` | lib/blocks.ts:89-146 | the loop with its recursion and the sort computes `Tree` |
| `BlocksLib.GenerateFileTreeAt` | lib/blocks.ts:89-98 | the call on a path computes the tree of what is found there |
| `BlocksLib.BaseName` | lib/blocks.ts:57 | `basename(name, ext)` gives `""` for a name equal to `ext`, drops a proper suffix `ext`, and otherwise keeps the name |
| `BlocksLib.MdxEntries` | lib/blocks.ts:44-46 | the kept entries are exactly those whose extension is `.mdx` |
| `BlocksLib.ReadDoc` | lib/blocks.ts:48-63 | a readable file gives its parsed document, named after the file without its extension |
| `BlocksLib.MapAll` | lib/blocks.ts:55-63 | the `map` succeeds exactly when every call does, and then gives the results in order |
| `BlocksLib.FindDoc` | lib/blocks.ts:195-197 | `find` returns the first document with that name: no earlier document has it; none when there is none |
| `BlocksLib.FindCategory` | lib/blocks.ts:164-166 | `find` returns a category with that id, or none when there is none |
| `BlocksLib.CodeSource` | lib/blocks.ts:195-211 | a file block has a code source exactly when its document exists with non-empty content |
| `BlocksLib.ProcessedFields` | lib/blocks.ts:172-213 | a processed block copies the name, id, category, iframe height and type; a directory block has a file tree and no source; a file block has its source and no tree |
| `BlocksLib.Outcomes` | lib/blocks.ts:169-217 | one outcome per metadata block |
| `BlocksLib.GetBlocksOf` | lib/blocks.ts:163-227 | an unknown category gives `notFound()`; otherwise the page has the category's name |
| `BlocksLib.BlocksDataOrder` | lib/blocks.ts:168-217 | the page lists, in metadata order and once each, exactly the blocks of the category whose processing does not throw |
| `BlocksLib.GetBlocks` | lib/blocks.ts:163-227 | the loop computes `GetBlocksOf` |
| `CodeBlockEditor.FirstWanted` | components/code-block-editor.tsx:110-132 | the first wanted item of a list: none when no item is wanted |
| `CodeBlockEditor.FindFirstFile` | components/code-block-editor.tsx:110-120 | the search returns the first file of the tree in depth-first pre-order, or none |
| `CodeBlockEditor.FindFileByPath` | components/code-block-editor.tsx:122-132 | the search returns the first file with that path in pre-order, or none |
| `CodeBlockEditor.FoundInPrefix` | components/code-block-editor.tsx:111-118 | a match among the first items is the result for the whole list: the early return |
| `CodeBlockEditor.FileByPathFound` | components/code-block-editor.tsx:122-132 | the result is a file with that path (never a folder), and none exactly when no file has that path |
| `CodeBlockEditor.AddFolderPaths` | components/code-block-editor.tsx:68-75 | the set gains exactly the paths of the folders at every depth |
| `CodeBlockEditor.InitialState` | components/code-block-editor.tsx:62-79 | the active file is the path of the first file (none when there is no file or its path is empty); every folder is expanded |
| `CodeBlockEditor.Toggle` | components/code-block-editor.tsx:81-91 | only the given path changes membership |
| `CodeBlockEditor.ToggleTwice` | components/code-block-editor.tsx:81-91 | toggling twice restores the set |
| `CodeBlockEditor.LangFor` | components/code-block-editor.tsx:321-327 | the language is one of the six the highlighter loads |
| `CodeBlockEditor.LangOfExtension` | components/code-block-editor.tsx:320-327 | the language depends only on the text after the last dot |
| `CodeBlockEditor.LangWithoutDot` | components/code-block-editor.tsx:320 | a path without a dot is its own extension |
| `CodeBlockEditor.VisitsPlaced` | components/code-block-editor.tsx:199-221 | each visited item gets depth = the number of folders above it; it is visible exactly when all those folders are expanded and it is a folder or a file whose parent path is expanded (or has no `/`) |
| `CodeBlockEditor.PlacementsPreorder` | components/code-block-editor.tsx:204-219 | the items are visited in pre-order |
| `CodeBlockEditor.SetAllDistinct` | components/code-block-editor.tsx:214 | the map holds each path once |
| `CodeBlockEditor.SetAllCovers` | components/code-block-editor.tsx:214 | every path set is in the map |
| `CodeBlockEditor.SetAllLastWins` | components/code-block-editor.tsx:214 | each value is the last row set for its path |
| `CodeBlockEditor.SetAllOrder` | components/code-block-editor.tsx:214 | the map lists paths in the order they were first set |
| `CodeBlockEditor.VisibleRows` | components/code-block-editor.tsx:225 | the filter keeps exactly the visible rows |
| `CodeBlockEditor.VisibleOrder` | components/code-block-editor.tsx:225 | the filter keeps the first-set order |
| `CodeBlockEditor.AddToMap` | components/code-block-editor.tsx:199-221 | the recursive `forEach` sets the visit rows in order |
| `CodeBlockEditor.RenderableTree` | components/code-block-editor.tsx:193-226 | the memo computes `Rendered` |
| `CodeBlockEditor.RenderedRows` | components/code-block-editor.tsx:193-226 | every rendered row is visible and is the row of a placed item; paths are distinct; rows keep the first-set order |
| `BlocksCategories.CountOf` | content/blocks-categories.tsx:16-22 | the reference count of blocks in a category, at most the number of blocks |
| `BlocksCategories.CountByCategory` | content/blocks-categories.tsx:16-22 | the `reduce` computes the tally |
| `BlocksCategories.TallyCount` | content/blocks-categories.tsx:16-22 | each entry is the number of the category's blocks, and a category without blocks has no entry |
| `BlocksCategories.TallyKeys` | content/blocks-categories.tsx:16-22 | every key is the category of some block |
| `BlocksCategories.TallySum` | content/blocks-categories.tsx:16-22 | over distinct ids covering every category, the counts add up to the number of blocks |
| `BlocksCategories.CountText` | content/blocks-categories.tsx:31 | the count is the decimal text of the tally and is `"0"` exactly for a zero count |
| `BlocksCategories.UpdateCategoryCounts` | content/blocks-categories.tsx:24-33 | same length and order; every other field unchanged; each count parses to its tally |
| `BlocksCategories.InitializeAndUpdateCategories` | content/blocks-categories.tsx:35-38 | one entry per preset category, with the preset ids in order |
| `BlocksCategories.CategoryCounts` | content/blocks-categories.tsx:35-38 | each listed category shows the decimal number of blocks carrying its id |
| `BlocksCategories.CategoryIds` | content/blocks-categories.tsx:40-76 | six categories, from `dialogs` to `stats` |
| `BlocksCategories.UnlistedCategory` | content/blocks-categories.tsx:35-38 | a block of an unlisted category changes nothing in the result |
| `GenerateMarkdown.Wrap` | scripts/generate-markdown.ts:7-9 | the result is the ```` ````tsx\n ```` opening, then the trimmed content, then the `\n````` closing |
| `GenerateMarkdown.WrapTrimmed` | scripts/generate-markdown.ts:8 | wrapping ignores surrounding whitespace |
| `GenerateMarkdown.Listing` | scripts/generate-markdown.ts:29 | `readdirSync` gives the names inside a path, sorted and each once |
| `GenerateMarkdown.DeleteTree` | scripts/generate-markdown.ts:11-23 | nothing remains at or below the path, and everything else is unchanged |
| `GenerateMarkdown.NothingUnderMissing` | scripts/generate-markdown.ts:12 | deleting a missing path changes nothing |
| `GenerateMarkdown.DeleteAllChildren` | scripts/generate-markdown.ts:13-21 | deleting each child's tree and then the directory deletes the directory's tree |
| `GenerateMarkdown.Disk.DeleteDirectoryRecursive` | scripts/generate-markdown.ts:11-23 | a missing path stays missing, a directory goes with its tree, and any other entry makes the listing throw |
| `GenerateMarkdown.MakeDirsSpec` | scripts/generate-markdown.ts:26-28 | recursive `mkdir` fails exactly when some prefix of the path is a non-directory; otherwise it adds the missing directories |
| `GenerateMarkdown.CopyFresh` | scripts/generate-markdown.ts:25-50 | copying into a directory of files never fails and writes each copied name's output at its target |
| `GenerateMarkdown.ExpectedTarget` | scripts/generate-markdown.ts:36-47 | each target holds the output of the last listed name copied to it |
| `GenerateMarkdown.ExpectedElsewhere` | scripts/generate-markdown.ts:25-50 | paths not directly inside the destination are left alone |
| `GenerateMarkdown.TsxCopied` | scripts/generate-markdown.ts:41-44 | a `.tsx` file becomes `<basename>.mdx` holding its wrapped source |
| `GenerateMarkdown.PlainCopied` | scripts/generate-markdown.ts:45-47 | any other file keeps its name and content, unless a `.tsx` file targets that name |
| `GenerateMarkdown.TargetCollision` | scripts/generate-markdown.ts:42-46 | the only two names with the same target are `<b>.mdx` and `<b>.tsx` |
| `GenerateMarkdown.TsxTargetsDiffer` | scripts/generate-markdown.ts:42 | two different `.tsx` names have different targets |
| `GenerateMarkdown.MdxBeforeTsx` | scripts/generate-markdown.ts:29 | `<b>.mdx` is listed before `<b>.tsx` |
| `GenerateMarkdown.LastForNone` | scripts/generate-markdown.ts:32-34 | nothing is written at a name that no copied file targets |
| `GenerateMarkdown.Disk.CopyDirectoryOnlyFiles` | scripts/generate-markdown.ts:25-50 | the copy computes `CopyOutcome` |
| `GenerateMarkdown.OutputFolder` | scripts/generate-markdown.ts:59-60 | the output is the sibling `markdown` of the folder |
| `GenerateMarkdown.CategoriesMirrored` | scripts/generate-markdown.ts:86-94 | over a sorted listing the category loop never fails, and it builds the mirror of the categories listed so far |
| `GenerateMarkdown.ScriptMirrors` | scripts/generate-markdown.ts:52-94 | on a folder other than the working directory, not named `markdown`, whose sibling `markdown` is missing or a directory, the script succeeds. Nothing outside the output changes. The output holds one folder per category directory, and each holds the copy of that category |
| `GenerateMarkdown.ScriptOnOwnOutput` | scripts/generate-markdown.ts:58-94 | a folder named `markdown` is deleted and left empty |
| `GenerateMarkdown.ScriptWrapsTsx` | scripts/generate-markdown.ts:41-44 | a category's `.tsx` source lands in its output folder as the wrapped `.mdx` |
| `GenerateMarkdown.ScriptCopiesPlain` | scripts/generate-markdown.ts:45-47 | any other category file lands under its own name with its own content |
| `GenerateMarkdown.ScriptSkipsIndex` | scripts/generate-markdown.ts:32-34 | no output folder gets an `index.ts` |
| `GenerateMarkdown.Disk.ReadDir` | scripts/generate-markdown.ts:29 | the listing method returns `Listing` |
| `GenerateMarkdown.Disk.CopyCategories` | scripts/generate-markdown.ts:86-94 | the category loop computes `CategorySteps` |
| `GenerateMarkdown.Disk.GenerateMarkdown` | scripts/generate-markdown.ts:52-94 | the script computes `ScriptOutcome` |
| `BlockView.MatchAt` | components/ui/block.tsx:72 | a match lies within the text, and its body follows the opening |
| `BlockView.MatchAtSpec` | components/ui/block.tsx:72 | `MatchAt` finds the fence pattern's match at a position exactly when there is one, and that match is unique |
| `BlockView.StripNoMatch` | components/ui/block.tsx:71-74 | where the pattern matches nowhere, the replace changes nothing |
| `BlockView.GetCleanCode` | components/ui/block.tsx:67-78 | a non-string gives `""`; a string not starting with four backticks is returned unchanged |
| `BlockView.StripFenced` | components/ui/block.tsx:71-74 | the replace on a `tsx` fence around a text without four backticks gives that text plus the line break |
| `BlockView.CleanWrapped` | components/ui/block.tsx:71-74 | if the trimmed source holds no four backticks, `getCleanCode(wrapContentWithCodeBlock(c))` is `trim(c) + "\n"` |
| `BlockView.IframeHeight` | components/ui/block.tsx:63 | the meta's iframe height, or `"930px"` |
| `BlockView.ResizeFor` | components/ui/block.tsx:91-103 | desktop, tablet and mobile resize to 100, 60 and 30; other values issue no resize |
| `BlockView.ResizeNarrower` | components/ui/block.tsx:94-101 | a smaller device gets a narrower panel |
| `BlockView.BlockViewState.constructor` | components/ui/block.tsx:57-60 | the view starts on preview at desktop size |
| `BlockView.BlockViewState.HandleViewChange` | components/ui/block.tsx:80-82 | the view becomes the value and the size stays |
| `BlockView.BlockViewState.HandleSizeChange` | components/ui/block.tsx:84-105 | an empty value changes nothing; any other value becomes the size and keeps the view, and resizes the panel when it is mounted |

## Left out

- Rendering: React components, JSX, hooks and context, the tabs, dialog, sidebar and resizable panels, and the iframe.
- The copy button, the clipboard, the `setTimeout` resets, and the click handler that selects a file or toggles a folder.
- The shiki highlighter and `codeToHtml`: they are asynchronous code of a foreign library.
- The ts-morph parse: each file is given as its list of module specifiers, or as a parse failure.
- The dynamic `import()` of the metadata module: it is given as a list, an import failure, or a value that is not an array.
- Console output and the warnings logged along the way.
- Process exit codes: modelled as error results.
- `fs.writeFile` of `registry.json` and `JSON.stringify`: the model ends with the registry value.
- `process.cwd`, `path.resolve` and `path.join` normalisation (`..`, `.`, doubled separators): paths are sequences of plain names.
- Symbolic links: they are entries that are neither files nor directories. `lstat` in the markdown generator is not told apart from `stat`.
- The markdown generator's temporary directory and its `preserveDirs` copies: `preserveDirs` is the empty list, so both loops do nothing. The `mkdtemp` and the asynchronous `fs.rm` of that directory touch only the system temporary directory, which is outside the model.
- `initializeAndUpdateCategories` reads the imported block metadata; the model takes the block list as a parameter.
- `getBlocks` reads the process's content directory; the model takes the listing of `content` as a parameter, and `notFound()` is `None`.
- Locale-sensitive comparison: `localeCompare` is the code-point order, the same order as the default `sort`.
- JavaScript strings are UTF-16; the model's strings are sequences of code points, and the sort orders agree only on the Basic Multilingual Plane.
- `toUpperCase` and `toLowerCase` map only ASCII letters.
- The general regular-expression engine: only the two fence patterns, the quote pattern and the backslash replacement are written out.
- `Object.entries` and `Map` on keys such as `__proto__`: every string is an ordinary key.
- `GenerateMarkdown.Disk.GenerateMarkdown`: it requires the disk to be well formed, meaning every entry sits in a directory. This is a condition of the model's map, not a promise of the script.
- `GenerateMarkdown.Disk.DeleteDirectoryRecursive`: it takes a ghost depth bound, which only serves the termination argument.
- Failures of `mkdirSync`, `writeFileSync` and `readFileSync` other than a missing or non-directory parent: permissions and full disks are not modelled.
