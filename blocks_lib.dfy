/**
 * The content helpers of `lib/blocks.ts`: the front-matter parser of the
 * Markdown sources, the file tree shown for a directory block, and the
 * selection of one category's blocks for its page.
 */
module BlocksLib {
  import opened Wrappers
  import opened Strings
  import opened Ordering
  import opened FsTree
  import opened Declarations

  // ---------------------------------------------------------------------------
  // parseFrontmatter

  const Fence: string := "---"

  /** Where `/---\s*([\s\S]*?)\s*---/` matches: from the first fence to the
      first fence that starts after it ends. Whitespace holds no `-`, so the
      spaces the pattern skips never hide a fence, and the lazy group stops at
      the first closing fence. */
  function FenceMatch(s: string): (r: Option<(nat, nat)>)
    ensures r.Some? ==> r.value.0 + 3 <= r.value.1 && r.value.1 + 3 <= |s|
  {
    match IndexOf(s, Fence, 0)
    case None => None
    case Some(i) =>
      match IndexOf(s, Fence, i + 3)
      case None => None
      case Some(j) => Some((i, j))
  }

  /** The match runs from the leftmost fence to the first fence that does not
      overlap it. */
  lemma FenceMatchFound(s: string)
    requires FenceMatch(s).Some?
    ensures OccursAt(s, Fence, FenceMatch(s).value.0) && OccursAt(s, Fence, FenceMatch(s).value.1)
    ensures forall k: nat :: k < FenceMatch(s).value.0 ==> !OccursAt(s, Fence, k)
    ensures forall k: nat :: FenceMatch(s).value.0 + 3 <= k < FenceMatch(s).value.1 ==> !OccursAt(s, Fence, k)
  {
    IndexOfSpec(s, Fence, 0);
    IndexOfSpec(s, Fence, IndexOf(s, Fence, 0).value + 3);
  }

  /** There is no match exactly when no two fences lie apart without overlapping. */
  lemma FenceMatchNone(s: string)
    ensures FenceMatch(s).None? <==>
            forall i, j :: OccursAt(s, Fence, i) && OccursAt(s, Fence, j) ==> j < i + 3
  {
    IndexOfSpec(s, Fence, 0);
    if IndexOf(s, Fence, 0).Some? {
      var i := IndexOf(s, Fence, 0).value;
      IndexOfSpec(s, Fence, i + 3);
      if FenceMatch(s).Some? {
        var j := FenceMatch(s).value.1;
        assert OccursAt(s, Fence, i) && OccursAt(s, Fence, j) && !(j < i + 3);
      }
    }
  }

  /** One line of the front matter after it is split at its first `": "`. */
  datatype Field = Field(key: string, value: string)

  /** The metadata read from a document and the text after the front matter. */
  datatype Frontmatter = Frontmatter(metadata: map<string, string>, content: string)

  /** The characters the regex `.` does not match. */
  predicate LineBreak(c: char) {
    c == '\n' || c == '\r' || c == '\U{2028}' || c == '\U{2029}'
  }

  predicate NoLineBreak(s: string) {
    |s| == 0 || (!LineBreak(s[0]) && NoLineBreak(s[1..]))
  }

  predicate IsQuote(c: char) {
    c == '\'' || c == '"'
  }

  /** A value `/^['"](.*)['"]$/` matches: a quote at each end (not necessarily
      the same one) and no line break between them. */
  predicate Quoted(v: string) {
    |v| >= 2 && IsQuote(v[0]) && IsQuote(v[|v| - 1]) && NoLineBreak(v[1..|v| - 1])
  }

  /** `value.replace(/^['"](.*)['"]$/, "$1")`. */
  function Unquote(v: string): string {
    if Quoted(v) then v[1..|v| - 1] else v
  }

  /** Only one pair of quotes comes off, whatever the text between them holds. */
  lemma UnquoteOnePair(a: char, x: string, b: char)
    requires IsQuote(a) && IsQuote(b) && NoLineBreak(x)
    ensures Unquote([a] + x + [b]) == x
  {
    var v := [a] + x + [b];
    assert v[1..|v| - 1] == x;
  }

  /** `NoLineBreak` holds exactly of the strings without a line break. */
  lemma {:induction false} NoLineBreakAt(s: string)
    ensures NoLineBreak(s) <==> forall i :: 0 <= i < |s| ==> !LineBreak(s[i])
    decreases |s|
  {
    if |s| > 0 {
      NoLineBreakAt(s[1..]);
      assert forall i :: 0 < i < |s| ==> s[1..][i - 1] == s[i];
    }
  }

  /** A value that does not start with a quote is kept as it is. */
  lemma UnquoteUnquoted(v: string)
    requires v == [] || !IsQuote(v[0])
    ensures Unquote(v) == v
  {
  }

  /** The text of a line before its first `": "`, or the whole line. */
  function KeyText(line: string): (r: string)
    ensures |r| <= |line|
  {
    match IndexOf(line, ": ", 0)
    case None => line
    case Some(i) => line[..i]
  }

  /** The text of a line after its first `": "`, or nothing. */
  function ValueText(line: string): (r: string)
    ensures |r| <= |line|
  {
    match IndexOf(line, ": ", 0)
    case None => ""
    case Some(i) => line[i + 2..]
  }

  /** One front-matter line: the key is the trimmed text before the first
      `": "`, the value the trimmed and unquoted text after it. */
  function ParseLine(line: string): Field {
    Field(Trim(KeyText(line)), Unquote(Trim(ValueText(line))))
  }

  /** `const [key, ...valueArr] = line.split(": ")` puts the text before the
      first separator in `key`, and re-joining `valueArr` with `": "` gives
      back everything after that separator, later separators included. */
  lemma LineSplitJoin(line: string)
    ensures Split(line, ": ")[0] == KeyText(line)
    ensures Join(Split(line, ": ")[1..], ": ") == ValueText(line)
  {
    match IndexOf(line, ": ", 0)
    case None =>
      SplitNone(line, ": ");
      assert Split(line, ": ")[1..] == [];
    case Some(i) =>
      SplitAtFirst(line, ": ", i);
  }

  /** The key of a line is trimmed. */
  lemma KeyTrimmed(line: string)
    ensures Trim(ParseLine(line).key) == ParseLine(line).key
  {
    TrimIdempotent(KeyText(line));
  }

  /** `key: value` with no `": "` inside the key gives that key and value, so
      `title: a: b` has the value `a: b`. */
  lemma FieldOfLine(k: string, v: string)
    requires IndexOf(k, ": ", 0).None?
    ensures ParseLine(k + ": " + v) == Field(Trim(k), Unquote(Trim(v)))
  {
    var line := k + ": " + v;
    IndexOfSpec(line, ": ", 0);
    assert OccursAt(line, ": ", |k|) by {
      assert line[|k|..|k| + 2] == ": ";
    }
    var m := IndexOf(line, ": ", 0).value;
    if m < |k| {
      NoSeparatorInKey(k, v, m);
    }
    assert line[..m] == k && line[m + 2..] == v;
  }

  /** Before the end of a key without `": "`, the line has no separator. */
  lemma NoSeparatorInKey(k: string, v: string, m: nat)
    requires IndexOf(k, ": ", 0).None? && m < |k|
    ensures !OccursAt(k + ": " + v, ": ", m)
  {
    var line := k + ": " + v;
    if OccursAt(line, ": ", m) {
      assert line[..|k|] == k;
      assert line[|k|] == ':';
      SeparatorInPrefix(line, k, m);
      IndexOfSpec(k, ": ", 0);
      assert false;
    }
  }

  /** A separator starting inside a prefix `k` of the line is in `k`, or
      straddles its end. */
  lemma SeparatorInPrefix(line: string, k: string, m: nat)
    requires |k| + 2 <= |line| && line[..|k|] == k && line[|k|] == ':' && m < |k|
    requires OccursAt(line, ": ", m)
    ensures OccursAt(k, ": ", m)
  {
    assert line[m] == ':' && line[m + 1] == ' ';
    assert m + 1 < |k|;
    assert k[m] == line[m] && k[m + 1] == line[m + 1];
    assert k[m..m + 2] == [k[m], k[m + 1]];
  }

  /** The parsed fields of the lines, in order. */
  function LineFields(lines: seq<string>): (fs: seq<Field>)
    ensures |fs| == |lines|
    ensures forall i :: 0 <= i < |lines| ==> fs[i] == ParseLine(lines[i])
    decreases |lines|
  {
    if |lines| == 0 then [] else [ParseLine(lines[0])] + LineFields(lines[1..])
  }

  /** The map after the fields have been stored in order: each field sets its
      key, overwriting what an earlier field with the same key set. */
  function FieldMap(fs: seq<Field>): (m: map<string, string>)
    decreases |fs|
  {
    if |fs| == 0 then map[]
    else FieldMap(fs[..|fs| - 1])[fs[|fs| - 1].key := fs[|fs| - 1].value]
  }

  /** Storing one more field. */
  lemma FieldMapStep(fs: seq<Field>, n: nat)
    requires n < |fs|
    ensures FieldMap(fs[..n + 1]) == FieldMap(fs[..n])[fs[n].key := fs[n].value]
  {
    assert fs[..n + 1][..n] == fs[..n];
  }

  /** A key is present exactly when some field carries it. */
  lemma {:induction false} FieldMapKeys(fs: seq<Field>, k: string)
    ensures k in FieldMap(fs) <==> exists i :: 0 <= i < |fs| && fs[i].key == k
    decreases |fs|
  {
    if |fs| > 0 {
      var init := fs[..|fs| - 1];
      FieldMapKeys(init, k);
      if exists i :: 0 <= i < |init| && init[i].key == k {
        var i :| 0 <= i < |init| && init[i].key == k;
        assert fs[i] == init[i];
      }
      if exists i :: 0 <= i < |fs| && fs[i].key == k {
        var i :| 0 <= i < |fs| && fs[i].key == k;
        if i < |init| {
          assert init[i] == fs[i];
        }
      }
    }
  }

  /** A repeated key keeps the value of its last field. */
  lemma {:induction false} FieldMapLastWins(fs: seq<Field>, i: nat)
    requires i < |fs|
    requires forall j :: i < j < |fs| ==> fs[j].key != fs[i].key
    ensures fs[i].key in FieldMap(fs) && FieldMap(fs)[fs[i].key] == fs[i].value
    decreases |fs|
  {
    if i < |fs| - 1 {
      var init := fs[..|fs| - 1];
      assert init[i] == fs[i];
      forall j | i < j < |init| ensures init[j].key != init[i].key {
        assert init[j] == fs[j];
      }
      FieldMapLastWins(init, i);
    }
  }

  /** The metadata object after the `forEach` has visited `lines` in order. */
  function MetadataOf(lines: seq<string>): map<string, string> {
    FieldMap(LineFields(lines))
  }

  /** Every line's key is present. */
  lemma MetadataHasKey(lines: seq<string>, i: nat)
    requires i < |lines|
    ensures ParseLine(lines[i]).key in MetadataOf(lines)
  {
    var fs := LineFields(lines);
    FieldMapKeys(fs, fs[i].key);
  }

  /** Every key present comes from some line, and is trimmed. */
  lemma MetadataKeyLine(lines: seq<string>, k: string) returns (i: nat)
    requires k in MetadataOf(lines)
    ensures i < |lines| && ParseLine(lines[i]).key == k
    ensures Trim(k) == k
  {
    var fs := LineFields(lines);
    FieldMapKeys(fs, k);
    i :| 0 <= i < |fs| && fs[i].key == k;
    KeyTrimmed(lines[i]);
  }

  /** A repeated key keeps the value of its last line. */
  lemma MetadataLastWins(lines: seq<string>, i: nat)
    requires i < |lines|
    requires forall j :: i < j < |lines| ==> ParseLine(lines[j]).key != ParseLine(lines[i]).key
    ensures ParseLine(lines[i]).key in MetadataOf(lines)
    ensures MetadataOf(lines)[ParseLine(lines[i]).key] == ParseLine(lines[i]).value
  {
    var fs := LineFields(lines);
    forall j | i < j < |fs| ensures fs[j].key != fs[i].key {
      assert fs[j] == ParseLine(lines[j]);
    }
    FieldMapLastWins(fs, i);
  }

  /** The lines of the captured block, trimmed once more and split at `\n`. */
  function BlockLines(block: string): seq<string> {
    Split(Trim(block), "\n")
  }

  /** The metadata read from the captured block. */
  function BlockMetadata(block: string): map<string, string> {
    MetadataOf(BlockLines(block))
  }

  /** The result for a match from `i` to `j`. */
  function FrontmatterAt(s: string, i: nat, j: nat): Frontmatter
    requires i + 3 <= j && j + 3 <= |s|
  {
    Frontmatter(BlockMetadata(Trim(s[i + 3..j])), Trim(WithoutMatch(s, i, j)))
  }

  /** `fileContent.replace(frontmatterRegex, "")`: the text with the match cut out. */
  function WithoutMatch(s: string, i: nat, j: nat): (r: string)
    requires i + 3 <= j && j + 3 <= |s|
    ensures |r| == |s| - (j + 3 - i)
  {
    s[..i] + s[j + 3..]
  }

  /** `parseFrontmatter(fileContent)`. */
  function FrontmatterOf(s: string): Frontmatter {
    var m := FenceMatch(s);
    if m.None? then Frontmatter(map[], Trim(s))
    else FrontmatterAt(s, m.value.0, m.value.1)
  }

  /** Without two fences there is no metadata and the content is the trimmed text. */
  lemma FrontmatterWithoutBlock(s: string)
    requires forall i, j :: OccursAt(s, Fence, i) && OccursAt(s, Fence, j) ==> j < i + 3
    ensures FrontmatterOf(s) == Frontmatter(map[], Trim(s))
  {
    FenceMatchNone(s);
  }

  /** The match is fixed by the leftmost fence and the first fence after it. */
  lemma FenceMatchAt(s: string, i: nat, j: nat)
    requires OccursAt(s, Fence, i) && OccursAt(s, Fence, j) && i + 3 <= j
    requires forall k: nat :: k < i ==> !OccursAt(s, Fence, k)
    requires forall k: nat :: i + 3 <= k < j ==> !OccursAt(s, Fence, k)
    ensures FenceMatch(s).Some? && FenceMatch(s).value.0 == i && FenceMatch(s).value.1 == j
  {
    FenceMatchNone(s);
    FenceMatchFound(s);
  }

  /** With a leftmost fence at `i` and the first fence after it at `j`, the
      metadata comes from the lines between them, and the content is the text
      around that one block, trimmed; a later fenced block stays in the content. */
  lemma FrontmatterFirstBlock(s: string, i: nat, j: nat)
    requires OccursAt(s, Fence, i) && OccursAt(s, Fence, j) && i + 3 <= j
    requires forall k: nat :: k < i ==> !OccursAt(s, Fence, k)
    requires forall k: nat :: i + 3 <= k < j ==> !OccursAt(s, Fence, k)
    ensures FrontmatterOf(s) == FrontmatterAt(s, i, j)
  {
    FenceMatchAt(s, i, j);
  }

  /** Trimming the captured block a second time changes nothing. */
  lemma BlockLinesTrimmed(b: string)
    ensures BlockLines(Trim(b)) == Split(Trim(b), "\n")
  {
    TrimIdempotent(b);
  }

  /** One turn of the `forEach`: `line.split(": ")`, the key trimmed and the
      rest re-joined, trimmed and unquoted. */
  method ReadLine(line: string) returns (key: string, value: string)
    ensures Field(key, value) == ParseLine(line)
  {
    var parts := Split(line, ": ");
    LineSplitJoin(line);
    key := Trim(parts[0]);
    var rest := Join(parts[1..], ": ");
    value := Unquote(Trim(rest));
  }

  /** `parseFrontmatter`: the metadata object is filled in a `forEach` over the
      lines of the captured block. */
  method ParseFrontmatter(s: string) returns (fm: Frontmatter)
    ensures fm == FrontmatterOf(s)
  {
    var m := FenceMatch(s);
    if m.None? {
      return Frontmatter(map[], Trim(s));
    }
    var i := m.value.0;
    var j := m.value.1;
    var block := Trim(s[i + 3..j]);
    var content := Trim(WithoutMatch(s, i, j));
    var lines := Split(Trim(block), "\n");
    var metadata := FillMetadata(lines);
    assert metadata == BlockMetadata(block);
    fm := Frontmatter(metadata, content);
    assert fm == FrontmatterAt(s, i, j);
  }

  /** The `forEach` over the lines. */
  method FillMetadata(lines: seq<string>) returns (metadata: map<string, string>)
    ensures metadata == MetadataOf(lines)
  {
    ghost var fs := LineFields(lines);
    metadata := map[];
    var n := 0;
    while n < |lines|
      invariant 0 <= n <= |lines|
      invariant metadata == FieldMap(fs[..n])
    {
      var key, value := ReadLine(lines[n]);
      FieldMapStep(fs, n);
      assert Field(key, value) == fs[n];
      metadata := metadata[key := value];
      n := n + 1;
    }
    assert fs[..|lines|] == fs;
  }

  // ---------------------------------------------------------------------------
  // Dropping absent values

  /** The present values, in order. */
  function Somes<T>(os: seq<Option<T>>): seq<T>
    decreases |os|
  {
    if |os| == 0 then []
    else Somes(os[..|os| - 1]) + (if os[|os| - 1].Some? then [os[|os| - 1].value] else [])
  }

  lemma SomesSnoc<T>(os: seq<Option<T>>, n: nat)
    requires n < |os|
    ensures Somes(os[..n + 1]) == Somes(os[..n]) + (if os[n].Some? then [os[n].value] else [])
  {
    assert os[..n + 1][..n] == os[..n];
  }

  /** A value is kept exactly when it is present somewhere. */
  lemma {:induction false} SomesMembers<T>(os: seq<Option<T>>, x: T)
    ensures x in Somes(os) <==> exists j :: 0 <= j < |os| && os[j] == Some(x)
    decreases |os|
  {
    if |os| > 0 {
      var init := os[..|os| - 1];
      SomesMembers(init, x);
      if exists j :: 0 <= j < |init| && init[j] == Some(x) {
        var j :| 0 <= j < |init| && init[j] == Some(x);
        assert os[j] == init[j];
      }
      if exists j :: 0 <= j < |os| && os[j] == Some(x) {
        var j :| 0 <= j < |os| && os[j] == Some(x);
        if j < |init| {
          assert init[j] == os[j];
        }
      }
    }
  }

  // ---------------------------------------------------------------------------
  // generateFileTree

  /** What reading a file yields: its text, or the message of the error thrown. */
  datatype Readable = Contents(text: string) | ReadFailed(message: string)

  /** `FileTreeItem`: a file with its content or a folder with its children;
      `path` is relative to the directory the tree was generated for. */
  datatype TreeItem =
    | FileItem(name: string, path: string, content: string)
    | FolderItem(name: string, path: string, children: seq<TreeItem>)

  const ReadErrorPrefix: string := "// Error reading file: "

  /** The comparator of the final sort: folders (rank 0) before files (rank 1),
      then by name. */
  function FolderRank(it: TreeItem): nat {
    if it.FolderItem? then 0 else 1
  }

  function ItemName(it: TreeItem): string {
    it.name
  }

  predicate Hidden(name: string) {
    StartsWith(name, ".")
  }

  /** `path.relative(basePath, path.join(dirPath, name))` for a directory
      `rel` below the base. */
  function RelPath(rel: seq<string>, name: string): string {
    Join(rel + [name], "/")
  }

  /** The content of a file item: the text read, or the error line. */
  function FileText(r: Readable): (t: string)
    ensures r.Contents? ==> t == r.text
    ensures r.ReadFailed? ==> t == ReadErrorPrefix + r.message
  {
    match r
    case Contents(text) => text
    case ReadFailed(message) => ReadErrorPrefix + message
  }

  /** `generateFileTree(dirPath, basePath)` for the node at `rel` below the
      base: the items of a listed directory sorted folders first, and nothing
      for anything else (including a directory whose listing fails, which the
      outer `catch` turns into an empty list). */
  function Tree(n: Node<Readable>, rel: seq<string>): seq<TreeItem>
    decreases n, 1
  {
    if n.Dir? then SortBy(FolderRank, ItemName, Somes(Contributions(n, rel))) else []
  }

  /** What each entry of the listing of `dir` contributes, in listing order. */
  function Contributions(dir: Node<Readable>, rel: seq<string>): (cs: seq<Option<TreeItem>>)
    requires dir.Dir?
    decreases dir, 0
  {
    seq(|dir.children|, j requires 0 <= j < |dir.children| => EntryItem(dir.children[j], rel))
  }

  /** The item one entry of a listing contributes, if any. */
  function EntryItem(e: Node<Readable>, rel: seq<string>): Option<TreeItem>
    decreases e, 2
  {
    if Hidden(e.name) then None
    else if IsDirectory(e) then Some(FolderItem(e.name, RelPath(rel, e.name), Tree(e, rel + [e.name])))
    else if e.File? then Some(FileItem(e.name, RelPath(rel, e.name), FileText(e.data)))
    else None
  }

  /** Hidden entries and entries that are neither files nor directories are
      skipped; every other entry gives an item with its name and its path
      relative to the base: a folder holding the tree below it, or a file
      holding what was read. */
  lemma EntryItemCases(e: Node<Readable>, rel: seq<string>)
    ensures EntryItem(e, rel).Some? <==> !Hidden(e.name) && !e.Special?
    ensures EntryItem(e, rel).Some? ==>
              EntryItem(e, rel).value.name == e.name && EntryItem(e, rel).value.path == RelPath(rel, e.name)
    ensures !Hidden(e.name) && IsDirectory(e) ==>
              EntryItem(e, rel) == Some(FolderItem(e.name, RelPath(rel, e.name), Tree(e, rel + [e.name])))
    ensures !Hidden(e.name) && e.File? ==>
              EntryItem(e, rel) == Some(FileItem(e.name, RelPath(rel, e.name), FileText(e.data)))
  {
  }

  /** The tree the blocks page shows for a path: nothing when the path does not
      exist. */
  function FileTree(root: Option<Node<Readable>>): seq<TreeItem> {
    if root.Some? then Tree(root.value, []) else []
  }

  /** A directory whose listing fails is shown as a folder without children. */
  lemma LockedDirEmpty(e: Node<Readable>, rel: seq<string>)
    requires e.LockedDir? && !Hidden(e.name)
    ensures EntryItem(e, rel) == Some(FolderItem(e.name, RelPath(rel, e.name), []))
  {
  }

  /** An unreadable file is still listed, with the error line as its content. */
  lemma UnreadableFileListed(e: Node<Readable>, rel: seq<string>)
    requires e.File? && e.data.ReadFailed? && !Hidden(e.name)
    ensures EntryItem(e, rel) == Some(FileItem(e.name, RelPath(rel, e.name), ReadErrorPrefix + e.data.message))
  {
  }

  /** A missing path, a file, or anything else that is not a listed directory
      gives no items. */
  lemma FileTreeEmpty(root: Option<Node<Readable>>)
    requires root.None? || !root.value.Dir?
    ensures FileTree(root) == []
  {
  }

  // ---------------------------------------------------------------------------
  // The shape of every generated tree

  /** At this level the items are sorted folders first and by name, no name is
      hidden, each path is the relative path of the item's name, and every
      folder's children have the same shape one level down. */
  predicate Shaped(items: seq<TreeItem>, rel: seq<string>)
    decreases items, 1
  {
    SortedBy(FolderRank, ItemName, items) && forall i :: 0 <= i < |items| ==> ItemShaped(items[i], rel)
  }

  predicate ItemShaped(it: TreeItem, rel: seq<string>)
    decreases it, 0
  {
    !Hidden(it.name) && it.path == RelPath(rel, it.name)
    && (it.FolderItem? ==> Shaped(it.children, rel + [it.name]))
  }

  /** Every tree `generateFileTree` returns has that shape at every depth. */
  lemma {:induction false} TreeShaped(n: Node<Readable>, rel: seq<string>)
    ensures Shaped(Tree(n, rel), rel)
    decreases n, 1
  {
    if n.Dir? {
      var items := Somes(Contributions(n, rel));
      ListedShaped(n, rel);
      var sorted := SortBy(FolderRank, ItemName, items);
      forall i | 0 <= i < |sorted| ensures ItemShaped(sorted[i], rel) {
        assert sorted[i] in multiset(sorted);
        assert sorted[i] in items;
      }
    }
  }

  lemma {:induction false} ListedShaped(dir: Node<Readable>, rel: seq<string>)
    requires dir.Dir?
    ensures forall it :: it in Somes(Contributions(dir, rel)) ==> ItemShaped(it, rel)
    decreases dir, 0
  {
    var cs := Contributions(dir, rel);
    forall it | it in Somes(cs) ensures ItemShaped(it, rel) {
      SomesMembers(cs, it);
      var j :| 0 <= j < |cs| && cs[j] == Some(it);
      EntryShaped(dir.children[j], rel);
    }
  }

  lemma {:induction false} EntryShaped(e: Node<Readable>, rel: seq<string>)
    ensures EntryItem(e, rel).Some? ==> ItemShaped(EntryItem(e, rel).value, rel)
    decreases e, 2
  {
    if EntryItem(e, rel).Some? && IsDirectory(e) {
      TreeShaped(e, rel + [e.name]);
    }
  }

  /** In a sorted level every folder comes before every file, and names do
      not decrease within each group. */
  lemma FoldersFirst(items: seq<TreeItem>, i: nat, j: nat)
    requires SortedBy(FolderRank, ItemName, items) && i < j < |items|
    ensures items[j].FolderItem? ==> items[i].FolderItem?
    ensures FolderRank(items[i]) == FolderRank(items[j]) ==> !Less(items[j].name, items[i].name)
  {
    assert !Before(FolderRank, ItemName, items[j], items[i]);
  }

  /** The items of a directory are exactly those its entries contribute. */
  lemma TreeMembers(n: Node<Readable>, rel: seq<string>, it: TreeItem)
    requires n.Dir?
    ensures it in Tree(n, rel) <==> exists j :: 0 <= j < |n.children| && EntryItem(n.children[j], rel) == Some(it)
  {
    var cs := Contributions(n, rel);
    SomesMembers(cs, it);
    assert it in Tree(n, rel) <==> it in multiset(Somes(cs));
    if exists j :: 0 <= j < |n.children| && EntryItem(n.children[j], rel) == Some(it) {
      var j :| 0 <= j < |n.children| && EntryItem(n.children[j], rel) == Some(it);
      assert cs[j] == Some(it);
    }
  }

  /** `generateFileTree(dirPath)` for the node found at the path, if any. */
  method GenerateFileTreeAt(root: Option<Node<Readable>>) returns (items: seq<TreeItem>)
    ensures items == FileTree(root)
  {
    if root.None? {
      return [];
    }
    items := GenerateFileTree(root.value, []);
  }

  /** `generateFileTree`: the entries are visited in listing order, each
      shown entry is pushed, folders after recursing into them, and the list
      is sorted at the end. */
  method GenerateFileTree(n: Node<Readable>, rel: seq<string>) returns (items: seq<TreeItem>)
    ensures items == Tree(n, rel)
    decreases n
  {
    if !n.Dir? {
      return [];
    }
    var entries := n.children;
    items := [];
    ghost var cs := Contributions(n, rel);
    for i := 0 to |entries|
      invariant items == Somes(cs[..i])
    {
      SomesSnoc(cs, i);
      var e := entries[i];
      assert cs[i] == EntryItem(e, rel);
      if Hidden(e.name) {
        continue;
      }
      var path := RelPath(rel, e.name);
      if e.Dir? || e.LockedDir? {
        var children := GenerateFileTree(e, rel + [e.name]);
        items := items + [FolderItem(e.name, path, children)];
      } else if e.File? {
        match e.data
        case Contents(text) =>
          items := items + [FileItem(e.name, path, text)];
        case ReadFailed(message) =>
          items := items + [FileItem(e.name, path, ReadErrorPrefix + message)];
      }
    }
    assert cs[..|entries|] == cs;
    items := SortBy(FolderRank, ItemName, items);
  }

  // ---------------------------------------------------------------------------
  // getBlocksMDX

  /** One parsed Markdown document of a category directory, named after its file. */
  datatype MdxDoc = MdxDoc(metadata: map<string, string>, blocksCategory: string, content: string)

  /** `path.extname(name) === ".mdx"`: the name ends in `.mdx` and has
      something before it (a name that is only `.mdx` has no extension). */
  predicate MdxName(name: string) {
    |name| > 4 && EndsWith(name, ".mdx")
  }

  /** `path.basename(name, ext)` for a plain name: a name equal to the
      extension gives the empty string; otherwise the extension comes off
      when the name ends with it and is longer than it. */
  function BaseName(name: string, ext: string): (r: string)
    ensures name == ext ==> r == ""
    ensures |name| > |ext| && EndsWith(name, ext) ==> r + ext == name
    ensures name != ext && !(|name| > |ext| && EndsWith(name, ext)) ==> r == name
  {
    if name == ext then ""
    else if |name| > |ext| && EndsWith(name, ext) then
      assert name == name[..|name| - |ext|] + name[|name| - |ext|..];
      name[..|name| - |ext|]
    else name
  }

  /** `getMDXFiles(dir)`: the `.mdx` entries of the listing, in listing order. */
  function MdxEntries(entries: seq<Node<Readable>>): (r: seq<Node<Readable>>)
    ensures forall e :: e in r <==> e in entries && MdxName(e.name)
    ensures |r| <= |entries|
  {
    if |entries| == 0 then []
    else (if MdxName(entries[0].name) then [entries[0]] else []) + MdxEntries(entries[1..])
  }

  /** `readMDXFile` and the naming in `getMDXData`: a file that can be read is
      parsed and the document is named after the file without `.mdx`; reading
      anything else throws. */
  function ReadDoc(e: Node<Readable>): (r: Option<MdxDoc>)
    ensures r.Some? <==> e.File? && e.data.Contents?
    ensures r.Some? ==>
              && r.value.blocksCategory == BaseName(e.name, ".mdx")
              && r.value.metadata == FrontmatterOf(e.data.text).metadata
              && r.value.content == FrontmatterOf(e.data.text).content
  {
    if e.File? && e.data.Contents? then
      var fm := FrontmatterOf(e.data.text);
      Some(MdxDoc(fm.metadata, BaseName(e.name, ".mdx"), fm.content))
    else None
  }

  /** `xs.map(f)` where `f` may throw (`None`): the results when no call
      throws, `None` otherwise. */
  function MapAll<A, B>(xs: seq<A>, f: A -> Option<B>): (r: Option<seq<B>>)
    ensures r.Some? <==> forall i :: 0 <= i < |xs| ==> f(xs[i]).Some?
    ensures r.Some? ==> |r.value| == |xs| && forall i :: 0 <= i < |xs| ==> r.value[i] == f(xs[i]).value
    decreases |xs|
  {
    if |xs| == 0 then Some([])
    else
      match f(xs[0])
      case None => None
      case Some(y) =>
        match MapAll(xs[1..], f)
        case None => None
        case Some(ys) => Some([y] + ys)
  }

  /** `getMDXData(dir)` over the listing of `dir`. */
  function MdxData(entries: seq<Node<Readable>>): Option<seq<MdxDoc>> {
    MapAll(MdxEntries(entries), ReadDoc)
  }

  /** `getBlocksMDX(category)`: the documents of `markdown/<category>` below the
      content directory, or `None` when that is not a directory that can be
      listed or one of its `.mdx` entries cannot be read. */
  function BlocksMdx(content: seq<Node<Readable>>, category: string): Option<seq<MdxDoc>> {
    match Lookup(content, ["markdown", category])
    case Some(Dir(_, entries)) => MdxData(entries)
    case _ => None
  }

  // ---------------------------------------------------------------------------
  // getBlocks

  datatype Meta = Meta(iframeHeight: Option<string>, kind: BlockKind)

  /** `BlocksProps` as `getBlocks` fills it: `codeSource` only for a file
      block whose document has a non-empty content, `fileTree` only for a
      directory block (an empty tree is still present). */
  datatype BlocksProps = BlocksProps(
    name: string,
    blocksId: string,
    blocksCategory: string,
    meta: Meta,
    codeSource: Option<string>,
    fileTree: Option<seq<TreeItem>>)

  /** What a category page receives. */
  datatype CategoryPage = CategoryPage(name: string, blocksData: seq<BlocksProps>)

  /** `docs.find((b) => b.blocksCategory === id)`. */
  function FindDoc(docs: seq<MdxDoc>, id: string): (r: Option<MdxDoc>)
    ensures r.Some? ==> r.value in docs && r.value.blocksCategory == id
    ensures r.None? ==> forall d :: d in docs ==> d.blocksCategory != id
    ensures r.Some? && |docs| > 0 && docs[0].blocksCategory == id ==> r.value == docs[0]
    ensures r.Some? ==> exists k :: 0 <= k < |docs| && docs[k] == r.value && forall j :: 0 <= j < k ==> docs[j].blocksCategory != id
  {
    if |docs| == 0 then None
    else if docs[0].blocksCategory == id then
      Some(docs[0])
    else
      var rest := FindDoc(docs[1..], id);
      if rest.Some? then FindDocShift(docs, id, rest.value); rest else rest
  }

  /** A first match in the tail, after a head that does not match, is a first
      match in the whole list. */
  lemma FindDocShift(docs: seq<MdxDoc>, id: string, d: MdxDoc)
    requires |docs| > 0 && docs[0].blocksCategory != id
    requires exists k :: 0 <= k < |docs[1..]| && docs[1..][k] == d && forall j :: 0 <= j < k ==> docs[1..][j].blocksCategory != id
    ensures exists k :: 0 <= k < |docs| && docs[k] == d && forall j :: 0 <= j < k ==> docs[j].blocksCategory != id
  {
    var k :| 0 <= k < |docs[1..]| && docs[1..][k] == d && forall j :: 0 <= j < k ==> docs[1..][j].blocksCategory != id;
    assert docs[k + 1] == d;
    forall j | 0 <= j < k + 1 ensures docs[j].blocksCategory != id {
      if j > 0 { assert docs[j] == docs[1..][j - 1]; }
    }
  }

  /** `blocksCategoriesMetadata.find((metadata) => metadata.id === id)`. */
  function FindCategory(cats: seq<CategoryMetadata>, id: string): (r: Option<CategoryMetadata>)
    ensures r.Some? ==> r.value in cats && r.value.id == id
    ensures r.None? ==> forall c :: c in cats ==> c.id != id
  {
    if |cats| == 0 then None
    else if cats[0].id == id then Some(cats[0])
    else FindCategory(cats[1..], id)
  }

  /** The source of a file block: the content of the document named after the
      block, left out when there is none or it is empty. */
  function CodeSource(docs: seq<MdxDoc>, id: string): (r: Option<string>)
    ensures r.Some? <==> FindDoc(docs, id).Some? && FindDoc(docs, id).value.content != ""
    ensures r.Some? ==> r.value == FindDoc(docs, id).value.content
  {
    var doc := FindDoc(docs, id);
    if doc.Some? && doc.value.content != "" then Some(doc.value.content) else None
  }

  /** The directory of a directory block below the content directory. */
  function BlockDir(content: seq<Node<Readable>>, b: BlocksMetadata): Option<Node<Readable>> {
    Lookup(content, ["components", b.category, b.id])
  }

  /** The body of the `try` for one block: `None` when it throws, which only
      reading the category's documents can do. */
  function Processed(b: BlocksMetadata, content: seq<Node<Readable>>): Option<BlocksProps> {
    var meta := Meta(b.iframeHeight, b.kind);
    if b.kind == DirectoryBlock then
      Some(BlocksProps(b.name, b.id, b.category, meta, None, Some(FileTree(BlockDir(content, b)))))
    else
      match BlocksMdx(content, b.category)
      case None => None
      case Some(docs) => Some(BlocksProps(b.name, b.id, b.category, meta, CodeSource(docs, b.id), None))
  }

  /** Each processed block copies the block's name, id and category and its
      iframe height and type; a directory block always gets through, with the
      tree of its directory and no source; a file block gets through exactly
      when its category's documents can be read, with no tree. */
  lemma ProcessedFields(b: BlocksMetadata, content: seq<Node<Readable>>)
    ensures Processed(b, content).Some? ==>
              && Processed(b, content).value.name == b.name
              && Processed(b, content).value.blocksId == b.id
              && Processed(b, content).value.blocksCategory == b.category
              && Processed(b, content).value.meta == Meta(b.iframeHeight, b.kind)
    ensures b.kind == DirectoryBlock ==>
              && Processed(b, content).Some?
              && Processed(b, content).value.codeSource.None?
              && Processed(b, content).value.fileTree == Some(FileTree(BlockDir(content, b)))
    ensures b.kind == FileBlock ==>
              && (Processed(b, content).Some? <==> BlocksMdx(content, b.category).Some?)
              && (Processed(b, content).Some? ==>
                    && Processed(b, content).value.fileTree.None?
                    && Processed(b, content).value.codeSource == CodeSource(BlocksMdx(content, b.category).value, b.id))
  {
  }

  /** What each block of the metadata list contributes to the page: nothing
      when it belongs to another category or its processing throws. */
  function Outcomes(blocks: seq<BlocksMetadata>, content: seq<Node<Readable>>, category: string)
    : (os: seq<Option<BlocksProps>>)
    ensures |os| == |blocks|
  {
    seq(|blocks|, i requires 0 <= i < |blocks| =>
      if blocks[i].category == category then Processed(blocks[i], content) else None)
  }

  /** `blocksData` after the `forEach`. */
  function BlocksData(blocks: seq<BlocksMetadata>, content: seq<Node<Readable>>, category: string)
    : seq<BlocksProps>
  {
    Somes(Outcomes(blocks, content, category))
  }

  /** `getBlocks({ blocksCategory })`: `None` stands for `notFound()`. */
  function GetBlocksOf(blocks: seq<BlocksMetadata>, cats: seq<CategoryMetadata>,
                       content: seq<Node<Readable>>, category: string): (r: Option<CategoryPage>)
    ensures r.None? <==> forall c :: c in cats ==> c.id != category
    ensures r.Some? ==> r.value.name == FindCategory(cats, category).value.name
  {
    match FindCategory(cats, category)
    case None => None
    case Some(c) => Some(CategoryPage(c.name, BlocksData(blocks, content, category)))
  }

  /** The page lists the blocks of the category that get through, each once,
      in metadata order: the `k`-th entry comes from block `idx[k]`, the
      indexes increase, and every block of the category that gets through is
      among them. */
  lemma BlocksDataOrder(blocks: seq<BlocksMetadata>, content: seq<Node<Readable>>, category: string)
    returns (idx: seq<nat>)
    ensures |idx| == |BlocksData(blocks, content, category)|
    ensures forall k :: 0 <= k < |idx| ==>
              && idx[k] < |blocks| && blocks[idx[k]].category == category
              && Processed(blocks[idx[k]], content) == Some(BlocksData(blocks, content, category)[k])
    ensures forall k, l :: 0 <= k < l < |idx| ==> idx[k] < idx[l]
    ensures forall i ::
              0 <= i < |blocks| && blocks[i].category == category && Processed(blocks[i], content).Some?
              ==> i in idx
  {
    var os := Outcomes(blocks, content, category);
    idx := SomesIndex(os);
  }

  /** Where each kept value comes from. */
  lemma {:induction false} SomesIndex<T>(os: seq<Option<T>>) returns (idx: seq<nat>)
    ensures |idx| == |Somes(os)|
    ensures forall k :: 0 <= k < |idx| ==> idx[k] < |os| && os[idx[k]] == Some(Somes(os)[k])
    ensures forall k, l :: 0 <= k < l < |idx| ==> idx[k] < idx[l]
    ensures forall i :: 0 <= i < |os| && os[i].Some? ==> i in idx
    decreases |os|
  {
    if |os| == 0 {
      idx := [];
    } else {
      var prev := SomesIndex(os[..|os| - 1]);
      idx := SomesIndexStep(os, prev);
    }
  }

  /** The indexes of the kept values grow by the last index when it holds one. */
  lemma SomesIndexStep<T>(os: seq<Option<T>>, prev: seq<nat>) returns (idx: seq<nat>)
    requires |os| > 0
    requires |prev| == |Somes(os[..|os| - 1])|
    requires forall k :: 0 <= k < |prev| ==> prev[k] < |os| - 1 && os[..|os| - 1][prev[k]] == Some(Somes(os[..|os| - 1])[k])
    requires forall k, l :: 0 <= k < l < |prev| ==> prev[k] < prev[l]
    requires forall i :: 0 <= i < |os| - 1 && os[..|os| - 1][i].Some? ==> i in prev
    ensures |idx| == |Somes(os)|
    ensures forall k :: 0 <= k < |idx| ==> idx[k] < |os| && os[idx[k]] == Some(Somes(os)[k])
    ensures forall k, l :: 0 <= k < l < |idx| ==> idx[k] < idx[l]
    ensures forall i :: 0 <= i < |os| && os[i].Some? ==> i in idx
  {
    var n := |os| - 1;
    var init := os[..n];
    assert forall i :: 0 <= i < n ==> init[i] == os[i];
    idx := if os[n].Some? then prev + [n] else prev;
  }

  /** The body of the `forEach` for one block. */
  method ProcessBlock(b: BlocksMetadata, content: seq<Node<Readable>>) returns (p: Option<BlocksProps>)
    ensures p == Processed(b, content)
  {
    var codeSource: Option<string> := None;
    var fileTree: Option<seq<TreeItem>> := None;
    if b.kind == DirectoryBlock {
      var tree := GenerateFileTreeAt(BlockDir(content, b));
      fileTree := Some(tree);
    } else {
      var docs := BlocksMdx(content, b.category);
      if docs.None? {
        return None;
      }
      codeSource := CodeSource(docs.value, b.id);
    }
    p := Some(BlocksProps(b.name, b.id, b.category, Meta(b.iframeHeight, b.kind), codeSource, fileTree));
  }

  /** `getBlocks`: the blocks of the category are processed in metadata order
      and every one that does not throw is pushed. */
  method GetBlocks(blocks: seq<BlocksMetadata>, cats: seq<CategoryMetadata>,
                   content: seq<Node<Readable>>, category: string) returns (r: Option<CategoryPage>)
    ensures r == GetBlocksOf(blocks, cats, content, category)
  {
    var categoryMetadata := FindCategory(cats, category);
    ghost var os := Outcomes(blocks, content, category);
    var blocksData: seq<BlocksProps> := [];
    for i := 0 to |blocks|
      invariant blocksData == Somes(os[..i])
    {
      SomesSnoc(os, i);
      var b := blocks[i];
      if b.category == category {
        var p := ProcessBlock(b, content);
        if p.Some? {
          blocksData := blocksData + [p.value];
        }
      }
    }
    assert os[..|blocks|] == os;
    if categoryMetadata.Some? {
      return Some(CategoryPage(categoryMetadata.value.name, blocksData));
    }
    return None;
  }
}
