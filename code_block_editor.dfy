/**
 * The tree logic of the code-block editor that shows a directory block: the
 * searches for a file, the set of expanded folders, the flattening of the tree
 * into the rows of the sidebar, and the language chosen for highlighting.
 */
module CodeBlockEditor {
  import opened Wrappers
  import opened Strings
  import opened BlocksLib

  // ---------------------------------------------------------------------------
  // Depth-first order

  /** Every item of the tree in depth-first pre-order: each item, then (for a
      folder) everything below it, then its later siblings. */
  function Preorder(items: seq<TreeItem>): seq<TreeItem>
    decreases items, 1
  {
    if |items| == 0 then [] else ItemPreorder(items[0]) + Preorder(items[1..])
  }

  function ItemPreorder(it: TreeItem): seq<TreeItem>
    decreases it, 0
  {
    [it] + (if it.FolderItem? then Preorder(it.children) else [])
  }

  lemma {:induction false} PreorderAppend(a: seq<TreeItem>, b: seq<TreeItem>)
    ensures Preorder(a + b) == Preorder(a) + Preorder(b)
    decreases |a|
  {
    if |a| == 0 {
      assert a + b == b;
    } else {
      assert (a + b)[0] == a[0];
      assert (a + b)[1..] == a[1..] + b;
      PreorderAppend(a[1..], b);
    }
  }

  lemma PreorderSnoc(items: seq<TreeItem>, i: nat)
    requires i < |items|
    ensures Preorder(items[..i + 1]) == Preorder(items[..i]) + ItemPreorder(items[i])
  {
    assert items[..i + 1] == items[..i] + [items[i]];
    PreorderAppend(items[..i], [items[i]]);
  }

  // ---------------------------------------------------------------------------
  // findFirstFile and findFileByPath

  /** The item a search looks for: any file (`None`), or a file with the given
      path. A folder never matches. */
  predicate Wanted(it: TreeItem, query: Option<string>) {
    it.FileItem? && (query.None? || it.path == query.value)
  }

  /** The first wanted item of a list. */
  function FirstWanted(xs: seq<TreeItem>, query: Option<string>): (r: Option<TreeItem>)
    ensures r.Some? ==> r.value in xs && Wanted(r.value, query)
    ensures r.None? ==> forall i :: 0 <= i < |xs| ==> !Wanted(xs[i], query)
    ensures forall i :: 0 <= i < |xs| && Wanted(xs[i], query) && (forall j :: 0 <= j < i ==> !Wanted(xs[j], query))
              ==> r == Some(xs[i])
  {
    if |xs| == 0 then None
    else if Wanted(xs[0], query) then Some(xs[0])
    else
      var r := FirstWanted(xs[1..], query);
      assert forall i :: 0 < i < |xs| ==> xs[i] == xs[1..][i - 1];
      r
  }

  lemma {:induction false} FirstWantedAppend(a: seq<TreeItem>, b: seq<TreeItem>, query: Option<string>)
    ensures FirstWanted(a + b, query) == if FirstWanted(a, query).Some? then FirstWanted(a, query) else FirstWanted(b, query)
    decreases |a|
  {
    if |a| == 0 {
      assert a + b == b;
    } else {
      assert (a + b)[0] == a[0];
      assert (a + b)[1..] == a[1..] + b;
      FirstWantedAppend(a[1..], b, query);
    }
  }

  /** `findFirstFile(items)`: visits the items in order, returns a file at
      once and otherwise searches inside each folder. */
  method FindFirstFile(items: seq<TreeItem>) returns (r: Option<TreeItem>)
    ensures r == FirstWanted(Preorder(items), None)
    decreases items
  {
    for i := 0 to |items|
      invariant FirstWanted(Preorder(items[..i]), None).None?
    {
      PreorderSnoc(items, i);
      FirstWantedAppend(Preorder(items[..i]), ItemPreorder(items[i]), None);
      var item := items[i];
      if item.FileItem? {
        FoundInPrefix(items, i + 1, None);
        return Some(item);
      } else {
        var file := FindFirstFile(item.children);
        FirstWantedAppend([item], Preorder(item.children), None);
        if file.Some? {
          FoundInPrefix(items, i + 1, None);
          return file;
        }
      }
    }
    assert items[..|items|] == items;
    return None;
  }

  /** `findFileByPath(items, path)`: the same search for a file with that path. */
  method FindFileByPath(items: seq<TreeItem>, path: string) returns (r: Option<TreeItem>)
    ensures r == FirstWanted(Preorder(items), Some(path))
    decreases items
  {
    for i := 0 to |items|
      invariant FirstWanted(Preorder(items[..i]), Some(path)).None?
    {
      PreorderSnoc(items, i);
      FirstWantedAppend(Preorder(items[..i]), ItemPreorder(items[i]), Some(path));
      var item := items[i];
      if item.FileItem? && item.path == path {
        FoundInPrefix(items, i + 1, Some(path));
        return Some(item);
      } else if item.FolderItem? {
        var file := FindFileByPath(item.children, path);
        FirstWantedAppend([item], Preorder(item.children), Some(path));
        if file.Some? {
          FoundInPrefix(items, i + 1, Some(path));
          return file;
        }
      }
    }
    assert items[..|items|] == items;
    return None;
  }

  /** A match among the first `k` items is the match of the whole list. */
  lemma FoundInPrefix(items: seq<TreeItem>, k: nat, query: Option<string>)
    requires k <= |items| && FirstWanted(Preorder(items[..k]), query).Some?
    ensures FirstWanted(Preorder(items), query) == FirstWanted(Preorder(items[..k]), query)
  {
    assert items == items[..k] + items[k..];
    PreorderAppend(items[..k], items[k..]);
    FirstWantedAppend(Preorder(items[..k]), Preorder(items[k..]), query);
  }

  /** The file a path search returns is a file with that path, and there is
      none exactly when no file of the tree, at any depth, has that path. */
  lemma FileByPathFound(items: seq<TreeItem>, path: string)
    ensures FirstWanted(Preorder(items), Some(path)).Some? ==>
              && FirstWanted(Preorder(items), Some(path)).value.FileItem?
              && FirstWanted(Preorder(items), Some(path)).value.path == path
    ensures FirstWanted(Preorder(items), Some(path)).None? <==>
              forall it :: it in Preorder(items) && it.FileItem? ==> it.path != path
  {
    var xs := Preorder(items);
    if FirstWanted(xs, Some(path)).None? {
      forall it | it in xs && it.FileItem? ensures it.path != path {
        var i :| 0 <= i < |xs| && xs[i] == it;
      }
    }
  }

  // ---------------------------------------------------------------------------
  // The initial state of the editor

  /** The paths of all folders at every depth. */
  function FolderPaths(items: seq<TreeItem>): set<string> {
    set it | it in Preorder(items) && it.FolderItem? :: it.path
  }

  lemma FolderPathsStep(items: seq<TreeItem>, i: nat)
    requires i < |items|
    ensures FolderPaths(items[..i + 1]) ==
            FolderPaths(items[..i]) + (if items[i].FolderItem? then {items[i].path} + FolderPaths(items[i].children) else {})
  {
    PreorderSnoc(items, i);
    var it := items[i];
    var a := Preorder(items[..i]);
    var b := ItemPreorder(it);
    forall p ensures p in FolderPaths(items[..i + 1]) <==>
                     p in FolderPaths(items[..i]) || (it.FolderItem? && (p == it.path || p in FolderPaths(it.children)))
    {
      if p in FolderPaths(items[..i + 1]) {
        var x: TreeItem :| x in a + b && x.FolderItem? && x.path == p;
        if x !in a {
          assert x in b;
        }
      }
      if it.FolderItem? && p == it.path {
        assert it in a + b;
      }
      if it.FolderItem? && p in FolderPaths(it.children) {
        var x :| x in Preorder(it.children) && x.FolderItem? && x.path == p;
        assert x in b;
        assert x in a + b;
      }
      if p in FolderPaths(items[..i]) {
        var x :| x in a && x.FolderItem? && x.path == p;
        assert x in a + b;
      }
    }
  }

  /** `addFolderPaths(items)`: every folder's path is added to `expanded`,
      then its children are visited. */
  method AddFolderPaths(items: seq<TreeItem>, expanded: set<string>) returns (r: set<string>)
    ensures r == expanded + FolderPaths(items)
    decreases items
  {
    r := expanded;
    for i := 0 to |items|
      invariant r == expanded + FolderPaths(items[..i])
    {
      FolderPathsStep(items, i);
      var item := items[i];
      if item.FolderItem? {
        r := r + {item.path};
        r := AddFolderPaths(item.children, r);
      }
    }
    assert items[..|items|] == items;
  }

  /** What the editor starts with: the path of the first file, unless there is
      none or it is empty (`findFirstFile(fileTree)?.path || null`), and every
      folder expanded. */
  method InitialState(tree: seq<TreeItem>) returns (activeFile: Option<string>, expanded: set<string>)
    ensures activeFile.Some? <==> FirstWanted(Preorder(tree), None).Some? && FirstWanted(Preorder(tree), None).value.path != ""
    ensures activeFile.Some? ==> activeFile.value == FirstWanted(Preorder(tree), None).value.path
    ensures expanded == FolderPaths(tree)
  {
    var first := FindFirstFile(tree);
    activeFile := if first.Some? && first.value.path != "" then Some(first.value.path) else None;
    expanded := AddFolderPaths(tree, {});
  }

  /** `toggleFolder(path)`: the copy of the set with `path` removed when it was
      present and added otherwise. */
  function Toggle(expanded: set<string>, path: string): (r: set<string>)
    ensures path in r <==> path !in expanded
    ensures forall q :: q != path ==> (q in r <==> q in expanded)
  {
    if path in expanded then expanded - {path} else expanded + {path}
  }

  /** Toggling the same folder twice restores the set. */
  lemma ToggleTwice(expanded: set<string>, path: string)
    ensures Toggle(Toggle(expanded, path), path) == expanded
  {
    var once := Toggle(expanded, path);
    var twice := Toggle(once, path);
    forall q ensures q in twice <==> q in expanded {
      if q != path {
        assert q in once <==> q in expanded;
      }
    }
  }

  // ---------------------------------------------------------------------------
  // The language of the active file

  /** `file.path.split(".").pop() || ""`: the text after the last dot, or the
      whole path when it has none. */
  function Extension(path: string): string {
    Last(Split(path, "."))
  }

  /** The `lang` the if-chain picks for an extension. */
  function LangFor(ext: string): (lang: string)
    ensures lang in {"css", "html", "javascript", "jsx", "tsx", "typescript"}
  {
    if ext == "css" then "css"
    else if ext == "html" then "html"
    else if ext == "js" then "javascript"
    else if ext == "jsx" then "jsx"
    else if ext == "tsx" then "tsx"
    else "typescript"
  }

  function Lang(path: string): string {
    LangFor(Extension(path))
  }

  /** The language comes from the text after the last dot. */
  lemma LangOfExtension(stem: string, ext: string)
    requires forall i :: 0 <= i < |ext| ==> ext[i] != '.'
    ensures Lang(stem + "." + ext) == LangFor(ext)
  {
    var p := stem + "." + ext;
    forall i | |stem| < i < |p| ensures p[i] != '.' {
      assert p[i] == ext[i - |stem| - 1];
    }
    SplitLastPiece(p, '.', |stem|);
    assert p[|stem| + 1..] == ext;
  }

  /** A path without a dot is its own extension, so a file named `css` is
      highlighted as CSS and one named `Makefile` as TypeScript. */
  lemma LangWithoutDot(path: string)
    requires forall i :: 0 <= i < |path| ==> path[i] != '.'
    ensures Lang(path) == LangFor(path)
  {
    SplitCharFree(path, '.');
  }

  // ---------------------------------------------------------------------------
  // renderableTree

  /** One value of `itemMap`: the item with its depth and whether it is shown. */
  datatype Row = Row(item: TreeItem, depth: nat, visible: bool)

  /** The condition on a file: its path has no `/`, or the text before the
      last `/` is an expanded folder path. */
  function FileShown(path: string, expanded: set<string>): bool {
    match LastIndexOf(path, '/')
    case None => true
    case Some(k) => path[..k] in expanded
  }

  /** The rows `addToMap(items, depth, parentVisible)` sets, in the order it
      sets them. */
  function Visits(items: seq<TreeItem>, depth: nat, parentVisible: bool, expanded: set<string>): seq<Row>
    decreases items, 1
  {
    if |items| == 0 then []
    else ItemVisits(items[0], depth, parentVisible, expanded) + Visits(items[1..], depth, parentVisible, expanded)
  }

  function ItemVisits(it: TreeItem, depth: nat, parentVisible: bool, expanded: set<string>): seq<Row>
    decreases it, 0
  {
    var visible := parentVisible && (it.FolderItem? || FileShown(it.path, expanded));
    [Row(it, depth, visible)]
    + (if it.FolderItem? then Visits(it.children, depth + 1, visible && it.path in expanded, expanded) else [])
  }

  lemma {:induction false} VisitsAppend(a: seq<TreeItem>, b: seq<TreeItem>, depth: nat, pv: bool, expanded: set<string>)
    ensures Visits(a + b, depth, pv, expanded) == Visits(a, depth, pv, expanded) + Visits(b, depth, pv, expanded)
    decreases |a|
  {
    if |a| == 0 {
      assert a + b == b;
    } else {
      assert (a + b)[0] == a[0];
      assert (a + b)[1..] == a[1..] + b;
      VisitsAppend(a[1..], b, depth, pv, expanded);
    }
  }

  // ---------------------------------------------------------------------------
  // Where each item sits, and how that decides its row

  /** An item with the folders above it, outermost first. */
  datatype Placed = Placed(item: TreeItem, ancestors: seq<TreeItem>)

  /** Every item in pre-order with its ancestors. */
  function Placements(items: seq<TreeItem>, ancestors: seq<TreeItem>): seq<Placed>
    decreases items, 1
  {
    if |items| == 0 then []
    else ItemPlacements(items[0], ancestors) + Placements(items[1..], ancestors)
  }

  function ItemPlacements(it: TreeItem, ancestors: seq<TreeItem>): seq<Placed>
    decreases it, 0
  {
    [Placed(it, ancestors)] + (if it.FolderItem? then Placements(it.children, ancestors + [it]) else [])
  }

  predicate AllExpanded(ancestors: seq<TreeItem>, expanded: set<string>) {
    forall i :: 0 <= i < |ancestors| ==> ancestors[i].path in expanded
  }

  /** The row an item gets from where it sits: its depth is the number of
      folders above it, and it is shown when every one of them is expanded
      and, for a file, when its own path passes the file condition. */
  function RowOf(p: Placed, expanded: set<string>): Row {
    Row(p.item, |p.ancestors|, AllExpanded(p.ancestors, expanded) && (p.item.FolderItem? || FileShown(p.item.path, expanded)))
  }

  function Rows(ps: seq<Placed>, expanded: set<string>): (rs: seq<Row>)
    ensures |rs| == |ps|
    ensures forall i :: 0 <= i < |ps| ==> rs[i] == RowOf(ps[i], expanded)
  {
    if |ps| == 0 then [] else [RowOf(ps[0], expanded)] + Rows(ps[1..], expanded)
  }

  lemma RowsAppend(a: seq<Placed>, b: seq<Placed>, expanded: set<string>)
    ensures Rows(a + b, expanded) == Rows(a, expanded) + Rows(b, expanded)
  {
    var l := Rows(a + b, expanded);
    var r := Rows(a, expanded) + Rows(b, expanded);
    forall i | 0 <= i < |l| ensures l[i] == r[i] {
      if i < |a| {
        assert (a + b)[i] == a[i];
      } else {
        assert (a + b)[i] == b[i - |a|];
      }
    }
  }

  /** `addToMap` started at depth `|ancestors|` with a parent visibility that
      says whether all ancestors are expanded sets exactly the rows the
      placements decide, in pre-order. */
  lemma {:induction false} VisitsPlaced(items: seq<TreeItem>, ancestors: seq<TreeItem>, expanded: set<string>)
    ensures Visits(items, |ancestors|, AllExpanded(ancestors, expanded), expanded) == Rows(Placements(items, ancestors), expanded)
    decreases items, 1
  {
    if |items| > 0 {
      ItemVisitsPlaced(items[0], ancestors, expanded);
      VisitsPlaced(items[1..], ancestors, expanded);
      RowsAppend(ItemPlacements(items[0], ancestors), Placements(items[1..], ancestors), expanded);
    }
  }

  lemma {:induction false} ItemVisitsPlaced(it: TreeItem, ancestors: seq<TreeItem>, expanded: set<string>)
    ensures ItemVisits(it, |ancestors|, AllExpanded(ancestors, expanded), expanded) == Rows(ItemPlacements(it, ancestors), expanded)
    decreases it, 0
  {
    var head := [Placed(it, ancestors)];
    if it.FolderItem? {
      var inner := ancestors + [it];
      assert AllExpanded(inner, expanded) == (AllExpanded(ancestors, expanded) && it.path in expanded) by {
        assert forall i :: 0 <= i < |ancestors| ==> inner[i] == ancestors[i];
        assert inner[|ancestors|] == it;
      }
      VisitsPlaced(it.children, inner, expanded);
      RowsAppend(head, Placements(it.children, inner), expanded);
    } else {
      assert ItemPlacements(it, ancestors) == head;
    }
  }

  /** The placements list the items of the tree in pre-order. */
  lemma {:induction false} PlacementsPreorder(items: seq<TreeItem>, ancestors: seq<TreeItem>)
    ensures |Placements(items, ancestors)| == |Preorder(items)|
    ensures forall i :: 0 <= i < |Preorder(items)| ==> Placements(items, ancestors)[i].item == Preorder(items)[i]
    decreases items, 1
  {
    if |items| > 0 {
      ItemPlacementsPreorder(items[0], ancestors);
      PlacementsPreorder(items[1..], ancestors);
      var a: seq<Placed> := ItemPlacements(items[0], ancestors);
      var b: seq<Placed> := Placements(items[1..], ancestors);
      var x: seq<TreeItem> := ItemPreorder(items[0]);
      var y: seq<TreeItem> := Preorder(items[1..]);
      forall i | 0 <= i < |x| + |y| ensures (a + b)[i].item == (x + y)[i] {
        if i < |x| {
          assert (a + b)[i] == a[i] && (x + y)[i] == x[i];
        } else {
          assert (a + b)[i] == b[i - |x|] && (x + y)[i] == y[i - |x|];
        }
      }
    }
  }

  lemma {:induction false} ItemPlacementsPreorder(it: TreeItem, ancestors: seq<TreeItem>)
    ensures |ItemPlacements(it, ancestors)| == |ItemPreorder(it)|
    ensures forall i :: 0 <= i < |ItemPreorder(it)| ==> ItemPlacements(it, ancestors)[i].item == ItemPreorder(it)[i]
    decreases it, 0
  {
    if it.FolderItem? {
      PlacementsPreorder(it.children, ancestors + [it]);
      var a: seq<Placed> := ItemPlacements(it, ancestors);
      var x: seq<TreeItem> := ItemPreorder(it);
      forall i | 0 < i < |x| ensures a[i].item == x[i] {
        assert a[i] == Placements(it.children, ancestors + [it])[i - 1];
        assert x[i] == Preorder(it.children)[i - 1];
      }
    }
  }

  // ---------------------------------------------------------------------------
  // The insertion-ordered map

  function Key(r: Row): string {
    r.item.path
  }

  /** The position of the first row with key `k`. */
  function KeyIndex(m: seq<Row>, k: string): (r: Option<nat>)
    ensures r.Some? ==> r.value < |m| && Key(m[r.value]) == k && forall j :: 0 <= j < r.value ==> Key(m[j]) != k
    ensures r.None? ==> forall j :: 0 <= j < |m| ==> Key(m[j]) != k
  {
    if |m| == 0 then None
    else if Key(m[0]) == k then Some(0)
    else
      match KeyIndex(m[1..], k)
      case None => None
      case Some(i) => Some(i + 1)
  }

  /** `itemMap.set(path, row)`: a known key keeps its position and takes the
      new value, a new key goes at the end. */
  function MapSet(m: seq<Row>, r: Row): seq<Row> {
    match KeyIndex(m, Key(r))
    case Some(i) => m[i := r]
    case None => m + [r]
  }

  /** The map after the rows have been set in order. */
  function SetAll(m: seq<Row>, rows: seq<Row>): seq<Row>
    decreases |rows|
  {
    if |rows| == 0 then m else MapSet(SetAll(m, rows[..|rows| - 1]), rows[|rows| - 1])
  }

  lemma {:induction false} SetAllAppend(m: seq<Row>, a: seq<Row>, b: seq<Row>)
    ensures SetAll(m, a + b) == SetAll(SetAll(m, a), b)
    decreases |b|
  {
    if |b| == 0 {
      assert a + b == a;
    } else {
      var n := |b| - 1;
      assert (a + b)[..|a + b| - 1] == a + b[..n];
      assert (a + b)[|a + b| - 1] == b[n];
      SetAllAppend(m, a, b[..n]);
    }
  }

  lemma SetAllCons(m: seq<Row>, r: Row, rest: seq<Row>)
    ensures SetAll(m, [r] + rest) == SetAll(MapSet(m, r), rest)
  {
    SetAllAppend(m, [r], rest);
    assert [r][..0] == [];
  }

  predicate DistinctKeys(m: seq<Row>) {
    forall i, j :: 0 <= i < j < |m| ==> Key(m[i]) != Key(m[j])
  }

  /** Setting a row keeps the keys distinct. */
  lemma MapSetDistinct(m: seq<Row>, r: Row)
    requires DistinctKeys(m)
    ensures DistinctKeys(MapSet(m, r))
  {
    match KeyIndex(m, Key(r))
    case Some(p) =>
      var m' := m[p := r];
      forall i, j | 0 <= i < j < |m'| ensures Key(m'[i]) != Key(m'[j]) {
        assert Key(m'[i]) == Key(m[i]) && Key(m'[j]) == Key(m[j]);
      }
    case None =>
      var m' := m + [r];
      forall i, j | 0 <= i < j < |m'| ensures Key(m'[i]) != Key(m'[j]) {
        assert m'[i] == m[i];
        if j < |m| {
          assert m'[j] == m[j];
        }
      }
  }

  /** Setting a row keeps every key and adds the key of the row. */
  lemma KeyKept(m: seq<Row>, r: Row, k: string)
    requires KeyIndex(m, k).Some? || k == Key(r)
    ensures KeyIndex(MapSet(m, r), k).Some?
  {
    var m' := MapSet(m, r);
    match KeyIndex(m, Key(r))
    case Some(p) =>
      if k == Key(r) {
        assert Key(m'[p]) == k;
      } else {
        var i := KeyIndex(m, k).value;
        assert m'[i] == m[i];
      }
    case None =>
      if k == Key(r) {
        assert m'[|m|] == r;
      } else {
        var i := KeyIndex(m, k).value;
        assert m'[i] == m[i];
      }
  }

  /** `v` was set at some position and no later row has its key. */
  predicate LastSet(rows: seq<Row>, v: Row) {
    exists i :: 0 <= i < |rows| && rows[i] == v && forall j :: i < j < |rows| ==> Key(rows[j]) != Key(v)
  }

  /** Each key appears once in the map. */
  lemma {:induction false} SetAllDistinct(rows: seq<Row>)
    ensures DistinctKeys(SetAll([], rows))
    decreases |rows|
  {
    if |rows| > 0 {
      SetAllDistinct(rows[..|rows| - 1]);
      MapSetDistinct(SetAll([], rows[..|rows| - 1]), rows[|rows| - 1]);
    }
  }

  /** Every key that was set is in the map. */
  lemma {:induction false} SetAllCovers(rows: seq<Row>)
    ensures forall i :: 0 <= i < |rows| ==> KeyIndex(SetAll([], rows), Key(rows[i])).Some?
    decreases |rows|
  {
    if |rows| > 0 {
      var n := |rows| - 1;
      var init := rows[..n];
      SetAllCovers(init);
      forall i | 0 <= i < |rows| ensures KeyIndex(SetAll([], rows), Key(rows[i])).Some? {
        if i < n {
          assert rows[i] == init[i];
          KeyKept(SetAll([], init), rows[n], Key(rows[i]));
        } else {
          KeyKept(SetAll([], init), rows[n], Key(rows[n]));
        }
      }
    }
  }

  /** Each value of the map is the last row set for its key. */
  lemma {:induction false} SetAllLastWins(rows: seq<Row>)
    ensures forall k :: 0 <= k < |SetAll([], rows)| ==> LastSet(rows, SetAll([], rows)[k])
    decreases |rows|
  {
    if |rows| > 0 {
      var init := rows[..|rows| - 1];
      SetAllLastWins(init);
      SetAllDistinct(init);
      forall k | 0 <= k < |SetAll([], rows)| ensures LastSet(rows, SetAll([], rows)[k]) {
        LastSetStep(rows, SetAll([], init), k);
      }
    }
  }

  lemma LastSetStep(rows: seq<Row>, m: seq<Row>, k: nat)
    requires |rows| > 0 && m == SetAll([], rows[..|rows| - 1])
    requires DistinctKeys(m)
    requires forall k :: 0 <= k < |m| ==> LastSet(rows[..|rows| - 1], m[k])
    requires k < |MapSet(m, rows[|rows| - 1])|
    ensures LastSet(rows, MapSet(m, rows[|rows| - 1])[k])
  {
    var n := |rows| - 1;
    var r := rows[n];
    var m' := MapSet(m, r);
    if m'[k] == r {
      assert rows[n] == m'[k];
    } else {
      assert k < |m| && m'[k] == m[k];
      var init := rows[..n];
      assert LastSet(init, m[k]);
      var i :| 0 <= i < n && init[i] == m[k] && forall j :: i < j < n ==> Key(init[j]) != Key(m[k]);
      assert rows[i] == m[k];
      forall j | i < j < |rows| ensures Key(rows[j]) != Key(m[k]) {
        if j < n {
          assert rows[j] == init[j];
        } else {
          match KeyIndex(m, Key(r))
          case None =>
          case Some(p) => assert p != k;
        }
      }
    }
  }

  /** The position where a key was first set, `|rows|` for a key never set. */
  function FirstAt(rows: seq<Row>, k: string): nat {
    match KeyIndex(rows, k)
    case None => |rows|
    case Some(i) => i
  }

  /** The map lists the keys in the order in which they were first set. */
  predicate FirstSetOrder(rows: seq<Row>, m: seq<Row>) {
    forall k, l :: 0 <= k < l < |m| ==> FirstAt(rows, Key(m[k])) < FirstAt(rows, Key(m[l]))
  }

  /** A key that occurs in a prefix is first set at the same position in the
      whole sequence. */
  lemma FirstAtPrefix(rows: seq<Row>, n: nat, k: string)
    requires n <= |rows| && KeyIndex(rows[..n], k).Some?
    ensures FirstAt(rows, k) == FirstAt(rows[..n], k) < n
  {
    var i := KeyIndex(rows[..n], k).value;
    assert rows[i] == rows[..n][i];
  }

  lemma LastSetKey(rows: seq<Row>, v: Row)
    requires LastSet(rows, v)
    ensures KeyIndex(rows, Key(v)).Some?
  {
  }

  lemma {:induction false} SetAllOrder(rows: seq<Row>)
    ensures FirstSetOrder(rows, SetAll([], rows))
    decreases |rows|
  {
    if |rows| > 0 {
      var n := |rows| - 1;
      var init := rows[..n];
      var r := rows[n];
      var m := SetAll([], init);
      SetAllOrder(init);
      SetAllLastWins(init);
      FirstAtKept(rows, m);
      OrderRebase(rows, init, m);
      match KeyIndex(m, Key(r))
      case Some(p) =>
        OrderSameKeys(rows, m, m[p := r]);
      case None =>
        SetAllCovers(init);
        NewKeyUnset(init, m, r);
        FirstAtNew(rows);
        OrderAppend(rows, m, r);
    }
  }

  /** Keys already in the map were first set in the prefix, at the same place. */
  lemma FirstAtKept(rows: seq<Row>, m: seq<Row>)
    requires |rows| > 0
    requires forall k :: 0 <= k < |m| ==> LastSet(rows[..|rows| - 1], m[k])
    ensures forall k :: 0 <= k < |m| ==>
      FirstAt(rows, Key(m[k])) == FirstAt(rows[..|rows| - 1], Key(m[k])) < |rows| - 1
  {
    forall k | 0 <= k < |m|
      ensures FirstAt(rows, Key(m[k])) == FirstAt(rows[..|rows| - 1], Key(m[k])) < |rows| - 1
    {
      LastSetKey(rows[..|rows| - 1], m[k]);
      FirstAtPrefix(rows, |rows| - 1, Key(m[k]));
    }
  }

  /** A key the map lacks was never set. */
  lemma NewKeyUnset(init: seq<Row>, m: seq<Row>, r: Row)
    requires forall i :: 0 <= i < |init| ==> KeyIndex(m, Key(init[i])).Some?
    requires KeyIndex(m, Key(r)).None?
    ensures KeyIndex(init, Key(r)).None?
  {
  }

  /** A key first set by the last row is first set at the last position. */
  lemma FirstAtNew(rows: seq<Row>)
    requires |rows| > 0 && KeyIndex(rows[..|rows| - 1], Key(rows[|rows| - 1])).None?
    ensures FirstAt(rows, Key(rows[|rows| - 1])) == |rows| - 1
  {
  }

  lemma OrderRebase(rows: seq<Row>, init: seq<Row>, m: seq<Row>)
    requires FirstSetOrder(init, m)
    requires forall k :: 0 <= k < |m| ==> FirstAt(rows, Key(m[k])) == FirstAt(init, Key(m[k]))
    ensures FirstSetOrder(rows, m)
  {
  }

  /** Replacing a value under its own key keeps the order. */
  lemma OrderSameKeys(rows: seq<Row>, m: seq<Row>, m': seq<Row>)
    requires FirstSetOrder(rows, m)
    requires |m'| == |m| && forall k :: 0 <= k < |m| ==> Key(m'[k]) == Key(m[k])
    ensures FirstSetOrder(rows, m')
  {
  }

  /** A key first set after all keys of the map may go last. */
  lemma OrderAppend(rows: seq<Row>, m: seq<Row>, r: Row)
    requires FirstSetOrder(rows, m)
    requires forall k :: 0 <= k < |m| ==> FirstAt(rows, Key(m[k])) < FirstAt(rows, Key(r))
    ensures FirstSetOrder(rows, m + [r])
  {
    var m' := m + [r];
    forall k, l | 0 <= k < l < |m'| ensures FirstAt(rows, Key(m'[k])) < FirstAt(rows, Key(m'[l])) {
      assert m'[k] == m[k];
      if l < |m| {
        assert m'[l] == m[l];
      }
    }
  }

  // ---------------------------------------------------------------------------
  // The two methods, and what the editor shows

  /** The rows that are marked visible, in map order. */
  function VisibleRows(m: seq<Row>): (r: seq<Row>)
    ensures forall x :: x in r <==> x in m && x.visible
    ensures |r| <= |m|
  {
    if |m| == 0 then []
    else (if m[0].visible then [m[0]] else []) + VisibleRows(m[1..])
  }

  /** What the editor renders for a tree and a set of expanded folders. */
  function Rendered(tree: seq<TreeItem>, expanded: set<string>): seq<Row> {
    VisibleRows(SetAll([], Visits(tree, 0, true, expanded)))
  }

  /** `addToMap(items, depth, parentVisible)`: each item is set in the map,
      and a folder's children follow it, visible only when the folder is
      visible and expanded. */
  method AddToMap(items: seq<TreeItem>, depth: nat, parentVisible: bool, expanded: set<string>, m: seq<Row>)
    returns (r: seq<Row>)
    ensures r == SetAll(m, Visits(items, depth, parentVisible, expanded))
    decreases items
  {
    r := m;
    for i := 0 to |items|
      invariant r == SetAll(m, Visits(items[..i], depth, parentVisible, expanded))
    {
      var item := items[i];
      var visible := parentVisible && (item.FolderItem? || FileShown(item.path, expanded));
      var row := Row(item, depth, visible);
      ghost var before := r;
      r := MapSet(r, row);
      ghost var inner: seq<Row> := [];
      if item.FolderItem? {
        inner := Visits(item.children, depth + 1, visible && item.path in expanded, expanded);
        r := AddToMap(item.children, depth + 1, visible && item.path in expanded, expanded, r);
      }
      assert ItemVisits(item, depth, parentVisible, expanded) == [row] + inner;
      SetAllCons(before, row, inner);
      ItemVisitsOne(items, i, depth, parentVisible, expanded);
      SetAllAppend(m, Visits(items[..i], depth, parentVisible, expanded), [row] + inner);
    }
    assert items[..|items|] == items;
  }

  lemma ItemVisitsOne(items: seq<TreeItem>, i: nat, depth: nat, pv: bool, expanded: set<string>)
    requires i < |items|
    ensures Visits(items[..i + 1], depth, pv, expanded)
         == Visits(items[..i], depth, pv, expanded) + ItemVisits(items[i], depth, pv, expanded)
  {
    assert items[..i + 1] == items[..i] + [items[i]];
    VisitsAppend(items[..i], [items[i]], depth, pv, expanded);
    assert [items[i]][1..] == [];
  }

  /** `renderableTree`: the map filled from the root at depth 0, keeping the
      visible rows. */
  method RenderableTree(tree: seq<TreeItem>, expanded: set<string>) returns (rows: seq<Row>)
    ensures rows == Rendered(tree, expanded)
  {
    var m := AddToMap(tree, 0, true, expanded, []);
    rows := VisibleRows(m);
  }

  /** Every rendered row is visible and is the row a placed item of the tree
      decides; no two rendered rows share a path; and the rows come in the
      order in which their paths first occur in the tree. */
  lemma RenderedRows(tree: seq<TreeItem>, expanded: set<string>)
    ensures forall x :: x in Rendered(tree, expanded) ==>
      x.visible && exists p :: p in Placements(tree, []) && RowOf(p, expanded) == x
    ensures forall i, j :: 0 <= i < j < |Rendered(tree, expanded)| ==>
      Key(Rendered(tree, expanded)[i]) != Key(Rendered(tree, expanded)[j])
    ensures FirstSetOrder(Visits(tree, 0, true, expanded), Rendered(tree, expanded))
  {
    var rows := Visits(tree, 0, true, expanded);
    var m := SetAll([], rows);
    VisitsPlaced(tree, [], expanded);
    assert AllExpanded([], expanded);
    SetAllLastWins(rows);
    SetAllDistinct(rows);
    var ps := Placements(tree, []);
    forall x | x in Rendered(tree, expanded)
      ensures x.visible && exists p :: p in ps && RowOf(p, expanded) == x
    {
      var k :| 0 <= k < |m| && m[k] == x;
      var i :| 0 <= i < |rows| && rows[i] == m[k] && forall j :: i < j < |rows| ==> Key(rows[j]) != Key(m[k]);
      assert ps[i] in ps;
    }
    VisibleDistinct(m);
    SetAllOrder(rows);
    VisibleOrder(rows, m);
  }

  lemma VisibleOrder(rows: seq<Row>, m: seq<Row>)
    requires FirstSetOrder(rows, m)
    ensures FirstSetOrder(rows, VisibleRows(m))
  {
    if |m| > 0 {
      OrderTail(rows, m);
      VisibleOrder(rows, m[1..]);
      var r := VisibleRows(m);
      if m[0].visible {
        forall l | 0 < l < |r| ensures FirstAt(rows, Key(r[0])) < FirstAt(rows, Key(r[l])) {
          assert r[l] in VisibleRows(m[1..]);
        }
      }
    }
  }

  /** The rest of an ordered map is ordered, and its head comes first. */
  lemma OrderTail(rows: seq<Row>, m: seq<Row>)
    requires FirstSetOrder(rows, m) && |m| > 0
    ensures FirstSetOrder(rows, m[1..])
    ensures forall x :: x in m[1..] ==> FirstAt(rows, Key(m[0])) < FirstAt(rows, Key(x))
  {
    forall k, l | 0 <= k < l < |m| - 1 ensures FirstAt(rows, Key(m[1..][k])) < FirstAt(rows, Key(m[1..][l])) {
      assert m[1..][k] == m[k + 1] && m[1..][l] == m[l + 1];
    }
    forall x | x in m[1..] ensures FirstAt(rows, Key(m[0])) < FirstAt(rows, Key(x)) {
      var j :| 0 <= j < |m| - 1 && m[1..][j] == x;
      assert m[j + 1] == x;
    }
  }

  lemma VisibleDistinct(m: seq<Row>)
    requires DistinctKeys(m)
    ensures DistinctKeys(VisibleRows(m))
  {
    if |m| > 0 {
      VisibleDistinct(m[1..]);
      var r := VisibleRows(m);
      if m[0].visible {
        forall j | 0 < j < |r| ensures Key(r[0]) != Key(r[j]) {
          assert r[j] in VisibleRows(m[1..]);
        }
      }
    }
  }
}
