/**
 * `findTsxFiles`: the recursive walk of a directory block that collects every
 * `.tsx` file below it, with the repository path and the install target of
 * each, in the order the listings return them.
 */
module RegistryWalk {
  import opened Wrappers
  import opened Strings
  import opened FsTree
  import opened RegistryDeps

  const ComponentsDir: string := "content/components"
  const BlocksTarget: string := "/components/blocks"

  /** The block being walked: its category directory and its own name. */
  datatype Block = Block(category: string, id: string)

  /** One file the walk reports: its path below the block directory (which
      stands for the absolute path the parser is given), its repository path,
      its install target, and what parsing the file yields. */
  datatype FoundFile = FoundFile(rel: seq<string>, path: string, target: string, data: ParseResult)

  /** The repository path: the components directory joined with the file's
      path below it, backslashes turned into slashes. */
  function SourcePath(b: Block, rel: seq<string>): string {
    Slashes(ComponentsDir + "/" + b.category + "/" + b.id + "/" + Join(rel, "/"))
  }

  /** The install target: the block's target directory (itself already with
      slashes only) joined with the relative path, then made slashes-only. */
  function TargetPath(b: Block, rel: seq<string>): string {
    Slashes(Slashes(BlocksTarget + "/" + b.id) + "/" + Join(rel, "/"))
  }

  /** The target is `/components/blocks/<block>/` followed by the relative path,
      with every backslash replaced by a slash. */
  lemma TargetPathFlat(b: Block, rel: seq<string>)
    ensures TargetPath(b, rel) == Slashes(BlocksTarget + "/" + b.id + "/" + Join(rel, "/"))
  {
    SlashesUnder(BlocksTarget + "/" + b.id, "/", Join(rel, "/"));
  }

  function Found(b: Block, rel: seq<string>, data: ParseResult): FoundFile {
    FoundFile(rel, SourcePath(b, rel), TargetPath(b, rel), data)
  }

  /** The walk of the directory `n` found at `rel` below the block directory:
      `Err(p)` names the directory whose listing failed, which aborts the walk. */
  function WalkDir(b: Block, n: Node<ParseResult>, rel: seq<string>): Result<seq<FoundFile>, seq<string>>
    decreases n, 1
  {
    if n.Dir? then WalkListing(b, n, rel, |n.children|) else Err(rel)
  }

  /** The files found among the first `k` entries of the listing of `dir`. */
  function WalkListing(b: Block, dir: Node<ParseResult>, rel: seq<string>, k: nat)
    : Result<seq<FoundFile>, seq<string>>
    requires dir.Dir? && k <= |dir.children|
    decreases dir, 0, k
  {
    if k == 0 then Ok([])
    else
      match WalkListing(b, dir, rel, k - 1)
      case Err(p) => Err(p)
      case Ok(fs) =>
        var e := dir.children[k - 1];
        if IsDirectory(e) then
          match WalkDir(b, e, rel + [e.name])
          case Err(p) => Err(p)
          case Ok(more) => Ok(fs + more)
        else if e.File? && EndsWith(e.name, ".tsx") then Ok(fs + [Found(b, rel + [e.name], e.data)])
        else Ok(fs)
  }

  /** Once an entry has failed, the later entries change nothing. */
  lemma {:induction false} WalkErrorSticks(b: Block, dir: Node<ParseResult>, rel: seq<string>, k: nat, m: nat)
    requires dir.Dir? && k <= m <= |dir.children|
    requires WalkListing(b, dir, rel, k).Err?
    ensures WalkListing(b, dir, rel, m) == WalkListing(b, dir, rel, k)
    decreases m
  {
    if m > k {
      WalkErrorSticks(b, dir, rel, k, m - 1);
    }
  }

  /** `findTsxFiles(dirPath, baseSourceDir, baseTargetDir)`. */
  method FindTsxFiles(b: Block, n: Node<ParseResult>, rel: seq<string>)
    returns (r: Result<seq<FoundFile>, seq<string>>)
    ensures r == WalkDir(b, n, rel)
    decreases n
  {
    if !n.Dir? {
      return Err(rel);
    }
    var entries := n.children;
    var files: seq<FoundFile> := [];
    var i := 0;
    while i < |entries|
      invariant 0 <= i <= |entries|
      invariant WalkListing(b, n, rel, i) == Ok(files)
    {
      var e := entries[i];
      if e.Dir? || e.LockedDir? {
        var sub := FindTsxFiles(b, e, rel + [e.name]);
        if sub.Err? {
          WalkErrorSticks(b, n, rel, i + 1, |entries|);
          return sub;
        }
        files := files + sub.value;
      } else if e.File? && EndsWith(e.name, ".tsx") {
        files := files + [Found(b, rel + [e.name], e.data)];
      }
      i := i + 1;
    }
    r := Ok(files);
  }

  // ---------------------------------------------------------------------------
  // What the walk finds, stated on the tree

  /** Below directory `n`, the path `p` leads to a `.tsx` file holding `d`. */
  predicate TsxAt(n: Node<ParseResult>, p: seq<string>, d: ParseResult)
    decreases n, 0
  {
    n.Dir? && |p| > 0 && exists c :: c in n.children && EntryHas(c, p, d)
  }

  /** The entry `c` is the first step of the path `p` to a `.tsx` file holding `d`. */
  predicate EntryHas(c: Node<ParseResult>, p: seq<string>, d: ParseResult)
    requires |p| > 0
    decreases c, 1
  {
    c.name == p[0] &&
    if |p| == 1 then c.File? && EndsWith(c.name, ".tsx") && c.data == d
    else TsxAt(c, p[1..], d)
  }

  /** Some entry among the first `k` of the listing is the first step of `p`. */
  predicate TsxAmong(dir: Node<ParseResult>, k: nat, p: seq<string>, d: ParseResult)
    requires dir.Dir? && k <= |dir.children| && |p| > 0
  {
    exists j :: 0 <= j < k && EntryHas(dir.children[j], p, d)
  }

  /** The walk reports `rel + p` exactly when `p` leads to a `.tsx` file below
      the directory, and reports it with that file's parse result; every
      reported file lies strictly below `rel`, with its repository path and
      target computed from its relative path. */
  lemma {:induction false} WalkDirFinds(b: Block, n: Node<ParseResult>, rel: seq<string>)
    requires WalkDir(b, n, rel).Ok?
    ensures forall f :: f in WalkDir(b, n, rel).value ==> Reported(b, rel, f)
    ensures forall p, d :: |p| > 0 ==>
              (Lists(WalkDir(b, n, rel).value, rel + p, d) <==> TsxAt(n, p, d))
    decreases n, 1
  {
    WalkListingFinds(b, n, rel, |n.children|);
    forall p, d | |p| > 0 ensures TsxAmong(n, |n.children|, p, d) <==> TsxAt(n, p, d) {
      if TsxAt(n, p, d) {
        var c :| c in n.children && EntryHas(c, p, d);
        var j :| 0 <= j < |n.children| && n.children[j] == c;
      }
    }
  }

  /** `f` lies strictly below `rel` and carries the paths of its relative path. */
  predicate Reported(b: Block, rel: seq<string>, f: FoundFile) {
    |f.rel| > |rel| && f.rel[..|rel|] == rel
    && f.path == SourcePath(b, f.rel) && f.target == TargetPath(b, f.rel)
  }

  /** Some reported file has relative path `q` and parse result `d`. */
  predicate Lists(fs: seq<FoundFile>, q: seq<string>, d: ParseResult) {
    exists f :: f in fs && f.rel == q && f.data == d
  }

  lemma {:induction false} WalkListingFinds(b: Block, dir: Node<ParseResult>, rel: seq<string>, k: nat)
    requires dir.Dir? && k <= |dir.children|
    requires WalkListing(b, dir, rel, k).Ok?
    ensures forall f :: f in WalkListing(b, dir, rel, k).value ==> Reported(b, rel, f)
    ensures forall p, d :: |p| > 0 ==>
              (Lists(WalkListing(b, dir, rel, k).value, rel + p, d) <==> TsxAmong(dir, k, p, d))
    decreases dir, 0, k
  {
    if k > 0 {
      var fs := WalkListing(b, dir, rel, k - 1).value;
      WalkListingFinds(b, dir, rel, k - 1);
      var e := dir.children[k - 1];
      var all := WalkListing(b, dir, rel, k).value;
      var more := all[|fs|..];
      assert all == fs + more;
      EntryFinds(b, e, rel, more);
      forall p, d | |p| > 0
        ensures Lists(all, rel + p, d) <==> TsxAmong(dir, k, p, d)
      {
        ListsAppend(fs, more, rel + p, d);
        TsxAmongStep(dir, k, p, d);
      }
      forall f | f in all ensures Reported(b, rel, f) {
        if f !in fs {
          assert f in more;
        }
      }
    }
  }

  lemma ListsAppend(xs: seq<FoundFile>, ys: seq<FoundFile>, q: seq<string>, d: ParseResult)
    ensures Lists(xs + ys, q, d) <==> Lists(xs, q, d) || Lists(ys, q, d)
  {
    if Lists(xs + ys, q, d) {
      var f :| f in xs + ys && f.rel == q && f.data == d;
      if f in xs {
      } else {
        assert f in ys;
      }
    }
    if Lists(xs, q, d) {
      var f :| f in xs && f.rel == q && f.data == d;
      assert f in xs + ys;
    }
    if Lists(ys, q, d) {
      var f :| f in ys && f.rel == q && f.data == d;
      assert f in xs + ys;
    }
  }

  lemma TsxAmongStep(dir: Node<ParseResult>, k: nat, p: seq<string>, d: ParseResult)
    requires dir.Dir? && 0 < k <= |dir.children| && |p| > 0
    ensures TsxAmong(dir, k, p, d) <==>
            TsxAmong(dir, k - 1, p, d) || EntryHas(dir.children[k - 1], p, d)
  {
  }

  /** What one entry of a listing adds, when the listing succeeds past it. */
  lemma {:induction false} EntryFinds(b: Block, e: Node<ParseResult>, rel: seq<string>, more: seq<FoundFile>)
    requires IsDirectory(e) ==> WalkDir(b, e, rel + [e.name]) == Ok(more)
    requires !IsDirectory(e) && e.File? && EndsWith(e.name, ".tsx") ==>
             more == [Found(b, rel + [e.name], e.data)]
    requires !IsDirectory(e) && !(e.File? && EndsWith(e.name, ".tsx")) ==> more == []
    ensures forall f :: f in more ==> Reported(b, rel, f)
    ensures forall p, d :: |p| > 0 ==> (Lists(more, rel + p, d) <==> EntryHas(e, p, d))
    decreases e, 2
  {
    if IsDirectory(e) {
      var sub := rel + [e.name];
      WalkDirFinds(b, e, sub);
      forall f | f in more ensures Reported(b, rel, f) {
        assert Reported(b, sub, f);
        assert f.rel[..|rel|] == f.rel[..|sub|][..|rel|];
      }
      forall p, d | |p| > 0 ensures Lists(more, rel + p, d) <==> EntryHas(e, p, d) {
        DirEntryPath(b, e, rel, more, p, d);
      }
    } else if e.File? && EndsWith(e.name, ".tsx") {
      assert (rel + [e.name])[..|rel|] == rel;
      forall p, d | |p| > 0 ensures Lists(more, rel + p, d) <==> EntryHas(e, p, d) {
        FileEntryPath(b, e, rel, more, p, d);
      }
    }
  }

  lemma DirEntryPath(b: Block, e: Node<ParseResult>, rel: seq<string>, more: seq<FoundFile>,
                     p: seq<string>, d: ParseResult)
    requires IsDirectory(e) && |p| > 0
    requires forall f :: f in more ==> Reported(b, rel + [e.name], f)
    requires forall q, d :: |q| > 0 ==> (Lists(more, rel + [e.name] + q, d) <==> TsxAt(e, q, d))
    ensures Lists(more, rel + p, d) <==> EntryHas(e, p, d)
  {
    var sub := rel + [e.name];
    if Lists(more, rel + p, d) {
      var f :| f in more && f.rel == rel + p && f.data == d;
      assert Reported(b, sub, f);
      assert f.rel[|rel|] == f.rel[..|sub|][|rel|] == e.name;
      assert p[0] == e.name;
      assert |p| > 1;
      assert rel + p == sub + p[1..];
    }
    if EntryHas(e, p, d) {
      assert |p| > 1 && TsxAt(e, p[1..], d);
      assert rel + p == sub + p[1..];
    }
  }

  lemma FileEntryPath(b: Block, e: Node<ParseResult>, rel: seq<string>, more: seq<FoundFile>,
                      p: seq<string>, d: ParseResult)
    requires e.File? && EndsWith(e.name, ".tsx") && |p| > 0
    requires more == [Found(b, rel + [e.name], e.data)]
    ensures Lists(more, rel + p, d) <==> EntryHas(e, p, d)
  {
    var f := Found(b, rel + [e.name], e.data);
    if Lists(more, rel + p, d) {
      assert f.rel == rel + p;
      assert |p| == 1;
      assert p[0] == (rel + p)[|rel|];
      assert p == [e.name];
    }
    if EntryHas(e, p, d) {
      assert !TsxAt(e, p[1..], d);
      assert |p| == 1 && p[0] == e.name && e.data == d;
      assert p == [e.name];
      assert f in more && f.rel == rel + p && f.data == d;
    }
  }

  // ---------------------------------------------------------------------------
  // One entry per file

  /** The number of `.tsx` files at any depth below directory `n`. */
  function TsxCount(n: Node<ParseResult>): nat
    decreases n, 1
  {
    if n.Dir? then TsxCountListing(n, |n.children|) else 0
  }

  function TsxCountListing(dir: Node<ParseResult>, k: nat): nat
    requires dir.Dir? && k <= |dir.children|
    decreases dir, 0, k
  {
    if k == 0 then 0
    else
      var e := dir.children[k - 1];
      TsxCountListing(dir, k - 1)
      + (if e.Dir? then TsxCount(e) else if e.File? && EndsWith(e.name, ".tsx") then 1 else 0)
  }

  /** A successful walk reports exactly as many files as there are `.tsx`
      files below the directory: one entry per file, none for directories or
      other files. */
  lemma {:induction false} WalkDirCount(b: Block, n: Node<ParseResult>, rel: seq<string>)
    requires WalkDir(b, n, rel).Ok?
    ensures |WalkDir(b, n, rel).value| == TsxCount(n)
    decreases n, 1
  {
    WalkListingCount(b, n, rel, |n.children|);
  }

  lemma {:induction false} WalkListingCount(b: Block, dir: Node<ParseResult>, rel: seq<string>, k: nat)
    requires dir.Dir? && k <= |dir.children|
    requires WalkListing(b, dir, rel, k).Ok?
    ensures |WalkListing(b, dir, rel, k).value| == TsxCountListing(dir, k)
    decreases dir, 0, k
  {
    if k > 0 {
      WalkListingCount(b, dir, rel, k - 1);
      var e := dir.children[k - 1];
      if IsDirectory(e) {
        WalkDirCount(b, e, rel + [e.name]);
      }
    }
  }
}
