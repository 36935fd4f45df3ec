/**
 * The markdown generator: it rebuilds the `markdown` folder next to the
 * components folder, with one sub-folder per category holding each component
 * source as an `.mdx` file whose body is the source in a `tsx` code fence.
 *
 * The filesystem is a map from paths (sequences of names, relative to the
 * working directory, which is the root) to entries. A directory listing comes
 * back sorted, as the C library's `scandir` with `strcmp` returns it.
 */
module GenerateMarkdown {
  import opened Wrappers
  import opened Strings
  import opened Ordering

  // ---------------------------------------------------------------------------
  // wrapContentWithCodeBlock

  const FenceOpen: string := "````tsx\n"
  const FenceClose: string := "\n````"

  /** `wrapContentWithCodeBlock`: the trimmed content between a `tsx` fence
      line and a closing fence. */
  function Wrap(content: string): (r: string)
    ensures |r| == |FenceOpen| + |Trim(content)| + |FenceClose|
    ensures r[..|FenceOpen|] == FenceOpen && r[|r| - |FenceClose|..] == FenceClose
    ensures r[|FenceOpen|..|r| - |FenceClose|] == Trim(content)
  {
    var r := FenceOpen + Trim(content) + FenceClose;
    assert r[..|FenceOpen|] == FenceOpen;
    assert r[|r| - |FenceClose|..] == FenceClose;
    assert r[|FenceOpen|..|r| - |FenceClose|] == Trim(content);
    r
  }

  /** Whitespace around the content does not reach the output. */
  lemma WrapTrimmed(content: string)
    ensures Wrap(Trim(content)) == Wrap(content)
  {
    TrimIdempotent(content);
  }

  // ---------------------------------------------------------------------------
  // The filesystem

  type Path = seq<string>

  datatype Entry =
    | FileEntry(content: string)
    | DirEntry
    | OtherEntry   // a symbolic link or another special file

  type Entries = map<Path, Entry>

  /** The working directory is always a directory; it is not a key. */
  predicate IsDir(m: Entries, p: Path) {
    p == [] || (p in m && m[p].DirEntry?)
  }

  /** `q` has a name and its parent is a directory. */
  predicate ParentOk(m: Entries, q: Path) {
    |q| > 0 && IsDir(m, q[..|q| - 1])
  }

  /** Every entry sits in a directory. (The trigger keeps the solver from
      walking up the chain of parents on its own.) */
  predicate Valid(m: Entries) {
    forall q {:trigger ParentOk(m, q)} :: q in m ==> ParentOk(m, q)
  }

  /** `q` is `p` or lies below it. */
  predicate Under(q: Path, p: Path) {
    |p| <= |q| && q[..|p|] == p
  }

  /** Every proper non-empty prefix of an entry's path is a directory. */
  lemma {:induction false} Ancestor(m: Entries, q: Path, n: nat)
    requires Valid(m) && q in m && 0 < n < |q|
    ensures q[..n] in m && m[q[..n]].DirEntry?
    decreases |q| - n
  {
    assert ParentOk(m, q);
    var parent := q[..|q| - 1];
    if n < |q| - 1 {
      Ancestor(m, parent, n);
      assert parent[..n] == q[..n];
    }
  }

  /** The names directly inside `p`. */
  function ChildNames(m: Entries, p: Path): set<string> {
    set q | q in m && |q| == |p| + 1 && q[..|p|] == p :: q[|p|]
  }

  lemma ChildNamesMember(m: Entries, p: Path, n: string)
    ensures n in ChildNames(m, p) <==> p + [n] in m
  {
    var q := p + [n];
    assert q[..|p|] == p && q[|p|] == n;
    if n in ChildNames(m, p) {
      var q' :| q' in m && |q'| == |p| + 1 && q'[..|p|] == p && q'[|p|] == n;
      assert q' == q;
    }
  }

  /** A set of names in sorted order. */
  ghost function SortedOf(s: set<string>): (r: seq<string>)
    ensures StrictlySorted(r)
    ensures forall n :: n in r <==> n in s
    decreases |s|
  {
    if s == {} then []
    else
      var x := Least(s);
      var rest := SortedOf(s - {x});
      assert forall j :: 0 <= j < |rest| ==> Less(x, rest[j]) by {
        forall j | 0 <= j < |rest| ensures Less(x, rest[j]) {
          assert rest[j] in rest;
        }
      }
      [x] + rest
  }

  ghost function Least(s: set<string>): (x: string)
    requires s != {}
    ensures x in s && forall y :: y in s && y != x ==> Less(x, y)
  {
    LeastExists(s);
    var x :| IsLeast(s, x);
    x
  }

  lemma {:induction false} LeastExists(s: set<string>)
    requires s != {}
    ensures exists x :: IsLeast(s, x)
    decreases |s|
  {
    var a :| a in s;
    if s == {a} {
      assert IsLeast(s, a);
    } else {
      LeastExists(s - {a});
      var b :| IsLeast(s - {a}, b);
      LeastOfTwo(s, a, b);
    }
  }

  predicate IsLeast(s: set<string>, x: string) {
    x in s && forall y :: y in s && y != x ==> Less(x, y)
  }

  /** The lesser of `a` and the least element of the rest is the least element. */
  lemma LeastOfTwo(s: set<string>, a: string, b: string)
    requires a in s && IsLeast(s - {a}, b)
    ensures IsLeast(s, a) || IsLeast(s, b)
  {
    LessTotal(a, b);
    if Less(a, b) {
      forall y | y in s && y != a ensures Less(a, y) {
        if y != b {
          LessTransitive(a, b, y);
        }
      }
    }
  }

  /** What `readdirSync(p)` returns: the names inside `p`, sorted. */
  ghost function Listing(m: Entries, p: Path): (r: seq<string>)
    ensures StrictlySorted(r)
    ensures forall n :: n in r <==> p + [n] in m
  {
    var r := SortedOf(ChildNames(m, p));
    forall n ensures n in r <==> p + [n] in m {
      ChildNamesMember(m, p, n);
    }
    r
  }

  /** The map without `p` and everything below it. */
  function DeleteTree(m: Entries, p: Path): (r: Entries)
    ensures forall q :: q in r <==> q in m && !Under(q, p)
    ensures forall q :: q in r ==> r[q] == m[q]
  {
    map q | q in m && !Under(q, p) :: m[q]
  }

  lemma DeleteTreeValid(m: Entries, p: Path)
    requires Valid(m)
    ensures Valid(DeleteTree(m, p))
  {
    var r := DeleteTree(m, p);
    forall q | q in r ensures ParentOk(r, q) {
      assert ParentOk(m, q);
    }
  }

  /** Removing an entry that is not a directory removes nothing else. */
  lemma LeafDelete(m: Entries, c: Path)
    requires Valid(m) && c in m && !m[c].DirEntry?
    ensures m - {c} == DeleteTree(m, c)
  {
    assert ParentOk(m, c);
    forall q | q in m && q != c && Under(q, c) ensures false {
      assert q[..|q|] == q;
      Ancestor(m, q, |c|);
    }
  }

  /** Nothing lies below a path that is not there. */
  lemma NothingUnderMissing(m: Entries, p: Path)
    requires Valid(m) && |p| > 0 && p !in m
    ensures DeleteTree(m, p) == m
  {
    forall q | q in m && Under(q, p) ensures false {
      assert q[..|q|] == q;
      Ancestor(m, q, |p|);
    }
  }

  /** The map after the subtrees of the children `ns` of `p` are deleted in order. */
  function DeleteChildren(m: Entries, p: Path, ns: seq<string>): Entries
    decreases |ns|
  {
    if |ns| == 0 then m else DeleteTree(DeleteChildren(m, p, ns[..|ns| - 1]), p + [ns[|ns| - 1]])
  }

  lemma {:induction false} DeleteChildrenMember(m: Entries, p: Path, ns: seq<string>, q: Path)
    ensures q in DeleteChildren(m, p, ns) <==> q in m && forall k :: 0 <= k < |ns| ==> !Under(q, p + [ns[k]])
    ensures q in DeleteChildren(m, p, ns) ==> DeleteChildren(m, p, ns)[q] == m[q]
    decreases |ns|
  {
    if |ns| > 0 {
      var init := ns[..|ns| - 1];
      DeleteChildrenMember(m, p, init, q);
      assert forall k :: 0 <= k < |init| ==> init[k] == ns[k];
    }
  }

  /** Deleting every child's subtree and then `p` itself deletes the tree at `p`. */
  lemma DeleteAllChildren(m: Entries, p: Path, ns: seq<string>)
    requires Valid(m) && |p| > 0 && p in m && m[p].DirEntry?
    requires forall n :: n in ns <==> p + [n] in m
    ensures DeleteChildren(m, p, ns) - {p} == DeleteTree(m, p)
  {
    var l := DeleteChildren(m, p, ns) - {p};
    var r := DeleteTree(m, p);
    forall q ensures q in l <==> q in r {
      DeleteChildrenMember(m, p, ns, q);
      if q in m && q != p && Under(q, p) {
        BelowSomeChild(m, p, ns, q);
      }
      forall k | 0 <= k < |ns| && Under(q, p + [ns[k]]) ensures Under(q, p) && q != p {
        BelowChild(q, p, ns[k]);
      }
    }
    forall q | q in l ensures l[q] == r[q] {
      DeleteChildrenMember(m, p, ns, q);
    }
  }

  lemma BelowSomeChild(m: Entries, p: Path, ns: seq<string>, q: Path)
    requires Valid(m) && |p| > 0 && q in m && q != p && Under(q, p)
    requires forall n :: n in ns <==> p + [n] in m
    ensures exists k :: 0 <= k < |ns| && Under(q, p + [ns[k]])
  {
    assert q[..|q|] == q;
    var c := q[..|p| + 1];
    if |p| + 1 < |q| {
      Ancestor(m, q, |p| + 1);
    }
    assert c == p + [q[|p|]];
    assert q[|p|] in ns;
    var k :| 0 <= k < |ns| && ns[k] == q[|p|];
    assert Under(q, p + [ns[k]]);
  }

  lemma BelowChild(q: Path, p: Path, n: string)
    requires Under(q, p + [n])
    ensures Under(q, p) && q != p
  {
    assert q[..|p|] == (p + [n])[..|p|];
  }

  /** Deleting subtrees keeps the disk well formed and adds nothing. */
  lemma {:induction false} DeleteChildrenSub(m: Entries, p: Path, ns: seq<string>)
    requires Valid(m)
    ensures Valid(DeleteChildren(m, p, ns))
    ensures forall q :: q in DeleteChildren(m, p, ns) ==> q in m
    decreases |ns|
  {
    if |ns| > 0 {
      DeleteChildrenSub(m, p, ns[..|ns| - 1]);
      DeleteTreeValid(DeleteChildren(m, p, ns[..|ns| - 1]), p + [ns[|ns| - 1]]);
    }
  }

  /** What the turn of child `names[i]` in the delete loop starts from: a
      well-formed disk still holding that child, with the entries below it
      at most `depth - 1` further down; deleting the child's tree gives the
      disk of the next turn. */
  lemma DeleteTurn(m: Entries, p: Path, names: seq<string>, i: nat, depth: nat)
    requires Valid(m) && |p| > 0 && i < |names| && names == Listing(m, p)
    requires forall q :: q in m ==> |q| <= |p| + depth
    ensures var cur := DeleteChildren(m, p, names[..i]);
            var c := p + [names[i]];
            && Valid(cur) && c in cur && cur[c] == m[c] && depth > 0
            && (forall q :: q in cur ==> |q| <= |c| + (depth - 1))
            && DeleteChildren(m, p, names[..i + 1]) == DeleteTree(cur, c)
            && (!cur[c].DirEntry? ==> cur - {c} == DeleteTree(cur, c))
  {
    var c := p + [names[i]];
    DeleteChildrenSub(m, p, names[..i]);
    ChildPresent(m, p, names, i);
    var cur := DeleteChildren(m, p, names[..i]);
    if !cur[c].DirEntry? {
      LeafDelete(cur, c);
    }
    assert names[..i + 1][..i] == names[..i];
  }

  /** A child of the listing is still there, unchanged, when its turn comes. */
  lemma ChildPresent(m: Entries, p: Path, names: seq<string>, i: nat)
    requires StrictlySorted(names) && i < |names| && p + [names[i]] in m
    ensures p + [names[i]] in DeleteChildren(m, p, names[..i])
    ensures DeleteChildren(m, p, names[..i])[p + [names[i]]] == m[p + [names[i]]]
  {
    var c := p + [names[i]];
    DeleteChildrenMember(m, p, names[..i], c);
    forall k | 0 <= k < i ensures !Under(c, p + [names[..i][k]]) {
      SortedDistinct(names, k, i);
      assert names[..i][k] == names[k];
      assert c[|p|] == names[i] && (p + [names[k]])[|p|] == names[k];
      assert c[..|c|] == c;
    }
  }

  // ---------------------------------------------------------------------------
  // Writing

  /** `writeFileSync(p, content)`: it fails when the parent is not a directory
      or `p` is one. */
  function WriteFile(m: Entries, p: Path, content: string): (r: Option<Entries>)
    requires |p| > 0
  {
    if !IsDir(m, p[..|p| - 1]) || (p in m && m[p].DirEntry?) then None
    else Some(m[p := FileEntry(content)])
  }

  lemma WriteFileValid(m: Entries, p: Path, content: string)
    requires Valid(m) && |p| > 0 && WriteFile(m, p, content).Some?
    ensures Valid(WriteFile(m, p, content).value)
  {
    var r := WriteFile(m, p, content).value;
    forall q | q in r ensures ParentOk(r, q) {
      if q != p {
        assert ParentOk(m, q);
      }
    }
  }

  /** `mkdirSync(p, { recursive: true })`: the missing directories on the way
      to `p` are created; if one of them is there as a non-directory nothing is
      created and the call fails. */
  function MakeDirs(m: Entries, p: Path): (r: Option<Entries>)
    decreases |p|
  {
    if |p| == 0 then Some(m)
    else
      match MakeDirs(m, p[..|p| - 1])
      case None => None
      case Some(m1) =>
        if p !in m1 then Some(m1[p := DirEntry])
        else if m1[p].DirEntry? then Some(m1)
        else None
  }

  /** `MakeDirs` fails exactly when some prefix of the path is an entry that is
      not a directory, and otherwise adds directories at the prefixes of the
      path that were missing, and nothing else. */
  lemma {:induction false} MakeDirsSpec(m: Entries, p: Path)
    ensures MakeDirs(m, p).None? <==> exists n :: 0 < n <= |p| && p[..n] in m && !m[p[..n]].DirEntry?
    ensures MakeDirs(m, p).Some? ==>
      && IsDir(MakeDirs(m, p).value, p)
      && (forall q :: q in m ==> q in MakeDirs(m, p).value && MakeDirs(m, p).value[q] == m[q])
      && (forall q :: q in MakeDirs(m, p).value && q !in m ==> 0 < |q| <= |p| && q == p[..|q|] && MakeDirs(m, p).value[q] == DirEntry)
    decreases |p|
  {
    if |p| > 0 {
      var init := p[..|p| - 1];
      MakeDirsSpec(m, init);
      assert forall n :: 0 < n <= |init| ==> init[..n] == p[..n];
      assert p[..|p|] == p;
    }
  }

  lemma MakeDirsIsDir(m: Entries, p: Path)
    requires MakeDirs(m, p).Some?
    ensures IsDir(MakeDirs(m, p).value, p)
  {
  }

  lemma {:induction false} MakeDirsValid(m: Entries, p: Path)
    requires Valid(m) && MakeDirs(m, p).Some?
    ensures Valid(MakeDirs(m, p).value)
    decreases |p|
  {
    if |p| > 0 {
      var init := p[..|p| - 1];
      MakeDirsValid(m, init);
      var m1 := MakeDirs(m, init).value;
      if p !in m1 {
        var m2 := m1[p := DirEntry];
        MakeDirsIsDir(m, init);
        forall q | q in m2 ensures ParentOk(m2, q) {
          if q != p {
            assert ParentOk(m1, q);
          }
        }
      }
    }
  }

  // ---------------------------------------------------------------------------
  // copyDirectoryOnlyFiles, as a function of the state

  /** `path.extname(name) === ".tsx"`: the name ends in `.tsx` with at least
      one character before the dot. */
  predicate IsTsx(name: string) {
    |name| > 4 && EndsWith(name, ".tsx")
  }

  /** The name a copied file gets: `<basename>.mdx` for a `.tsx` file. */
  function Target(name: string): string {
    if IsTsx(name) then name[..|name| - 4] + ".mdx" else name
  }

  /** What a copied file holds: the fenced source for a `.tsx` file, the
      content unchanged otherwise. */
  function Output(name: string, content: string): string {
    if IsTsx(name) then Wrap(content) else content
  }

  /** The listing entry is copied: it is not `index.ts`, and the listing
      reports a regular file. */
  predicate Copied(snap: Entries, src: Path, n: string) {
    n != "index.ts" && src + [n] in snap && snap[src + [n]].FileEntry?
  }

  /** The state of the disk and whether the script is still running. */
  datatype Outcome = Outcome(entries: Entries, ok: bool)

  /** One turn of the copy loop: `snap` is the listing with its file types,
      `cur` the disk as it is now. */
  function CopyOne(cur: Entries, snap: Entries, src: Path, dest: Path, n: string): Outcome {
    if !Copied(snap, src, n) then Outcome(cur, true)
    else if !(src + [n] in cur && cur[src + [n]].FileEntry?) then Outcome(cur, false)
    else
      match WriteFile(cur, dest + [Target(n)], Output(n, cur[src + [n]].content))
      case None => Outcome(cur, false)
      case Some(m) => Outcome(m, true)
  }

  /** The copy loop over the first names of the listing; the first failure stops it. */
  function CopySteps(m: Entries, snap: Entries, src: Path, dest: Path, ns: seq<string>): Outcome
    decreases |ns|
  {
    if |ns| == 0 then Outcome(m, true)
    else
      var o := CopySteps(m, snap, src, dest, ns[..|ns| - 1]);
      if !o.ok then o else CopyOne(o.entries, snap, src, dest, ns[|ns| - 1])
  }

  lemma {:induction false} CopyStepsStopped(m: Entries, snap: Entries, src: Path, dest: Path, ns: seq<string>, i: nat)
    requires i <= |ns| && !CopySteps(m, snap, src, dest, ns[..i]).ok
    ensures CopySteps(m, snap, src, dest, ns) == CopySteps(m, snap, src, dest, ns[..i])
    decreases |ns| - i
  {
    if i < |ns| {
      assert ns[..i + 1][..i] == ns[..i];
      CopyStepsStopped(m, snap, src, dest, ns, i + 1);
    } else {
      assert ns[..i] == ns;
    }
  }

  /** `copyDirectoryOnlyFiles(src, dest)` on the disk `m`. */
  ghost function CopyOutcome(m: Entries, src: Path, dest: Path): Outcome
    requires |dest| > 0
  {
    var made := if dest in m then Some(m) else MakeDirs(m, dest);
    if made.None? then Outcome(m, false)
    else if !IsDir(made.value, src) then Outcome(made.value, false)
    else CopySteps(made.value, made.value, src, dest, Listing(made.value, src))
  }

  // ---------------------------------------------------------------------------
  // What the copy produces when nothing fails

  /** `q` lies strictly below `p`. */
  predicate Inside(q: Path, p: Path) {
    |p| < |q| && q[..|p|] == p
  }

  /** The disk after each copied name's output has been written at its
      target, in listing order, reading the sources from `m`. */
  function Expected(m: Entries, src: Path, dest: Path, ns: seq<string>): Entries
    decreases |ns|
  {
    if |ns| == 0 then m
    else
      var e := Expected(m, src, dest, ns[..|ns| - 1]);
      var n := ns[|ns| - 1];
      if Copied(m, src, n) then e[dest + [Target(n)] := FileEntry(Output(n, m[src + [n]].content))] else e
  }

  /** Outside `dest` the expected disk is `m`; inside it holds only files. */
  lemma {:induction false} ExpectedShape(m: Entries, src: Path, dest: Path, ns: seq<string>, q: Path)
    ensures !Inside(q, dest) ==> (q in Expected(m, src, dest, ns) <==> q in m)
    ensures !Inside(q, dest) && q in m ==> Expected(m, src, dest, ns)[q] == m[q]
    ensures Inside(q, dest) && q in Expected(m, src, dest, ns) && q !in m ==> Expected(m, src, dest, ns)[q].FileEntry?
    ensures q in m ==> q in Expected(m, src, dest, ns)
    ensures Inside(q, dest) && q in m && m[q].FileEntry? ==> Expected(m, src, dest, ns)[q].FileEntry?
    decreases |ns|
  {
    if |ns| > 0 {
      ExpectedShape(m, src, dest, ns[..|ns| - 1], q);
      var t := dest + [Target(ns[|ns| - 1])];
      assert t[..|dest|] == dest;
    }
  }

  /** A source entry never lies inside the destination when the source is
      not at or below it. */
  lemma SourceOutside(src: Path, dest: Path, n: string)
    requires !Under(src, dest)
    ensures !Inside(src + [n], dest)
  {
  }

  /** Copying into a directory that holds nothing but files, from a source
      that is not at or below it, never fails and yields the expected disk. */
  lemma {:induction false} CopyFresh(m: Entries, src: Path, dest: Path, ns: seq<string>)
    requires |dest| > 0 && IsDir(m, dest) && !Under(src, dest)
    requires forall q :: q in m && Inside(q, dest) ==> m[q].FileEntry?
    ensures CopySteps(m, m, src, dest, ns) == Outcome(Expected(m, src, dest, ns), true)
    decreases |ns|
  {
    if |ns| > 0 {
      var init := ns[..|ns| - 1];
      var n := ns[|ns| - 1];
      CopyFresh(m, src, dest, init);
      var e := Expected(m, src, dest, init);
      if Copied(m, src, n) {
        var from := src + [n];
        var to := dest + [Target(n)];
        SourceOutside(src, dest, n);
        ExpectedShape(m, src, dest, init, from);
        ExpectedShape(m, src, dest, init, dest);
        ExpectedShape(m, src, dest, init, to);
        assert to[..|to| - 1] == dest;
      }
    }
  }

  /** The output of the last copied name of `ns` whose target is `t`. */
  function LastFor(m: Entries, src: Path, ns: seq<string>, t: string): Option<string>
    decreases |ns|
  {
    if |ns| == 0 then None
    else
      var n := ns[|ns| - 1];
      if Copied(m, src, n) && Target(n) == t then Some(Output(n, m[src + [n]].content))
      else LastFor(m, src, ns[..|ns| - 1], t)
  }

  /** Each file of the destination holds the output of the last name copied
      to it; a name nothing was copied to is as it was. */
  lemma {:induction false} ExpectedTarget(m: Entries, src: Path, dest: Path, ns: seq<string>, t: string)
    ensures LastFor(m, src, ns, t).Some? ==>
      dest + [t] in Expected(m, src, dest, ns) && Expected(m, src, dest, ns)[dest + [t]] == FileEntry(LastFor(m, src, ns, t).value)
    ensures LastFor(m, src, ns, t).None? ==>
      && (dest + [t] in Expected(m, src, dest, ns) <==> dest + [t] in m)
      && (dest + [t] in m ==> Expected(m, src, dest, ns)[dest + [t]] == m[dest + [t]])
    decreases |ns|
  {
    if |ns| > 0 {
      ExpectedTarget(m, src, dest, ns[..|ns| - 1], t);
      var n := ns[|ns| - 1];
      if Target(n) != t {
        assert (dest + [Target(n)])[|dest|] != (dest + [t])[|dest|];
      }
    }
  }

  /** Paths that are not names directly inside `dest` are left alone. */
  lemma {:induction false} ExpectedElsewhere(m: Entries, src: Path, dest: Path, ns: seq<string>, q: Path)
    requires !(|q| == |dest| + 1 && q[..|dest|] == dest)
    ensures q in Expected(m, src, dest, ns) <==> q in m
    ensures q in m ==> Expected(m, src, dest, ns)[q] == m[q]
    decreases |ns|
  {
    if |ns| > 0 {
      ExpectedElsewhere(m, src, dest, ns[..|ns| - 1], q);
      var t := dest + [Target(ns[|ns| - 1])];
      assert t[..|dest|] == dest;
    }
  }

  /** The last name copied to `t` decides what `t` holds. */
  lemma {:induction false} LastForAt(m: Entries, src: Path, ns: seq<string>, k: nat, t: string)
    requires k < |ns| && Copied(m, src, ns[k]) && Target(ns[k]) == t
    requires forall j :: k < j < |ns| ==> !(Copied(m, src, ns[j]) && Target(ns[j]) == t)
    ensures LastFor(m, src, ns, t) == Some(Output(ns[k], m[src + [ns[k]]].content))
    decreases |ns|
  {
    if k < |ns| - 1 {
      var init := ns[..|ns| - 1];
      assert forall j :: k < j < |init| ==> init[j] == ns[j];
      LastForAt(m, src, init, k, t);
    }
  }

  /** Two different `.tsx` names have different targets. */
  lemma TsxTargetsDiffer(a: string, b: string)
    requires IsTsx(a) && IsTsx(b) && Target(a) == Target(b)
    ensures a == b
  {
    var ba := a[..|a| - 4];
    var bb := b[..|b| - 4];
    assert ba == Target(a)[..|Target(a)| - 4];
    assert bb == Target(b)[..|Target(b)| - 4];
    assert a == ba + ".tsx" && b == bb + ".tsx";
  }

  /** The only two names with the same target are `<base>.mdx` and `<base>.tsx`. */
  lemma TargetCollision(a: string, b: string)
    requires a != b && Target(a) == Target(b) && !IsTsx(a)
    ensures IsTsx(b) && a == b[..|b| - 4] + ".mdx"
  {
  }

  lemma {:induction false} MdxBeforeTsx(b: string)
    ensures Less(b + ".mdx", b + ".tsx")
    decreases |b|
  {
    if |b| == 0 {
      assert (".mdx")[1..] == "mdx" && (".tsx")[1..] == "tsx";
    } else {
      MdxBeforeTsx(b[1..]);
      assert (b + ".mdx")[1..] == b[1..] + ".mdx";
      assert (b + ".tsx")[1..] == b[1..] + ".tsx";
    }
  }

  /** A copied `.tsx` file becomes `<base>.mdx` holding its fenced source,
      also when a `<base>.mdx` is copied too: the listing is sorted and
      `.mdx` comes before `.tsx`, so the fenced source is written last. */
  lemma TsxCopied(m: Entries, src: Path, ns: seq<string>, k: nat)
    requires StrictlySorted(ns) && k < |ns| && Copied(m, src, ns[k]) && IsTsx(ns[k])
    ensures LastFor(m, src, ns, Target(ns[k])) == Some(Wrap(m[src + [ns[k]]].content))
  {
    var t := Target(ns[k]);
    forall j | k < j < |ns| ensures !(Copied(m, src, ns[j]) && Target(ns[j]) == t) {
      if Copied(m, src, ns[j]) && Target(ns[j]) == t {
        SortedDistinct(ns, k, j);
        if IsTsx(ns[j]) {
          TsxTargetsDiffer(ns[j], ns[k]);
        } else {
          TargetCollision(ns[j], ns[k]);
          MdxBeforeTsx(ns[k][..|ns[k]| - 4]);
          assert ns[k] == ns[k][..|ns[k]| - 4] + ".tsx";
          LessAsymmetric(ns[k], ns[j]);
        }
      }
    }
    LastForAt(m, src, ns, k, t);
  }

  /** Any other copied file keeps its name and its content, unless a `.tsx`
      file of the same base is copied too. */
  lemma PlainCopied(m: Entries, src: Path, ns: seq<string>, k: nat)
    requires StrictlySorted(ns) && k < |ns| && Copied(m, src, ns[k]) && !IsTsx(ns[k])
    requires forall j :: 0 <= j < |ns| && Copied(m, src, ns[j]) && IsTsx(ns[j]) ==> Target(ns[j]) != ns[k]
    ensures LastFor(m, src, ns, ns[k]) == Some(m[src + [ns[k]]].content)
  {
    forall j | k < j < |ns| ensures !(Copied(m, src, ns[j]) && Target(ns[j]) == ns[k]) {
      SortedDistinct(ns, k, j);
    }
    LastForAt(m, src, ns, k, ns[k]);
  }

  /** Nothing is written at a name that no listed file is copied to. */
  lemma {:induction false} LastForNone(m: Entries, src: Path, ns: seq<string>, t: string)
    ensures LastFor(m, src, ns, t).None? <==> forall j :: 0 <= j < |ns| ==> !(Copied(m, src, ns[j]) && Target(ns[j]) == t)
    decreases |ns|
  {
    if |ns| > 0 {
      var init := ns[..|ns| - 1];
      LastForNone(m, src, init, t);
      assert forall j :: 0 <= j < |init| ==> init[j] == ns[j];
    }
  }

  // ---------------------------------------------------------------------------
  // The script

  /** `path.join(path.dirname(folder), "markdown")`: the folder's sibling
      named `markdown`, or `markdown` in the working directory. */
  function OutputFolder(folder: Path): (r: Path)
    ensures |r| > 0 && r[|r| - 1] == "markdown"
    ensures |folder| > 0 ==> |r| == |folder| && r[..|r| - 1] == folder[..|folder| - 1]
    ensures |folder| == 0 ==> r == ["markdown"]
  {
    (if |folder| == 0 then [] else folder[..|folder| - 1]) + ["markdown"]
  }

  /** How the script ends: the usage message with exit code 1, an uncaught
      filesystem error, or the success message. */
  datatype Status = Usage | Crashed | Done

  datatype Run = Run(entries: Entries, status: Status)

  function Child(p: Path, n: string): (r: Path)
    ensures |r| == |p| + 1 && r[..|p|] == p && r[|p|] == n
  {
    p + [n]
  }

  /** The listing of `folder` reports `c` as a directory. */
  predicate IsCategory(snap: Entries, folder: Path, c: string) {
    Child(folder, c) in snap && snap[Child(folder, c)].DirEntry?
  }

  /** The category loop over the first names of the listing of `folder`:
      each directory is copied to the same name in `out`, and the first
      failure stops the script. */
  ghost function CategorySteps(m: Entries, snap: Entries, folder: Path, out: Path, cs: seq<string>): Outcome
    decreases |cs|
  {
    if |cs| == 0 then Outcome(m, true)
    else
      var o := CategorySteps(m, snap, folder, out, cs[..|cs| - 1]);
      var c := cs[|cs| - 1];
      if !o.ok || !IsCategory(snap, folder, c) then o
      else CopyOutcome(o.entries, Child(folder, c), Child(out, c))
  }

  lemma {:induction false} CategoryStepsStopped(m: Entries, snap: Entries, folder: Path, out: Path, cs: seq<string>, i: nat)
    requires i <= |cs| && !CategorySteps(m, snap, folder, out, cs[..i]).ok
    ensures CategorySteps(m, snap, folder, out, cs) == CategorySteps(m, snap, folder, out, cs[..i])
    decreases |cs| - i
  {
    if i < |cs| {
      assert cs[..i + 1][..i] == cs[..i];
      CategoryStepsStopped(m, snap, folder, out, cs, i + 1);
    } else {
      assert cs[..i] == cs;
    }
  }

  lemma CategoryStepsNext(m: Entries, snap: Entries, folder: Path, out: Path, cs: seq<string>, i: nat)
    requires i < |cs| && CategorySteps(m, snap, folder, out, cs[..i]).ok
    ensures CategorySteps(m, snap, folder, out, cs[..i + 1]) ==
      if IsCategory(snap, folder, cs[i]) then CopyOutcome(CategorySteps(m, snap, folder, out, cs[..i]).entries, Child(folder, cs[i]), Child(out, cs[i]))
      else CategorySteps(m, snap, folder, out, cs[..i])
  {
    assert cs[..i + 1][..i] == cs[..i];
  }

  /** One turn of the category loop: a failure is the outcome of the whole
      loop, a success the outcome of the loop so far. */
  lemma CategoryStepTaken(snap: Entries, folder: Path, out: Path, cs: seq<string>, i: nat, before: Outcome, after: Outcome)
    requires i < |cs| && CategorySteps(snap, snap, folder, out, cs[..i]) == before && before.ok
    requires after == if IsCategory(snap, folder, cs[i]) then CopyOutcome(before.entries, Child(folder, cs[i]), Child(out, cs[i])) else before
    ensures after.ok ==> CategorySteps(snap, snap, folder, out, cs[..i + 1]) == after
    ensures !after.ok ==> CategorySteps(snap, snap, folder, out, cs) == after
  {
    CategoryStepsNext(snap, snap, folder, out, cs, i);
    if !after.ok {
      CategoryStepsStopped(snap, snap, folder, out, cs, i + 1);
    }
  }

  /** The script run with the command-line arguments `args` on the disk `m`. */
  ghost function ScriptOutcome(m: Entries, args: seq<Path>): Run {
    if |args| != 1 then Run(m, Usage)
    else
      var folder := args[0];
      var out := OutputFolder(folder);
      if out in m && !m[out].DirEntry? then Run(m, Crashed)
      else
        var cleared := DeleteTree(m, out);
        var made := if out in cleared then Some(cleared) else MakeDirs(cleared, out);
        if made.None? then Run(cleared, Crashed)
        else if !IsDir(made.value, folder) then Run(made.value, Crashed)
        else
          var o := CategorySteps(made.value, made.value, folder, out, Listing(made.value, folder));
          Run(o.entries, if o.ok then Done else Crashed)
  }

  /** A bound on the length of the paths of a set. */
  ghost function MaxLen(ks: set<Path>): (r: nat)
    ensures forall q :: q in ks ==> |q| <= r
    decreases |ks|
  {
    if ks == {} then 0
    else
      var q :| q in ks;
      var r := MaxLen(ks - {q});
      if |q| > r then |q| else r
  }

  // ---------------------------------------------------------------------------
  // What the script leaves in the output folder

  predicate SameAt(a: Entries, b: Entries, q: Path) {
    (q in a <==> q in b) && (q in a ==> a[q] == b[q])
  }

  /** What the copy of the directory `src` holds at the name `t`: the output
      of the last listed source file copied to `t`. */
  ghost function CopiedTo(m: Entries, src: Path, t: string): Option<string> {
    LastFor(m, src, Listing(m, src), t)
  }

  /** Creating a directory whose ancestors are all there adds just that directory. */
  lemma {:induction false} MakeDirsPresent(m: Entries, p: Path)
    requires forall k :: 0 < k <= |p| ==> p[..k] in m && m[p[..k]].DirEntry?
    ensures MakeDirs(m, p) == Some(m)
    decreases |p|
  {
    if |p| > 0 {
      var init := p[..|p| - 1];
      forall k | 0 < k <= |init| ensures init[..k] in m && m[init[..k]].DirEntry? {
        assert init[..k] == p[..k];
      }
      MakeDirsPresent(m, init);
      assert p[..|p|] == p;
    }
  }

  lemma MakeDirsLeaf(m: Entries, p: Path)
    requires |p| > 0 && p !in m
    requires forall k :: 0 < k < |p| ==> p[..k] in m && m[p[..k]].DirEntry?
    ensures MakeDirs(m, p) == Some(m[p := DirEntry])
  {
    var init := p[..|p| - 1];
    forall k | 0 < k <= |init| ensures init[..k] in m && m[init[..k]].DirEntry? {
      assert init[..k] == p[..k];
    }
    MakeDirsPresent(m, init);
  }

  /** The output of two disks agrees when their source files agree. */
  lemma {:induction false} LastForFrame(a: Entries, b: Entries, src: Path, ns: seq<string>, t: string)
    requires forall n :: SameAt(a, b, Child(src, n))
    ensures LastFor(a, src, ns, t) == LastFor(b, src, ns, t)
    decreases |ns|
  {
    if |ns| > 0 {
      assert SameAt(a, b, Child(src, ns[|ns| - 1]));
      LastForFrame(a, b, src, ns[..|ns| - 1], t);
    }
  }

  lemma ListingFrame(a: Entries, b: Entries, p: Path)
    requires forall n :: SameAt(a, b, Child(p, n))
    ensures Listing(a, p) == Listing(b, p)
  {
    forall n ensures n in ChildNames(a, p) <==> n in ChildNames(b, p) {
      assert SameAt(a, b, Child(p, n));
      ChildNamesMember(a, p, n);
      ChildNamesMember(b, p, n);
    }
    assert ChildNames(a, p) == ChildNames(b, p);
  }

  /** The disk `base` when the category loop starts: `out` is an empty
      directory next to `folder`, and outside `out` the disk is `m`. */
  ghost predicate Stage(base: Entries, m: Entries, folder: Path, out: Path) {
    && |folder| == |out| > 0 && folder[..|out| - 1] == out[..|out| - 1] && folder != out
    && (forall k :: 0 < k <= |out| ==> out[..k] in base && base[out[..k]].DirEntry?)
    && (forall q :: !Under(q, out) ==> SameAt(base, m, q))
    && (forall q :: q in base ==> !Inside(q, out))
  }

  /** Outside `out` the disk is `base`, and nothing lies more than two
      levels inside `out`. */
  ghost predicate MirrorFrame(r: Entries, base: Entries, out: Path) {
    && (forall q :: !Inside(q, out) ==> SameAt(r, base, q))
    && (forall q :: q in r && Inside(q, out) ==> |q| <= |out| + 2)
  }

  /** The folders directly inside `out` are those of the categories `done`. */
  ghost predicate MirrorDirs(r: Entries, out: Path, done: set<string>) {
    && (forall c :: Child(out, c) in r <==> c in done)
    && (forall c :: Child(out, c) in r ==> r[Child(out, c)] == DirEntry)
  }

  /** The folder of each category of `done` holds the copy of that category's
      directory in `folder` on `m`. */
  ghost predicate MirrorFiles(r: Entries, m: Entries, folder: Path, out: Path, done: set<string>) {
    && (forall c, t :: Child(Child(out, c), t) in r <==> c in done && CopiedTo(m, Child(folder, c), t).Some?)
    && (forall c, t :: Child(Child(out, c), t) in r ==> r[Child(Child(out, c), t)] == FileEntry(CopiedTo(m, Child(folder, c), t).value))
  }

  ghost predicate Mirrors(r: Entries, base: Entries, m: Entries, folder: Path, out: Path, done: set<string>) {
    MirrorFrame(r, base, out) && MirrorDirs(r, out, done) && MirrorFiles(r, m, folder, out, done)
  }

  /** The categories among the first names of the listing. */
  ghost function DoneIn(m: Entries, folder: Path, cs: seq<string>): set<string> {
    set c | c in cs && IsCategory(m, folder, c)
  }

  lemma DoneNext(m: Entries, folder: Path, cs: seq<string>, i: nat)
    requires StrictlySorted(cs) && i < |cs|
    ensures cs[i] !in DoneIn(m, folder, cs[..i])
    ensures DoneIn(m, folder, cs[..i + 1]) ==
      if IsCategory(m, folder, cs[i]) then DoneIn(m, folder, cs[..i]) + {cs[i]} else DoneIn(m, folder, cs[..i])
  {
    forall k | 0 <= k < i ensures cs[..i][k] != cs[i] {
      SortedDistinct(cs, k, i);
    }
    assert cs[..i + 1] == cs[..i] + [cs[i]];
  }

  /** A path just inside a category's folder, or the folder itself. */
  lemma InsideShape(q: Path, out: Path)
    requires Inside(q, out) && |q| <= |out| + 2
    ensures |q| == |out| + 1 ==> q == Child(out, q[|out|])
    ensures |q| == |out| + 2 ==> q == Child(Child(out, q[|out|]), q[|out| + 1])
  {
    if |q| == |out| + 2 {
      assert q[..|out| + 1] == Child(out, q[|out|]);
    }
  }

  /** The source entries of a category lie outside `out`. */
  lemma SourceNotInOut(folder: Path, out: Path, c: string, n: string)
    requires |folder| == |out| && folder != out
    ensures !Under(Child(folder, c), out) && !Under(Child(Child(folder, c), n), out)
  {
    assert Child(Child(folder, c), n)[..|out|] == folder;
  }

  /** Copying a category that has no folder yet in `out` creates its folder
      and then never fails. */
  lemma CopyNewCategory(r: Entries, base: Entries, m: Entries, folder: Path, out: Path, done: set<string>, c: string)
    requires Stage(base, m, folder, out) && Mirrors(r, base, m, folder, out, done)
    requires c !in done && IsCategory(base, folder, c)
    ensures var src := Child(folder, c);
      var dest := Child(out, c);
      CopyOutcome(r, src, dest) == Outcome(Expected(r[dest := DirEntry], src, dest, Listing(m, src)), true)
  {
    var src := Child(folder, c);
    var dest := Child(out, c);
    SourceNotInOut(folder, out, c, "");
    assert SameAt(r, base, src);
    forall k | 0 < k < |dest| ensures dest[..k] in r && r[dest[..k]].DirEntry? {
      assert dest[..k] == out[..k];
      assert SameAt(r, base, out[..k]);
    }
    MakeDirsLeaf(r, dest);
    var m1 := r[dest := DirEntry];
    forall q | q in m1 && Inside(q, dest) ensures false {
      assert q[..|out|] == out;
      InsideShape(q, out);
    }
    CopyFresh(m1, src, dest, Listing(m1, src));
    CategorySources(r, base, m, folder, out, c);
    ListingFrame(m1, m, src);
  }

  /** The sources of a category are the same on `m` and on the output as it
      is being built. */
  lemma CategorySources(r: Entries, base: Entries, m: Entries, folder: Path, out: Path, c: string)
    requires Stage(base, m, folder, out) && MirrorFrame(r, base, out)
    ensures forall n :: SameAt(r[Child(out, c) := DirEntry], m, Child(Child(folder, c), n))
  {
    forall n ensures SameAt(r[Child(out, c) := DirEntry], m, Child(Child(folder, c), n)) {
      SourceNotInOut(folder, out, c, n);
      assert SameAt(r, base, Child(Child(folder, c), n));
    }
  }

  /** What the copy of `c` leaves outside its own folder. */
  lemma AfterCopyOutside(r: Entries, base: Entries, out: Path, done: set<string>, c: string, src: Path, ns: seq<string>)
    requires MirrorFrame(r, base, out) && MirrorDirs(r, out, done) && c !in done
    ensures var e := Expected(r[Child(out, c) := DirEntry], src, Child(out, c), ns);
      MirrorFrame(e, base, out) && MirrorDirs(e, out, done + {c})
  {
    var dest := Child(out, c);
    var m1 := r[dest := DirEntry];
    var e := Expected(m1, src, dest, ns);
    forall q | !Inside(q, out) ensures SameAt(e, base, q) {
      ExpectedElsewhere(m1, src, dest, ns, q);
    }
    forall q | q in e && Inside(q, out) ensures |q| <= |out| + 2 {
      if !(|q| == |dest| + 1 && q[..|dest|] == dest) {
        ExpectedElsewhere(m1, src, dest, ns, q);
      }
    }
    forall c' ensures (Child(out, c') in e <==> c' in done + {c}) && (Child(out, c') in e ==> e[Child(out, c')] == DirEntry) {
      ExpectedElsewhere(m1, src, dest, ns, Child(out, c'));
    }
  }

  /** What the copy of `c` leaves in the category folders. */
  lemma AfterCopyFiles(r: Entries, m: Entries, folder: Path, out: Path, done: set<string>, c: string, ns: seq<string>)
    requires MirrorFiles(r, m, folder, out, done) && c !in done
    requires forall t :: LastFor(r[Child(out, c) := DirEntry], Child(folder, c), ns, t) == CopiedTo(m, Child(folder, c), t)
    ensures MirrorFiles(Expected(r[Child(out, c) := DirEntry], Child(folder, c), Child(out, c), ns), m, folder, out, done + {c})
  {
    var src := Child(folder, c);
    var dest := Child(out, c);
    var m1 := r[dest := DirEntry];
    var e := Expected(m1, src, dest, ns);
    forall c', t
      ensures Child(Child(out, c'), t) in e <==> c' in done + {c} && CopiedTo(m, Child(folder, c'), t).Some?
      ensures Child(Child(out, c'), t) in e ==> e[Child(Child(out, c'), t)] == FileEntry(CopiedTo(m, Child(folder, c'), t).value)
    {
      var q := Child(Child(out, c'), t);
      if c' == c {
        ExpectedTarget(m1, src, dest, ns, t);
        assert q == dest + [t];
      } else {
        assert q[..|dest|] == Child(out, c');
        ExpectedElsewhere(m1, src, dest, ns, q);
      }
    }
  }

  /** Copying a new category extends the mirror by its folder. */
  lemma CategoryCopy(r: Entries, base: Entries, m: Entries, folder: Path, out: Path, done: set<string>, c: string)
    requires Stage(base, m, folder, out) && Mirrors(r, base, m, folder, out, done)
    requires c !in done && IsCategory(base, folder, c)
    ensures CopyOutcome(r, Child(folder, c), Child(out, c)).ok
    ensures Mirrors(CopyOutcome(r, Child(folder, c), Child(out, c)).entries, base, m, folder, out, done + {c})
  {
    var src := Child(folder, c);
    var ns := Listing(m, src);
    CopyNewCategory(r, base, m, folder, out, done, c);
    CategorySources(r, base, m, folder, out, c);
    forall t ensures LastFor(r[Child(out, c) := DirEntry], src, ns, t) == CopiedTo(m, src, t) {
      LastForFrame(r[Child(out, c) := DirEntry], m, src, ns, t);
    }
    AfterCopyOutside(r, base, out, done, c, src, ns);
    AfterCopyFiles(r, m, folder, out, done, c, ns);
  }

  /** The category loop over a sorted listing never fails and builds the mirror. */
  lemma {:induction false} CategoriesMirrored(base: Entries, m: Entries, folder: Path, out: Path, cs: seq<string>, i: nat)
    requires Stage(base, m, folder, out) && StrictlySorted(cs) && i <= |cs|
    ensures CategorySteps(base, base, folder, out, cs[..i]).ok
    ensures Mirrors(CategorySteps(base, base, folder, out, cs[..i]).entries, base, m, folder, out, DoneIn(m, folder, cs[..i]))
    decreases i
  {
    if i == 0 {
      assert cs[..0] == [];
      assert DoneIn(m, folder, cs[..0]) == {};
      MirrorsStart(base, m, folder, out);
    } else {
      CategoriesMirrored(base, m, folder, out, cs, i - 1);
      CategoryStep(base, m, folder, out, cs, i - 1);
    }
  }

  /** Before the loop, the output folder is empty. */
  lemma MirrorsStart(base: Entries, m: Entries, folder: Path, out: Path)
    requires Stage(base, m, folder, out)
    ensures Mirrors(base, base, m, folder, out, {})
  {
    forall c ensures Child(out, c) !in base {
      assert Inside(Child(out, c), out);
    }
    forall c, t ensures Child(Child(out, c), t) !in base {
      assert Child(Child(out, c), t)[..|out|] == out;
      assert Inside(Child(Child(out, c), t), out);
    }
  }

  /** One turn of the category loop keeps the mirror. */
  lemma CategoryStep(base: Entries, m: Entries, folder: Path, out: Path, cs: seq<string>, i: nat)
    requires Stage(base, m, folder, out) && StrictlySorted(cs) && i < |cs|
    requires CategorySteps(base, base, folder, out, cs[..i]).ok
    requires Mirrors(CategorySteps(base, base, folder, out, cs[..i]).entries, base, m, folder, out, DoneIn(m, folder, cs[..i]))
    ensures CategorySteps(base, base, folder, out, cs[..i + 1]).ok
    ensures Mirrors(CategorySteps(base, base, folder, out, cs[..i + 1]).entries, base, m, folder, out, DoneIn(m, folder, cs[..i + 1]))
  {
    var c := cs[i];
    CategoryStepsNext(base, base, folder, out, cs, i);
    DoneNext(m, folder, cs, i);
    SourceNotInOut(folder, out, c, "");
    assert SameAt(base, m, Child(folder, c));
    var r := CategorySteps(base, base, folder, out, cs[..i]).entries;
    if IsCategory(base, folder, c) {
      CategoryCopy(r, base, m, folder, out, DoneIn(m, folder, cs[..i]), c);
    }
  }

  /** The disk `r` after a successful run on `m` with the components folder
      `folder`: outside the output folder nothing changed; the output folder
      holds a folder per category directory, and in it, at each name, the
      output of the last listed source file copied to that name. */
  ghost predicate Mirrored(r: Entries, m: Entries, folder: Path) {
    var out := OutputFolder(folder);
    && (forall q :: !Under(q, out) ==> SameAt(r, m, q))
    && out in r && r[out] == DirEntry
    && (forall q :: q in r && Inside(q, out) ==> |q| <= |out| + 2)
    && (forall c :: Child(out, c) in r <==> IsCategory(m, folder, c))
    && (forall c :: Child(out, c) in r ==> r[Child(out, c)] == DirEntry)
    && (forall c, t :: Child(Child(out, c), t) in r <==> IsCategory(m, folder, c) && CopiedTo(m, Child(folder, c), t).Some?)
    && (forall c, t :: Child(Child(out, c), t) in r ==> r[Child(Child(out, c), t)] == FileEntry(CopiedTo(m, Child(folder, c), t).value))
  }

  /** Clearing the output folder and creating it again gives the disk the
      category loop starts from. */
  lemma ClearedStage(m: Entries, folder: Path)
    requires Valid(m) && |folder| > 0 && IsDir(m, folder) && folder[|folder| - 1] != "markdown"
    ensures var out := OutputFolder(folder);
      var cleared := DeleteTree(m, out);
      && out !in cleared
      && MakeDirs(cleared, out) == Some(cleared[out := DirEntry])
      && Stage(cleared[out := DirEntry], m, folder, out)
      && IsDir(cleared[out := DirEntry], folder)
  {
    var out := OutputFolder(folder);
    var cleared := DeleteTree(m, out);
    forall k | 0 < k < |out| ensures out[..k] in cleared && cleared[out[..k]].DirEntry? {
      assert out[..k] == folder[..k];
      Ancestor(m, folder, k);
    }
    MakeDirsLeaf(cleared, out);
    var base := cleared[out := DirEntry];
    assert folder != out;
    forall k | 0 < k <= |out| ensures out[..k] in base && base[out[..k]].DirEntry? {
      if k == |out| {
        assert out[..k] == out;
      }
    }
    assert SameAt(base, m, folder);
  }

  /** The mirror built by the category loop is the mirror of `folder`. */
  lemma MirrorsComplete(r: Entries, base: Entries, m: Entries, folder: Path)
    requires Stage(base, m, folder, OutputFolder(folder))
    requires Mirrors(r, base, m, folder, OutputFolder(folder), DoneIn(m, folder, Listing(base, folder)))
    ensures Mirrored(r, m, folder)
  {
    var out := OutputFolder(folder);
    var cs := Listing(base, folder);
    forall c ensures c in DoneIn(m, folder, cs) <==> IsCategory(m, folder, c) {
      SourceNotInOut(folder, out, c, "");
      assert SameAt(base, m, Child(folder, c));
    }
    assert out[..|out|] == out;
    assert SameAt(r, base, out);
    forall q | !Under(q, out) ensures SameAt(r, m, q) {
      assert !Inside(q, out);
    }
  }

  /** On a well-formed disk where `folder` is a directory not itself named
      `markdown`, and its sibling `markdown` is a directory or missing, the
      script succeeds and leaves the mirror of `folder`. */
  lemma ScriptMirrors(m: Entries, folder: Path)
    requires Valid(m) && |folder| > 0 && IsDir(m, folder) && folder[|folder| - 1] != "markdown"
    requires OutputFolder(folder) !in m || m[OutputFolder(folder)].DirEntry?
    ensures ScriptOutcome(m, [folder]).status == Done
    ensures Mirrored(ScriptOutcome(m, [folder]).entries, m, folder)
  {
    var out := OutputFolder(folder);
    ClearedStage(m, folder);
    var base := DeleteTree(m, out)[out := DirEntry];
    var cs := Listing(base, folder);
    CategoriesMirrored(base, m, folder, out, cs, |cs|);
    assert cs[..|cs|] == cs;
    MirrorsComplete(CategorySteps(base, base, folder, out, cs).entries, base, m, folder);
  }

  /** Given a folder that is itself named `markdown`, the script is its own
      output folder: it deletes the folder and leaves it empty. */
  lemma ScriptOnOwnOutput(m: Entries, folder: Path)
    requires Valid(m) && |folder| > 0 && IsDir(m, folder) && folder[|folder| - 1] == "markdown"
    ensures ScriptOutcome(m, [folder]) == Run(DeleteTree(m, folder)[folder := DirEntry], Done)
  {
    var out := OutputFolder(folder);
    assert out == folder;
    var cleared := DeleteTree(m, out);
    forall k | 0 < k < |out| ensures out[..k] in cleared && cleared[out[..k]].DirEntry? {
      Ancestor(m, folder, k);
    }
    MakeDirsLeaf(cleared, out);
    var made := cleared[out := DirEntry];
    assert Listing(made, folder) == [] by {
      var cs := Listing(made, folder);
      assert forall n :: n !in cs;
    }
  }

  /** A component's `.tsx` source lands in its category's folder as the
      `.mdx` file of the same base name, holding the fenced source. */
  lemma ScriptWrapsTsx(m: Entries, folder: Path, r: Entries, c: string, n: string)
    requires Mirrored(r, m, folder) && IsCategory(m, folder, c)
    requires Copied(m, Child(folder, c), n) && IsTsx(n)
    ensures Child(Child(OutputFolder(folder), c), Target(n)) in r
    ensures r[Child(Child(OutputFolder(folder), c), Target(n))] == FileEntry(Wrap(m[Child(Child(folder, c), n)].content))
  {
    var src := Child(folder, c);
    var ns := Listing(m, src);
    assert n in ns;
    var k :| 0 <= k < |ns| && ns[k] == n;
    TsxCopied(m, src, ns, k);
  }

  /** Any other source file keeps its name and content, unless a `.tsx` file
      of the same base name is there too. */
  lemma ScriptCopiesPlain(m: Entries, folder: Path, r: Entries, c: string, n: string)
    requires Mirrored(r, m, folder) && IsCategory(m, folder, c)
    requires Copied(m, Child(folder, c), n) && !IsTsx(n)
    requires forall n' :: Copied(m, Child(folder, c), n') && IsTsx(n') ==> Target(n') != n
    ensures Child(Child(OutputFolder(folder), c), n) in r
    ensures r[Child(Child(OutputFolder(folder), c), n)] == FileEntry(m[Child(Child(folder, c), n)].content)
  {
    var src := Child(folder, c);
    var ns := Listing(m, src);
    assert n in ns;
    var k :| 0 <= k < |ns| && ns[k] == n;
    PlainCopied(m, src, ns, k);
  }

  /** No category folder of the output gets an `index.ts`. */
  lemma ScriptSkipsIndex(m: Entries, folder: Path, r: Entries, c: string)
    requires Mirrored(r, m, folder)
    ensures Child(Child(OutputFolder(folder), c), "index.ts") !in r
  {
    var src := Child(folder, c);
    var ns := Listing(m, src);
    forall j | 0 <= j < |ns| ensures !(Copied(m, src, ns[j]) && Target(ns[j]) == "index.ts") {
      if Copied(m, src, ns[j]) && IsTsx(ns[j]) {
        assert Target(ns[j])[|Target(ns[j])| - 1] == 'x';
      }
    }
    LastForNone(m, src, ns, "index.ts");
  }

  // ---------------------------------------------------------------------------
  // The disk, changed in place

  class Disk {
    var entries: Entries

    constructor (m: Entries)
      ensures entries == m
    {
      entries := m;
    }

    /** `readdirSync(p)`. */
    method ReadDir(p: Path) returns (names: seq<string>)
      ensures names == Listing(entries, p)
    {
      var all := ChildNames(entries, p);
      var rest := all;
      names := [];
      while rest != {}
        invariant rest <= all
        invariant StrictlySorted(names)
        invariant forall n :: n in names <==> n in all && n !in rest
        decreases |rest|
      {
        var n :| n in rest;
        names := InsertSorted(names, n);
        rest := rest - {n};
      }
      forall n ensures n in names <==> n in Listing(entries, p) {
        ChildNamesMember(entries, p, n);
      }
      SortedUnique(names, Listing(entries, p));
    }

    /** `deleteDirectoryRecursive(p)`: a missing path is left alone; a
        directory goes with everything below it, children first; any other
        entry makes `readdirSync` throw, which ends the script. `depth` bounds
        how far below `p` entries can lie. */
    method DeleteDirectoryRecursive(p: Path, ghost depth: nat) returns (ok: bool)
      requires Valid(entries) && |p| > 0
      requires forall q :: q in entries ==> |q| <= |p| + depth
      modifies this
      ensures ok <==> p !in old(entries) || old(entries)[p].DirEntry?
      ensures ok ==> entries == DeleteTree(old(entries), p)
      ensures !ok ==> entries == old(entries)
      decreases depth
    {
      if p !in entries {
        NothingUnderMissing(entries, p);
        return true;
      }
      if !entries[p].DirEntry? {
        return false;
      }
      var names := ReadDir(p);
      ghost var m0 := entries;
      for i := 0 to |names|
        invariant entries == DeleteChildren(m0, p, names[..i])
      {
        var c := p + [names[i]];
        DeleteTurn(m0, p, names, i, depth);
        if entries[c].DirEntry? {
          var _ := DeleteDirectoryRecursive(c, depth - 1);
        } else {
          entries := entries - {c};
        }
      }
      assert names[..|names|] == names;
      DeleteAllChildren(m0, p, names);
      entries := entries - {p};
      ok := true;
    }
  
    /** `copyDirectoryOnlyFiles(src, dest)`. */
    method CopyDirectoryOnlyFiles(src: Path, dest: Path) returns (ok: bool)
      requires |dest| > 0
      modifies this
      ensures Outcome(entries, ok) == CopyOutcome(old(entries), src, dest)
    {
      if dest !in entries {
        var made := MakeDirs(entries, dest);
        if made.None? {
          return false;
        }
        entries := made.value;
      }
      if !IsDir(entries, src) {
        return false;
      }
      var names := ReadDir(src);
      var snap := entries;
      for i := 0 to |names|
        invariant CopySteps(snap, snap, src, dest, names[..i]) == Outcome(entries, true)
      {
        assert names[..i + 1][..i] == names[..i];
        var n := names[i];
        var from := src + [n];
        if n == "index.ts" || snap[from].DirEntry? {
          continue;
        }
        if snap[from].FileEntry? {
          if !(from in entries && entries[from].FileEntry?) {
            CopyStepsStopped(snap, snap, src, dest, names, i + 1);
            return false;
          }
          var content := entries[from].content;
          var to := dest + [Target(n)];
          var body := if IsTsx(n) then Wrap(content) else content;
          var written := WriteFile(entries, to, body);
          if written.None? {
            CopyStepsStopped(snap, snap, src, dest, names, i + 1);
            return false;
          }
          entries := written.value;
        }
      }
      assert names[..|names|] == names;
      ok := true;
    }
  
    /** The script, from the arguments to the end of the category loop. */
    method GenerateMarkdown(args: seq<Path>) returns (status: Status)
      requires Valid(entries)
      modifies this
      ensures Run(entries, status) == ScriptOutcome(old(entries), args)
    {
      if |args| != 1 {
        return Usage;
      }
      var folder := args[0];
      var out := OutputFolder(folder);
      ghost var depth := MaxLen(entries.Keys);
      var deleted := DeleteDirectoryRecursive(out, depth);
      if !deleted {
        return Crashed;
      }
      if out !in entries {
        var made := MakeDirs(entries, out);
        if made.None? {
          return Crashed;
        }
        entries := made.value;
      }
      if !IsDir(entries, folder) {
        return Crashed;
      }
      var ok := CopyCategories(folder, out);
      status := if ok then Done else Crashed;
    }

    /** The loop over the entries of `folder`, copying each directory to the
        same name in `out`. */
    method CopyCategories(folder: Path, out: Path) returns (ok: bool)
      requires IsDir(entries, folder)
      modifies this
      ensures Outcome(entries, ok) == CategorySteps(old(entries), old(entries), folder, out, Listing(old(entries), folder))
    {
      var categories := ReadDir(folder);
      var snap := entries;
      for i := 0 to |categories|
        invariant CategorySteps(snap, snap, folder, out, categories[..i]) == Outcome(entries, true)
      {
        var c := categories[i];
        ghost var before := entries;
        ok := true;
        if IsCategory(snap, folder, c) {
          ok := CopyDirectoryOnlyFiles(Child(folder, c), Child(out, c));
        }
        CategoryStepTaken(snap, folder, out, categories, i, Outcome(before, true), Outcome(entries, ok));
        if !ok {
          return;
        }
      }
      assert categories[..|categories|] == categories;
      ok := true;
    }
  }
}
