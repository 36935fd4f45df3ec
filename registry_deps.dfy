/**
 * Import classification in the registry generator: every module specifier a
 * block file imports is either a reference to one of the site's UI primitives
 * (a registry dependency), an npm package (a dependency), or neither.
 */
module RegistryDeps {
  import opened Strings
  import opened Ordering

  /** What parsing a source file yields: the module specifier of each import
      declaration in source order, or a failure, which is logged and makes the
      file contribute no dependency. */
  datatype ParseResult = Parsed(specifiers: seq<string>) | ParseFailed

  datatype Import =
    | UiPrimitive(component: string)
    | External(pkg: string)
    | Ignored

  const UiPrefix: string := "@/components/ui/"

  /** The prefix tests that keep a specifier out of the package list: relative
      imports, path aliases, and everything whose name merely starts with
      `react` or `next`. */
  predicate LocalOrFramework(spec: string) {
    StartsWith(spec, ".") || StartsWith(spec, "@/") || StartsWith(spec, "react")
    || StartsWith(spec, "next") || StartsWith(spec, "@next/")
  }

  predicate NoSlash(s: string) {
    forall i :: 0 <= i < |s| ==> s[i] != '/'
  }

  /** The classification of one specifier, including the component name taken
      from the last `/`-separated segment of a UI import. */
  function Classify(spec: string): (c: Import)
    ensures c.External? <==> !LocalOrFramework(spec)
    ensures c.External? ==> c.pkg == spec
    ensures c.UiPrimitive? ==> StartsWith(spec, UiPrefix)
  {
    if StartsWith(spec, UiPrefix) then
      assert spec[..2] == UiPrefix[..2];
      var name := Last(Split(spec, "/"));
      if name != "" then UiPrimitive(name) else Ignored
    else if !LocalOrFramework(spec) then External(spec)
    else Ignored
  }

  /** A UI import names the component after its last slash, and only a
      non-empty such name is recorded. */
  lemma ClassifyUiPrimitive(spec: string, n: string)
    requires StartsWith(spec, UiPrefix)
    ensures Classify(spec) == UiPrimitive(n) <==> n != "" && NoSlash(n) && EndsWith(spec, "/" + n)
  {
    var k := UiLastSlash(spec);
    if n != "" && NoSlash(n) && EndsWith(spec, "/" + n) {
      SuffixAfterLastSlash(spec, n, k);
    }
  }

  /** The last slash of a UI import, and the segment after it. */
  lemma UiLastSlash(spec: string) returns (k: nat)
    requires StartsWith(spec, UiPrefix)
    ensures k < |spec| && spec[k] == '/' && forall i :: k < i < |spec| ==> spec[i] != '/'
    ensures Last(Split(spec, "/")) == spec[k + 1..]
    ensures EndsWith(spec, "/" + spec[k + 1..]) && NoSlash(spec[k + 1..])
  {
    assert spec[|UiPrefix| - 1] == UiPrefix[|UiPrefix| - 1];
    k := LastIndexOf(spec, '/').value;
    SplitLastPiece(spec, '/', k);
    assert ("/" + spec[k + 1..]) == spec[k..];
  }

  /** A slash-free suffix that follows a slash starts right after the last one. */
  lemma SuffixAfterLastSlash(spec: string, n: string, k: nat)
    requires k < |spec| && spec[k] == '/' && forall i :: k < i < |spec| ==> spec[i] != '/'
    requires NoSlash(n) && EndsWith(spec, "/" + n)
    ensures spec[k + 1..] == n
  {
    var j := |spec| - |n| - 1;
    assert spec[j] == ("/" + n)[0];
    forall i | j < i < |spec| ensures spec[i] != '/' {
      assert spec[i] == ("/" + n)[i - j];
    }
    assert k == j;
    assert spec[k + 1..] == spec[j..][1..];
  }

  lemma NotPrefix(s: string, p: string, i: nat)
    requires i < |p| && i < |s| && s[i] != p[i]
    ensures !StartsWith(s, p)
  {
    assert |p| <= |s| ==> s[..|p|][i] == s[i];
  }

  /** The prefix tests are plain string prefixes, so packages such as
      `react-hook-form` or `next-themes` are not listed as dependencies. */
  lemma FrameworkPrefixExamples()
    ensures Classify("react-hook-form") == Ignored
    ensures Classify("next-themes") == Ignored
  {
    assert StartsWith("react-hook-form", "react");
    NotPrefix("react-hook-form", UiPrefix, 0);
    assert StartsWith("next-themes", "next");
    NotPrefix("next-themes", UiPrefix, 0);
  }

  /** An alias import outside the UI directory is ignored and a package whose
      name only ends in `react` is listed. */
  lemma ClassifyExamples()
    ensures Classify("@/lib/utils") == Ignored
    ensures Classify("lucide-react") == External("lucide-react")
  {
    assert StartsWith("@/lib/utils", "@/");
    NotPrefix("@/lib/utils", UiPrefix, 2);
    var l := "lucide-react";
    NotPrefix(l, UiPrefix, 0);
    NotPrefix(l, ".", 0);
    NotPrefix(l, "@/", 0);
    NotPrefix(l, "react", 0);
    NotPrefix(l, "next", 0);
    NotPrefix(l, "@next/", 0);
  }

  // ---------------------------------------------------------------------------
  // The two sets `extractDependencies` fills, read back sorted

  datatype Deps = Deps(registryDependencies: seq<string>, dependencies: seq<string>)

  predicate SortedDeps(d: Deps) {
    StrictlySorted(d.registryDependencies) && StrictlySorted(d.dependencies)
  }

  /** Adding one classified specifier to the sets. */
  function AddImport(d: Deps, c: Import): (r: Deps)
    requires SortedDeps(d)
    ensures SortedDeps(r)
  {
    match c
    case UiPrimitive(n) => d.(registryDependencies := InsertSorted(d.registryDependencies, n))
    case External(p) => d.(dependencies := InsertSorted(d.dependencies, p))
    case Ignored => d
  }

  /** The sets after the specifiers have been classified in order. */
  function DepsOf(specs: seq<string>): (d: Deps)
    ensures SortedDeps(d)
    decreases |specs|
  {
    if |specs| == 0 then Deps([], [])
    else AddImport(DepsOf(specs[..|specs| - 1]), Classify(specs[|specs| - 1]))
  }

  /** What `extractDependencies` returns for a file: nothing for a file that
      fails to parse. */
  function FileDeps(file: ParseResult): (d: Deps)
    ensures SortedDeps(d)
  {
    if file.Parsed? then DepsOf(file.specifiers) else Deps([], [])
  }

  /** Some specifier of `specs` is a UI import of component `x`. */
  predicate ImportsUi(specs: seq<string>, x: string) {
    exists i :: 0 <= i < |specs| && Classify(specs[i]) == UiPrimitive(x)
  }

  lemma ImportsUiSnoc(init: seq<string>, spec: string, x: string)
    ensures ImportsUi(init + [spec], x) <==> ImportsUi(init, x) || Classify(spec) == UiPrimitive(x)
  {
    var specs := init + [spec];
    if ImportsUi(init, x) {
      var i :| 0 <= i < |init| && Classify(init[i]) == UiPrimitive(x);
      assert specs[i] == init[i];
    }
    if Classify(spec) == UiPrimitive(x) {
      assert specs[|init|] == spec;
    }
    if ImportsUi(specs, x) {
      var i :| 0 <= i < |specs| && Classify(specs[i]) == UiPrimitive(x);
      if i < |init| {
        assert init[i] == specs[i];
      }
    }
  }

  /** The registry dependencies are exactly the component names of the UI
      imports, each listed once in sorted order. */
  lemma {:induction false} DepsOfRegistry(specs: seq<string>, x: string)
    ensures x in DepsOf(specs).registryDependencies <==> ImportsUi(specs, x)
    decreases |specs|
  {
    if |specs| > 0 {
      var init := specs[..|specs| - 1];
      DepsOfRegistry(init, x);
      ImportsUiSnoc(init, specs[|specs| - 1], x);
      assert init + [specs[|specs| - 1]] == specs;
    }
  }

  /** The dependencies are exactly the specifiers classified as packages,
      each listed once in sorted order. */
  lemma {:induction false} DepsOfPackages(specs: seq<string>, x: string)
    ensures x in DepsOf(specs).dependencies <==> x in specs && Classify(x).External?
    decreases |specs|
  {
    if |specs| > 0 {
      var init := specs[..|specs| - 1];
      DepsOfPackages(init, x);
      assert specs == init + [specs[|specs| - 1]];
    }
  }

  /** `extractDependencies(project, filePath)`: the two sets are filled in a
      `forEach` over the import declarations and returned sorted. */
  method ExtractDependencies(file: ParseResult) returns (d: Deps)
    ensures d == FileDeps(file)
  {
    d := Deps([], []);
    if file.Parsed? {
      var specs := file.specifiers;
      var i := 0;
      while i < |specs|
        invariant 0 <= i <= |specs|
        invariant d == DepsOf(specs[..i])
      {
        assert specs[..i + 1][..i] == specs[..i];
        var spec := specs[i];
        if StartsWith(spec, UiPrefix) {
          var name := Last(Split(spec, "/"));
          if name != "" {
            d := d.(registryDependencies := InsertSorted(d.registryDependencies, name));
          }
        } else if !LocalOrFramework(spec) {
          d := d.(dependencies := InsertSorted(d.dependencies, spec));
        }
        i := i + 1;
      }
      assert specs[..|specs|] == specs;
    }
  }

  // ---------------------------------------------------------------------------
  // The union over the files of a block

  function MergeDeps(a: Deps, b: Deps): (r: Deps)
    requires SortedDeps(a)
    ensures SortedDeps(r)
  {
    Deps(InsertAll(a.registryDependencies, b.registryDependencies),
         InsertAll(a.dependencies, b.dependencies))
  }

  /** A block's dependency sets after its files are merged in order. */
  function BlockDeps(files: seq<ParseResult>): (d: Deps)
    ensures SortedDeps(d)
    decreases |files|
  {
    if |files| == 0 then Deps([], [])
    else MergeDeps(BlockDeps(files[..|files| - 1]), FileDeps(files[|files| - 1]))
  }

  /** The union holds the UI primitives some file of the block contributes, and no more. */
  lemma {:induction false} BlockRegistryDeps(files: seq<ParseResult>, x: string)
    ensures x in BlockDeps(files).registryDependencies <==>
            exists i :: 0 <= i < |files| && x in FileDeps(files[i]).registryDependencies
    decreases |files|
  {
    if |files| > 0 {
      var init := files[..|files| - 1];
      BlockRegistryDeps(init, x);
      forall i | 0 <= i < |init| ensures init[i] == files[i] { }
    }
  }

  /** The union holds the packages some file of the block contributes, and no more. */
  lemma {:induction false} BlockPackages(files: seq<ParseResult>, x: string)
    ensures x in BlockDeps(files).dependencies <==>
            exists i :: 0 <= i < |files| && x in FileDeps(files[i]).dependencies
    decreases |files|
  {
    if |files| > 0 {
      var init := files[..|files| - 1];
      BlockPackages(init, x);
      forall i | 0 <= i < |init| ensures init[i] == files[i] { }
    }
  }
}
