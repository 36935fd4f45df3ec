/**
 * The block viewer: the code it shows for a block, with a markdown code
 * fence taken off, and the view and size chosen in its toolbar.
 */
module BlockView {
  import opened Wrappers
  import opened Strings
  import BlocksLib
  import GenerateMarkdown

  // ---------------------------------------------------------------------------
  // getCleanCode

  const Fence: string := "````"

  predicate IsLower(c: char) {
    'a' <= c <= 'z'
  }

  /** The end of the run of lower-case letters that starts at `p`. */
  function LettersEnd(s: string, p: nat): (q: nat)
    requires p <= |s|
    ensures p <= q <= |s|
    ensures forall k :: p <= k < q ==> IsLower(s[k])
    ensures q == |s| || !IsLower(s[q])
    decreases |s| - p
  {
    if p < |s| && IsLower(s[p]) then LettersEnd(s, p + 1) else p
  }

  /** The bounds of a fence's body: it runs from `body` up to the closing
      fence at `close`. */
  datatype Match = Match(body: nat, close: nat)

  /** The fence pattern matches at `i` with the body `[body, close)`: four
      backticks, a language tag of lower-case letters (each of the listed
      tags is one), a line break, and the shortest text up to the next four
      backticks. */
  predicate IsMatch(s: string, i: nat, body: nat, close: nat) {
    && OccursAt(s, Fence, i)
    && i + 4 < body <= close
    && body - 1 < |s| && s[body - 1] == '\n'
    && (forall k :: i + 4 <= k < body - 1 ==> IsLower(s[k]))
    && OccursAt(s, Fence, close)
    && (forall k :: body <= k < close ==> !OccursAt(s, Fence, k))
  }

  /** The match of the fence pattern at `i`, if there is one. */
  function MatchAt(s: string, i: nat): (r: Option<Match>)
    ensures r.Some? ==> i + 4 < r.value.body <= r.value.close && r.value.close + 4 <= |s|
  {
    if !OccursAt(s, Fence, i) then None
    else
      var q := LettersEnd(s, i + 4);
      if q == |s| || s[q] != '\n' then None
      else
        match IndexOf(s, Fence, q + 1)
        case None => None
        case Some(k) => Some(Match(q + 1, k))
  }

  /** `MatchAt` finds the match at `i` when there is one, and it is the only one. */
  lemma MatchAtSpec(s: string, i: nat)
    ensures MatchAt(s, i).Some? ==> IsMatch(s, i, MatchAt(s, i).value.body, MatchAt(s, i).value.close)
    ensures forall b: nat, c: nat :: IsMatch(s, i, b, c) ==> MatchAt(s, i) == Some(Match(b, c))
  {
    if MatchAt(s, i).Some? {
      MatchAtFound(s, i);
    }
    forall b: nat, c: nat | IsMatch(s, i, b, c) ensures MatchAt(s, i) == Some(Match(b, c)) {
      MatchAtOnly(s, i, b, c);
    }
  }

  lemma MatchAtFound(s: string, i: nat)
    requires MatchAt(s, i).Some?
    ensures IsMatch(s, i, MatchAt(s, i).value.body, MatchAt(s, i).value.close)
  {
    var q := LettersEnd(s, i + 4);
    IndexOfSpec(s, Fence, q + 1);
  }

  lemma MatchAtOnly(s: string, i: nat, b: nat, c: nat)
    requires IsMatch(s, i, b, c)
    ensures MatchAt(s, i) == Some(Match(b, c))
  {
    var q := LettersEnd(s, i + 4);
    NoOtherTag(s, i, q);
    IndexOfSpec(s, Fence, q + 1);
    FirstClose(s, q + 1, IndexOf(s, Fence, q + 1).value);
  }

  /** The language tag can only end where the run of letters ends. */
  lemma NoOtherTag(s: string, i: nat, q: nat)
    requires i + 4 <= q <= |s| && q == LettersEnd(s, i + 4)
    ensures forall b: nat, c: nat :: IsMatch(s, i, b, c) ==> b == q + 1
  {
    forall b: nat, c: nat | IsMatch(s, i, b, c) ensures b == q + 1 {
      assert s[b - 1] == '\n';
    }
  }

  /** The closing fence is the first one after the body starts. */
  lemma FirstClose(s: string, body: nat, k: nat)
    requires OccursAt(s, Fence, k) && body <= k
    requires forall j :: body <= j < k ==> !OccursAt(s, Fence, j)
    ensures forall c: nat :: OccursAt(s, Fence, c) && body <= c && (forall j :: body <= j < c ==> !OccursAt(s, Fence, j)) ==> c == k
  {
  }

  /** `replace(pattern, "$1")` with the global flag, from index `i` on: each
      match, searched for from left to right, is replaced by its body, and
      the search goes on after the match. */
  function StripFrom(s: string, i: nat): string
    requires i <= |s|
    decreases |s| - i
  {
    if i == |s| then ""
    else
      match MatchAt(s, i)
      case Some(m) => s[m.body..m.close] + StripFrom(s, m.close + 4)
      case None => [s[i]] + StripFrom(s, i + 1)
  }

  /** `getCleanCode`: a value that is not a string (`None`) shows as the
      empty string; a string that starts with four backticks has each fenced
      block replaced by its body; any other string is shown as it is. */
  function GetCleanCode(raw: Option<string>): (r: string)
    ensures raw.None? ==> r == ""
    ensures raw.Some? && !StartsWith(raw.value, Fence) ==> r == raw.value
  {
    var code := if raw.Some? then raw.value else "";
    if StartsWith(code, Fence) then StripFrom(code, 0) else code
  }

  /** Where the pattern matches nowhere, the replace changes nothing. */
  lemma {:induction false} StripNoMatch(s: string, i: nat)
    requires i <= |s|
    requires forall k :: i <= k < |s| ==> MatchAt(s, k).None?
    ensures StripFrom(s, i) == s[i..]
    decreases |s| - i
  {
    if i < |s| {
      StripNoMatch(s, i + 1);
      assert s[i..] == [s[i]] + s[i + 1..];
    }
  }

  /** No four backticks start inside the fenced text before its closing fence. */
  lemma NoEarlyClose(t: string, j: nat)
    requires forall k :: !OccursAt(t, Fence, k)
    requires 8 <= j < 9 + |t|
    ensures !OccursAt(GenerateMarkdown.FenceOpen + t + GenerateMarkdown.FenceClose, Fence, j)
  {
    var s := GenerateMarkdown.FenceOpen + t + GenerateMarkdown.FenceClose;
    if j + 4 <= 8 + |t| {
      assert s[j..j + 4] == t[j - 8..j - 4];
      assert !OccursAt(t, Fence, j - 8);
    } else if j + 4 <= |s| {
      assert s[8 + |t|] == '\n';
      assert s[j..j + 4][8 + |t| - j] == '\n';
    }
  }

  /** The replace on a fenced text with no inner fence gives its body. */
  lemma StripFenced(t: string)
    requires forall k :: !OccursAt(t, Fence, k)
    ensures StripFrom(GenerateMarkdown.FenceOpen + t + GenerateMarkdown.FenceClose, 0) == t + "\n"
  {
    var s := GenerateMarkdown.FenceOpen + t + GenerateMarkdown.FenceClose;
    var close := 9 + |t|;
    assert s[..4] == Fence && s[8 + |t|] == '\n' && s[7] == '\n';
    forall k | 4 <= k < 7 ensures IsLower(s[k]) {
    }
    forall j | 8 <= j < close ensures !OccursAt(s, Fence, j) {
      NoEarlyClose(t, j);
    }
    assert s[close..] == Fence;
    assert IsMatch(s, 0, 8, close);
    MatchAtSpec(s, 0);
    assert s[8..close] == t + "\n";
    assert close + 4 == |s|;
  }

  /** The text the markdown generator writes for a `.tsx` source comes back
      as the trimmed source with the line break before the closing fence,
      provided the trimmed source holds no four backticks of its own. */
  lemma CleanWrapped(content: string)
    requires forall k :: !OccursAt(Trim(content), Fence, k)
    ensures GetCleanCode(Some(GenerateMarkdown.Wrap(content))) == Trim(content) + "\n"
  {
    var t := Trim(content);
    assert GenerateMarkdown.Wrap(content) == GenerateMarkdown.FenceOpen + t + GenerateMarkdown.FenceClose;
    StripFenced(t);
  }

  // ---------------------------------------------------------------------------
  // The toolbar state

  /** `meta?.iframeHeight ?? "930px"`. */
  function IframeHeight(meta: BlocksLib.Meta): (r: string)
    ensures meta.iframeHeight.Some? ==> r == meta.iframeHeight.value
    ensures meta.iframeHeight.None? ==> r == "930px"
  {
    if meta.iframeHeight.Some? then meta.iframeHeight.value else "930px"
  }

  /** The width, in percent, the panel is resized to for a size value; other
      values resize nothing. */
  function ResizeFor(value: string): (r: Option<nat>)
    ensures r.Some? <==> value == "desktop" || value == "tablet" || value == "mobile"
    ensures r.Some? ==> 0 < r.value <= 100
    ensures value == "desktop" ==> r == Some(100)
  {
    if value == "desktop" then Some(100)
    else if value == "tablet" then Some(60)
    else if value == "mobile" then Some(30)
    else None
  }

  /** A smaller device gets a narrower panel. */
  lemma ResizeNarrower()
    ensures ResizeFor("mobile").value < ResizeFor("tablet").value < ResizeFor("desktop").value
  {
  }

  /** The viewer's `view` and `size`. Both are strings: the handlers store
      whatever value they receive, with an unchecked cast. */
  class BlockViewState {
    var view: string
    var size: string

    /** The block opens on the preview at desktop size. */
    constructor ()
      ensures view == "preview" && size == "desktop"
    {
      view := "preview";
      size := "desktop";
    }

    /** `handleViewChange`: the tab chosen becomes the view; the size stays. */
    method HandleViewChange(value: string)
      modifies this
      ensures view == value && size == old(size)
    {
      view := value;
    }

    /** `handleSizeChange`: an empty value (the toggle turned off) changes
        nothing; any other value becomes the size, and when the panel is
        mounted it is resized for that value. The result is the resize issued. */
    method HandleSizeChange(value: string, panelMounted: bool) returns (resize: Option<nat>)
      modifies this
      ensures view == old(view)
      ensures size == if value == "" then old(size) else value
      ensures resize == if value != "" && panelMounted then ResizeFor(value) else None
    {
      resize := None;
      if value != "" {
        size := value;
        if panelMounted {
          resize := ResizeFor(value);
        }
      }
    }
  }
}
