/**
 * `formatTitle`: the display title the registry generator derives from a block
 * id when the metadata has no name for it.
 */
module RegistryTitle {
  import opened Strings

  /** `word.charAt(0).toUpperCase() + word.slice(1)`. */
  function Capitalize(w: string): (r: string)
    ensures |r| == |w|
    ensures |w| > 0 ==> r[0] == UpperChar(w[0]) && r[1..] == w[1..]
  {
    if w == "" then "" else [UpperChar(w[0])] + w[1..]
  }

  function CapitalizeAll(ws: seq<string>): (r: seq<string>)
    ensures |r| == |ws|
    ensures forall i :: 0 <= i < |ws| ==> r[i] == Capitalize(ws[i])
  {
    if |ws| == 0 then [] else [Capitalize(ws[0])] + CapitalizeAll(ws[1..])
  }

  /** `filename.split("-").map(capitalize).join(" ")`. */
  function FormatTitle(id: string): string {
    Join(CapitalizeAll(Split(id, "-")), " ")
  }

  /** The title written character by character: a hyphen becomes a space, and
      the character at the start of the id or right after a hyphen is upper-cased. */
  function TitleChars(s: string, atStart: bool): (r: string)
    decreases |s|
  {
    if |s| == 0 then ""
    else if s[0] == '-' then " " + TitleChars(s[1..], true)
    else [if atStart then UpperChar(s[0]) else s[0]] + TitleChars(s[1..], false)
  }

  /** Where a segment starts: at the beginning of the id or after a hyphen. */
  predicate SegmentStart(s: string, i: nat)
    requires i < |s|
  {
    i == 0 || s[i - 1] == '-'
  }

  /** Splitting on every hyphen, capitalising each segment and joining with
      single spaces keeps the length: each hyphen turns into a space, each
      segment's first character is upper-cased, and nothing else changes. */
  lemma FormatTitleAt(id: string)
    ensures |FormatTitle(id)| == |id|
    ensures forall i :: 0 <= i < |id| ==>
              FormatTitle(id)[i] == (if id[i] == '-' then ' '
                                     else if SegmentStart(id, i) then UpperChar(id[i])
                                     else id[i])
  {
    FormatTitleChars(id);
    TitleCharsAt(id, true);
    forall i | 0 <= i < |id|
      ensures FormatTitle(id)[i] == (if id[i] == '-' then ' '
                                     else if SegmentStart(id, i) then UpperChar(id[i])
                                     else id[i])
    {
      assert FormatTitle(id)[i] == TitleChars(id, true)[i];
      assert SegmentStart(id, i) <==> i == 0 || id[i - 1] == '-';
    }
  }

  lemma {:induction false} TitleCharsAt(s: string, atStart: bool)
    ensures |TitleChars(s, atStart)| == |s|
    ensures forall i :: 0 <= i < |s| ==>
              TitleChars(s, atStart)[i] == (if s[i] == '-' then ' '
                                            else if (i == 0 && atStart) || (i > 0 && s[i - 1] == '-') then UpperChar(s[i])
                                            else s[i])
    decreases |s|
  {
    if |s| > 0 {
      var next := s[0] == '-';
      TitleCharsAt(s[1..], next);
      var r := TitleChars(s, atStart);
      assert r[1..] == TitleChars(s[1..], next);
      forall i | 0 < i < |s|
        ensures r[i] == (if s[i] == '-' then ' '
                         else if (i == 0 && atStart) || (i > 0 && s[i - 1] == '-') then UpperChar(s[i])
                         else s[i])
      {
        assert r[i] == TitleChars(s[1..], next)[i - 1];
        assert s[1..][i - 1] == s[i];
        if i > 1 {
          assert s[1..][i - 2] == s[i - 1];
        }
      }
    }
  }

  /** The title of an id joined from `head` (capitalised or not) and the
      capitalised remaining segments. */
  function JoinedFrom(parts: seq<string>, capHead: bool): string
    requires |parts| > 0
  {
    Join([if capHead then Capitalize(parts[0]) else parts[0]] + CapitalizeAll(parts[1..]), " ")
  }

  /** `formatTitle` agrees with the character-by-character description. */
  lemma FormatTitleChars(id: string)
    ensures FormatTitle(id) == TitleChars(id, true)
  {
    var parts := Split(id, "-");
    assert CapitalizeAll(parts) == [Capitalize(parts[0])] + CapitalizeAll(parts[1..]);
    JoinedFromChars(id, true);
  }

  lemma {:induction false} JoinedFromChars(s: string, cap: bool)
    ensures JoinedFrom(Split(s, "-"), cap) == TitleChars(s, cap)
    decreases |s|
  {
    if |s| == 0 {
      SplitCharFree(s, '-');
    } else if s[0] == '-' {
      SplitCharCons(s, '-');
      var q := Split(s[1..], "-");
      assert Split(s, "-") == [""] + q;
      JoinedFromChars(s[1..], true);
      assert CapitalizeAll(q) == [Capitalize(q[0])] + CapitalizeAll(q[1..]);
      JoinCons("", CapitalizeAll(q), " ");
    } else {
      SplitCharCons(s, '-');
      var q := Split(s[1..], "-");
      var c := if cap then UpperChar(s[0]) else s[0];
      assert Split(s, "-") == [[s[0]] + q[0]] + q[1..];
      assert (if cap then Capitalize([s[0]] + q[0]) else [s[0]] + q[0]) == [c] + q[0];
      JoinedFromChars(s[1..], false);
      JoinPrepend(c, q[0], CapitalizeAll(q[1..]), " ");
    }
  }

  /** Prepending a character to the first piece prepends it to the join. */
  lemma JoinPrepend(c: char, head: string, rest: seq<string>, sep: string)
    ensures Join([[c] + head] + rest, sep) == [c] + Join([head] + rest, sep)
  {
    if |rest| > 0 {
      JoinCons([c] + head, rest, sep);
      JoinCons(head, rest, sep);
    }
  }

  /** There are as many title words as hyphen-separated segments, one more
      than the number of hyphens. */
  lemma FormatTitleWords(id: string)
    ensures |CapitalizeAll(Split(id, "-"))| == CountChar(id, '-') + 1
  {
    SplitCharLength(id, '-');
  }

  predicate NoHyphen(w: string) {
    forall i :: 0 <= i < |w| ==> w[i] != '-'
  }

  /** A two-segment id becomes its two capitalised segments with one space
      between them, as `fancy-card` becomes `Fancy Card`. */
  lemma FormatTitleTwoWords(a: string, b: string)
    requires NoHyphen(a) && NoHyphen(b)
    ensures FormatTitle(a + "-" + b) == Capitalize(a) + " " + Capitalize(b)
  {
    var id := a + "-" + b;
    var t := Capitalize(a) + " " + Capitalize(b);
    FormatTitleAt(id);
    var f := FormatTitle(id);
    forall i | 0 <= i < |id| ensures f[i] == t[i] {
      if i < |a| {
        assert id[i] == a[i] && t[i] == Capitalize(a)[i];
        if i > 0 {
          assert id[i - 1] == a[i - 1];
        }
      } else if i > |a| {
        var k := i - |a| - 1;
        assert id[i] == b[k] && t[i] == Capitalize(b)[k];
        if k > 0 {
          assert id[i - 1] == b[k - 1];
        }
      }
    }
  }
}
