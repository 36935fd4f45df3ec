/**
 * The few JavaScript string operations the scripts rely on, written out over
 * `seq<char>`: prefix and suffix tests, `indexOf`, `split` and `join` on a string
 * separator, `trim`, ASCII case mapping, backslash replacement and the decimal
 * rendering of a number.
 */
module Strings {
  import opened Wrappers

  predicate StartsWith(s: string, p: string) {
    |p| <= |s| && s[..|p|] == p
  }

  predicate EndsWith(s: string, p: string) {
    |p| <= |s| && s[|s| - |p|..] == p
  }

  /** `pat` occurs in `s` starting at index `k`. */
  predicate OccursAt(s: string, pat: string, k: nat) {
    k + |pat| <= |s| && s[k..k + |pat|] == pat
  }

  /** `s.indexOf(pat, from)`: the least index at or after `from` where `pat` occurs. */
  function IndexOf(s: string, pat: string, from: nat): (r: Option<nat>)
    ensures r.Some? ==> from <= r.value && r.value + |pat| <= |s|
    decreases |s| - from
  {
    if from + |pat| > |s| then None
    else if s[from..from + |pat|] == pat then Some(from)
    else IndexOf(s, pat, from + 1)
  }

  /** `IndexOf` finds an occurrence, and no occurrence lies between `from` and it;
      `None` means there is no occurrence at all at or after `from`. */
  lemma {:induction false} IndexOfSpec(s: string, pat: string, from: nat)
    ensures IndexOf(s, pat, from).Some? ==>
      OccursAt(s, pat, IndexOf(s, pat, from).value) &&
      forall k :: from <= k < IndexOf(s, pat, from).value ==> !OccursAt(s, pat, k)
    ensures IndexOf(s, pat, from).None? ==> forall k :: from <= k ==> !OccursAt(s, pat, k)
    decreases |s| - from
  {
    if from + |pat| <= |s| && s[from..from + |pat|] != pat {
      IndexOfSpec(s, pat, from + 1);
    }
  }

  lemma TailSlice(s: string, i: nat, j: nat)
    requires |s| > 0 && i <= j < |s|
    ensures s[1..][i..j] == s[i + 1..j + 1]
  {
  }

  /** Searching `s` from `k + 1` is searching `s[1..]` from `k`, shifted by one. */
  lemma {:induction false} IndexOfShift(s: string, pat: string, k: nat)
    requires |s| > 0
    ensures IndexOf(s[1..], pat, k).None? ==> IndexOf(s, pat, k + 1).None?
    ensures IndexOf(s[1..], pat, k).Some? ==>
            IndexOf(s, pat, k + 1) == Some(IndexOf(s[1..], pat, k).value + 1)
    decreases |s| - k
  {
    if k + 1 + |pat| <= |s| {
      TailSlice(s, k, k + |pat|);
      if s[k + 1..k + 1 + |pat|] != pat {
        IndexOfShift(s, pat, k + 1);
      }
    }
  }

  // ---------------------------------------------------------------------------
  // String.prototype.split and Array.prototype.join

  /** `s.split(sep)` for a non-empty separator: the pieces between the
      non-overlapping occurrences of `sep`, scanned from the left. */
  function Split(s: string, sep: string): (parts: seq<string>)
    requires sep != []
    ensures |parts| >= 1
    decreases |s|
  {
    match IndexOf(s, sep, 0)
    case None => [s]
    case Some(i) => [s[..i]] + Split(s[i + |sep|..], sep)
  }

  /** `parts.join(sep)`. */
  function Join(parts: seq<string>, sep: string): string
    decreases |parts|
  {
    if |parts| == 0 then ""
    else if |parts| == 1 then parts[0]
    else parts[0] + sep + Join(parts[1..], sep)
  }

  /** The last element, as `Array.prototype.pop` returns it. */
  function Last(parts: seq<string>): string
    requires |parts| > 0
  {
    parts[|parts| - 1]
  }

  /** One step of `Join` on a list of at least two pieces. */
  lemma JoinCons(head: string, rest: seq<string>, sep: string)
    requires |rest| >= 1
    ensures Join([head] + rest, sep) == head + sep + Join(rest, sep)
  {
    assert ([head] + rest)[1..] == rest;
  }

  /** Joining the pieces of a split with the same separator restores the string. */
  lemma {:induction false} JoinSplit(s: string, sep: string)
    requires sep != []
    ensures Join(Split(s, sep), sep) == s
    decreases |s|
  {
    var r := IndexOf(s, sep, 0);
    if r.Some? {
      var i := r.value;
      var rest := s[i + |sep|..];
      SplitCons(s, sep, i);
      JoinSplit(rest, sep);
      JoinCons(s[..i], Split(rest, sep), sep);
      IndexOfSpec(s, sep, 0);
      assert s == s[..i] + s[i..i + |sep|] + rest;
    } else {
      SplitNone(s, sep);
    }
  }

  /** No piece of a split contains the separator. */
  lemma {:induction false} SplitPiecesFree(s: string, sep: string)
    requires sep != []
    ensures forall k :: 0 <= k < |Split(s, sep)| ==> IndexOf(Split(s, sep)[k], sep, 0).None?
    decreases |s|
  {
    match IndexOf(s, sep, 0)
    case None =>
    case Some(i) =>
      var rest := s[i + |sep|..];
      SplitPiecesFree(rest, sep);
      IndexOfSpec(s, sep, 0);
      var head := s[..i];
      IndexOfSpec(head, sep, 0);
      forall k: nat | OccursAt(head, sep, k) ensures false {
        assert head[k..k + |sep|] == s[k..k + |sep|];
        assert OccursAt(s, sep, k);
      }
  }

  /** The first piece ends at the first occurrence of the separator and the
      remaining pieces, rejoined, are everything after it. */
  lemma SplitAtFirst(s: string, sep: string, i: nat)
    requires sep != [] && IndexOf(s, sep, 0) == Some(i)
    ensures Split(s, sep)[0] == s[..i]
    ensures Join(Split(s, sep)[1..], sep) == s[i + |sep|..]
  {
    var rest := s[i + |sep|..];
    SplitCons(s, sep, i);
    assert ([s[..i]] + Split(rest, sep))[1..] == Split(rest, sep);
    JoinSplit(rest, sep);
  }

  /** Splitting on one character, unfolded one character at a time. */
  lemma SplitCharCons(s: string, c: char)
    requires |s| > 0
    ensures s[0] == c ==> Split(s, [c]) == [""] + Split(s[1..], [c])
    ensures s[0] != c ==>
      Split(s, [c]) == [[s[0]] + Split(s[1..], [c])[0]] + Split(s[1..], [c])[1..]
  {
    if s[0] == c {
      SplitCharAtSeparator(s, c);
    } else {
      SplitCharAtOther(s, c);
    }
  }

  lemma SplitCharAtSeparator(s: string, c: char)
    requires |s| > 0 && s[0] == c
    ensures Split(s, [c]) == [""] + Split(s[1..], [c])
  {
    assert s[0..1] == [c];
    assert IndexOf(s, [c], 0) == Some(0);
  }

  lemma SplitCharAtOther(s: string, c: char)
    requires |s| > 0 && s[0] != c
    ensures Split(s, [c]) == [[s[0]] + Split(s[1..], [c])[0]] + Split(s[1..], [c])[1..]
  {
    assert s == [s[0]] + s[1..];
    SplitPrepend(s[0], s[1..], c);
  }

  /** A first character other than `c` only shifts the search for `c` by one. */
  lemma IndexOfSkip(ch: char, t: string, c: char)
    requires ch != c
    ensures IndexOf(t, [c], 0).None? ==> IndexOf([ch] + t, [c], 0).None?
    ensures IndexOf(t, [c], 0).Some? ==> IndexOf([ch] + t, [c], 0) == Some(IndexOf(t, [c], 0).value + 1)
  {
    var s := [ch] + t;
    assert s[0..1] != [c];
    assert IndexOf(s, [c], 0) == IndexOf(s, [c], 1);
    assert s[1..] == t;
    IndexOfShift(s, [c], 0);
  }

  /** Splitting a string that starts with a character other than the
      separator puts that character in front of the first piece. */
  lemma SplitPrepend(ch: char, t: string, c: char)
    requires ch != c
    ensures Split([ch] + t, [c]) == [[ch] + Split(t, [c])[0]] + Split(t, [c])[1..]
  {
    IndexOfSkip(ch, t, c);
    match IndexOf(t, [c], 0)
    case Some(i) =>
      var s := [ch] + t;
      assert s[i + 1 + 1..] == t[i + 1..];
      assert s[..i + 1] == [ch] + t[..i];
      SplitCons(s, [c], i + 1);
      SplitCons(t, [c], i);
      PiecesPrepend(Split(s, [c]), Split(t, [c]), Split(t[i + 1..], [c]), t[..i], ch);
    case None =>
      SplitNone([ch] + t, [c]);
      SplitNone(t, [c]);
      PiecesPrepend(Split([ch] + t, [c]), Split(t, [c]), [], t, ch);
  }

  /** Two splits that share their later pieces, and whose first pieces differ
      in one leading character. */
  lemma PiecesPrepend(a: seq<string>, t: seq<string>, r: seq<string>, y: string, ch: char)
    requires a == [[ch] + y] + r && t == [y] + r
    ensures a == [[ch] + t[0]] + t[1..]
  {
    assert t[1..] == r;
  }

  lemma SplitNone(s: string, sep: string)
    requires sep != [] && IndexOf(s, sep, 0).None?
    ensures Split(s, sep) == [s]
  {
  }

  /** One step of `Split` when the first occurrence is at `i`. */
  lemma SplitCons(s: string, sep: string, i: nat)
    requires sep != [] && IndexOf(s, sep, 0) == Some(i)
    ensures Split(s, sep) == [s[..i]] + Split(s[i + |sep|..], sep)
  {
  }

  /** `s.lastIndexOf(c)` for a single character. */
  function LastIndexOf(s: string, c: char): (r: Option<nat>)
    ensures r.Some? ==> r.value < |s| && s[r.value] == c &&
                        forall i :: r.value < i < |s| ==> s[i] != c
    ensures r.None? ==> forall i :: 0 <= i < |s| ==> s[i] != c
    decreases |s|
  {
    if |s| == 0 then None
    else if s[|s| - 1] == c then Some(|s| - 1)
    else LastIndexOf(s[..|s| - 1], c)
  }

  /** A string without `c` is a split of its own. */
  lemma SplitCharFree(s: string, c: char)
    requires forall i :: 0 <= i < |s| ==> s[i] != c
    ensures Split(s, [c]) == [s]
  {
    forall k: nat | k + 1 <= |s| ensures !OccursAt(s, [c], k) {
      assert s[k..k + 1][0] == s[k];
    }
    IndexOfSpec(s, [c], 0);
  }

  /** The last piece of a split on `c` is everything after the last `c`. */
  lemma {:induction false} SplitLastPiece(s: string, c: char, k: nat)
    requires k < |s| && s[k] == c
    requires forall i :: k < i < |s| ==> s[i] != c
    ensures Last(Split(s, [c])) == s[k + 1..]
    decreases |s|
  {
    var i := FirstCharAt(s, c, k);
    var rest := s[i + 1..];
    SplitCons(s, [c], i);
    LastOfCons(s[..i], Split(rest, [c]));
    if i == k {
      SplitCharFree(rest, c);
    } else {
      forall j | k - i - 1 < j < |rest| ensures rest[j] != c {
        assert rest[j] == s[j + i + 1];
      }
      SplitLastPiece(rest, c, k - i - 1);
      assert rest[k - i - 1 + 1..] == s[k + 1..];
    }
  }

  /** The first `c` of a string comes no later than any `c` in it. */
  lemma FirstCharAt(s: string, c: char, k: nat) returns (i: nat)
    requires k < |s| && s[k] == c
    ensures i <= k && IndexOf(s, [c], 0) == Some(i)
  {
    IndexOfSpec(s, [c], 0);
    assert OccursAt(s, [c], k) by {
      assert s[k..k + 1] == [s[k]];
    }
    i := IndexOf(s, [c], 0).value;
  }

  lemma LastOfCons(x: string, r: seq<string>)
    requires |r| > 0
    ensures Last([x] + r) == Last(r)
  {
  }

  function CountChar(s: string, c: char): nat {
    if |s| == 0 then 0 else (if s[0] == c then 1 else 0) + CountChar(s[1..], c)
  }

  /** A split on one character yields one more piece than there are separators. */
  lemma {:induction false} SplitCharLength(s: string, c: char)
    ensures |Split(s, [c])| == CountChar(s, c) + 1
    decreases |s|
  {
    if |s| == 0 {
      assert IndexOf(s, [c], 0) == None;
    } else {
      SplitCharCons(s, c);
      SplitCharLength(s[1..], c);
    }
  }

  // ---------------------------------------------------------------------------
  // String.prototype.trim

  /** The characters `trim` removes and the regex class `\s` matches: the
      ECMAScript WhiteSpace and LineTerminator code points. */
  predicate IsSpace(c: char) {
    c in Whitespace
  }

  const Whitespace: set<char> := {
    '\t', '\n', '\U{000B}', '\U{000C}', '\r', ' ', '\U{00A0}', '\U{1680}',
    '\U{2000}', '\U{2001}', '\U{2002}', '\U{2003}', '\U{2004}', '\U{2005}',
    '\U{2006}', '\U{2007}', '\U{2008}', '\U{2009}', '\U{200A}',
    '\U{2028}', '\U{2029}', '\U{202F}', '\U{205F}', '\U{3000}', '\U{FEFF}'
  }

  predicate AllSpace(s: string) {
    forall i :: 0 <= i < |s| ==> IsSpace(s[i])
  }

  /** How many whitespace characters follow index `from`. */
  function SpacesFrom(s: string, from: nat): (n: nat)
    requires from <= |s|
    ensures from + n <= |s|
    decreases |s| - from
  {
    if from < |s| && IsSpace(s[from]) then 1 + SpacesFrom(s, from + 1) else 0
  }

  /** The run `SpacesFrom` counts is whitespace, and the character after it is not. */
  lemma {:induction false} SpacesFromRun(s: string, from: nat)
    requires from <= |s|
    ensures forall k :: from <= k < from + SpacesFrom(s, from) ==> IsSpace(s[k])
    ensures from + SpacesFrom(s, from) == |s| || !IsSpace(s[from + SpacesFrom(s, from)])
    decreases |s| - from
  {
    if from < |s| && IsSpace(s[from]) {
      SpacesFromRun(s, from + 1);
    }
  }

  /** How many whitespace characters precede index `end`. */
  function SpacesBefore(s: string, end: nat): (n: nat)
    requires end <= |s|
    ensures n <= end
    decreases end
  {
    if end > 0 && IsSpace(s[end - 1]) then 1 + SpacesBefore(s, end - 1) else 0
  }

  /** The run `SpacesBefore` counts is whitespace, and the character before it is not. */
  lemma {:induction false} SpacesBeforeRun(s: string, end: nat)
    requires end <= |s|
    ensures forall k :: end - SpacesBefore(s, end) <= k < end ==> IsSpace(s[k])
    ensures SpacesBefore(s, end) == end || !IsSpace(s[end - SpacesBefore(s, end) - 1])
    decreases end
  {
    if end > 0 && IsSpace(s[end - 1]) {
      SpacesBeforeRun(s, end - 1);
    }
  }

  /** `s.trimStart()`. */
  function TrimStart(s: string): string {
    s[SpacesFrom(s, 0)..]
  }

  /** `s.trimEnd()`. */
  function TrimEnd(s: string): string {
    s[..|s| - SpacesBefore(s, |s|)]
  }

  /** `s.trim()`. */
  function Trim(s: string): string {
    TrimEnd(TrimStart(s))
  }

  /** What `trim` cuts off on either side is whitespace, what it keeps is a
      contiguous slice of the input, and that slice neither starts nor ends
      with whitespace. */
  lemma TrimSlice(s: string) returns (i: nat)
    ensures i + |Trim(s)| <= |s| && s[i..i + |Trim(s)|] == Trim(s)
    ensures AllSpace(s[..i]) && AllSpace(s[i + |Trim(s)|..])
    ensures Trim(s) == [] || (!IsSpace(Trim(s)[0]) && !IsSpace(Trim(s)[|Trim(s)| - 1]))
  {
    i := SpacesFrom(s, 0);
    TrimHead(s);
    var t := s[i..];
    var n := SpacesBefore(t, |t|);
    TrimTail(t);
    var r := t[..|t| - n];
    assert Trim(s) == r;
    SliceOfSuffix(s, i, |r|);
    if r != [] {
      assert r[0] == t[0] && r[|r| - 1] == t[|t| - n - 1];
    }
  }

  /** What `trimStart` cuts off is whitespace, and what follows is not. */
  lemma TrimHead(s: string)
    ensures AllSpace(s[..SpacesFrom(s, 0)])
    ensures SpacesFrom(s, 0) == |s| || !IsSpace(s[SpacesFrom(s, 0)])
  {
    SpacesFromRun(s, 0);
    var i := SpacesFrom(s, 0);
    assert forall k :: 0 <= k < i ==> s[..i][k] == s[k];
  }

  /** What `trimEnd` cuts off is whitespace, and what precedes it is not. */
  lemma TrimTail(t: string)
    ensures AllSpace(t[|t| - SpacesBefore(t, |t|)..])
    ensures SpacesBefore(t, |t|) == |t| || !IsSpace(t[|t| - SpacesBefore(t, |t|) - 1])
  {
    SpacesBeforeRun(t, |t|);
    var j := |t| - SpacesBefore(t, |t|);
    assert forall m :: 0 <= m < |t| - j ==> t[j..][m] == t[j + m];
  }

  lemma SliceOfSuffix(s: string, i: nat, n: nat)
    requires i + n <= |s|
    ensures s[i..][..n] == s[i..i + n] && s[i..][n..] == s[i + n..]
  {
  }

  /** A string that neither starts nor ends with whitespace is its own trim. */
  lemma TrimTrimmed(s: string)
    requires s == [] || (!IsSpace(s[0]) && !IsSpace(s[|s| - 1]))
    ensures Trim(s) == s
  {
    if s != [] {
      assert SpacesFrom(s, 0) == 0;
      assert TrimStart(s) == s;
      assert SpacesBefore(s, |s|) == 0;
    }
  }

  /** Trimming twice is trimming once. */
  lemma TrimIdempotent(s: string)
    ensures Trim(Trim(s)) == Trim(s)
  {
    var _ := TrimSlice(s);
    TrimTrimmed(Trim(s));
  }

  // ---------------------------------------------------------------------------
  // ASCII case mapping

  function UpperChar(c: char): char {
    if 'a' <= c <= 'z' then (c as int - 32) as char else c
  }

  function LowerChar(c: char): char {
    if 'A' <= c <= 'Z' then (c as int + 32) as char else c
  }

  /** `s.toLowerCase()` on the ASCII letters. */
  function Lower(s: string): (r: string)
    ensures |r| == |s|
    ensures forall i :: 0 <= i < |s| ==> r[i] == LowerChar(s[i])
  {
    if |s| == 0 then "" else [LowerChar(s[0])] + Lower(s[1..])
  }

  // ---------------------------------------------------------------------------
  // `.replace(/\\/g, "/")`

  function Slashes(s: string): (r: string)
    ensures |r| == |s|
    ensures forall i :: 0 <= i < |s| ==> r[i] == (if s[i] == '\\' then '/' else s[i])
  {
    if |s| == 0 then "" else [if s[0] == '\\' then '/' else s[0]] + Slashes(s[1..])
  }

  lemma SlashesAppend(a: string, b: string)
    ensures Slashes(a + b) == Slashes(a) + Slashes(b)
  {
    assert forall i :: 0 <= i < |a + b| ==>
      Slashes(a + b)[i] == (Slashes(a) + Slashes(b))[i];
  }

  lemma SlashesIdempotent(s: string)
    ensures Slashes(Slashes(s)) == Slashes(s)
  {
  }

  /** Replacing backslashes in a prefix first changes nothing. */
  lemma SlashesPrefix(a: string, b: string)
    ensures Slashes(Slashes(a) + b) == Slashes(a + b)
  {
    SlashesAppend(Slashes(a), b);
    SlashesIdempotent(a);
    SlashesAppend(a, b);
  }

  /** A directory already made slashes-only, joined with more, needs no second pass. */
  lemma SlashesUnder(dir: string, sep: string, tail: string)
    ensures Slashes(Slashes(dir) + sep + tail) == Slashes(dir + sep + tail)
  {
    SlashesPrefix(dir, sep + tail);
    assert Slashes(dir) + sep + tail == Slashes(dir) + (sep + tail);
    assert dir + sep + tail == dir + (sep + tail);
  }

  // ---------------------------------------------------------------------------
  // Number.prototype.toString() for a natural number

  function DigitChar(d: nat): char
    requires d < 10
  {
    ('0' as int + d) as char
  }

  function DecimalString(n: nat): (r: string)
    ensures |r| >= 1
    ensures forall i :: 0 <= i < |r| ==> '0' <= r[i] <= '9'
    decreases n
  {
    if n < 10 then [DigitChar(n)] else DecimalString(n / 10) + [DigitChar(n % 10)]
  }

  /** Reading a string of decimal digits back as a number. */
  function ParseDecimal(s: string): nat
    requires forall i :: 0 <= i < |s| ==> '0' <= s[i] <= '9'
    decreases |s|
  {
    if |s| == 0 then 0
    else 10 * ParseDecimal(s[..|s| - 1]) + (s[|s| - 1] as int - '0' as int)
  }

  lemma {:induction false} DecimalRoundTrip(n: nat)
    ensures ParseDecimal(DecimalString(n)) == n
    decreases n
  {
    if n >= 10 {
      DecimalRoundTrip(n / 10);
      var s := DecimalString(n);
      assert s[..|s| - 1] == DecimalString(n / 10);
    }
  }

  /** Only zero is rendered as "0". */
  lemma DecimalZero(n: nat)
    ensures DecimalString(n) == "0" <==> n == 0
  {
    if n >= 10 {
      assert |DecimalString(n)| >= 2;
    }
  }
}
