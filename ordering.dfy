/**
 * The one total order on strings used throughout the model, and the two ways
 * the scripts put strings in order:
 *  - a `Set` that is spread into an array and sorted (`[...set].sort()`), kept
 *    here as a strictly increasing sequence that every `add` inserts into;
 *  - `Array.prototype.sort` with a comparator, a stable sort by a rank and a key.
 * `localeCompare` and the default comparison are both taken to be the
 * lexicographic order on code points.
 */
module Ordering {

  /** Lexicographic order on strings, character by character. */
  predicate Less(a: string, b: string)
    decreases |a|
  {
    |b| > 0 && (|a| == 0 || a[0] < b[0] || (a[0] == b[0] && Less(a[1..], b[1..])))
  }

  lemma {:induction false} LessIrreflexive(a: string)
    ensures !Less(a, a)
    decreases |a|
  {
    if |a| > 0 {
      LessIrreflexive(a[1..]);
    }
  }

  lemma {:induction false} LessTransitive(a: string, b: string, c: string)
    requires Less(a, b) && Less(b, c)
    ensures Less(a, c)
    decreases |a|
  {
    if |a| > 0 && a[0] == b[0] && b[0] == c[0] {
      LessTransitive(a[1..], b[1..], c[1..]);
    }
  }

  /** Any two distinct strings are ordered one way or the other. */
  lemma {:induction false} LessTotal(a: string, b: string)
    ensures a == b || Less(a, b) || Less(b, a)
    decreases |a|
  {
    if |a| > 0 && |b| > 0 && a[0] == b[0] {
      LessTotal(a[1..], b[1..]);
      if a[1..] == b[1..] {
        assert a == [a[0]] + a[1..] && b == [b[0]] + b[1..];
      }
    }
  }

  lemma LessAsymmetric(a: string, b: string)
    requires Less(a, b)
    ensures !Less(b, a)
  {
    if Less(b, a) {
      LessTransitive(a, b, a);
      LessIrreflexive(a);
    }
  }

  // ---------------------------------------------------------------------------
  // A `Set<string>` read back through `[...set].sort()`

  predicate StrictlySorted(xs: seq<string>) {
    forall i, j :: 0 <= i < j < |xs| ==> Less(xs[i], xs[j])
  }

  /** `set.add(x)` on the sorted image of the set. */
  function InsertSorted(xs: seq<string>, x: string): (r: seq<string>)
    requires StrictlySorted(xs)
    ensures StrictlySorted(r)
    ensures forall e :: e in r <==> e in xs || e == x
    decreases |xs|
  {
    if |xs| == 0 then [x]
    else if x == xs[0] then xs
    else if Less(x, xs[0]) then
      assert forall j :: 0 < j < |xs| ==> Less(x, xs[j]) by {
        forall j | 0 < j < |xs| ensures Less(x, xs[j]) {
          LessTransitive(x, xs[0], xs[j]);
        }
      }
      [x] + xs
    else
      var rest := InsertSorted(xs[1..], x);
      LessTotal(x, xs[0]);
      assert forall e :: e in rest ==> Less(xs[0], e) by {
        forall e | e in rest ensures Less(xs[0], e) {
          if e != x {
            var j :| 0 <= j < |xs[1..]| && xs[1..][j] == e;
            assert xs[j + 1] == e;
          }
        }
      }
      assert forall e :: e in xs <==> e == xs[0] || e in xs[1..];
      [xs[0]] + rest
  }

  /** Adding every element of `ys`, in order, to the sorted set `xs`. */
  function InsertAll(xs: seq<string>, ys: seq<string>): (r: seq<string>)
    requires StrictlySorted(xs)
    ensures StrictlySorted(r)
    ensures forall e :: e in r <==> e in xs || e in ys
    decreases |ys|
  {
    if |ys| == 0 then xs
    else
      var r := InsertAll(InsertSorted(xs, ys[0]), ys[1..]);
      assert forall e :: e in ys <==> e == ys[0] || e in ys[1..];
      r
  }

  /** A strictly sorted sequence is determined by its elements: this is why a
      sorted spread of a set does not depend on the order of insertion. */
  lemma {:induction false} SortedUnique(xs: seq<string>, ys: seq<string>)
    requires StrictlySorted(xs) && StrictlySorted(ys)
    requires forall e :: e in xs <==> e in ys
    ensures xs == ys
    decreases |xs|
  {
    SameElementsEmpty(xs, ys);
    if |xs| > 0 {
      SortedHeadIsLeast(xs, ys[0]);
      SortedHeadIsLeast(ys, xs[0]);
      if xs[0] != ys[0] {
        LessAsymmetric(xs[0], ys[0]);
      }
      forall e ensures e in xs[1..] <==> e in ys[1..] {
        SortedTail(xs, e);
        SortedTail(ys, e);
      }
      SortedUnique(xs[1..], ys[1..]);
      assert xs == [xs[0]] + xs[1..] && ys == [ys[0]] + ys[1..];
    }
  }

  lemma SameElementsEmpty(xs: seq<string>, ys: seq<string>)
    requires forall e :: e in xs <==> e in ys
    ensures |xs| == 0 <==> |ys| == 0
  {
    if |xs| > 0 {
      assert xs[0] in ys;
    }
    if |ys| > 0 {
      assert ys[0] in xs;
    }
  }

  lemma SortedHeadIsLeast(xs: seq<string>, e: string)
    requires StrictlySorted(xs) && |xs| > 0 && e in xs
    ensures e == xs[0] || Less(xs[0], e)
  {
  }

  lemma SortedTail(xs: seq<string>, e: string)
    requires StrictlySorted(xs) && |xs| > 0
    ensures e in xs[1..] <==> e in xs && e != xs[0]
  {
    if e in xs[1..] {
      var j :| 0 <= j < |xs[1..]| && xs[1..][j] == e;
      assert Less(xs[0], xs[j + 1]);
      LessIrreflexive(e);
    }
    if e in xs && e != xs[0] {
      var j :| 0 <= j < |xs| && xs[j] == e;
      assert xs[1..][j - 1] == e;
    }
  }

  /** No element occurs twice in a strictly sorted sequence. */
  lemma SortedDistinct(xs: seq<string>, i: nat, j: nat)
    requires StrictlySorted(xs) && i < j < |xs|
    ensures xs[i] != xs[j]
  {
    LessIrreflexive(xs[i]);
  }

  // ---------------------------------------------------------------------------
  // `Array.prototype.sort` with a comparator that compares a rank, then a key

  /** `a` sorts strictly before `b`: a smaller rank, or the same rank and a
      smaller key. */
  predicate Before<T>(rank: T -> nat, key: T -> string, a: T, b: T) {
    rank(a) < rank(b) || (rank(a) == rank(b) && Less(key(a), key(b)))
  }

  predicate SortedBy<T>(rank: T -> nat, key: T -> string, xs: seq<T>) {
    forall i, j :: 0 <= i < j < |xs| ==> !Before(rank, key, xs[j], xs[i])
  }

  lemma BeforeTotal<T>(rank: T -> nat, key: T -> string, a: T, b: T)
    requires !Before(rank, key, a, b)
    ensures Before(rank, key, b, a) || (rank(a) == rank(b) && key(a) == key(b))
  {
    LessTotal(key(a), key(b));
  }

  lemma BeforeTransitive<T>(rank: T -> nat, key: T -> string, a: T, b: T, c: T)
    requires !Before(rank, key, b, a) && !Before(rank, key, c, b)
    ensures !Before(rank, key, c, a)
  {
    BeforeTotal(rank, key, b, a);
    BeforeTotal(rank, key, c, b);
    if Before(rank, key, c, a) {
      if Before(rank, key, a, b) && Less(key(c), key(a)) && Less(key(a), key(b)) {
        LessTransitive(key(c), key(a), key(b));
      }
      if Before(rank, key, b, c) && Less(key(b), key(c)) && Less(key(c), key(a)) {
        LessTransitive(key(b), key(c), key(a));
      }
      if Less(key(a), key(b)) && Less(key(b), key(c)) {
        LessTransitive(key(a), key(b), key(c));
        LessAsymmetric(key(a), key(c));
      }
    }
  }

  /** Places `x` in front of the first element that does not sort strictly
      before it, so that `x` stays ahead of the elements it ties with. */
  function InsertBy<T>(rank: T -> nat, key: T -> string, x: T, xs: seq<T>): (r: seq<T>)
    requires SortedBy(rank, key, xs)
    ensures SortedBy(rank, key, r)
    ensures multiset(r) == multiset(xs) + multiset{x}
    decreases |xs|
  {
    if |xs| == 0 then [x]
    else if !Before(rank, key, xs[0], x) then
      assert forall j :: 0 <= j < |xs| ==> !Before(rank, key, xs[j], x) by {
        forall j | 0 < j < |xs| ensures !Before(rank, key, xs[j], x) {
          BeforeTransitive(rank, key, x, xs[0], xs[j]);
        }
      }
      SortedCons(rank, key, x, xs);
      [x] + xs
    else
      var rest := InsertBy(rank, key, x, xs[1..]);
      assert xs == [xs[0]] + xs[1..];
      InsertByHead(rank, key, x, xs, rest);
      SortedCons(rank, key, xs[0], rest);
      [xs[0]] + rest
  }

  /** Prepending an element that no later element sorts strictly before. */
  lemma SortedCons<T>(rank: T -> nat, key: T -> string, h: T, xs: seq<T>)
    requires SortedBy(rank, key, xs)
    requires forall j :: 0 <= j < |xs| ==> !Before(rank, key, xs[j], h)
    ensures SortedBy(rank, key, [h] + xs)
  {
    var r := [h] + xs;
    forall i, j | 0 <= i < j < |r| ensures !Before(rank, key, r[j], r[i]) {
      assert r[j] == xs[j - 1];
      if i > 0 {
        assert r[i] == xs[i - 1];
      }
    }
  }

  /** The head of a sorted sequence that sorts strictly before `x` stays ahead
      of everything that `x` is inserted among. */
  lemma InsertByHead<T>(rank: T -> nat, key: T -> string, x: T, xs: seq<T>, rest: seq<T>)
    requires SortedBy(rank, key, xs) && |xs| > 0 && Before(rank, key, xs[0], x)
    requires multiset(rest) == multiset(xs[1..]) + multiset{x}
    ensures forall j :: 0 <= j < |rest| ==> !Before(rank, key, rest[j], xs[0])
  {
    forall j | 0 <= j < |rest| ensures !Before(rank, key, rest[j], xs[0]) {
      assert rest[j] in multiset(rest);
      if rest[j] != x {
        assert rest[j] in multiset(xs[1..]);
        var k :| 0 <= k < |xs[1..]| && xs[1..][k] == rest[j];
        assert xs[k + 1] == rest[j];
      } else {
        LessAsymmetricOn(rank, key, xs[0], x);
      }
    }
  }

  lemma LessAsymmetricOn<T>(rank: T -> nat, key: T -> string, a: T, b: T)
    requires Before(rank, key, a, b)
    ensures !Before(rank, key, b, a)
  {
    if rank(a) == rank(b) {
      LessAsymmetric(key(a), key(b));
    }
  }

  /** `xs.sort((a, b) => …)` with the comparator ordering by rank, then key,
      as a stable insertion sort: the result is ordered by (rank, key) and holds
      exactly the elements it was given, each as many times. */
  function SortBy<T>(rank: T -> nat, key: T -> string, xs: seq<T>): (r: seq<T>)
    ensures SortedBy(rank, key, r)
    ensures multiset(r) == multiset(xs)
    decreases |xs|
  {
    if |xs| == 0 then []
    else
      assert xs == [xs[0]] + xs[1..];
      InsertBy(rank, key, xs[0], SortBy(rank, key, xs[1..]))
  }
}
