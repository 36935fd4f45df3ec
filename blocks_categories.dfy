/**
 * The category list of the site: each preset category with the number of
 * blocks in it, counted from the block metadata list.
 */
module BlocksCategories {
  import opened Wrappers
  import opened Strings
  import opened Declarations

  /** The tally `countByCategory` builds: category id to number of blocks. */
  type CategoryCount = map<string, nat>

  /** The tally's entry for a category, 0 when it has none. */
  function Get(counts: CategoryCount, c: string): nat {
    if c in counts then counts[c] else 0
  }

  /** The number of blocks in category `c`, counted directly. */
  function CountOf(blocks: seq<BlocksMetadata>, c: string): (n: nat)
    ensures n <= |blocks|
    decreases |blocks|
  {
    if |blocks| == 0 then 0
    else CountOf(blocks[..|blocks| - 1], c) + (if blocks[|blocks| - 1].category == c then 1 else 0)
  }

  /** The tally after the `reduce` has seen the blocks in order: each block
      adds one to its category's entry, creating it at 1. */
  function Tally(blocks: seq<BlocksMetadata>): CategoryCount
    decreases |blocks|
  {
    if |blocks| == 0 then map[]
    else
      var acc := Tally(blocks[..|blocks| - 1]);
      var c := blocks[|blocks| - 1].category;
      acc[c := Get(acc, c) + 1]
  }

  /** `countByCategory`. */
  method CountByCategory(blocks: seq<BlocksMetadata>) returns (acc: CategoryCount)
    ensures acc == Tally(blocks)
  {
    acc := map[];
    for i := 0 to |blocks|
      invariant acc == Tally(blocks[..i])
    {
      assert blocks[..i + 1][..i] == blocks[..i];
      var category := blocks[i].category;
      acc := acc[category := (if category in acc then acc[category] else 0) + 1];
    }
    assert blocks[..|blocks|] == blocks;
  }

  /** Each category's entry is the number of its blocks, and a category with
      no blocks has no entry. */
  lemma {:induction false} TallyCount(blocks: seq<BlocksMetadata>, c: string)
    ensures Get(Tally(blocks), c) == CountOf(blocks, c)
    ensures c in Tally(blocks) <==> CountOf(blocks, c) > 0
    decreases |blocks|
  {
    if |blocks| > 0 {
      TallyCount(blocks[..|blocks| - 1], c);
    }
  }

  /** Every key of the tally is the category of some block. */
  lemma {:induction false} TallyKeys(blocks: seq<BlocksMetadata>, c: string)
    ensures c in Tally(blocks) <==> exists i :: 0 <= i < |blocks| && blocks[i].category == c
    decreases |blocks|
  {
    if |blocks| > 0 {
      var init := blocks[..|blocks| - 1];
      TallyKeys(init, c);
      if exists i :: 0 <= i < |init| && init[i].category == c {
        var i :| 0 <= i < |init| && init[i].category == c;
        assert blocks[i] == init[i];
      }
      if exists i :: 0 <= i < |blocks| && blocks[i].category == c {
        var i :| 0 <= i < |blocks| && blocks[i].category == c;
        if i < |init| {
          assert init[i] == blocks[i];
        }
      }
    }
  }

  // ---------------------------------------------------------------------------
  // The counts add up to the number of blocks

  predicate Distinct(ks: seq<string>) {
    forall i, j :: 0 <= i < j < |ks| ==> ks[i] != ks[j]
  }

  /** The sum of the entries for the keys `ks`. */
  function Total(counts: CategoryCount, ks: seq<string>): nat
    decreases |ks|
  {
    if |ks| == 0 then 0 else Get(counts, ks[0]) + Total(counts, ks[1..])
  }

  /** Adding one to a listed key adds one to the total. */
  lemma {:induction false} TotalIncrement(counts: CategoryCount, ks: seq<string>, c: string)
    requires Distinct(ks) && c in ks
    ensures Total(counts[c := Get(counts, c) + 1], ks) == Total(counts, ks) + 1
    decreases |ks|
  {
    var counts' := counts[c := Get(counts, c) + 1];
    if ks[0] == c {
      assert c !in ks[1..];
      TotalSame(counts, counts', ks[1..]);
    } else {
      TotalIncrement(counts, ks[1..], c);
    }
  }

  lemma {:induction false} TotalSame(a: CategoryCount, b: CategoryCount, ks: seq<string>)
    requires forall i :: 0 <= i < |ks| ==> Get(a, ks[i]) == Get(b, ks[i])
    ensures Total(a, ks) == Total(b, ks)
    decreases |ks|
  {
    if |ks| > 0 {
      TotalSame(a, b, ks[1..]);
    }
  }

  /** Summed over any list of distinct category ids that takes in every key,
      the tally comes to the number of blocks. */
  lemma {:induction false} TallySum(blocks: seq<BlocksMetadata>, ks: seq<string>)
    requires Distinct(ks)
    requires forall i :: 0 <= i < |blocks| ==> blocks[i].category in ks
    ensures Total(Tally(blocks), ks) == |blocks|
    decreases |blocks|
  {
    if |blocks| == 0 {
      TotalEmpty(ks);
    } else {
      var init := blocks[..|blocks| - 1];
      forall i | 0 <= i < |init| ensures init[i].category in ks {
        assert init[i] == blocks[i];
      }
      TallySum(init, ks);
      TotalIncrement(Tally(init), ks, blocks[|blocks| - 1].category);
    }
  }

  lemma {:induction false} TotalEmpty(ks: seq<string>)
    ensures Total(map[], ks) == 0
    decreases |ks|
  {
    if |ks| > 0 {
      TotalEmpty(ks[1..]);
    }
  }

  // ---------------------------------------------------------------------------
  // The category list with its counts

  /** The text shown for a count: the number in decimal, `"0"` without an entry. */
  function CountText(counts: CategoryCount, id: string): (t: string)
    ensures forall k :: 0 <= k < |t| ==> '0' <= t[k] <= '9'
    ensures ParseDecimal(t) == Get(counts, id)
    ensures t == "0" <==> Get(counts, id) == 0
  {
    DecimalRoundTrip(Get(counts, id));
    DecimalZero(Get(counts, id));
    if id in counts then DecimalString(counts[id]) else "0"
  }

  /** `updateCategoryCounts`: each category keeps its fields and gains the
      text of its count. */
  function UpdateCategoryCounts(categories: seq<PreCategory>, counts: CategoryCount): (r: seq<CategoryMetadata>)
    ensures |r| == |categories|
    ensures forall i :: 0 <= i < |r| ==>
      && r[i].id == categories[i].id
      && r[i].name == categories[i].name
      && r[i].thumbnail == categories[i].thumbnail
      && r[i].hasCharts == categories[i].hasCharts
      && (forall k :: 0 <= k < |r[i].count| ==> '0' <= r[i].count[k] <= '9')
      && ParseDecimal(r[i].count) == Get(counts, categories[i].id)
  {
    seq(|categories|, i requires 0 <= i < |categories| =>
      var c := categories[i];
      CategoryMetadata(c.id, c.name, c.thumbnail, CountText(counts, c.id), c.hasCharts))
  }

  /** The preset category list, in display order. */
  const PresetCategories: seq<PreCategory> := [
    PreCategory(DialogsId, "Dialogs", DialogThumbnail, Some(false)),
    PreCategory(FileUploadId, "File Upload", FileUploadThumbnail, Some(false)),
    PreCategory(FormLayoutId, "Form Layout", FormLayoutThumbnail, Some(false)),
    PreCategory(GridListId, "Grid List", StatsThumbnail, Some(false)),
    PreCategory(LoginId, "Login & Signup", LoginThumbnail, Some(false)),
    PreCategory(StatsId, "Stats", StatsThumbnail, Some(false))
  ]

  /** `initializeAndUpdateCategories`, over a given block list. */
  function InitializeAndUpdateCategories(blocks: seq<BlocksMetadata>): (r: seq<CategoryMetadata>)
    ensures |r| == |PresetCategories|
    ensures forall i :: 0 <= i < |r| ==> r[i].id == PresetCategories[i].id
  {
    UpdateCategoryCounts(PresetCategories, Tally(blocks))
  }

  /** Each listed category shows the number of blocks that carry its id. */
  lemma CategoryCounts(blocks: seq<BlocksMetadata>, i: nat)
    requires i < |PresetCategories|
    ensures InitializeAndUpdateCategories(blocks)[i].count == DecimalString(CountOf(blocks, PresetCategories[i].id))
  {
    TallyCount(blocks, PresetCategories[i].id);
  }

  /** The ids of the result are the preset ids, in order. */
  lemma CategoryIds(blocks: seq<BlocksMetadata>)
    ensures |InitializeAndUpdateCategories(blocks)| == 6
    ensures InitializeAndUpdateCategories(blocks)[0].id == "dialogs"
    ensures InitializeAndUpdateCategories(blocks)[5].id == "stats"
  {
  }

  /** A block whose category is not listed changes nothing in the result. */
  lemma UnlistedCategory(blocks: seq<BlocksMetadata>, b: BlocksMetadata)
    requires forall i :: 0 <= i < |PresetCategories| ==> PresetCategories[i].id != b.category
    ensures InitializeAndUpdateCategories(blocks + [b]) == InitializeAndUpdateCategories(blocks)
  {
    var blocks' := blocks + [b];
    assert blocks'[..|blocks'| - 1] == blocks;
    var a := InitializeAndUpdateCategories(blocks');
    var c := InitializeAndUpdateCategories(blocks);
    forall i | 0 <= i < |a| ensures a[i] == c[i] {
      assert Get(Tally(blocks'), PresetCategories[i].id) == Get(Tally(blocks), PresetCategories[i].id);
    }
  }
}
