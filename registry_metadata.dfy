/**
 * The registry generator's first step: importing the block metadata list and
 * turning it into a map from block id to display name.
 */
module RegistryMetadata {
  import opened Wrappers
  import opened Declarations

  /** What the dynamic import of the metadata module produced. */
  datatype MetadataSource =
    | Unloadable
    | NotAnArray
    | Entries(items: seq<BlocksMetadata>)

  /** Why the generator stops (with exit status 1) before walking any directory. */
  datatype LoadError = ImportFailed | NotAnArrayError

  /** An entry is used only when both its id and its name are truthy, that is,
      non-empty strings. */
  predicate Usable(b: BlocksMetadata) {
    b.id != "" && b.name != ""
  }

  /** The map after the loop has visited `items` in order: every usable entry
      sets its id to its name, overwriting what an earlier entry set. */
  function TitleMap(items: seq<BlocksMetadata>): (m: map<string, string>)
    ensures forall k :: k in m ==> k != "" && m[k] != ""
    decreases |items|
  {
    if |items| == 0 then map[]
    else
      var m := TitleMap(items[..|items| - 1]);
      var b := items[|items| - 1];
      if Usable(b) then m[b.id := b.name] else m
  }

  /** An id is a key exactly when some usable entry carries it. */
  lemma {:induction false} TitleMapKeys(items: seq<BlocksMetadata>, k: string)
    ensures k in TitleMap(items) <==>
            exists i :: 0 <= i < |items| && Usable(items[i]) && items[i].id == k
    decreases |items|
  {
    if |items| > 0 {
      var init := items[..|items| - 1];
      TitleMapKeys(init, k);
      if exists i :: 0 <= i < |init| && Usable(init[i]) && init[i].id == k {
        var i :| 0 <= i < |init| && Usable(init[i]) && init[i].id == k;
        assert items[i] == init[i];
      }
      if exists i :: 0 <= i < |items| && Usable(items[i]) && items[i].id == k {
        var i :| 0 <= i < |items| && Usable(items[i]) && items[i].id == k;
        if i < |init| {
          assert init[i] == items[i];
        }
      }
    }
  }

  /** The name stored for an id is the one of the last usable entry with it. */
  lemma {:induction false} TitleMapLastWins(items: seq<BlocksMetadata>, i: nat)
    requires i < |items| && Usable(items[i])
    requires forall j :: i < j < |items| ==> !(Usable(items[j]) && items[j].id == items[i].id)
    ensures items[i].id in TitleMap(items) && TitleMap(items)[items[i].id] == items[i].name
    decreases |items|
  {
    if i < |items| - 1 {
      var init := items[..|items| - 1];
      assert init[i] == items[i];
      forall j | i < j < |init| ensures !(Usable(init[j]) && init[j].id == init[i].id) {
        assert init[j] == items[j];
      }
      TitleMapLastWins(init, i);
    }
  }

  /** `loadMetadata`: a failed import or a value that is not an array stops the
      generator; otherwise the entries are folded into the id-to-name map. */
  method LoadMetadata(src: MetadataSource) returns (r: Result<map<string, string>, LoadError>)
    ensures src.Unloadable? ==> r == Err(ImportFailed)
    ensures src.NotAnArray? ==> r == Err(NotAnArrayError)
    ensures src.Entries? ==> r == Ok(TitleMap(src.items))
  {
    match src
    case Unloadable =>
      r := Err(ImportFailed);
    case NotAnArray =>
      r := Err(NotAnArrayError);
    case Entries(items) =>
      var m: map<string, string> := map[];
      var i := 0;
      while i < |items|
        invariant 0 <= i <= |items|
        invariant m == TitleMap(items[..i])
      {
        assert items[..i + 1][..i] == items[..i];
        var b := items[i];
        if b.id != "" && b.name != "" {
          m := m[b.id := b.name];
        }
        i := i + 1;
      }
      assert items[..|items|] == items;
      r := Ok(m);
  }
}
