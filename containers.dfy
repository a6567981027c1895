/**
 * GameplayTagContainer as an object: two tag arrays that its methods update
 * in place.  Each method is proved against the value-level operation of
 * module TagSets (or TagMatching) that it performs, and the properties of
 * the container are proved there.
 */
module Containers {
  import opened Tags
  import opened TagSearch
  import opened TagSets
  import opened TagMatching

  class GameplayTagContainer {
    /** `GameplayTags`: the explicit tags, kept in ascending `CompareTo` order by the insertions. */
    var gameplayTags: seq<Tag>
    /** `ParentTags`: the implied ancestor tags of the explicit ones. */
    var parentTags: seq<Tag>

    /** The container's state as a value. */
    function View(): TagSetValue
      reads this
    {
      TagSetValue(gameplayTags, parentTags)
    }

    constructor()
      ensures View() == Empty
    {
      gameplayTags := [];
      parentTags := [];
    }

    /** `GetGameplayTagParents`: a new container holding both arrays merged as explicit tags. */
    method GetGameplayTagParents() returns (result: GameplayTagContainer)
      ensures fresh(result)
      ensures result.View() == Flattened(View())
    {
      result := new GameplayTagContainer();
      var merged := gameplayTags;
      for i := 0 to |parentTags|
        invariant merged == InsertAll(gameplayTags, parentTags[..i])
      {
        var tag := parentTags[i];
        var index := BinarySearch(merged, tag);
        if index < 0 {
          index := -index - 1;
          merged := InsertAt(merged, index, tag);
        }
        assert parentTags[..i + 1][..i] == parentTags[..i];
      }
      assert parentTags[..|parentTags|] == parentTags;
      result.gameplayTags := merged;
    }

    /** `AddTag`: `AddTagFast` for a valid tag; an invalid tag is ignored. */
    method AddTag(reg: Registry, tag: Tag)
      modifies this
      ensures View() == WithTag(reg, old(View()), tag)
    {
      if IsValid(tag) {
        AddTagFast(reg, tag);
      }
    }

    /** `AddTagFast`: binary-insert the tag unless found, and then add its registry parents. */
    method AddTagFast(reg: Registry, tag: Tag)
      modifies this
      ensures View() == WithTagFast(reg, old(View()), tag)
    {
      var index := BinarySearch(gameplayTags, tag);
      if index < 0 {
        index := -index - 1;
        gameplayTags := InsertAt(gameplayTags, index, tag);
        AddParentTag(reg, tag);
      }
    }

    /** `AddParentTag`: binary-insert every parent tag of the tag's registry container. */
    method AddParentTag(reg: Registry, tag: Tag)
      modifies this
      ensures gameplayTags == old(gameplayTags)
      ensures parentTags == WithParentsOf(reg, old(parentTags), tag)
    {
      var singleContainer := GetSingleTagContainer(reg, tag);
      if singleContainer.Some? {
        var parents := singleContainer.value.parentTags;
        assert parents == RegistryParents(reg, tag);
        for i := 0 to |parents|
          invariant gameplayTags == old(gameplayTags)
          invariant parentTags == InsertAll(old(parentTags), parents[..i])
        {
          var parentTag := parents[i];
          var index := BinarySearch(parentTags, parentTag);
          if index < 0 {
            index := -index - 1;
            parentTags := InsertAt(parentTags, index, parentTag);
          }
          assert parents[..i + 1][..i] == parents[..i];
        }
        assert parents[..|parents|] == parents;
      }
    }

    /** `FillParentTags`: clear the parent tags and add the registry parents of every explicit tag. */
    method FillParentTags(reg: Registry)
      modifies this
      ensures View() == Refilled(reg, old(View()))
    {
      parentTags := [];
      for i := 0 to |gameplayTags|
        invariant gameplayTags == old(gameplayTags)
        invariant parentTags == ParentsOfAll(reg, [], gameplayTags[..i])
      {
        var tag := gameplayTags[i];
        AddParentTag(reg, tag);
        assert gameplayTags[..i + 1][..i] == gameplayTags[..i];
      }
      assert gameplayTags[..|gameplayTags|] == gameplayTags;
    }

    /** `RemoveTag`: delete the tag the binary search finds; unless deferred, rebuild the parent tags. */
    method RemoveTag(reg: Registry, tag: Tag, deferParentTags: bool) returns (removed: bool)
      modifies this
      ensures Removal(removed, View()) == Removed(reg, old(View()), tag, deferParentTags)
    {
      var index := BinarySearch(gameplayTags, tag);
      if index < 0 {
        return false;
      }
      gameplayTags := gameplayTags[..index] + gameplayTags[index + 1..];
      if !deferParentTags {
        FillParentTags(reg);
      }
      return true;
    }

    /** `AppendTags`: `AddTag` for each explicit tag of `other`, in order. */
    method AppendTags(reg: Registry, other: GameplayTagContainer)
      requires other != this
      modifies this
      ensures View() == Appended(reg, old(View()), other.gameplayTags)
    {
      for i := 0 to |other.gameplayTags|
        invariant View() == Appended(reg, old(View()), other.gameplayTags[..i])
      {
        var tag := other.gameplayTags[i];
        AddTag(reg, tag);
        assert other.gameplayTags[..i + 1][..i] == other.gameplayTags[..i];
      }
      assert other.gameplayTags[..|other.gameplayTags|] == other.gameplayTags;
    }

    /** `Filter`: a new container with the explicit tags that match some explicit tag of `other`. */
    method Filter(reg: Registry, other: GameplayTagContainer) returns (result: GameplayTagContainer)
      ensures fresh(result)
      ensures result.View() == Filtered(reg, View(), other.View())
    {
      result := new GameplayTagContainer();
      for i := 0 to |gameplayTags|
        invariant fresh(result)
        invariant result.View() == FilterOf(reg, false, gameplayTags[..i], other.View())
      {
        var tag := gameplayTags[i];
        if MatchesAny(reg, tag, other.View()) {
          result.AddTagFast(reg, tag);
        }
        assert gameplayTags[..i + 1][..i] == gameplayTags[..i];
      }
      assert gameplayTags[..|gameplayTags|] == gameplayTags;
    }

    /** `FilterExact`: a new container with the explicit tags found among the explicit tags of `other`. */
    method FilterExact(reg: Registry, other: GameplayTagContainer) returns (result: GameplayTagContainer)
      ensures fresh(result)
      ensures result.View() == FilteredExact(reg, View(), other.View())
    {
      result := new GameplayTagContainer();
      for i := 0 to |gameplayTags|
        invariant fresh(result)
        invariant result.View() == FilterOf(reg, true, gameplayTags[..i], other.View())
      {
        var tag := gameplayTags[i];
        if MatchesAnyExact(tag, other.View()) {
          result.AddTagFast(reg, tag);
        }
        assert gameplayTags[..i + 1][..i] == gameplayTags[..i];
      }
      assert gameplayTags[..|gameplayTags|] == gameplayTags;
    }

    /** `HasAny`: some explicit tag of `containerToCheck` is found by `HasTag`. */
    method HasAny(containerToCheck: GameplayTagContainer) returns (r: bool)
      ensures r <==> HasAnyOf(View(), containerToCheck.View())
    {
      if !IsEmpty(containerToCheck.View()) {
        for i := 0 to |containerToCheck.gameplayTags|
          invariant forall j | 0 <= j < i :: !HasTag(View(), containerToCheck.gameplayTags[j])
        {
          var otherTag := containerToCheck.gameplayTags[i];
          if HasTag(View(), otherTag) {
            return true;
          }
        }
      }
      return false;
    }

    /** `HasAnyExact`: some explicit tag of `containerToCheck` is found by `HasTagExact`. */
    method HasAnyExact(containerToCheck: GameplayTagContainer) returns (r: bool)
      ensures r <==> HasAnyExactOf(View(), containerToCheck.View())
    {
      if !IsEmpty(containerToCheck.View()) {
        for i := 0 to |containerToCheck.gameplayTags|
          invariant forall j | 0 <= j < i :: !HasTagExact(View(), containerToCheck.gameplayTags[j])
        {
          var otherTag := containerToCheck.gameplayTags[i];
          if HasTagExact(View(), otherTag) {
            return true;
          }
        }
      }
      return false;
    }

    /** `HasAll`: every explicit tag of `containerToCheck` is found by `HasTag` (true for an empty one). */
    method HasAll(containerToCheck: GameplayTagContainer) returns (r: bool)
      ensures r <==> HasAllOf(View(), containerToCheck.View())
    {
      if !IsEmpty(containerToCheck.View()) {
        for i := 0 to |containerToCheck.gameplayTags|
          invariant forall j | 0 <= j < i :: HasTag(View(), containerToCheck.gameplayTags[j])
        {
          var otherTag := containerToCheck.gameplayTags[i];
          if !HasTag(View(), otherTag) {
            return false;
          }
        }
      }
      return true;
    }

    /** `HasAllExact`: every explicit tag of `containerToCheck` is found by `HasTagExact` (true for an empty one). */
    method HasAllExact(containerToCheck: GameplayTagContainer) returns (r: bool)
      ensures r <==> HasAllExactOf(View(), containerToCheck.View())
    {
      if !IsEmpty(containerToCheck.View()) {
        for i := 0 to |containerToCheck.gameplayTags|
          invariant forall j | 0 <= j < i :: HasTagExact(View(), containerToCheck.gameplayTags[j])
        {
          var otherTag := containerToCheck.gameplayTags[i];
          if !HasTagExact(View(), otherTag) {
            return false;
          }
        }
      }
      return true;
    }

    /** `Reset`: clear both arrays. */
    method Reset()
      modifies this
      ensures View() == Empty
    {
      gameplayTags := [];
      parentTags := [];
    }
  }
}
