/**
 * GameplayTagCountContainer as an object: the count maps, the explicit-tag
 * container and the delegate bindings are fields that its methods update
 * in place, and the delegate invocations are appended to `fired`.  Each
 * method is proved against the ledger operation of module TagCounts.
 */
module CountContainers {
  import opened Options
  import opened Tags
  import opened TagSets
  import opened Containers
  import opened TagCounts

  /**
   * Regrouping a concatenation; models no source behaviour, it only keeps
   * the proof of `GatherTagChangeDelegates` within its resource budget.
   */
  lemma AppendTwice(a: seq<Deferred>, b: seq<Deferred>, c: seq<Deferred>, d: seq<Deferred>)
    ensures a + b + c + d == a + (b + c + d)
  {
  }

  class GameplayTagCountContainer {
    /** `GameplayTagCountMap`: counts of explicit tags and their parents. */
    var gameplayTagCountMap: map<Tag, int>
    /** `ExplicitTagCountMap`: counts of the explicitly added tags. */
    var explicitTagCountMap: map<Tag, int>
    /** `ExplicitTags`: the explicitly added tags. */
    const explicitTags: GameplayTagContainer
    /** Whether `OnAnyTagChangeDelegate` is bound. */
    var onAnyTagChangeBound: bool
    /** `GameplayTagEventMap`: the per-tag delegates. */
    var gameplayTagEventMap: map<Tag, DelegateInfo>
    /** The delegate invocations so far. */
    var fired: seq<Fired>

    /** The object as a ledger value. */
    function View(): Ledger
      reads this, explicitTags
    {
      Ledger(gameplayTagCountMap, explicitTagCountMap, explicitTags.View(), onAnyTagChangeBound, gameplayTagEventMap, fired)
    }

    constructor()
      ensures fresh(explicitTags)
      ensures View() == NewLedger
    {
      gameplayTagCountMap := map[];
      explicitTagCountMap := map[];
      explicitTags := new GameplayTagContainer();
      onAnyTagChangeBound := false;
      gameplayTagEventMap := map[];
      fired := [];
    }

    /**
     * `HasAllMatchingGameplayTags`: false for an empty container; otherwise
     * whether every explicit tag of it has a positive count.
     */
    method HasAllMatchingGameplayTags(tagContainer: GameplayTagContainer) returns (allMatch: bool)
      ensures allMatch <==> (!TagSets.IsEmpty(tagContainer.View()) &&
        forall i | 0 <= i < |tagContainer.gameplayTags| :: HasMatchingGameplayTag(View(), tagContainer.gameplayTags[i]))
    {
      if TagSets.IsEmpty(tagContainer.View()) {
        return false;
      }
      allMatch := true;
      for i := 0 to |tagContainer.gameplayTags|
        invariant allMatch
        invariant forall j | 0 <= j < i :: HasMatchingGameplayTag(View(), tagContainer.gameplayTags[j])
      {
        var tag := tagContainer.gameplayTags[i];
        if !HasMatchingGameplayTag(View(), tag) {
          allMatch := false;
          break;
        }
      }
    }

    /**
     * `HasAnyMatchingGameplayTags`: false for an empty container; otherwise
     * whether some explicit tag of it has a positive count.
     */
    method HasAnyMatchingGameplayTags(tagContainer: GameplayTagContainer) returns (anyMatch: bool)
      ensures anyMatch <==>
        exists i | 0 <= i < |tagContainer.gameplayTags| :: HasMatchingGameplayTag(View(), tagContainer.gameplayTags[i])
    {
      if TagSets.IsEmpty(tagContainer.View()) {
        return false;
      }
      anyMatch := false;
      for i := 0 to |tagContainer.gameplayTags|
        invariant !anyMatch
        invariant forall j | 0 <= j < i :: !HasMatchingGameplayTag(View(), tagContainer.gameplayTags[j])
      {
        var tag := tagContainer.gameplayTags[i];
        if HasMatchingGameplayTag(View(), tag) {
          anyMatch := true;
          break;
        }
      }
    }

    /** `updateExplicitTags` */
    method UpdateExplicitTags(reg: Registry, tag: Tag, countDelta: int, deferParentTagsOnRemove: bool) returns (r: bool)
      modifies this, explicitTags
      ensures Outcome(r, View()) == UpdateExplicit(reg, old(View()), tag, countDelta, deferParentTagsOnRemove)
    {
      var tagAlreadyExplicitlyExists := HasTagExact(explicitTags.View(), tag);
      if !tagAlreadyExplicitlyExists {
        if countDelta > 0 {
          explicitTags.AddTag(reg, tag);
        } else {
          return false;
        }
      }
      if tag in explicitTagCountMap {
        var count := Max(explicitTagCountMap[tag] + countDelta, 0);
        explicitTagCountMap := explicitTagCountMap[tag := count];
        if count <= 0 {
          var _ := explicitTags.RemoveTag(reg, tag, deferParentTagsOnRemove);
        }
      }
      return true;
    }

    /**
     * `gatherTagChangeDelegates`: update the counts of the tag and its
     * parents and append the delegate calls to the caller's list.
     */
    method GatherTagChangeDelegates(reg: Registry, tag: Tag, countDelta: int, tagChangeDelegates: seq<Deferred>)
      returns (createdSignificantChange: bool, delegates: seq<Deferred>)
      modifies this
      ensures var g := Gather(old(gameplayTagCountMap), gameplayTagEventMap, tag, countDelta, Chain(reg, tag));
        && createdSignificantChange == g.significant
        && delegates == tagChangeDelegates + g.deferred
        && View() == old(View()).(gameplayTagCounts := g.counts)
    {
      var tagAndParents := RequestGameplayTagParents(reg, tag).gameplayTags;
      var counts := gameplayTagCountMap;
      createdSignificantChange := false;
      delegates := tagChangeDelegates;
      for i := 0 to |tagAndParents|
        invariant var g := Gather(old(gameplayTagCountMap), gameplayTagEventMap, tag, countDelta, tagAndParents[..i]);
          && createdSignificantChange == g.significant
          && delegates == tagChangeDelegates + g.deferred
          && counts == g.counts
        modifies {}
      {
        ghost var before := Gather(old(gameplayTagCountMap), gameplayTagEventMap, tag, countDelta, tagAndParents[..i]);
        ghost var after := GatherStep(before, gameplayTagEventMap, tag, countDelta, tagAndParents[i]);
        GatherExtends(old(gameplayTagCountMap), gameplayTagEventMap, tag, countDelta, tagAndParents, i);
        var tagToCheck := tagAndParents[i];
        if tagToCheck in counts {
          var count := counts[tagToCheck];
          var newCount := Max(count + countDelta, 0);
          var significantChange := count == 0 || newCount == 0;
          counts := counts[tagToCheck := newCount];
          createdSignificantChange := createdSignificantChange || significantChange;
          var anyTag := if significantChange then [Deferred(OnAnyTagChange, Unbound, tag, newCount)] else [];
          var perTag := [];
          if tagToCheck in gameplayTagEventMap {
            var delegateInfo := gameplayTagEventMap[tagToCheck];
            perTag := [Deferred(OnAnyChange, delegateInfo, tag, newCount)];
            if significantChange {
              perTag := perTag + [Deferred(OnNewOrRemove, delegateInfo, tag, newCount)];
            }
          }
          assert after.deferred == before.deferred + anyTag + perTag;
          AppendTwice(tagChangeDelegates, before.deferred, anyTag, perTag);
          delegates := delegates + anyTag + perTag;
        }
      }
      gameplayTagCountMap := counts;
      assert tagAndParents[..|tagAndParents|] == tagAndParents;
    }

    /** Run the deferred delegate calls in order. */
    method RunDeferred(tagChangeDelegates: seq<Deferred>)
      modifies this
      ensures View() == old(View()).(fired := old(fired) + Flush(tagChangeDelegates, onAnyTagChangeBound))
    {
      for i := 0 to |tagChangeDelegates|
        invariant View() == old(View()).(fired := old(fired) + Flush(tagChangeDelegates[..i], onAnyTagChangeBound))
      {
        fired := fired + Invoked(tagChangeDelegates[i], onAnyTagChangeBound);
        assert tagChangeDelegates[..i + 1][..i] == tagChangeDelegates[..i];
      }
      assert tagChangeDelegates[..|tagChangeDelegates|] == tagChangeDelegates;
    }

    /** `updateTagMapInternal` */
    method UpdateTagMapInternal(reg: Registry, tag: Tag, countDelta: int) returns (r: bool)
      modifies this, explicitTags
      ensures Outcome(r, View()) == UpdateTagMap(reg, old(View()), tag, countDelta)
    {
      ghost var u := UpdateExplicit(reg, View(), tag, countDelta, false);
      var updated := UpdateExplicitTags(reg, tag, countDelta, false);
      if !updated {
        return false;
      }
      assert View() == u.ledger;
      ghost var g := Gather(u.ledger.gameplayTagCounts, u.ledger.gameplayTagEvents, tag, countDelta, Chain(reg, tag));
      var tagChangeDelegates;
      r, tagChangeDelegates := GatherTagChangeDelegates(reg, tag, countDelta, []);
      assert tagChangeDelegates == g.deferred;
      assert View() == u.ledger.(gameplayTagCounts := g.counts);
      RunDeferred(tagChangeDelegates);
    }

    /** `updateTagMapDeferredParentRemovalInternal` */
    method UpdateTagMapDeferredParentRemovalInternal(reg: Registry, tag: Tag, countDelta: int, tagChangeDelegates: seq<Deferred>)
      returns (r: bool, delegates: seq<Deferred>)
      modifies this, explicitTags
      ensures DeferredOutcome(r, View(), delegates) == UpdateDeferred(reg, old(View()), tag, countDelta, tagChangeDelegates)
    {
      var updated := UpdateExplicitTags(reg, tag, countDelta, true);
      if !updated {
        return false, tagChangeDelegates;
      }
      r, delegates := GatherTagChangeDelegates(reg, tag, countDelta, tagChangeDelegates);
    }

    /** `UpdateTagCount(tag, countDelta)` */
    method UpdateTagCount(reg: Registry, tag: Tag, countDelta: int) returns (r: bool)
      modifies this, explicitTags
      ensures Outcome(r, View()) == TagCounts.UpdateTagCount(reg, old(View()), tag, countDelta)
    {
      if countDelta != 0 {
        r := UpdateTagMapInternal(reg, tag, countDelta);
      } else {
        r := false;
      }
    }

    /** `UpdateTagCountDeferredParentRemoval` */
    method UpdateTagCountDeferredParentRemoval(reg: Registry, tag: Tag, countDelta: int, tagChangeDelegates: seq<Deferred>)
      returns (r: bool, delegates: seq<Deferred>)
      modifies this, explicitTags
      ensures DeferredOutcome(r, View(), delegates) == UpdateTagCountDeferred(reg, old(View()), tag, countDelta, tagChangeDelegates)
    {
      if countDelta != 0 {
        r, delegates := UpdateTagMapDeferredParentRemovalInternal(reg, tag, countDelta, tagChangeDelegates);
      } else {
        r, delegates := false, tagChangeDelegates;
      }
    }

    /** `UpdateTagCount(container, countDelta)`: the batch update over a container's explicit tags. */
    method UpdateTagCounts(reg: Registry, container: GameplayTagContainer, countDelta: int)
      requires container != explicitTags
      modifies this, explicitTags
      ensures View() == TagCounts.UpdateTagCounts(reg, old(View()), container.gameplayTags, countDelta)
    {
      if countDelta != 0 {
        var tags := container.gameplayTags;
        var updatedAny := false;
        var tagChangeDelegates: seq<Deferred> := [];
        for i := 0 to |tags|
          invariant DeferredOutcome(updatedAny, View(), tagChangeDelegates) == UpdateEach(reg, old(View()), tags[..i], countDelta)
        {
          var tag := tags[i];
          var updated;
          updated, tagChangeDelegates := UpdateTagMapDeferredParentRemovalInternal(reg, tag, countDelta, tagChangeDelegates);
          updatedAny := updatedAny || updated;
          assert tags[..i + 1][..i] == tags[..i];
        }
        assert tags[..|tags|] == tags;
        if updatedAny && countDelta < 0 {
          explicitTags.FillParentTags(reg);
        }
        RunDeferred(tagChangeDelegates);
      }
    }

    /** `SetTagCount` */
    method SetTagCount(reg: Registry, tag: Tag, newCount: int) returns (r: bool)
      modifies this, explicitTags
      ensures Outcome(r, View()) == TagCounts.SetTagCount(reg, old(View()), tag, newCount)
    {
      var existingCount := 0;
      if tag in explicitTagCountMap {
        existingCount := explicitTagCountMap[tag];
      }
      var countDelta := newCount - existingCount;
      if countDelta != 0 {
        r := UpdateTagMapInternal(reg, tag, countDelta);
      } else {
        r := false;
      }
    }

    /**
     * `NotifyStackCountChange`; `ok` is false, and nothing changes, for a
     * tag without a registry container, where the source dereferences null.
     */
    method NotifyStackCountChange(reg: Registry, tag: Tag) returns (ok: bool)
      modifies this
      ensures ok <==> TagCounts.NotifyStackCountChange(reg, old(View()), tag).Some?
      ensures ok ==> View() == TagCounts.NotifyStackCountChange(reg, old(View()), tag).value
      ensures !ok ==> View() == old(View())
    {
      var tagAndParentsContainer := GetSingleTagContainer(reg, tag);
      if tagAndParentsContainer.None? {
        return false;
      }
      var tags := tagAndParentsContainer.value.gameplayTags;
      for i := 0 to |tags|
        invariant View() == NotifyEach(old(View()), tags[..i])
      {
        var tagToCheck := tags[i];
        if tagToCheck in gameplayTagEventMap {
          var delegateInfo := gameplayTagEventMap[tagToCheck];
          var tagCount := 0;
          if tagToCheck !in gameplayTagCountMap {
            gameplayTagCountMap := gameplayTagCountMap[tagToCheck := tagCount];
            tagCount := gameplayTagCountMap[tagToCheck];
          }
          if delegateInfo.onAnyChange {
            fired := fired + [Fired(OnAnyChange, tagToCheck, tagCount)];
          }
        }
        assert tags[..i + 1][..i] == tags[..i];
      }
      assert tags[..|tags|] == tags;
      ok := true;
    }

    /** `RegisterGameplayTagEvent`; the result says whether the returned delegate is bound. */
    method RegisterGameplayTagEvent(tag: Tag, eventType: EventType) returns (bound: bool)
      modifies this
      ensures Outcome(bound, View()) == TagCounts.RegisterGameplayTagEvent(old(View()), tag, eventType)
    {
      var delegateInfo := Unbound;
      if tag !in gameplayTagEventMap {
        gameplayTagEventMap := gameplayTagEventMap[tag := delegateInfo];
        delegateInfo := gameplayTagEventMap[tag];
      }
      bound := if eventType == NewOrRemove then delegateInfo.onNewOrRemove else delegateInfo.onAnyChange;
    }

    /** `Reset` */
    method Reset(resetEvents: bool)
      modifies this, explicitTags
      ensures View() == TagCounts.Reset(old(View()), resetEvents)
    {
      gameplayTagCountMap := map[];
      explicitTagCountMap := map[];
      explicitTags.Reset();
      if resetEvents {
        gameplayTagEventMap := map[];
        onAnyTagChangeBound := false;
      }
    }

    /** `FillParentTags`: rebuild the parent tags of the explicit container. */
    method FillParentTags(reg: Registry)
      modifies explicitTags
      ensures View() == old(View()).(explicitTags := Refilled(reg, old(View()).explicitTags))
    {
      explicitTags.FillParentTags(reg);
    }
  }
}
