/**
 * The registry-backed matching of a single tag (GameplayTag.MatchesTag,
 * MatchesAny, MatchesAnyExact) and the two container filters built on it
 * (GameplayTagContainer.Filter and FilterExact).
 */
module TagMatching {
  import opened Tags
  import opened TagSearch
  import opened TagSets

  /** `MatchesTag`: false for an unknown tag, otherwise `HasTag` on its registry container. */
  predicate MatchesTag(reg: Registry, self: Tag, tagToCheck: Tag)
  {
    match GetSingleTagContainer(reg, self)
    case None => false
    case Some(complete) => HasTag(complete, tagToCheck)
  }

  /** `MatchesAny`: false for an unknown tag, otherwise `HasAny` on its registry container. */
  predicate MatchesAny(reg: Registry, self: Tag, containerToCheck: TagSetValue)
  {
    match GetSingleTagContainer(reg, self)
    case None => false
    case Some(complete) => HasAnyOf(complete, containerToCheck)
  }

  /** `MatchesAnyExact`: false for an empty container, otherwise a binary search of its explicit tags. */
  predicate MatchesAnyExact(self: Tag, containerToCheck: TagSetValue)
  {
    if !IsEmpty(containerToCheck) then BinarySearch(containerToCheck.gameplayTags, self) >= 0 else false
  }

  /**
   * On a well-formed registry container, a tag matches exactly the tags
   * found (up to `CompareTo`) among its explicit or parent tags; an unknown
   * tag matches nothing.
   */
  lemma MatchesTagSpec(reg: Registry, self: Tag, tagToCheck: Tag)
    requires self in reg ==> Wellformed(reg[self])
    ensures MatchesTag(reg, self, tagToCheck) <==>
      self in reg && (KeyIn(reg[self].gameplayTags, tagToCheck) || KeyIn(reg[self].parentTags, tagToCheck))
  {
    if self in reg {
      HasTagMembership(reg[self], tagToCheck);
    }
  }

  /** `MatchesAny` holds exactly when the tag matches some explicit tag of the container. */
  lemma MatchesAnySpec(reg: Registry, self: Tag, containerToCheck: TagSetValue)
    ensures MatchesAny(reg, self, containerToCheck) <==>
      exists i | 0 <= i < |containerToCheck.gameplayTags| :: MatchesTag(reg, self, containerToCheck.gameplayTags[i])
  {
    if self in reg {
      if MatchesAny(reg, self, containerToCheck) {
        var i :| 0 <= i < |containerToCheck.gameplayTags| && HasTag(reg[self], containerToCheck.gameplayTags[i]);
        assert MatchesTag(reg, self, containerToCheck.gameplayTags[i]);
      }
      if exists i | 0 <= i < |containerToCheck.gameplayTags| :: MatchesTag(reg, self, containerToCheck.gameplayTags[i]) {
        var i :| 0 <= i < |containerToCheck.gameplayTags| && MatchesTag(reg, self, containerToCheck.gameplayTags[i]);
        assert HasTag(reg[self], containerToCheck.gameplayTags[i]);
      }
    }
  }

  /**
   * `MatchesAnyExact` is `HasTagExact` seen from the tag's side: on a sorted
   * container it holds exactly when an explicit tag compares 0 with the tag.
   */
  lemma MatchesAnyExactSpec(self: Tag, containerToCheck: TagSetValue)
    requires StrictlySorted(containerToCheck.gameplayTags)
    ensures MatchesAnyExact(self, containerToCheck) <==> HasTagExact(containerToCheck, self)
    ensures MatchesAnyExact(self, containerToCheck) <==> KeyIn(containerToCheck.gameplayTags, self)
  {
    BinarySearchSorted(containerToCheck.gameplayTags, self);
  }

  // ---------------------------------------------------------------------
  // Filter and FilterExact
  // ---------------------------------------------------------------------

  /** The test a filter applies to each explicit tag: `MatchesAnyExact` when `exact`, else `MatchesAny`. */
  predicate Keeps(reg: Registry, exact: bool, t: Tag, other: TagSetValue)
  {
    if exact then MatchesAnyExact(t, other) else MatchesAny(reg, t, other)
  }

  /** The container a filter builds: `AddTagFast` of each kept tag of `tags`, in order, into a new container. */
  function FilterOf(reg: Registry, exact: bool, tags: seq<Tag>, other: TagSetValue): TagSetValue
    decreases |tags|
  {
    if |tags| == 0 then Empty
    else
      var kept := FilterOf(reg, exact, tags[..|tags| - 1], other);
      if Keeps(reg, exact, tags[|tags| - 1], other) then WithTagFast(reg, kept, tags[|tags| - 1]) else kept
  }

  /** The kept tags of `tags`, in their order. */
  function Selected(reg: Registry, exact: bool, tags: seq<Tag>, other: TagSetValue): (r: seq<Tag>)
    decreases |tags|
  {
    if |tags| == 0 then []
    else
      var front := Selected(reg, exact, tags[..|tags| - 1], other);
      if Keeps(reg, exact, tags[|tags| - 1], other) then front + [tags[|tags| - 1]] else front
  }

  /** The kept tags are members of `tags`, and each one is kept. */
  lemma {:induction false} SelectedMembers(reg: Registry, exact: bool, tags: seq<Tag>, other: TagSetValue)
    ensures forall y :: y in Selected(reg, exact, tags, other) <==> y in tags && Keeps(reg, exact, y, other)
    decreases |tags|
  {
    if |tags| > 0 {
      var front := tags[..|tags| - 1];
      SelectedMembers(reg, exact, front, other);
      assert tags == front + [tags[|tags| - 1]];
    }
  }

  /** Everything kept from a sorted sequence compares below any tag that follows that sequence. */
  lemma {:induction false} SelectedBelow(reg: Registry, exact: bool, tags: seq<Tag>, other: TagSetValue, x: Tag)
    requires forall i | 0 <= i < |tags| :: Compare(tags[i], x) < 0
    ensures forall i | 0 <= i < |Selected(reg, exact, tags, other)| :: Compare(Selected(reg, exact, tags, other)[i], x) < 0
    decreases |tags|
  {
    if |tags| > 0 {
      SelectedBelow(reg, exact, tags[..|tags| - 1], other, x);
    }
  }

  /**
   * Filtering a container with strictly sorted explicit tags yields, as its
   * explicit tags, exactly the kept tags in their original order, with the
   * parent tags exactly their registry parents.
   */
  lemma {:induction false} FilterOfSpec(reg: Registry, exact: bool, tags: seq<Tag>, other: TagSetValue)
    requires StrictlySorted(tags)
    ensures FilterOf(reg, exact, tags, other).gameplayTags == Selected(reg, exact, tags, other)
    ensures Wellformed(FilterOf(reg, exact, tags, other))
    ensures ParentsExact(reg, FilterOf(reg, exact, tags, other))
    decreases |tags|
  {
    if |tags| > 0 {
      var front := tags[..|tags| - 1];
      var last := tags[|tags| - 1];
      var kept := FilterOf(reg, exact, front, other);
      FilterOfSpec(reg, exact, front, other);
      if Keeps(reg, exact, last, other) {
        forall i | 0 <= i < |front| ensures Compare(front[i], last) < 0 {
          assert front[i] == tags[i];
        }
        SelectedBelow(reg, exact, front, other, last);
        InsertSortedAbove(kept.gameplayTags, last);
        WithTagFastSpec(reg, kept, last);
        WithTagFastKeepsParentsExact(reg, kept, last);
      }
    }
  }

  /** `Filter`: the explicit tags of `v` that match some explicit tag of `other` through the registry. */
  function Filtered(reg: Registry, v: TagSetValue, other: TagSetValue): TagSetValue
  {
    FilterOf(reg, false, v.gameplayTags, other)
  }

  /** `FilterExact`: the explicit tags of `v` found among the explicit tags of `other`. */
  function FilteredExact(reg: Registry, v: TagSetValue, other: TagSetValue): TagSetValue
  {
    FilterOf(reg, true, v.gameplayTags, other)
  }

  /**
   * `FilterExact` on sorted containers is their intersection: a tag of `v`
   * is kept exactly when some explicit tag of `other` compares 0 with it,
   * and the result is a well-formed container with exact parents.
   */
  lemma FilteredExactIsIntersection(reg: Registry, v: TagSetValue, other: TagSetValue)
    requires StrictlySorted(v.gameplayTags) && StrictlySorted(other.gameplayTags)
    ensures Wellformed(FilteredExact(reg, v, other)) && ParentsExact(reg, FilteredExact(reg, v, other))
    ensures forall y :: y in FilteredExact(reg, v, other).gameplayTags <==>
      y in v.gameplayTags && KeyIn(other.gameplayTags, y)
  {
    FilterOfSpec(reg, true, v.gameplayTags, other);
    SelectedMembers(reg, true, v.gameplayTags, other);
    forall y ensures Keeps(reg, true, y, other) <==> KeyIn(other.gameplayTags, y) {
      MatchesAnyExactSpec(y, other);
    }
  }

  /**
   * `Filter` keeps a tag of `v` exactly when its registry container has some
   * explicit tag of `other`, and the result is a well-formed container with
   * exact parents.
   */
  lemma FilteredSpec(reg: Registry, v: TagSetValue, other: TagSetValue)
    requires StrictlySorted(v.gameplayTags)
    ensures Wellformed(Filtered(reg, v, other)) && ParentsExact(reg, Filtered(reg, v, other))
    ensures forall y :: y in Filtered(reg, v, other).gameplayTags <==>
      y in v.gameplayTags && y in reg && HasAnyOf(reg[y], other)
  {
    FilterOfSpec(reg, false, v.gameplayTags, other);
    SelectedMembers(reg, false, v.gameplayTags, other);
  }
}
