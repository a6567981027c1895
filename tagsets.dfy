/**
 * The state of a tag container (GameplayTagContainer) as a value, the
 * registry it consults, and what each of its operations does to that state.
 * The class in module Containers performs these operations in place and is
 * proved against the functions here.
 */
module TagSets {
  import opened Options
  import opened Tags
  import opened TagSearch

  /**
   * A container's two arrays: the explicit tags (`GameplayTags`) and the
   * implied ancestor tags (`ParentTags`).
   */
  datatype TagSetValue = TagSetValue(gameplayTags: seq<Tag>, parentTags: seq<Tag>)

  /** A new container: both arrays empty. */
  const Empty := TagSetValue([], [])

  /**
   * The tag registry, an explicit parameter in place of the process-wide
   * manager: for each registered tag, its "self + ancestors" container
   * (`GetSingleTagContainer`).  A tag that is not a key is unknown.
   */
  type Registry = map<Tag, TagSetValue>

  /** `GetSingleTagContainer`: the tag's registry container, or none (null) for an unknown tag. */
  function GetSingleTagContainer(reg: Registry, t: Tag): Option<TagSetValue>
  {
    if t in reg then Some(reg[t]) else None
  }

  /** The registry parents of `t`: the parent tags of its registry container, empty when unknown. */
  function RegistryParents(reg: Registry, t: Tag): seq<Tag>
  {
    match GetSingleTagContainer(reg, t)
    case None => []
    case Some(single) => single.parentTags
  }

  /** The container invariant that its insertions keep: both arrays strictly sorted. */
  predicate Wellformed(v: TagSetValue)
  {
    StrictlySorted(v.gameplayTags) && StrictlySorted(v.parentTags)
  }

  /** `IsEmpty`: no explicit tags. */
  predicate IsEmpty(v: TagSetValue)
  {
    |v.gameplayTags| == 0
  }

  /** `HasTag`: a binary search finds the tag among the explicit or the parent tags. */
  predicate HasTag(v: TagSetValue, t: Tag)
  {
    BinarySearch(v.gameplayTags, t) >= 0 || BinarySearch(v.parentTags, t) >= 0
  }

  /** `HasTagExact`: a binary search finds the tag among the explicit tags. */
  predicate HasTagExact(v: TagSetValue, t: Tag)
  {
    BinarySearch(v.gameplayTags, t) >= 0
  }

  /** On a well-formed container, `HasTag` is membership up to `CompareTo` in either array. */
  lemma HasTagMembership(v: TagSetValue, t: Tag)
    requires Wellformed(v)
    ensures HasTag(v, t) <==> KeyIn(v.gameplayTags, t) || KeyIn(v.parentTags, t)
    ensures HasTagExact(v, t) <==> KeyIn(v.gameplayTags, t)
    ensures HasTagExact(v, t) ==> HasTag(v, t)
  {
    BinarySearchSorted(v.gameplayTags, t);
    BinarySearchSorted(v.parentTags, t);
  }

  /** `HasAny`: some explicit tag of `other` satisfies `HasTag`. */
  predicate HasAnyOf(v: TagSetValue, other: TagSetValue)
  {
    exists i | 0 <= i < |other.gameplayTags| :: HasTag(v, other.gameplayTags[i])
  }

  /** `HasAll`: every explicit tag of `other` satisfies `HasTag`. */
  predicate HasAllOf(v: TagSetValue, other: TagSetValue)
  {
    forall i | 0 <= i < |other.gameplayTags| :: HasTag(v, other.gameplayTags[i])
  }

  /** `HasAnyExact`: some explicit tag of `other` satisfies `HasTagExact`. */
  predicate HasAnyExactOf(v: TagSetValue, other: TagSetValue)
  {
    exists i | 0 <= i < |other.gameplayTags| :: HasTagExact(v, other.gameplayTags[i])
  }

  /** `HasAllExact`: every explicit tag of `other` satisfies `HasTagExact`. */
  predicate HasAllExactOf(v: TagSetValue, other: TagSetValue)
  {
    forall i | 0 <= i < |other.gameplayTags| :: HasTagExact(v, other.gameplayTags[i])
  }

  /** What `AddParentTag(t)` does to the parent tags: binary-insert each registry parent of `t`. */
  function WithParentsOf(reg: Registry, parents: seq<Tag>, t: Tag): seq<Tag>
  {
    InsertAll(parents, RegistryParents(reg, t))
  }

  /** The parent tags after `AddParentTag` has run for each of `tags` in order. */
  function ParentsOfAll(reg: Registry, parents: seq<Tag>, tags: seq<Tag>): seq<Tag>
    decreases |tags|
  {
    if |tags| == 0 then parents
    else WithParentsOf(reg, ParentsOfAll(reg, parents, tags[..|tags| - 1]), tags[|tags| - 1])
  }

  /** `AddTagFast(t)`: binary-insert `t` unless found; on insertion, add its registry parents. */
  function WithTagFast(reg: Registry, v: TagSetValue, t: Tag): TagSetValue
  {
    var index := BinarySearch(v.gameplayTags, t);
    if index >= 0 then v
    else TagSetValue(InsertAt(v.gameplayTags, -index - 1, t), WithParentsOf(reg, v.parentTags, t))
  }

  /** `AddTag(t)`: `AddTagFast(t)` for a valid tag; an invalid tag is ignored. */
  function WithTag(reg: Registry, v: TagSetValue, t: Tag): TagSetValue
  {
    if IsValid(t) then WithTagFast(reg, v, t) else v
  }

  /** `FillParentTags`: clear the parent tags, then `AddParentTag` for every explicit tag. */
  function Refilled(reg: Registry, v: TagSetValue): TagSetValue
  {
    TagSetValue(v.gameplayTags, ParentsOfAll(reg, [], v.gameplayTags))
  }

  /** The outcome of `RemoveTag`: whether a tag was removed, and the new state. */
  datatype Removal = Removal(removed: bool, after: TagSetValue)

  /**
   * `RemoveTag(t, deferParentTags)`: delete the element the binary search
   * finds; unless deferred, rebuild the parent tags from the remaining tags.
   */
  function Removed(reg: Registry, v: TagSetValue, t: Tag, deferParentTags: bool): Removal
  {
    var index := BinarySearch(v.gameplayTags, t);
    if index < 0 then Removal(false, v)
    else
      var rest := TagSetValue(v.gameplayTags[..index] + v.gameplayTags[index + 1..], v.parentTags);
      Removal(true, if deferParentTags then rest else Refilled(reg, rest))
  }

  /** `AppendTags`: `AddTag` for each of `tags`, in order. */
  function Appended(reg: Registry, v: TagSetValue, tags: seq<Tag>): TagSetValue
    decreases |tags|
  {
    if |tags| == 0 then v else WithTag(reg, Appended(reg, v, tags[..|tags| - 1]), tags[|tags| - 1])
  }

  /** `GetGameplayTagParents`: a new container whose explicit tags merge both arrays. */
  function Flattened(v: TagSetValue): TagSetValue
  {
    TagSetValue(InsertAll(v.gameplayTags, v.parentTags), [])
  }

  /** Every registry parent of every explicit tag is found (up to `CompareTo`) among the parent tags. */
  predicate CoversParents(reg: Registry, v: TagSetValue)
  {
    forall i, j | 0 <= i < |v.gameplayTags| && 0 <= j < |RegistryParents(reg, v.gameplayTags[i])| ::
      KeyIn(v.parentTags, RegistryParents(reg, v.gameplayTags[i])[j])
  }

  /** Every parent tag is a registry parent of some explicit tag. */
  predicate OnlyParents(reg: Registry, v: TagSetValue)
  {
    forall y | y in v.parentTags :: IsParentOfSome(reg, y, v.gameplayTags)
  }

  predicate IsParentOfSome(reg: Registry, y: Tag, tags: seq<Tag>)
  {
    exists i | 0 <= i < |tags| :: y in RegistryParents(reg, tags[i])
  }

  /** The parent tags are exactly the registry parents of the explicit tags (the "implied" invariant). */
  predicate ParentsExact(reg: Registry, v: TagSetValue)
  {
    CoversParents(reg, v) && OnlyParents(reg, v)
  }

  // ---------------------------------------------------------------------
  // Parent tags
  // ---------------------------------------------------------------------

  lemma WithParentsOfSpec(reg: Registry, parents: seq<Tag>, t: Tag)
    requires StrictlySorted(parents)
    ensures StrictlySorted(WithParentsOf(reg, parents, t))
    ensures forall y :: y in parents ==> y in WithParentsOf(reg, parents, t)
    ensures forall y :: y in WithParentsOf(reg, parents, t) ==> y in parents || y in RegistryParents(reg, t)
    ensures forall j | 0 <= j < |RegistryParents(reg, t)| :: KeyIn(WithParentsOf(reg, parents, t), RegistryParents(reg, t)[j])
  {
    InsertAllSorted(parents, RegistryParents(reg, t));
    InsertAllMembers(parents, RegistryParents(reg, t));
    InsertAllFinds(parents, RegistryParents(reg, t));
  }

  /** Adding the parents of several tags keeps the parent array sorted and keeps what was there. */
  lemma {:induction false} ParentsOfAllGrows(reg: Registry, parents: seq<Tag>, tags: seq<Tag>)
    requires StrictlySorted(parents)
    ensures StrictlySorted(ParentsOfAll(reg, parents, tags))
    ensures forall y :: y in parents ==> y in ParentsOfAll(reg, parents, tags)
    decreases |tags|
  {
    if |tags| > 0 {
      ParentsOfAllGrows(reg, parents, tags[..|tags| - 1]);
      WithParentsOfSpec(reg, ParentsOfAll(reg, parents, tags[..|tags| - 1]), tags[|tags| - 1]);
    }
  }

  /** After adding the parents of several tags, each registry parent of each of them is found. */
  lemma {:induction false} ParentsOfAllCovers(reg: Registry, parents: seq<Tag>, tags: seq<Tag>)
    requires StrictlySorted(parents)
    ensures forall i, j | 0 <= i < |tags| && 0 <= j < |RegistryParents(reg, tags[i])| ::
      KeyIn(ParentsOfAll(reg, parents, tags), RegistryParents(reg, tags[i])[j])
    decreases |tags|
  {
    if |tags| > 0 {
      var front := tags[..|tags| - 1];
      var mid := ParentsOfAll(reg, parents, front);
      ParentsOfAllCovers(reg, parents, front);
      ParentsOfAllGrows(reg, parents, front);
      WithParentsOfSpec(reg, mid, tags[|tags| - 1]);
      var r := ParentsOfAll(reg, parents, tags);
      forall i, j | 0 <= i < |tags| - 1 && 0 <= j < |RegistryParents(reg, tags[i])|
        ensures KeyIn(r, RegistryParents(reg, tags[i])[j])
      {
        assert tags[i] == front[i];
        KeyInGrows(mid, r, RegistryParents(reg, tags[i])[j]);
      }
    }
  }

  /** Adding the parents of several tags adds nothing but registry parents of those tags. */
  lemma {:induction false} ParentsOfAllOnly(reg: Registry, parents: seq<Tag>, tags: seq<Tag>)
    requires StrictlySorted(parents)
    ensures forall y | y in ParentsOfAll(reg, parents, tags) :: y in parents || IsParentOfSome(reg, y, tags)
    decreases |tags|
  {
    if |tags| > 0 {
      var front := tags[..|tags| - 1];
      var last := tags[|tags| - 1];
      ParentsOfAllOnly(reg, parents, front);
      ParentsOfAllGrows(reg, parents, front);
      WithParentsOfSpec(reg, ParentsOfAll(reg, parents, front), last);
      forall y | y in ParentsOfAll(reg, parents, tags) ensures y in parents || IsParentOfSome(reg, y, tags) {
        if y in RegistryParents(reg, last) {
          assert y in RegistryParents(reg, tags[|tags| - 1]);
        } else if !(y in parents) {
          var i :| 0 <= i < |front| && y in RegistryParents(reg, front[i]);
          assert tags[i] == front[i];
        }
      }
    }
  }

  /**
   * `FillParentTags` re-establishes the "implied" invariant: the parent tags
   * become a strictly sorted array holding exactly the registry parents of
   * the explicit tags.
   */
  lemma RefilledSpec(reg: Registry, v: TagSetValue)
    requires StrictlySorted(v.gameplayTags)
    ensures Wellformed(Refilled(reg, v))
    ensures ParentsExact(reg, Refilled(reg, v))
    ensures Refilled(reg, v).gameplayTags == v.gameplayTags
  {
    ParentsOfAllGrows(reg, [], v.gameplayTags);
    ParentsOfAllCovers(reg, [], v.gameplayTags);
    ParentsOfAllOnly(reg, [], v.gameplayTags);
  }

  // ---------------------------------------------------------------------
  // AddTag and AddTagFast
  // ---------------------------------------------------------------------

  /**
   * `AddTagFast` keeps both arrays strictly sorted.  When the tag is found
   * it changes nothing; otherwise it adds exactly that tag to the explicit
   * tags and every registry parent of it to the parent tags.
   */
  lemma WithTagFastSpec(reg: Registry, v: TagSetValue, t: Tag)
    requires Wellformed(v)
    ensures Wellformed(WithTagFast(reg, v, t))
    ensures HasTagExact(WithTagFast(reg, v, t), t)
    ensures KeyIn(v.gameplayTags, t) ==> WithTagFast(reg, v, t) == v
    ensures !KeyIn(v.gameplayTags, t) ==>
      && multiset(WithTagFast(reg, v, t).gameplayTags) == multiset(v.gameplayTags) + multiset{t}
      && (forall j | 0 <= j < |RegistryParents(reg, t)| :: KeyIn(WithTagFast(reg, v, t).parentTags, RegistryParents(reg, t)[j]))
  {
    var r := WithTagFast(reg, v, t);
    BinarySearchSorted(v.gameplayTags, t);
    InsertSortedSpec(v.gameplayTags, t);
    assert r.gameplayTags == InsertSorted(v.gameplayTags, t);
    WithParentsOfSpec(reg, v.parentTags, t);
    HasTagMembership(r, t);
  }

  /** Adding one occurrence of `t` to a sequence's multiset adds exactly `t` to its members. */
  lemma MembersAfterAdding(a: seq<Tag>, b: seq<Tag>, t: Tag)
    requires multiset(b) == multiset(a) + multiset{t}
    ensures forall y :: y in b <==> y in a || y == t
  {
    forall y ensures y in b <==> y in a || y == t {
      assert y in b <==> y in multiset(b);
      assert y in a <==> y in multiset(a);
    }
  }

  /** `AddTagFast` keeps every registry parent of every explicit tag among the parent tags. */
  lemma WithTagFastKeepsCovers(reg: Registry, v: TagSetValue, t: Tag)
    requires Wellformed(v) && CoversParents(reg, v) && !KeyIn(v.gameplayTags, t)
    ensures CoversParents(reg, WithTagFast(reg, v, t))
  {
    var r := WithTagFast(reg, v, t);
    WithTagFastSpec(reg, v, t);
    WithParentsOfSpec(reg, v.parentTags, t);
    MembersAfterAdding(v.gameplayTags, r.gameplayTags, t);
    forall i, j | 0 <= i < |r.gameplayTags| && 0 <= j < |RegistryParents(reg, r.gameplayTags[i])|
      ensures KeyIn(r.parentTags, RegistryParents(reg, r.gameplayTags[i])[j])
    {
      var g := r.gameplayTags[i];
      if g != t {
        assert g in v.gameplayTags;
        var k :| 0 <= k < |v.gameplayTags| && v.gameplayTags[k] == g;
        KeyInGrows(v.parentTags, r.parentTags, RegistryParents(reg, v.gameplayTags[k])[j]);
      }
    }
  }

  /** A parent of some tag in `a` is a parent of some tag in any `b` holding all of `a`. */
  lemma IsParentOfSomeGrows(reg: Registry, y: Tag, a: seq<Tag>, b: seq<Tag>)
    requires forall z :: z in a ==> z in b
    requires IsParentOfSome(reg, y, a)
    ensures IsParentOfSome(reg, y, b)
  {
    var k :| 0 <= k < |a| && y in RegistryParents(reg, a[k]);
    assert a[k] in b;
    var k' :| 0 <= k' < |b| && b[k'] == a[k];
  }

  /** `AddTagFast` adds only registry parents of explicit tags to the parent tags. */
  lemma WithTagFastKeepsOnly(reg: Registry, v: TagSetValue, t: Tag)
    requires Wellformed(v) && OnlyParents(reg, v) && !KeyIn(v.gameplayTags, t)
    ensures OnlyParents(reg, WithTagFast(reg, v, t))
  {
    var r := WithTagFast(reg, v, t);
    BinarySearchSorted(v.gameplayTags, t);
    var p := -BinarySearch(v.gameplayTags, t) - 1;
    assert r.gameplayTags == InsertAt(v.gameplayTags, p, t);
    assert r.parentTags == WithParentsOf(reg, v.parentTags, t);
    assert r.gameplayTags[p] == t;
    assert forall z :: z in v.gameplayTags ==> z in r.gameplayTags by {
      forall z | z in v.gameplayTags ensures z in r.gameplayTags {
        var k :| 0 <= k < |v.gameplayTags| && v.gameplayTags[k] == z;
        if k < p { assert r.gameplayTags[k] == z; } else { assert r.gameplayTags[k + 1] == z; }
      }
    }
    WithParentsOfSpec(reg, v.parentTags, t);
    forall y | y in r.parentTags ensures IsParentOfSome(reg, y, r.gameplayTags) {
      if y in RegistryParents(reg, t) {
        assert y in RegistryParents(reg, r.gameplayTags[p]);
      } else {
        assert y in v.parentTags;
        IsParentOfSomeGrows(reg, y, v.gameplayTags, r.gameplayTags);
      }
    }
  }

  /** `AddTag` and `AddTagFast` keep the "implied" invariant: parents exactly those of the explicit tags. */
  lemma WithTagFastKeepsParentsExact(reg: Registry, v: TagSetValue, t: Tag)
    requires Wellformed(v) && ParentsExact(reg, v)
    ensures ParentsExact(reg, WithTagFast(reg, v, t))
  {
    BinarySearchSorted(v.gameplayTags, t);
    if !KeyIn(v.gameplayTags, t) {
      WithTagFastKeepsCovers(reg, v, t);
      WithTagFastKeepsOnly(reg, v, t);
    }
  }

  /** `AddTag` ignores an invalid tag; for a valid one it is `AddTagFast`. */
  lemma WithTagSpec(reg: Registry, v: TagSetValue, t: Tag)
    requires Wellformed(v)
    ensures Wellformed(WithTag(reg, v, t))
    ensures !IsValid(t) || KeyIn(v.gameplayTags, t) ==> WithTag(reg, v, t) == v
    ensures IsValid(t) ==> HasTagExact(WithTag(reg, v, t), t)
    ensures IsValid(t) && !KeyIn(v.gameplayTags, t) ==>
      && multiset(WithTag(reg, v, t).gameplayTags) == multiset(v.gameplayTags) + multiset{t}
      && (forall j | 0 <= j < |RegistryParents(reg, t)| :: KeyIn(WithTag(reg, v, t).parentTags, RegistryParents(reg, t)[j]))
    ensures ParentsExact(reg, v) ==> ParentsExact(reg, WithTag(reg, v, t))
  {
    WithTagFastSpec(reg, v, t);
    if ParentsExact(reg, v) {
      WithTagFastKeepsParentsExact(reg, v, t);
    }
  }

  /** Re-adding a tag changes nothing: `AddTag` is idempotent. */
  lemma WithTagIdempotent(reg: Registry, v: TagSetValue, t: Tag)
    requires Wellformed(v)
    ensures WithTag(reg, WithTag(reg, v, t), t) == WithTag(reg, v, t)
  {
    WithTagSpec(reg, v, t);
    var once := WithTag(reg, v, t);
    if IsValid(t) {
      HasTagMembership(once, t);
      WithTagSpec(reg, once, t);
    }
  }

  // ---------------------------------------------------------------------
  // RemoveTag
  // ---------------------------------------------------------------------

  /**
   * `RemoveTag` reports whether a tag comparing 0 was present.  If none was,
   * nothing changes; otherwise exactly that element is deleted, the others
   * keep their order, and without deferral the parent tags are rebuilt to
   * exactly the registry parents of the remaining tags.
   */
  lemma RemovedSpec(reg: Registry, v: TagSetValue, t: Tag, deferParentTags: bool)
    requires Wellformed(v)
    ensures Removed(reg, v, t, deferParentTags).removed <==> KeyIn(v.gameplayTags, t)
    ensures !KeyIn(v.gameplayTags, t) ==> Removed(reg, v, t, deferParentTags).after == v
    ensures KeyIn(v.gameplayTags, t) ==> exists k | 0 <= k < |v.gameplayTags| ::
      && Compare(v.gameplayTags[k], t) == 0
      && Removed(reg, v, t, deferParentTags).after.gameplayTags == v.gameplayTags[..k] + v.gameplayTags[k + 1..]
    ensures Wellformed(Removed(reg, v, t, deferParentTags).after)
    ensures deferParentTags ==> Removed(reg, v, t, deferParentTags).after.parentTags == v.parentTags
    ensures KeyIn(v.gameplayTags, t) && !deferParentTags ==> ParentsExact(reg, Removed(reg, v, t, deferParentTags).after)
  {
    BinarySearchSorted(v.gameplayTags, t);
    var index := BinarySearch(v.gameplayTags, t);
    if index >= 0 {
      RemoveAtKeepsSorted(v.gameplayTags, index);
      var rest := TagSetValue(v.gameplayTags[..index] + v.gameplayTags[index + 1..], v.parentTags);
      RefilledSpec(reg, rest);
    }
  }

  /**
   * After `RemoveTag` on a well-formed container no explicit tag compares 0
   * with the removed one: a strictly sorted array held it at most once.
   */
  lemma RemovedDropsTag(reg: Registry, v: TagSetValue, t: Tag, deferParentTags: bool)
    requires Wellformed(v)
    ensures !HasTagExact(Removed(reg, v, t, deferParentTags).after, t)
  {
    var s := v.gameplayTags;
    var index := BinarySearch(s, t);
    if index >= 0 {
      var r := s[..index] + s[index + 1..];
      assert Removed(reg, v, t, deferParentTags).after.gameplayTags == r;
      RemoveAtKeepsSorted(s, index);
      BinarySearchSorted(r, t);
      RemoveAtDropsKey(s, index, t);
    }
  }

  /**
   * Round trip: on a well-formed container whose parent tags are its
   * rebuilt parents, adding a new valid tag and then removing it with the
   * rebuild restores the container exactly.
   */
  lemma AddThenRemoveRestores(reg: Registry, v: TagSetValue, t: Tag)
    requires StrictlySorted(v.gameplayTags) && v == Refilled(reg, v)
    requires IsValid(t) && !KeyIn(v.gameplayTags, t)
    ensures Removed(reg, WithTag(reg, v, t), t, false) == Removal(true, v)
  {
    var gt := v.gameplayTags;
    BinarySearchSorted(gt, t);
    var p := -BinarySearch(gt, t) - 1;
    var added := WithTag(reg, v, t);
    assert added.gameplayTags == InsertAt(gt, p, t);
    InsertAtSplitKeepsSorted(gt, t, p);
    CompareZero(t, t);
    BinarySearchFindsPosition(added.gameplayTags, t, p);
    InsertAtThenDelete(gt, p, t);
    var rest := TagSetValue(gt, added.parentTags);
    assert Removed(reg, added, t, false) == Removal(true, Refilled(reg, rest));
  }

  // ---------------------------------------------------------------------
  // AppendTags, GetGameplayTagParents
  // ---------------------------------------------------------------------

  /**
   * `AppendTags` keeps the container well-formed and its parents exact, and
   * adds exactly the valid appended tags: it holds each of them afterwards
   * and nothing else that it did not hold before.
   */
  lemma {:induction false} AppendedSpec(reg: Registry, v: TagSetValue, tags: seq<Tag>)
    requires Wellformed(v)
    ensures Wellformed(Appended(reg, v, tags))
    ensures ParentsExact(reg, v) ==> ParentsExact(reg, Appended(reg, v, tags))
    ensures forall i | 0 <= i < |tags| && IsValid(tags[i]) :: HasTagExact(Appended(reg, v, tags), tags[i])
    ensures forall y :: y in v.gameplayTags ==> y in Appended(reg, v, tags).gameplayTags
    ensures forall y :: y in Appended(reg, v, tags).gameplayTags ==> y in v.gameplayTags || (y in tags && IsValid(y))
    decreases |tags|
  {
    if |tags| > 0 {
      var front := tags[..|tags| - 1];
      var last := tags[|tags| - 1];
      var mid := Appended(reg, v, front);
      var r := Appended(reg, v, tags);
      AppendedSpec(reg, v, front);
      WithTagSpec(reg, mid, last);
      HasTagMembership(mid, last);
      HasTagMembership(r, last);
      forall y | y in mid.gameplayTags ensures y in r.gameplayTags {
        if IsValid(last) && !KeyIn(mid.gameplayTags, last) {
          assert y in multiset(mid.gameplayTags);
        }
      }
      forall i | 0 <= i < |tags| - 1 && IsValid(tags[i]) ensures HasTagExact(r, tags[i]) {
        assert tags[i] == front[i];
        HasTagMembership(mid, tags[i]);
        HasTagMembership(r, tags[i]);
        KeyInGrows(mid.gameplayTags, r.gameplayTags, tags[i]);
      }
    }
    AppendedOnly(reg, v, tags);
  }

  /** `AppendTags` adds nothing but the valid tags it is given. */
  lemma {:induction false} AppendedOnly(reg: Registry, v: TagSetValue, tags: seq<Tag>)
    requires Wellformed(v)
    ensures Wellformed(Appended(reg, v, tags))
    ensures forall y :: y in Appended(reg, v, tags).gameplayTags ==> y in v.gameplayTags || (y in tags && IsValid(y))
    decreases |tags|
  {
    if |tags| > 0 {
      var front := tags[..|tags| - 1];
      var last := tags[|tags| - 1];
      var mid := Appended(reg, v, front);
      var r := Appended(reg, v, tags);
      AppendedOnly(reg, v, front);
      WithTagSpec(reg, mid, last);
      forall y | y in r.gameplayTags ensures y in v.gameplayTags || (y in tags && IsValid(y)) {
        if IsValid(last) && !KeyIn(mid.gameplayTags, last) {
          assert y in multiset(r.gameplayTags);
        }
        if y in mid.gameplayTags && y !in v.gameplayTags {
          var i :| 0 <= i < |front| && front[i] == y;
          assert tags[i] == y;
        }
      }
    }
  }

  /**
   * `GetGameplayTagParents` returns the strictly sorted merge of both arrays
   * as explicit tags, with no parent tags: every explicit tag is kept, every
   * parent tag is found, and nothing else appears.
   */
  lemma FlattenedSpec(v: TagSetValue)
    requires Wellformed(v)
    ensures Wellformed(Flattened(v)) && Flattened(v).parentTags == []
    ensures forall y :: y in v.gameplayTags ==> y in Flattened(v).gameplayTags
    ensures forall y :: y in Flattened(v).gameplayTags ==> y in v.gameplayTags || y in v.parentTags
    ensures forall i | 0 <= i < |v.parentTags| :: KeyIn(Flattened(v).gameplayTags, v.parentTags[i])
  {
    InsertAllSorted(v.gameplayTags, v.parentTags);
    InsertAllMembers(v.gameplayTags, v.parentTags);
    InsertAllFinds(v.gameplayTags, v.parentTags);
  }
}
