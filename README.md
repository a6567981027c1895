# GameplayTag core, modelled in Dafny

This project models the engine core of the GameplayTag add-on: hierarchical,
dot-separated tag names (`A.B.C`) and the structures built on them.

- **Tags** (`Tags`, `GameplayTag.cs`): a tag is its name. Equality is ordinal on the
  name. The order (`CompareTo`) is ordinal and ignores ASCII case. A tag is valid
  when its name is not empty.
- **Sorted arrays** (`TagSearch`): the array binary search the containers rely on,
  with its `~index` insertion point. Also insertion at that point, and removal.
- **Tag containers** (`TagSets`, `TagMatching`, `Containers`,
  `GameplayTagContainer.cs`, `GameplayTag.cs`):
  - Two sorted arrays: the explicit tags and the implied ancestor ("parent") tags.
  - Add, fast add, parent refill, removal with an optional deferred refill, append.
  - Filter by hierarchy and exactly; has / has-exact / any / all queries.
  - A container is a value (`TagSetValue`) with a function per operation. The class
    `Containers.GameplayTagContainer` updates its two `seq` fields in place and is
    proved against those functions.
- **Registry** (`TagNodes`, `GameplayTagsManager.cs`):
  - The tag registry that the process-wide manager would supply is a parameter
    `Registry`, a map from a tag to its node container ("self + ancestors").
  - The node constructor builds that container from the parent node. `FindChild`
    searches the child list linearly.
- **Queries** (`QueryExpressions`, `Queries`, `Requirements`):
  - The recursive any/all/no query expression over tags or sub-expressions, and its
    fluent builder class.
  - The query with its "empty matches everything" rule.
  - Requirements (required / ignored tags plus a query), and their conversion into
    one query.
- **Tag count ledger** (`TagCounts`, `CountContainers`, `GameplayTagCountContainer.cs`):
  - Per-tag aggregate counts and explicit counts; the explicit tag container.
  - Batch and single updates, `SetTagCount`, stack-count notification, event
    registration and reset.
  - Delegates are modelled as "bound or not" flags. Every invocation is appended to
    a trace of `Fired(slot, tag, count)` records, so the model states which delegate
    is called, with what, and in which order.
  - The deferred delegate list is a `seq<Deferred>`: each entry records the delegate
    it will call, the `DelegateInfo` it captured, and its arguments.
  - The ledger is a value (`Ledger`) with a function per operation. The class
    `CountContainers.GameplayTagCountContainer` holds the maps as `map` fields, runs
    the source's loops, and is proved against those functions.
- **Scenarios** (`Scenarios`): the test registry of `GameplayTagsSettings.cs` and
  the container scenario of `tests/Test.cs`, proved on the model.

The model follows the code as written, including its quirks:

- the count dictionaries only ever update entries that already exist;
- callbacks receive the originating tag, not the ancestor whose count moved;
- `HasAllMatchingGameplayTags` of an empty container is false;
- node parent tags are stored nearest-first and yet binary-searched;
- `GameplayTagQuery.IsEmpty` is inverted.

Where one of these is evidently unintended, a corrected definition stands beside
the as-written one, with the intended property proved (see "Findings").

Two more points where the code does less than its names suggest; the model follows
the code:

- `AddTagNode` and `InsertTagIntoNodeArray` have empty bodies, so nothing in the core
  builds the tag tree; the registry is a parameter.
- `AddTagFast` inserts without a validity check; only `AddTag` ignores an invalid tag.

## Model

| member | source | states |
|---|---|---|
| Tags.Equals | addons/GameplayTag/GameplayTag.cs:65-77 | two tags are equal exactly when their names are equal (ordinal) |
| Tags.NotEquals | addons/GameplayTag/GameplayTag.cs:84-92 | `!=` is the negation of name equality |
| Tags.EqualTagsHashEqually | addons/GameplayTag/GameplayTag.cs:79-82 | equal tags have equal hash codes, for any string hash |
| Tags.Key | addons/GameplayTag/GameplayTag.cs:94-97 | the comparison key has the name's length and is its ASCII case-folded characters |
| Tags.CompareFolded | addons/GameplayTag/GameplayTag.cs:94-97 | the ordinal case-folded comparison of two names returns -1, 0 or 1 |
| Tags.Compare | addons/GameplayTag/GameplayTag.cs:94-97 | `CompareTo` returns -1, 0 or 1 |
| Tags.CompareFoldedAntisymmetric | addons/GameplayTag/GameplayTag.cs:94-97 | swapping the operands negates the case-folded comparison |
| Tags.CompareFoldedZero | addons/GameplayTag/GameplayTag.cs:94-97 | the case-folded comparison is 0 exactly when the two names fold to the same characters |
| Tags.CompareFoldedTransitive | addons/GameplayTag/GameplayTag.cs:94-97 | the case-folded comparison is transitive |
| Tags.CompareAntisymmetric | addons/GameplayTag/GameplayTag.cs:94-97 | `CompareTo` is antisymmetric |
| Tags.CompareZero | addons/GameplayTag/GameplayTag.cs:94-97 | `CompareTo` is 0 exactly when the case-folded names agree, so equal tags compare 0 |
| Tags.CompareTransitive | addons/GameplayTag/GameplayTag.cs:94-97 | `CompareTo` is transitive, so it is a strict order on keys |
| Tags.CompareSubstitute | addons/GameplayTag/GameplayTag.cs:94-97 | tags comparing 0 compare alike against every third tag |
| Tags.CaseOnlyNamesCollide | addons/GameplayTag/GameplayTag.cs:94-97 | "a.b" and "A.B" are different tags that `CompareTo` treats as the same position |
| Tags.MatchesTagExact | addons/GameplayTag/GameplayTag.cs:36-44 | exact match holds exactly when the tag to check is valid and equal |
| TagSearch.Search | addons/GameplayTag/GameplayTagContainer.cs:165-173 | a non-negative result indexes an element comparing 0 with the key; a negative one encodes an insertion point within the range |
| TagSearch.BinarySearch | addons/GameplayTag/GameplayTagContainer.cs:165-173 | the array binary search returns a matching index or `~p` with `p` in `0..|s|` |
| TagSearch.SearchInSorted | addons/GameplayTag/GameplayTagContainer.cs:165-173 | on a sorted array a miss returns the split point of the key |
| TagSearch.BinarySearchSorted | addons/GameplayTag/GameplayTagContainer.cs:165-173 | on a sorted array the search finds the key iff some element compares 0 with it, and otherwise returns the split point |
| TagSearch.BinarySearchFindsPosition | addons/GameplayTag/GameplayTagContainer.cs:248-251 | on a sorted array the search returns exactly the index of the matching element |
| TagSearch.InsertAt | addons/GameplayTag/GameplayTagContainer.cs:48-53 | insertion puts the tag at the index and shifts the tail by one |
| TagSearch.InsertAtSplitKeepsSorted | addons/GameplayTag/GameplayTagContainer.cs:48-53 | inserting at the split point keeps the array strictly sorted |
| TagSearch.InsertSortedSpec | addons/GameplayTag/GameplayTagContainer.cs:78-87 | search-then-insert keeps the array sorted, contains the tag, changes nothing if present, and otherwise adds exactly that tag |
| TagSearch.InsertSortedMembers | addons/GameplayTag/GameplayTagContainer.cs:78-87 | search-then-insert keeps every element and adds nothing but the tag |
| TagSearch.InsertAllSorted | addons/GameplayTag/GameplayTagContainer.cs:78-87 | inserting a list of tags keeps the array strictly sorted |
| TagSearch.InsertAllMembers | addons/GameplayTag/GameplayTagContainer.cs:78-87 | inserting a list keeps the old elements and adds only listed tags |
| TagSearch.InsertAllFinds | addons/GameplayTag/GameplayTagContainer.cs:78-87 | after inserting a list, every listed tag is found |
| TagSearch.RemoveAtKeepsSorted | addons/GameplayTag/GameplayTagContainer.cs:105-113 | removing an element keeps the array strictly sorted |
| TagSets.HasTagMembership | addons/GameplayTag/GameplayTagContainer.cs:165-173 | on sorted arrays `HasTag` means found among explicit or parent tags, `HasTagExact` among explicit ones, and exact implies hierarchical |
| TagSets.WithParentsOfSpec | addons/GameplayTag/GameplayTagContainer.cs:73-89 | `AddParentTag` keeps parent tags sorted, keeps them all, adds only registry parents of the tag, and adds every one of them |
| TagSets.ParentsOfAllGrows | addons/GameplayTag/GameplayTagContainer.cs:95-103 | adding parents of many tags keeps the array sorted and keeps its elements |
| TagSets.ParentsOfAllCovers | addons/GameplayTag/GameplayTagContainer.cs:95-103 | every registry parent of every tag is found afterwards |
| TagSets.ParentsOfAllOnly | addons/GameplayTag/GameplayTagContainer.cs:95-103 | nothing but the old parents and registry parents of the tags is added |
| TagSets.RefilledSpec | addons/GameplayTag/GameplayTagContainer.cs:95-103 | `FillParentTags` leaves the explicit tags alone and makes the parent tags exactly the registry parents of the explicit tags, sorted |
| TagSets.WithTagFastSpec | addons/GameplayTag/GameplayTagContainer.cs:58-67 | `AddTagFast` keeps both arrays sorted and the tag exactly present; it changes nothing if the tag is there and otherwise adds only that tag and its registry parents |
| TagSets.WithTagFastKeepsCovers | addons/GameplayTag/GameplayTagContainer.cs:58-67 | adding a tag keeps "every registry parent of an explicit tag is a parent tag" |
| TagSets.WithTagFastKeepsOnly | addons/GameplayTag/GameplayTagContainer.cs:58-67 | adding a tag keeps "every parent tag is a registry parent of some explicit tag" |
| TagSets.WithTagFastKeepsParentsExact | addons/GameplayTag/GameplayTagContainer.cs:58-67 | adding a tag keeps the parent tags exactly the registry parents of the explicit tags |
| TagSets.WithTagSpec | addons/GameplayTag/GameplayTagContainer.cs:44-56 | `AddTag` ignores invalid or present tags, otherwise makes the tag exactly present and adds only it, and keeps the parents exact |
| TagSets.WithTagIdempotent | addons/GameplayTag/GameplayTagContainer.cs:44-56 | adding the same tag twice is adding it once |
| TagSets.RemovedSpec | addons/GameplayTag/GameplayTagContainer.cs:105-120 | `RemoveTag` reports true iff the tag was explicit; it removes exactly that element; a deferred removal keeps the parent tags, an immediate one refills them exactly |
| TagSets.AddThenRemoveRestores | addons/GameplayTag/GameplayTagContainer.cs:105-120 | adding a new valid tag and then removing it with a refill restores the container |
| TagSets.AppendedSpec | addons/GameplayTag/GameplayTagContainer.cs:122-129 | `AppendTags` keeps the container sorted and its parents exact, keeps its tags, and adds exactly the valid appended tags: each is held exactly, and every tag it holds afterwards was held before or is a valid appended tag |
| TagSets.AppendedOnly | addons/GameplayTag/GameplayTagContainer.cs:122-129 | `AppendTags` adds no tag other than the valid tags it is given |
| TagSets.FlattenedSpec | addons/GameplayTag/GameplayTagContainer.cs:27-42 | `GetGameplayTagParents` gives one sorted array of exactly the explicit and parent tags, all found, with no parent tags |
| TagMatching.MatchesTagSpec | addons/GameplayTag/GameplayTag.cs:26-34 | `MatchesTag` is `HasTag` of the tag's registry container, false for an unregistered tag |
| TagMatching.MatchesAnySpec | addons/GameplayTag/GameplayTag.cs:46-54 | `MatchesAny` holds iff the tag is registered and its registry container has some tag of the other container |
| TagMatching.MatchesAnyExactSpec | addons/GameplayTag/GameplayTag.cs:56-63 | `MatchesAnyExact` holds iff the other container holds the tag exactly |
| TagMatching.SelectedMembers | addons/GameplayTag/GameplayTagContainer.cs:136-162 | the filter keeps exactly the explicit tags the match test accepts |
| TagMatching.SelectedBelow | addons/GameplayTag/GameplayTagContainer.cs:136-162 | selection keeps every element below a bound below it |
| TagMatching.FilterOfSpec | addons/GameplayTag/GameplayTagContainer.cs:136-162 | the fast-add loop of a filter builds exactly the selected tags, sorted, with exact parents |
| TagMatching.FilteredSpec | addons/GameplayTag/GameplayTagContainer.cs:136-148 | `Filter` holds exactly its explicit tags that match some tag of the other container by hierarchy |
| TagMatching.FilteredExactIsIntersection | addons/GameplayTag/GameplayTagContainer.cs:150-162 | `FilterExact` holds exactly the explicit tags shared with the other container |
| Containers.GameplayTagContainer.constructor | addons/GameplayTag/GameplayTagContainer.cs:10-13 | a new container is empty |
| Containers.GameplayTagContainer.GetGameplayTagParents | addons/GameplayTag/GameplayTagContainer.cs:27-42 | returns a new container holding the flattened tags |
| Containers.GameplayTagContainer.AddTag | addons/GameplayTag/GameplayTagContainer.cs:44-56 | the new state is `WithTag` of the old one |
| Containers.GameplayTagContainer.AddTagFast | addons/GameplayTag/GameplayTagContainer.cs:58-67 | the new state is `WithTagFast` of the old one |
| Containers.GameplayTagContainer.AddParentTag | addons/GameplayTag/GameplayTagContainer.cs:73-89 | explicit tags unchanged; parent tags gain the tag's registry parents |
| Containers.GameplayTagContainer.FillParentTags | addons/GameplayTag/GameplayTagContainer.cs:95-103 | the new state is the refilled old state |
| Containers.GameplayTagContainer.RemoveTag | addons/GameplayTag/GameplayTagContainer.cs:105-120 | result and new state are those of `Removed` |
| Containers.GameplayTagContainer.AppendTags | addons/GameplayTag/GameplayTagContainer.cs:122-129 | the new state adds the other container's tags one by one |
| Containers.GameplayTagContainer.Filter | addons/GameplayTag/GameplayTagContainer.cs:136-148 | returns a new container equal to `Filtered` |
| Containers.GameplayTagContainer.FilterExact | addons/GameplayTag/GameplayTagContainer.cs:150-162 | returns a new container equal to `FilteredExact` |
| Containers.GameplayTagContainer.HasAny | addons/GameplayTag/GameplayTagContainer.cs:175-189 | true iff some tag of the other container is had |
| Containers.GameplayTagContainer.HasAnyExact | addons/GameplayTag/GameplayTagContainer.cs:191-205 | true iff some tag of the other container is had exactly |
| Containers.GameplayTagContainer.HasAll | addons/GameplayTag/GameplayTagContainer.cs:207-222 | true iff every tag of the other container is had (vacuously for an empty one) |
| Containers.GameplayTagContainer.HasAllExact | addons/GameplayTag/GameplayTagContainer.cs:224-239 | true iff every tag of the other container is had exactly |
| Containers.GameplayTagContainer.Reset | addons/GameplayTag/GameplayTagContainer.cs:242-246 | both arrays are emptied |
| TagNodes.ChainContainerSpec | addons/GameplayTag/GameplayTagsManager.cs:53-71 | a node built under its chain of parents holds its own tag and its ancestors nearest first |
| TagNodes.NodeParentsNotSortedMissesAncestor | addons/GameplayTag/GameplayTagsManager.cs:62-70 | the node container of A.B.C has parents [A.B, A], which are not sorted, and `HasTag` misses A |
| TagNodes.SortedNodeContainerInheritsOne | addons/GameplayTag/GameplayTagsManager.cs:62-70 | with sorted insertion, a tag the parent node has is had by the child |
| TagNodes.SortedNodeContainerInherits | addons/GameplayTag/GameplayTagsManager.cs:53-71 | with sorted insertion, a node container is sorted, has its own tag, and has every tag of its parent |
| TagNodes.SortedChainExtends | addons/GameplayTag/GameplayTagsManager.cs:62-70 | extending a sorted chain by one node keeps what the shorter chain has |
| TagNodes.SortedChainFindsAncestors | addons/GameplayTag/GameplayTagsManager.cs:62-70 | with sorted insertion, a node container has every ancestor on its path |
| TagNodes.GameplayTagNode.constructor | addons/GameplayTag/GameplayTagsManager.cs:53-71 | fields are set from the arguments, children empty, and the container is the node container from the parent |
| TagNodes.GameplayTagNode.FindChild | addons/GameplayTag/GameplayTagsManager.cs:74-84 | returns the first child index with that name, or -1 iff no child has it |
| TagNodes.GameplayTagsManager.constructor | addons/GameplayTag/GameplayTagsManager.cs:14-18 | a root node named "root" without parent or children, and an empty tag map |
| QueryExpressions.UsesOneSet | addons/GameplayTag/GameplayTagQueryExpression.cs:69-98 | no expression uses both sets, and one uses neither iff its type is undefined |
| QueryExpressions.MatchesExpr | addons/GameplayTag/GameplayTagQueryExpression.cs:106-174 | the loops of `Matches` compute the recursive any/all/no evaluation |
| QueryExpressions.UndefinedNeverMatches | addons/GameplayTag/GameplayTagQueryExpression.cs:16-31 | an undefined expression is invalid and matches no container |
| QueryExpressions.EmptySetsDecide | addons/GameplayTag/GameplayTagQueryExpression.cs:106-174 | with both sets empty an expression is invalid; "any" kinds fail and "all"/"no" kinds hold |
| QueryExpressions.NoIsNotAny | addons/GameplayTag/GameplayTagQueryExpression.cs:130-169 | "no tags" / "no expressions" is the negation of "any tags" / "any expressions" |
| QueryExpressions.TagKindsAreContainerTests | addons/GameplayTag/GameplayTagQueryExpression.cs:110-139 | the tag kinds over a container's tags are `HasAll`, `HasAny` and not `HasAny` |
| QueryExpressions.QueryExpression.constructor | addons/GameplayTag/GameplayTagQueryExpression.cs:9-14 | a new expression is undefined with empty sets |
| QueryExpressions.QueryExpression.AnyTagsMatch | addons/GameplayTag/GameplayTagQueryExpression.cs:33-37 | sets the type, keeps the sets, returns itself |
| QueryExpressions.QueryExpression.AllTagsMatch | addons/GameplayTag/GameplayTagQueryExpression.cs:39-43 | sets the type, keeps the sets, returns itself |
| QueryExpressions.QueryExpression.NoTagsMatch | addons/GameplayTag/GameplayTagQueryExpression.cs:45-49 | sets the type, keeps the sets, returns itself |
| QueryExpressions.QueryExpression.AnyExprMatch | addons/GameplayTag/GameplayTagQueryExpression.cs:51-55 | sets the type, keeps the sets, returns itself |
| QueryExpressions.QueryExpression.AllExprMatch | addons/GameplayTag/GameplayTagQueryExpression.cs:57-61 | sets the type, keeps the sets, returns itself |
| QueryExpressions.QueryExpression.NoExprMatch | addons/GameplayTag/GameplayTagQueryExpression.cs:63-67 | sets the type, keeps the sets, returns itself |
| QueryExpressions.QueryExpression.AddTag | addons/GameplayTag/GameplayTagQueryExpression.cs:77-81 | appends the tag to the tag set |
| QueryExpressions.QueryExpression.AddTags | addons/GameplayTag/GameplayTagQueryExpression.cs:83-90 | appends the container's explicit tags in order |
| QueryExpressions.QueryExpression.AddExpr | addons/GameplayTag/GameplayTagQueryExpression.cs:100-104 | appends the child expression |
| QueryExpressions.QueryExpression.Matches | addons/GameplayTag/GameplayTagQueryExpression.cs:106-174 | the result is the evaluation of the expression on the container |
| Queries.Build | addons/GameplayTag/GameplayTagQuery.cs:18-24 | the query's root is the given expression |
| Queries.ValidQueryMatchesEverything | addons/GameplayTag/GameplayTagQuery.cs:13-30 | as written, a query with a valid root matches every container |
| Queries.DefaultQueryMatchesNothing | addons/GameplayTag/GameplayTagQuery.cs:9-30 | as written, a new query is not empty and matches no container |
| Queries.CorrectedQueryMatchesByExpression | addons/GameplayTag/GameplayTagQuery.cs:26-30 | with the corrected test, an empty query (the new one among them) matches everything and a non-empty one matches iff its root does |
| Requirements.MetSpec | addons/GameplayTag/GameplayTagRequirements.cs:18-25 | met iff every required tag is had, no ignored tag is had, and the query root is valid or holds |
| Requirements.ConvertedQueryMeaning | addons/GameplayTag/GameplayTagRequirements.cs:27-58 | the converted root holds iff some field is non-empty, all required and no ignored tags are had; it is valid iff some field is non-empty |
| Requirements.ConvertedQueryMatchesEverything | addons/GameplayTag/GameplayTagRequirements.cs:27-58 | as written, the converted query of a non-empty requirement matches every container |
| Requirements.ConvertedQueryAgreesCorrected | addons/GameplayTag/GameplayTagRequirements.cs:27-58 | with the corrected test, the converted query matches exactly the containers that meet the tag fields |
| Requirements.DefaultQueryNeverMet | addons/GameplayTag/GameplayTagRequirements.cs:22 | as written, a requirement whose query is the default one is met by no container, whatever its tag fields |
| Requirements.DefaultQueryMetCorrected | addons/GameplayTag/GameplayTagRequirements.cs:22 | with the corrected test, a requirement with the default query is met exactly when all required and no ignored tags are had |
| Requirements.GameplayTagRequirement.IsEmpty | addons/GameplayTag/GameplayTagRequirements.cs:13-16 | an empty requirement (as written) is met by every container |
| Requirements.GameplayTagRequirement.constructor | addons/GameplayTag/GameplayTagRequirements.cs:8-11 | two distinct new empty containers and a new query; as written, the new requirement is not empty |
| Requirements.GameplayTagRequirement.RequirementsMet | addons/GameplayTag/GameplayTagRequirements.cs:18-25 | the result is `Met` of the fields and the container |
| Requirements.GameplayTagRequirement.ConvertTagFieldsToTagQuery | addons/GameplayTag/GameplayTagRequirements.cs:27-58 | the builder calls produce `ConvertedQuery` of the fields |
| TagCounts.GetTagCount | addons/GameplayTag/GameplayTagCountContainer.cs:141-144 | an untracked tag has explicit count 0 |
| TagCounts.UpdateExplicitSpec | addons/GameplayTag/GameplayTagCountContainer.cs:221-252 | the explicit update fails iff the tag is not explicit and the delta is not positive, changing nothing then; it never adds keys, moves only the tag's tracked count to max(count + delta, 0); a new explicit tag is added with `AddTag`, a tag whose count reaches 0 is removed (rebuild deferred or not), and otherwise the container is unchanged |
| TagCounts.UpdateExplicitMembership | addons/GameplayTag/GameplayTagCountContainer.cs:221-252 | on a well-formed container: it stays well formed; after an update that went through, a valid tag whose count did not reach 0 is explicit and one whose count reached 0 is not; exact parents stay exact while nothing is removed |
| TagSets.RemovedDropsTag | addons/GameplayTag/GameplayTagContainer.cs:105-120 | after `RemoveTag` on a well-formed container, the tag is no longer found among the explicit tags |
| TagSearch.RemoveAtDropsKey | addons/GameplayTag/GameplayTagContainer.cs:105-120 | deleting the found element from a strictly sorted array leaves no element comparing 0 with the tag |
| TagCounts.GatherKeepsKeys | addons/GameplayTag/GameplayTagCountContainer.cs:261-302 | gathering keeps the keys of the count map and non-negative counts, and every deferred call carries the originating tag; the calls themselves are given by `GatherStages` |
| TagCounts.GatherValues | addons/GameplayTag/GameplayTagCountContainer.cs:265-299 | each counted chain tag becomes max(count + delta, 0) and every other count is unchanged |
| TagCounts.GatherSignificant | addons/GameplayTag/GameplayTagCountContainer.cs:264-301 | the result is significant iff some counted chain tag moves from or to 0 |
| TagCounts.GatherStages | addons/GameplayTag/GameplayTagCountContainer.cs:265-299 | over a chain without repeats, the deferred calls are, per counted chain tag in chain order: the any-tag call if significant, then the any-change call if the tag has an event entry, then the new-or-remove call if also significant; each with the originating tag and max(count + delta, 0) |
| TagCounts.FlushSpec | addons/GameplayTag/GameplayTagCountContainer.cs:200-206 | running deferred calls fires at most one delegate per call, each with the call's arguments and only when bound, and every call whose delegate is bound fires it |
| TagCounts.FlushAppend | addons/GameplayTag/GameplayTagCountContainer.cs:200-206 | running two lists one after the other fires what each fires, in that order |
| TagCounts.FlushBoundCalls | addons/GameplayTag/GameplayTagCountContainer.cs:200-206 | when every delegate is bound the trace is the calls one for one in order; when none is, nothing fires |
| TagCounts.ChainDistinct | addons/GameplayTag/GameplayTagCountContainer.cs:263-265 | the tag-and-parents chain of a registry container with strictly sorted explicit tags has no repeats |
| TagCounts.NoOpUpdates | addons/GameplayTag/GameplayTagCountContainer.cs:101-138 | a zero delta, setting the current count, or a non-positive delta for a non-explicit tag returns false and changes nothing |
| TagCounts.UpdateTagMapSpec | addons/GameplayTag/GameplayTagCountContainer.cs:193-209 | an update keeps both maps' keys and non-negative counts, keeps the events and the any-tag binding, and only appends fired entries carrying the tag; values, result and trace are given by `UpdateTagMapValues` and `UpdateTagMapTrace` |
| TagCounts.UpdateTagMapValues | addons/GameplayTag/GameplayTagCountContainer.cs:193-209 | over a chain without repeats: the update goes through iff the tag is explicit or the delta positive; then each counted chain tag becomes max(count + delta, 0), others unchanged; the result is whether some chain tag's change is significant; the explicit part is the explicit update with immediate rebuild |
| TagCounts.UpdateTagMapTrace | addons/GameplayTag/GameplayTagCountContainer.cs:193-209 | over a chain without repeats, an update that goes through fires exactly the bound delegates of the staged calls, in chain order, after the old trace; a refused one fires nothing |
| TagCounts.SetTagCountSets | addons/GameplayTag/GameplayTagCountContainer.cs:123-138 | setting a tracked non-negative count of an explicit tag (or raising it) leaves the explicit count at max(newCount, 0) |
| TagCounts.NewLedgerNeverCounts | addons/GameplayTag/GameplayTagCountContainer.cs:241-249 | as written, a positive update on a new ledger returns false and no count moves: the tag is held explicitly yet counted 0 and not matched |
| TagCounts.GatherEmptyMap | addons/GameplayTag/GameplayTagCountContainer.cs:268-272 | as written, gathering over an empty count map changes nothing and defers nothing |
| TagCounts.CorrectedExplicitRoundTrip | addons/GameplayTag/GameplayTagCountContainer.cs:241-249 | with entries created, adding n and then removing n restores the explicit state |
| TagCounts.GatherCorrectedCountsChain | addons/GameplayTag/GameplayTagCountContainer.cs:268-272 | with entries created, a positive update on an empty map counts n for exactly the chain tags and is significant iff the chain is non-empty |
| TagCounts.UpdateDeferredSpec | addons/GameplayTag/GameplayTagCountContainer.cs:212-219 | a deferred update only appends calls carrying the tag, keeps keys and non-negative counts, and fires nothing; values, result and calls are given by `UpdateDeferredValues` and `UpdateDeferredStages` |
| TagCounts.UpdateDeferredValues | addons/GameplayTag/GameplayTagCountContainer.cs:212-219 | over a chain without repeats: the deferred update goes through iff the tag is explicit or the delta positive; counts, result and explicit part as for the immediate update, with the rebuild deferred |
| TagCounts.UpdateDeferredStages | addons/GameplayTag/GameplayTagCountContainer.cs:212-219 | over a chain without repeats, the caller's list grows by exactly the staged calls of the chain when the update goes through, and not at all otherwise |
| TagCounts.UpdateEachSpec | addons/GameplayTag/GameplayTagCountContainer.cs:78-84 | the batch loop keeps keys and non-negative counts, fires nothing, and defers calls only for the batch's tags; counts are given by `UpdateEachRaises` and `UpdateEachRaisesExplicit` |
| TagCounts.UpdateEachRaises | addons/GameplayTag/GameplayTagCountContainer.cs:78-84 | a batch increase raises each count entry by delta times the number of batch tags whose chain holds it |
| TagCounts.UpdateEachRaisesExplicit | addons/GameplayTag/GameplayTagCountContainer.cs:78-84 | a batch increase raises each tracked non-negative explicit count by delta times the tag's occurrences in the batch |
| TagCounts.UpdateEachDefersParents | addons/GameplayTag/GameplayTagCountContainer.cs:78-84 | on a decrease the batch loop never changes the explicit parent tags |
| TagCounts.UpdateEachWellformed | addons/GameplayTag/GameplayTagCountContainer.cs:78-84 | the batch loop keeps the explicit container well formed |
| TagCounts.UpdateTagCountsSpec | addons/GameplayTag/GameplayTagCountContainer.cs:74-97 | a batch update keeps keys and non-negative counts and only appends fired entries for the batch's tags; the parent rebuild is given by `UpdateTagCountsExplicit` |
| TagCounts.UpdateTagCountsExplicit | addons/GameplayTag/GameplayTagCountContainer.cs:86-89 | the explicit parents are rebuilt once after the loop iff the delta is negative and some update was significant; they are then exactly the registry parents of the explicit tags, and on a decrease without a rebuild they are the parents from before the batch |
| TagCounts.NotifyEachSpec | addons/GameplayTag/GameplayTagCountContainer.cs:146-162 | notification keeps existing counts, adds 0 entries only for the explicit tags of the tag's registry container that have events, and fires only "any change" with count 0; which delegates fire is given by `NotifyEachFires` |
| TagCounts.NotifyEachFires | addons/GameplayTag/GameplayTagCountContainer.cs:146-162 | notification fires the any-change delegate with (tag, 0) for every explicit tag of the tag's registry container with an event entry whose any-change delegate is bound, and fires nothing else |
| TagCounts.NotifyNodeContainerOnlyTag | addons/GameplayTag/GameplayTagCountContainer.cs:146-162 | the container walked is the registry container itself, never flattened (despite its name `tagAndParentsContainer`); for a node container, whose one explicit tag is the tag, notification is one step for the tag alone and its parents are not notified |
| Scenarios.NotifyMissesParents | addons/GameplayTag/GameplayTagCountContainer.cs:146-162 | on the test registry, notifying A.B.C without an event entry for it changes nothing, even when A.B has a bound any-change delegate |
| TagCounts.RegisterSpec | addons/GameplayTag/GameplayTagCountContainer.cs:164-174 | registration returns an unbound delegate and adds an unbound entry only when the tag had none, changing nothing else |
| TagCounts.ResetSpec | addons/GameplayTag/GameplayTagCountContainer.cs:176-186 | after reset no tag is matched, counted or explicit; events and the any-tag delegate survive iff not reset |
| CountContainers.GameplayTagCountContainer.constructor | addons/GameplayTag/GameplayTagCountContainer.cs:12-16 | a new ledger: empty maps, a new empty explicit container, nothing bound |
| CountContainers.GameplayTagCountContainer.HasAllMatchingGameplayTags | addons/GameplayTag/GameplayTagCountContainer.cs:30-49 | true iff the container is non-empty and each of its tags has a positive count |
| CountContainers.GameplayTagCountContainer.HasAnyMatchingGameplayTags | addons/GameplayTag/GameplayTagCountContainer.cs:52-71 | true iff some tag of the container has a positive count |
| CountContainers.GameplayTagCountContainer.UpdateExplicitTags | addons/GameplayTag/GameplayTagCountContainer.cs:221-252 | result and new state are those of `UpdateExplicit` |
| CountContainers.GameplayTagCountContainer.GatherTagChangeDelegates | addons/GameplayTag/GameplayTagCountContainer.cs:261-302 | the loop's counts, significance and appended calls are those of `Gather` |
| CountContainers.GameplayTagCountContainer.RunDeferred | addons/GameplayTag/GameplayTagCountContainer.cs:202-206 | the deferred calls run in order, appending `Flush` to the trace |
| CountContainers.GameplayTagCountContainer.UpdateTagMapInternal | addons/GameplayTag/GameplayTagCountContainer.cs:193-209 | result and new state are those of `UpdateTagMap` |
| CountContainers.GameplayTagCountContainer.UpdateTagMapDeferredParentRemovalInternal | addons/GameplayTag/GameplayTagCountContainer.cs:212-219 | result, new state and calls are those of `UpdateDeferred` |
| CountContainers.GameplayTagCountContainer.UpdateTagCount | addons/GameplayTag/GameplayTagCountContainer.cs:101-109 | result and new state are those of `UpdateTagCount` |
| CountContainers.GameplayTagCountContainer.UpdateTagCountDeferredParentRemoval | addons/GameplayTag/GameplayTagCountContainer.cs:112-120 | result, new state and calls are those of `UpdateTagCountDeferred` |
| CountContainers.GameplayTagCountContainer.UpdateTagCounts | addons/GameplayTag/GameplayTagCountContainer.cs:74-97 | the new state is that of the batch `UpdateTagCounts` |
| CountContainers.GameplayTagCountContainer.SetTagCount | addons/GameplayTag/GameplayTagCountContainer.cs:123-138 | result and new state are those of `SetTagCount` |
| CountContainers.GameplayTagCountContainer.NotifyStackCountChange | addons/GameplayTag/GameplayTagCountContainer.cs:146-162 | for a registered tag the new state is `NotifyStackCountChange`; otherwise nothing changes and failure is reported |
| CountContainers.GameplayTagCountContainer.RegisterGameplayTagEvent | addons/GameplayTag/GameplayTagCountContainer.cs:164-174 | result and new state are those of `RegisterGameplayTagEvent` |
| CountContainers.GameplayTagCountContainer.Reset | addons/GameplayTag/GameplayTagCountContainer.cs:176-186 | the new state is `Reset` of the old one |
| CountContainers.GameplayTagCountContainer.FillParentTags | addons/GameplayTag/GameplayTagCountContainer.cs:188-191 | only the explicit container changes, to its refilled state |
| Scenarios.FixtureIsNodeContainers | addons/GameplayTag/GameplayTagsSettings.cs:11 | the test registry's entries are the containers the node constructor builds |
| Scenarios.ScenarioOrder | addons/GameplayTag/GameplayTag.cs:94-97 | A < A.B < A.B.C < D < D.C < D.C.B under `CompareTo` |
| Scenarios.ScenarioParents | addons/GameplayTag/GameplayTagsSettings.cs:11 | the registry parents of A.B.C, D.C.B and A.B in the test registry |
| Scenarios.NewContainerABC | tests/Test.cs:23-25 | adding A.B.C to a new container gives explicit [A.B.C] and parents [A, A.B] |
| Scenarios.NewContainerDCBThenAB | tests/Test.cs:28-32 | adding D.C.B then A.B gives explicit [A.B, D.C.B] and parents [A, D, D.C] |
| Scenarios.NewContainerDCB | tests/Test.cs:35-37 | adding D.C.B gives explicit [D.C.B] and parents [D, D.C] |
| Scenarios.RemoveABFromB | tests/Test.cs:44 | removing A.B from {A.B, D.C.B} with a refill reports true and leaves explicit [D.C.B] and parents [D, D.C] |
| Scenarios.ScenarioChecks | tests/Test.cs:39-46 | the hierarchy and exact checks of the test hold on the three containers as built |
| Scenarios.ContainerTestScenario | tests/Test.cs:39-46 | the seven results the test expects: all true except the first `HasAll`, which is false |
| Scenarios.MatchesTagMissesGrandparent | addons/GameplayTag/GameplayTag.cs:26-34 | on the test registry A.B.C matches A.B but not A |

## Left out

- Null tag names, null arrays and the null checks in `IsEmpty` and `GetHashCode` are not modelled. Names are strings and arrays are sequences.
- `CompareTo` folds case only for ASCII letters. Culture-independent folding of other characters is not modelled.
- `string.Intern` only shares storage, so it is not modelled. The string hash is a parameter of `HashCode`.
- Godot's `Resource`, `[Export]` and `[GlobalClass]` plumbing, `ToString`, and the `MethodImpl` attributes are not modelled.
- The process-wide manager instance, `ConstructGameplayTagTree`, `GetSingleTagContainer` and `RequestGameplayTagParents` are not part of this model. The registry they would consult is the parameter `Registry`. `RequestGameplayTagParents` is taken to be the flattened registry container.
- `GameplayTagsManager.AddTagNode` and `InsertTagIntoNodeArray` have empty bodies and are modelled as methods that do nothing.
- The sort order used by the engine's `Array.BinarySearch` is not part of this model. It is taken to be `CompareTo`, with the classic halving search.
- Delegates are closures in the source. The model records which delegate fires and with what arguments, but not what a delegate does. Re-entrancy from a delegate into the ledger is not modelled.
- Aliasing between objects is not modelled:
  - `AddExpr` stores the child expression by value.
  - `AppendTags` requires the other container to be a different object.
  - The batch `UpdateTagCounts` requires the container to be a different object from `ExplicitTags`.
- The `ExplicitTags` setter is not modelled; the explicit container is fixed at construction.
- `GameplayTagEventMap` has no initializer in the source. On a new ledger, `NotifyStackCountChange`, `RegisterGameplayTagEvent` and `Reset(true)` would therefore throw. The model starts the map empty.
- `NotifyStackCountChange` on an unregistered tag dereferences null in the source. The model reports it as a failure result that changes nothing.
- CountContainers.GameplayTagCountContainer.UpdateTagCount: does not model 32-bit wrap-around of `count + countDelta` (GameplayTagCountContainer.cs:243 and :270), because counts are unbounded integers. The same sums are reached from `UpdateTagCountDeferredParentRemoval`, `UpdateTagCounts` and `SetTagCount`, and the batch closed forms (`TagCounts.UpdateEachRaises`, `TagCounts.UpdateEachRaisesExplicit`) are unbounded as well.
- CountContainers.GameplayTagCountContainer.SetTagCount: does not model 32-bit wrap-around of `newCount - existingCount` (GameplayTagCountContainer.cs:131). In the source, `SetTagCount(t, int.MinValue)` with an explicit count of 1 wraps to a delta of `int.MaxValue`, an increase; the model (`TagCounts.SetTagCount`) computes the unbounded delta -2^31 - 1, a decrease.
- The commented-out warning at GameplayTagCountContainer.cs:232-236 has no effect and is not modelled.
- The `Description` field of a query carries no behaviour and is not modelled. Neither is `GameplayTagTableRow` (GameplayTagsManager.cs:36), a configuration record of a tag name and a description that the modelled operations never read.
- Top-level nodes of the test registry (`Scenarios.Fixture`) and of `TagNodes.ChainContainer` are built with no parent node. The manager's `Root` node (GameplayTagsManager.cs:16, tag `root`) is left out of those chains. Were the tree hung below it, the node constructor (lines 62-68) would also append `root` to every container's parent tags. For example, A.B.C would get [A.B, A, root]. The binary search would then find A and miss A.B.
- The per-tag count, result and trace lemmas of the ledger (`UpdateTagMapValues`, `UpdateDeferredValues`, `GatherStages` and those built on them) assume that the chain of the updated tag has no repeats. `TagCounts.ChainDistinct` shows this for every registry container whose explicit tags are strictly sorted, such as a node's one-tag container.
- TagCounts.UpdateEachRaises: states the batch counts in closed form only for an increase. On a decrease each step floors at 0 and may be refused, so the batch is described step by step through `UpdateDeferredValues`.

## Findings

| source | as written | input that shows it | evidently intended | confidence | as-written member | corrected member |
|---|---|---|---|---|---|---|
| addons/GameplayTag/GameplayTagsManager.cs:67-68 | a node's parent tags are appended nearest first, e.g. [A.B, A], yet `HasTag` binary-searches them | test registry with parentless top-level nodes: `Tag("A.B.C").MatchesTag(Tag("A"))` is false (under a `root` node the parents are [A.B, A, root] and `MatchesTag(Tag("A.B"))` is false instead) | the parent tags kept sorted, so every ancestor matches | high, not executed | TagNodes.NodeParentsNotSortedMissesAncestor | TagNodes.SortedChainFindsAncestors |
| addons/GameplayTag/GameplayTagQuery.cs:13-16 | `IsEmpty` returns `Expr.IsValid()`, so a configured query counts as empty and matches everything, and a new query matches nothing | `Build(AnyTagsMatch {A.C})` matches a container without A.C | `IsEmpty` is `!Expr.IsValid()`, as the comment on `Matches` says | high, not executed | Queries.ValidQueryMatchesEverything | Queries.CorrectedQueryMatchesByExpression |
| addons/GameplayTag/GameplayTagRequirements.cs:22 | with the inverted `IsEmpty`, a requirement that keeps its new (default) query is met by no container | a new requirement (default query, no tags), any container | the default query imposes nothing, so the tag fields decide | high, not executed | Requirements.DefaultQueryNeverMet | Requirements.DefaultQueryMetCorrected |
| addons/GameplayTag/GameplayTagRequirements.cs:27-58 | with the inverted `IsEmpty`, a requirement's converted query matches every container | require {A.B.C}, any container | the converted query agrees with the tag fields | high, not executed | Requirements.ConvertedQueryMatchesEverything | Requirements.ConvertedQueryAgreesCorrected |
| addons/GameplayTag/GameplayTagCountContainer.cs:241-249 | the explicit count is only updated when an entry exists, and nothing creates one | `UpdateTagCount(A.B.C, 1)` on a new ledger leaves `GetTagCount(A.B.C)` at 0 | a missing entry is created with the delta | high, not executed | TagCounts.NewLedgerNeverCounts | TagCounts.CorrectedExplicitRoundTrip |
| addons/GameplayTag/GameplayTagCountContainer.cs:268-272 | aggregate counts are only updated when an entry exists, so a new ledger never counts or notifies anything | `UpdateTagCount(A.B.C, 1)` on a new ledger: `HasMatchingGameplayTag(A.B.C)` stays false | a missing entry starts at 0 and gets the delta | high, not executed | TagCounts.GatherEmptyMap | TagCounts.GatherCorrectedCountsChain |
