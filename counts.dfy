/**
 * The tag count ledger (GameplayTagCountContainer) as a value: the two count
 * maps, the explicit-tag container, the delegate bindings, and a trace of
 * the delegate invocations.  The class in module CountContainers performs
 * these operations in place and is proved against the functions here.
 *
 * Delegates are modelled by whether they are bound (non-null); an
 * invocation of a bound delegate appends a `Fired` record to the trace.
 */
module TagCounts {
  import opened Options
  import opened Tags
  import opened TagSearch
  import opened TagSets

  /** `DelegateInfo`: whether each of a tag's two delegates is bound. */
  datatype DelegateInfo = DelegateInfo(onNewOrRemove: bool, onAnyChange: bool)

  /** A new `DelegateInfo`: both delegates null. */
  const Unbound := DelegateInfo(false, false)

  /** `EGameplayTagEventType`. */
  datatype EventType = NewOrRemove | AnyCountChange

  /** The three delegates a count change can invoke. */
  datatype Slot = OnAnyTagChange | OnAnyChange | OnNewOrRemove

  /** One delegate invocation: which delegate, and the (tag, count) it was called with. */
  datatype Fired = Fired(slot: Slot, tag: Tag, count: int)

  /**
   * A deferred delegate call (`DeferredTagChangeDelegate`): the delegate it
   * will invoke, the `DelegateInfo` it captured, and its arguments.
   */
  datatype Deferred = Deferred(slot: Slot, info: DelegateInfo, tag: Tag, newCount: int)

  /** The whole ledger state. */
  datatype Ledger = Ledger(
    gameplayTagCounts: map<Tag, int>,
    explicitTagCounts: map<Tag, int>,
    explicitTags: TagSetValue,
    onAnyTagChangeBound: bool,
    gameplayTagEvents: map<Tag, DelegateInfo>,
    fired: seq<Fired>)

  /** A new ledger: empty maps, an empty explicit container, no delegates, nothing fired. */
  const NewLedger := Ledger(map[], map[], Empty, false, map[], [])

  /** An operation's boolean result and the new ledger. */
  datatype Outcome = Outcome(result: bool, ledger: Ledger)

  function Max(a: int, b: int): int
  {
    if a >= b then a else b
  }

  /**
   * `RequestGameplayTagParents`: the tag and all its registry parents as
   * one sorted array of explicit tags; empty for an unknown tag.
   */
  function RequestGameplayTagParents(reg: Registry, t: Tag): TagSetValue
  {
    match GetSingleTagContainer(reg, t)
    case None => Empty
    case Some(single) => Flattened(single)
  }

  // ---------------------------------------------------------------------
  // Queries
  // ---------------------------------------------------------------------

  /** `HasMatchingGameplayTag`: the tag has an entry in the count map with a positive count. */
  predicate HasMatchingGameplayTag(l: Ledger, tagToCheck: Tag)
  {
    tagToCheck in l.gameplayTagCounts && l.gameplayTagCounts[tagToCheck] > 0
  }

  /** `GetTagCount`: the explicit count, 0 without an entry. */
  function GetTagCount(l: Ledger, t: Tag): (n: int)
    ensures t !in l.explicitTagCounts ==> n == 0
  {
    if t in l.explicitTagCounts then l.explicitTagCounts[t] else 0
  }

  // ---------------------------------------------------------------------
  // updateExplicitTags
  // ---------------------------------------------------------------------

  /**
   * `updateExplicitTags`: an absent tag is added on an increase and refused
   * (false) on a decrease; then an existing explicit count entry moves by
   * the delta, floored at 0, and at 0 the tag is removed from the explicit
   * container.  No entry is ever created.
   */
  function UpdateExplicit(reg: Registry, l: Ledger, t: Tag, delta: int, deferParentTagsOnRemove: bool): Outcome
  {
    var tagAlreadyExplicitlyExists := HasTagExact(l.explicitTags, t);
    if !tagAlreadyExplicitlyExists && delta <= 0 then Outcome(false, l)
    else
      var added := if !tagAlreadyExplicitlyExists then WithTag(reg, l.explicitTags, t) else l.explicitTags;
      if t in l.explicitTagCounts then
        var count := Max(l.explicitTagCounts[t] + delta, 0);
        var tags := if count <= 0 then Removed(reg, added, t, deferParentTagsOnRemove).after else added;
        Outcome(true, l.(explicitTagCounts := l.explicitTagCounts[t := count], explicitTags := tags))
      else
        Outcome(true, l.(explicitTags := added))
  }

  /**
   * `updateExplicitTags` never creates an explicit count entry, never
   * touches the other parts of the ledger, and leaves the counts alone for a
   * tag without an entry.
   */
  lemma UpdateExplicitSpec(reg: Registry, l: Ledger, t: Tag, delta: int, defer: bool)
    ensures UpdateExplicit(reg, l, t, delta, defer).ledger.explicitTagCounts.Keys == l.explicitTagCounts.Keys
    ensures t !in l.explicitTagCounts ==> UpdateExplicit(reg, l, t, delta, defer).ledger.explicitTagCounts == l.explicitTagCounts
    ensures t in l.explicitTagCounts && UpdateExplicit(reg, l, t, delta, defer).result ==>
      UpdateExplicit(reg, l, t, delta, defer).ledger.explicitTagCounts[t] == Max(l.explicitTagCounts[t] + delta, 0)
    ensures !UpdateExplicit(reg, l, t, delta, defer).result <==> !HasTagExact(l.explicitTags, t) && delta <= 0
    ensures !UpdateExplicit(reg, l, t, delta, defer).result ==> UpdateExplicit(reg, l, t, delta, defer).ledger == l
    ensures UpdateExplicit(reg, l, t, delta, defer).ledger.(explicitTagCounts := l.explicitTagCounts, explicitTags := l.explicitTags) == l
    ensures forall k | k in l.explicitTagCounts && k != t ::
      UpdateExplicit(reg, l, t, delta, defer).ledger.explicitTagCounts[k] == l.explicitTagCounts[k]
    ensures !HasTagExact(l.explicitTags, t) && delta > 0 && !ReachesZero(l, t, delta) ==>
      UpdateExplicit(reg, l, t, delta, defer).ledger.explicitTags == WithTag(reg, l.explicitTags, t)
    ensures HasTagExact(l.explicitTags, t) && !ReachesZero(l, t, delta) ==>
      UpdateExplicit(reg, l, t, delta, defer).ledger.explicitTags == l.explicitTags
    ensures UpdateExplicit(reg, l, t, delta, defer).result && ReachesZero(l, t, delta) ==>
      UpdateExplicit(reg, l, t, delta, defer).ledger.explicitTags ==
        Removed(reg, if HasTagExact(l.explicitTags, t) then l.explicitTags else WithTag(reg, l.explicitTags, t), t, defer).after
  {
  }

  /** The tracked explicit count of `t` reaches 0 under the delta. */
  predicate ReachesZero(l: Ledger, t: Tag, delta: int)
  {
    t in l.explicitTagCounts && Max(l.explicitTagCounts[t] + delta, 0) == 0
  }

  /**
   * On a well-formed explicit container: it stays well formed; after an
   * update that went through, a valid tag whose count did not reach 0 is
   * found among the explicit tags, and one whose count reached 0 is not;
   * parent tags that were exactly the registry parents stay so while
   * nothing is removed.
   */
  lemma UpdateExplicitMembership(reg: Registry, l: Ledger, t: Tag, delta: int, defer: bool)
    requires Wellformed(l.explicitTags)
    ensures Wellformed(UpdateExplicit(reg, l, t, delta, defer).ledger.explicitTags)
    ensures UpdateExplicit(reg, l, t, delta, defer).result && IsValid(t) && !ReachesZero(l, t, delta) ==>
      HasTagExact(UpdateExplicit(reg, l, t, delta, defer).ledger.explicitTags, t)
    ensures UpdateExplicit(reg, l, t, delta, defer).result && ReachesZero(l, t, delta) ==>
      !HasTagExact(UpdateExplicit(reg, l, t, delta, defer).ledger.explicitTags, t)
    ensures ParentsExact(reg, l.explicitTags) && !ReachesZero(l, t, delta) ==>
      ParentsExact(reg, UpdateExplicit(reg, l, t, delta, defer).ledger.explicitTags)
  {
    UpdateExplicitSpec(reg, l, t, delta, defer);
    WithTagSpec(reg, l.explicitTags, t);
    var added := if HasTagExact(l.explicitTags, t) then l.explicitTags else WithTag(reg, l.explicitTags, t);
    RemovedSpec(reg, added, t, defer);
    RemovedDropsTag(reg, added, t, defer);
  }

  // ---------------------------------------------------------------------
  // gatherTagChangeDelegates
  // ---------------------------------------------------------------------

  /** The state of the gathering loop: the flag so far, the count map, and the deferred calls. */
  datatype Gathered = Gathered(significant: bool, counts: map<Tag, int>, deferred: seq<Deferred>)

  /**
   * One iteration of the gathering loop for `tagToCheck`: only a tag with a
   * count entry is updated (floored at 0); the change is significant when
   * the old or the new count is 0; every deferred call receives the
   * originating tag `tag`.
   */
  function GatherStep(g: Gathered, events: map<Tag, DelegateInfo>, tag: Tag, delta: int, tagToCheck: Tag): Gathered
  {
    if tagToCheck !in g.counts then g
    else
      var count := g.counts[tagToCheck];
      var newCount := Max(count + delta, 0);
      var significantChange := count == 0 || newCount == 0;
      var anyTag := if significantChange then [Deferred(OnAnyTagChange, Unbound, tag, newCount)] else [];
      var perTag :=
        if tagToCheck in events then
          [Deferred(OnAnyChange, events[tagToCheck], tag, newCount)]
          + (if significantChange then [Deferred(OnNewOrRemove, events[tagToCheck], tag, newCount)] else [])
        else [];
      Gathered(g.significant || significantChange, g.counts[tagToCheck := newCount], g.deferred + anyTag + perTag)
  }

  /** `gatherTagChangeDelegates` over the tags `chain` (the tag and its parents), in order. */
  function Gather(counts: map<Tag, int>, events: map<Tag, DelegateInfo>, tag: Tag, delta: int, chain: seq<Tag>): Gathered
    decreases |chain|
  {
    if |chain| == 0 then Gathered(false, counts, [])
    else GatherStep(Gather(counts, events, tag, delta, chain[..|chain| - 1]), events, tag, delta, chain[|chain| - 1])
  }

  /** Gathering one more tag of the chain is one more step. */
  lemma GatherExtends(counts: map<Tag, int>, events: map<Tag, DelegateInfo>, tag: Tag, delta: int, chain: seq<Tag>, i: int)
    requires 0 <= i < |chain|
    ensures Gather(counts, events, tag, delta, chain[..i + 1]) == GatherStep(Gather(counts, events, tag, delta, chain[..i]), events, tag, delta, chain[i])
  {
    assert chain[..i + 1][..i] == chain[..i];
  }

  /** No two elements are equal. */
  predicate Distinct(s: seq<Tag>)
  {
    forall i, j | 0 <= i < j < |s| :: s[i] != s[j]
  }

  /** A strictly sorted array has no repeated tag. */
  lemma StrictlySortedDistinct(s: seq<Tag>)
    requires StrictlySorted(s)
    ensures Distinct(s)
  {
    forall i, j | 0 <= i < j < |s| ensures s[i] != s[j] {
      CompareZero(s[i], s[j]);
    }
  }

  /**
   * Gathering creates no count entry, keeps counts non-negative, and gives
   * every deferred call the originating tag.
   */
  lemma {:induction false} GatherKeepsKeys(counts: map<Tag, int>, events: map<Tag, DelegateInfo>, tag: Tag, delta: int, chain: seq<Tag>)
    ensures Gather(counts, events, tag, delta, chain).counts.Keys == counts.Keys
    ensures (forall k | k in counts :: counts[k] >= 0) ==>
      forall k | k in Gather(counts, events, tag, delta, chain).counts :: Gather(counts, events, tag, delta, chain).counts[k] >= 0
    ensures forall d | d in Gather(counts, events, tag, delta, chain).deferred :: d.tag == tag
    decreases |chain|
  {
    if |chain| > 0 {
      GatherKeepsKeys(counts, events, tag, delta, chain[..|chain| - 1]);
    }
  }

  /** Splitting off the last element of a chain without repeats. */
  lemma SplitLast(chain: seq<Tag>)
    requires Distinct(chain) && |chain| > 0
    ensures Distinct(chain[..|chain| - 1])
    ensures chain[|chain| - 1] !in chain[..|chain| - 1]
    ensures forall k :: k in chain <==> k in chain[..|chain| - 1] || k == chain[|chain| - 1]
  {
    var front := chain[..|chain| - 1];
    var last := chain[|chain| - 1];
    assert last !in front by {
      forall i | 0 <= i < |front| ensures front[i] != last {
        assert front[i] == chain[i];
      }
    }
    forall k | k in chain ensures k in front || k == last {
      var i :| 0 <= i < |chain| && chain[i] == k;
      if i < |chain| - 1 { assert front[i] == k; }
    }
    forall k | k in front ensures k in chain {
      var i :| 0 <= i < |front| && front[i] == k;
      assert chain[i] == k;
    }
  }

  /**
   * Over a chain without repeats, each count entry of a chain tag moves by
   * the delta, floored at 0, and every other entry is unchanged.
   */
  lemma {:induction false} GatherValues(counts: map<Tag, int>, events: map<Tag, DelegateInfo>, tag: Tag, delta: int, chain: seq<Tag>)
    requires Distinct(chain)
    ensures forall k | k in counts :: (k in Gather(counts, events, tag, delta, chain).counts &&
      Gather(counts, events, tag, delta, chain).counts[k] == if k in chain then Max(counts[k] + delta, 0) else counts[k])
    decreases |chain|
  {
    GatherKeepsKeys(counts, events, tag, delta, chain);
    if |chain| > 0 {
      var front := chain[..|chain| - 1];
      GatherKeepsKeys(counts, events, tag, delta, front);
      SplitLast(chain);
      GatherValues(counts, events, tag, delta, front);
    }
  }

  /** The change of tag `k` is significant: it has a count entry that is 0 or reaches 0. */
  predicate SignificantFor(counts: map<Tag, int>, delta: int, k: Tag)
  {
    k in counts && (counts[k] == 0 || Max(counts[k] + delta, 0) == 0)
  }

  /**
   * Over a chain without repeats, the change is significant exactly when
   * the change of some chain tag is.
   */
  lemma {:induction false} GatherSignificant(counts: map<Tag, int>, events: map<Tag, DelegateInfo>, tag: Tag, delta: int, chain: seq<Tag>)
    requires Distinct(chain)
    ensures Gather(counts, events, tag, delta, chain).significant <==> exists k | k in chain :: SignificantFor(counts, delta, k)
    decreases |chain|
  {
    if |chain| > 0 {
      var front := chain[..|chain| - 1];
      var last := chain[|chain| - 1];
      SplitLast(chain);
      GatherSignificant(counts, events, tag, delta, front);
      GatherValues(counts, events, tag, delta, front);
      GatherKeepsKeys(counts, events, tag, delta, front);
      var g := Gather(counts, events, tag, delta, front);
      assert last in g.counts <==> last in counts;
      if last in counts {
        assert g.counts[last] == counts[last];
      }
      assert Gather(counts, events, tag, delta, chain).significant == (g.significant || SignificantFor(counts, delta, last));
      if exists k | k in chain :: SignificantFor(counts, delta, k) {
        var k :| k in chain && SignificantFor(counts, delta, k);
        assert k in front || k == last;
      }
      if g.significant {
        var k :| k in front && SignificantFor(counts, delta, k);
        assert k in chain;
      }
    }
  }

  /**
   * The calls staged for chain tag `k`, judged against its count before the
   * update: none without a count entry; otherwise the any-tag call when the
   * change is significant, then, when `k` has an event entry, its
   * any-change call and, on a significant change, its new-or-remove call.
   * Each carries the originating tag and the new count of `k`.
   */
  function StagedFor(counts: map<Tag, int>, events: map<Tag, DelegateInfo>, tag: Tag, delta: int, k: Tag): seq<Deferred>
  {
    if k !in counts then []
    else
      var newCount := Max(counts[k] + delta, 0);
      var significant := SignificantFor(counts, delta, k);
      (if significant then [Deferred(OnAnyTagChange, Unbound, tag, newCount)] else [])
      + (if k !in events then []
         else [Deferred(OnAnyChange, events[k], tag, newCount)]
              + (if significant then [Deferred(OnNewOrRemove, events[k], tag, newCount)] else []))
  }

  /** The calls staged for each tag of `chain`, in chain order. */
  function Staged(counts: map<Tag, int>, events: map<Tag, DelegateInfo>, tag: Tag, delta: int, chain: seq<Tag>): seq<Deferred>
    decreases |chain|
  {
    if |chain| == 0 then []
    else Staged(counts, events, tag, delta, chain[..|chain| - 1]) + StagedFor(counts, events, tag, delta, chain[|chain| - 1])
  }

  /**
   * Over a chain without repeats, gathering defers exactly the calls staged
   * for each chain tag against the counts before the update, in chain order.
   */
  lemma {:induction false} GatherStages(counts: map<Tag, int>, events: map<Tag, DelegateInfo>, tag: Tag, delta: int, chain: seq<Tag>)
    requires Distinct(chain)
    ensures Gather(counts, events, tag, delta, chain).deferred == Staged(counts, events, tag, delta, chain)
    decreases |chain|
  {
    if |chain| > 0 {
      var front := chain[..|chain| - 1];
      var last := chain[|chain| - 1];
      SplitLast(chain);
      GatherStages(counts, events, tag, delta, front);
      GatherValues(counts, events, tag, delta, front);
      GatherKeepsKeys(counts, events, tag, delta, front);
      var g := Gather(counts, events, tag, delta, front);
      GatherStepStages(g, counts, events, tag, delta, last);
    }
  }

  /** A gathering step for a tag whose count is still the one before the update appends its staged calls. */
  lemma GatherStepStages(g: Gathered, counts: map<Tag, int>, events: map<Tag, DelegateInfo>, tag: Tag, delta: int, k: Tag)
    requires k in g.counts <==> k in counts
    requires k in counts ==> g.counts[k] == counts[k]
    ensures GatherStep(g, events, tag, delta, k).deferred == g.deferred + StagedFor(counts, events, tag, delta, k)
  {
  }

  // ---------------------------------------------------------------------
  // Running the deferred calls
  // ---------------------------------------------------------------------

  /**
   * Running one deferred call: the any-tag delegate is looked up when the
   * call runs; the per-tag delegates come from the captured `DelegateInfo`;
   * a null delegate does nothing.
   */
  function Invoked(d: Deferred, onAnyTagChangeBound: bool): seq<Fired>
  {
    if IsBound(d, onAnyTagChangeBound) then [Fired(d.slot, d.tag, d.newCount)] else []
  }

  /** The delegate a deferred call invokes is bound when the call runs. */
  predicate IsBound(d: Deferred, onAnyTagChangeBound: bool)
  {
    match d.slot
    case OnAnyTagChange => onAnyTagChangeBound
    case OnAnyChange => d.info.onAnyChange
    case OnNewOrRemove => d.info.onNewOrRemove
  }

  /** Running the deferred calls in order. */
  function Flush(ds: seq<Deferred>, onAnyTagChangeBound: bool): seq<Fired>
    decreases |ds|
  {
    if |ds| == 0 then [] else Flush(ds[..|ds| - 1], onAnyTagChangeBound) + Invoked(ds[|ds| - 1], onAnyTagChangeBound)
  }

  /**
   * Running two lists of calls one after the other fires what each fires,
   * in that order; together with `Invoked` for a single call this fixes the
   * trace of any list: the bound calls' delegates, in list order.
   */
  lemma {:induction false} FlushAppend(ds: seq<Deferred>, es: seq<Deferred>, onAnyTagChangeBound: bool)
    ensures Flush(ds + es, onAnyTagChangeBound) == Flush(ds, onAnyTagChangeBound) + Flush(es, onAnyTagChangeBound)
    decreases |es|
  {
    if |es| == 0 {
      assert ds + es == ds;
    } else {
      var front := es[..|es| - 1];
      assert (ds + es)[..|ds + es| - 1] == ds + front;
      FlushAppend(ds, front, onAnyTagChangeBound);
    }
  }

  /**
   * Running deferred calls fires at most one delegate per call, each with
   * the tag and count the call captured, and only delegates that are bound;
   * and every call whose delegate is bound fires it.
   */
  lemma {:induction false} FlushSpec(ds: seq<Deferred>, onAnyTagChangeBound: bool)
    ensures |Flush(ds, onAnyTagChangeBound)| <= |ds|
    ensures forall f | f in Flush(ds, onAnyTagChangeBound) ::
      exists d | d in ds :: f == Fired(d.slot, d.tag, d.newCount) && IsBound(d, onAnyTagChangeBound)
    ensures forall d | d in ds && IsBound(d, onAnyTagChangeBound) :: Fired(d.slot, d.tag, d.newCount) in Flush(ds, onAnyTagChangeBound)
    decreases |ds|
  {
    if |ds| > 0 {
      var front := ds[..|ds| - 1];
      FlushSpec(front, onAnyTagChangeBound);
      forall d | d in front ensures d in ds {
        var i :| 0 <= i < |front| && front[i] == d;
        assert ds[i] == d;
      }
      forall d | d in ds ensures d in front || d == ds[|ds| - 1] {
        var i :| 0 <= i < |ds| && ds[i] == d;
        if i < |ds| - 1 { assert front[i] == d; }
      }
      forall f | f in Flush(ds, onAnyTagChangeBound) ensures exists d | d in ds :: f == Fired(d.slot, d.tag, d.newCount) && IsBound(d, onAnyTagChangeBound) {
        if f in Flush(front, onAnyTagChangeBound) {
          var d :| d in front && f == Fired(d.slot, d.tag, d.newCount) && IsBound(d, onAnyTagChangeBound);
          assert d in ds;
        } else {
          assert ds[|ds| - 1] in ds;
        }
      }
    }
  }

  /**
   * When every delegate is bound, the trace is the calls themselves, one for
   * one and in order; when none is, nothing fires.
   */
  lemma {:induction false} FlushBoundCalls(ds: seq<Deferred>, onAnyTagChangeBound: bool)
    ensures (forall i | 0 <= i < |ds| :: IsBound(ds[i], onAnyTagChangeBound)) ==>
      |Flush(ds, onAnyTagChangeBound)| == |ds| &&
      forall i | 0 <= i < |ds| :: Flush(ds, onAnyTagChangeBound)[i] == Fired(ds[i].slot, ds[i].tag, ds[i].newCount)
    ensures (forall i | 0 <= i < |ds| :: !IsBound(ds[i], onAnyTagChangeBound)) ==> Flush(ds, onAnyTagChangeBound) == []
    decreases |ds|
  {
    if |ds| > 0 {
      var front := ds[..|ds| - 1];
      FlushBoundCalls(front, onAnyTagChangeBound);
      assert forall i | 0 <= i < |front| :: front[i] == ds[i];
    }
  }

  // ---------------------------------------------------------------------
  // updateTagMapInternal, UpdateTagCount, SetTagCount
  // ---------------------------------------------------------------------

  /** The tags whose counts a change of `t` moves: `t` and its registry parents. */
  function Chain(reg: Registry, t: Tag): seq<Tag>
  {
    RequestGameplayTagParents(reg, t).gameplayTags
  }

  /**
   * The chain of a tag whose registry container holds its explicit tags
   * strictly sorted (as a one-tag container does) has no repeats.
   */
  lemma ChainDistinct(reg: Registry, t: Tag)
    requires t in reg ==> StrictlySorted(reg[t].gameplayTags)
    ensures Distinct(Chain(reg, t))
  {
    if t in reg {
      InsertAllSorted(reg[t].gameplayTags, reg[t].parentTags);
      StrictlySortedDistinct(Chain(reg, t));
    }
  }

  /**
   * `updateTagMapInternal`: the explicit update with an immediate parent
   * rebuild; if it went through, gather and then run the deferred calls;
   * the result is whether some count change was significant.
   */
  function UpdateTagMap(reg: Registry, l: Ledger, t: Tag, delta: int): Outcome
  {
    var u := UpdateExplicit(reg, l, t, delta, false);
    if !u.result then Outcome(false, l)
    else
      var g := Gather(u.ledger.gameplayTagCounts, u.ledger.gameplayTagEvents, t, delta, Chain(reg, t));
      Outcome(g.significant, u.ledger.(gameplayTagCounts := g.counts,
                                       fired := u.ledger.fired + Flush(g.deferred, u.ledger.onAnyTagChangeBound)))
  }

  /** `UpdateTagCount(tag, countDelta)`: nothing for a zero delta. */
  function UpdateTagCount(reg: Registry, l: Ledger, t: Tag, delta: int): Outcome
  {
    if delta != 0 then UpdateTagMap(reg, l, t, delta) else Outcome(false, l)
  }

  /** `SetTagCount`: update by the difference between the new count and the explicit count. */
  function SetTagCount(reg: Registry, l: Ledger, t: Tag, newCount: int): Outcome
  {
    var existingCount := if t in l.explicitTagCounts then l.explicitTagCounts[t] else 0;
    var countDelta := newCount - existingCount;
    if countDelta != 0 then UpdateTagMap(reg, l, t, countDelta) else Outcome(false, l)
  }

  /**
   * The updates that change nothing and report false: a zero delta, setting
   * the count a tag already has, and a non-positive delta for a tag that is
   * not an explicit tag.
   */
  lemma NoOpUpdates(reg: Registry, l: Ledger, t: Tag, delta: int)
    ensures UpdateTagCount(reg, l, t, 0) == Outcome(false, l)
    ensures SetTagCount(reg, l, t, GetTagCount(l, t)) == Outcome(false, l)
    ensures !HasTagExact(l.explicitTags, t) && delta <= 0 ==> UpdateTagCount(reg, l, t, delta) == Outcome(false, l)
    ensures !HasTagExact(l.explicitTags, t) && delta <= 0 ==> UpdateTagCountDeferred(reg, l, t, delta, []) == DeferredOutcome(false, l, [])
  {
  }

  /**
   * A single-tag update creates no count entry in either map, keeps counts
   * non-negative, leaves the delegate bindings alone, only appends to the
   * trace, and every delegate it fires receives the updated tag itself.
   */
  lemma UpdateTagMapSpec(reg: Registry, l: Ledger, t: Tag, delta: int)
    requires forall k | k in l.gameplayTagCounts :: l.gameplayTagCounts[k] >= 0
    ensures UpdateTagMap(reg, l, t, delta).ledger.gameplayTagCounts.Keys == l.gameplayTagCounts.Keys
    ensures UpdateTagMap(reg, l, t, delta).ledger.explicitTagCounts.Keys == l.explicitTagCounts.Keys
    ensures forall k | k in UpdateTagMap(reg, l, t, delta).ledger.gameplayTagCounts ::
      UpdateTagMap(reg, l, t, delta).ledger.gameplayTagCounts[k] >= 0
    ensures UpdateTagMap(reg, l, t, delta).ledger.gameplayTagEvents == l.gameplayTagEvents
    ensures UpdateTagMap(reg, l, t, delta).ledger.onAnyTagChangeBound == l.onAnyTagChangeBound
    ensures l.fired <= UpdateTagMap(reg, l, t, delta).ledger.fired
    ensures forall i | |l.fired| <= i < |UpdateTagMap(reg, l, t, delta).ledger.fired| ::
      UpdateTagMap(reg, l, t, delta).ledger.fired[i].tag == t
  {
    UpdateTagMapKeepsCounts(reg, l, t, delta);
    UpdateTagMapFiresTag(reg, l, t, delta);
  }

  /** The count half of `UpdateTagMapSpec`. */
  lemma UpdateTagMapKeepsCounts(reg: Registry, l: Ledger, t: Tag, delta: int)
    requires forall k | k in l.gameplayTagCounts :: l.gameplayTagCounts[k] >= 0
    ensures UpdateTagMap(reg, l, t, delta).ledger.gameplayTagCounts.Keys == l.gameplayTagCounts.Keys
    ensures UpdateTagMap(reg, l, t, delta).ledger.explicitTagCounts.Keys == l.explicitTagCounts.Keys
    ensures forall k | k in UpdateTagMap(reg, l, t, delta).ledger.gameplayTagCounts ::
      UpdateTagMap(reg, l, t, delta).ledger.gameplayTagCounts[k] >= 0
    ensures UpdateTagMap(reg, l, t, delta).ledger.gameplayTagEvents == l.gameplayTagEvents
    ensures UpdateTagMap(reg, l, t, delta).ledger.onAnyTagChangeBound == l.onAnyTagChangeBound
  {
    var u := UpdateExplicit(reg, l, t, delta, false);
    UpdateExplicitSpec(reg, l, t, delta, false);
    if u.result {
      GatherKeepsKeys(u.ledger.gameplayTagCounts, u.ledger.gameplayTagEvents, t, delta, Chain(reg, t));
    }
  }

  /** The trace half of `UpdateTagMapSpec`. */
  lemma UpdateTagMapFiresTag(reg: Registry, l: Ledger, t: Tag, delta: int)
    ensures l.fired <= UpdateTagMap(reg, l, t, delta).ledger.fired
    ensures forall i | |l.fired| <= i < |UpdateTagMap(reg, l, t, delta).ledger.fired| ::
      UpdateTagMap(reg, l, t, delta).ledger.fired[i].tag == t
  {
    var u := UpdateExplicit(reg, l, t, delta, false);
    UpdateExplicitSpec(reg, l, t, delta, false);
    if u.result {
      var g := Gather(u.ledger.gameplayTagCounts, u.ledger.gameplayTagEvents, t, delta, Chain(reg, t));
      GatherKeepsKeys(u.ledger.gameplayTagCounts, u.ledger.gameplayTagEvents, t, delta, Chain(reg, t));
      var extra := Flush(g.deferred, l.onAnyTagChangeBound);
      FlushedTagsIn(g.deferred, l.onAnyTagChangeBound, [t]);
      var r := UpdateTagMap(reg, l, t, delta).ledger;
      assert r.fired == l.fired + extra;
      forall i | |l.fired| <= i < |r.fired| ensures r.fired[i].tag == t {
        assert r.fired[i] == extra[i - |l.fired|];
      }
    }
  }

  /**
   * Over a chain without repeats, a single-tag update goes through exactly
   * when the tag is explicit or the delta is positive; then each count
   * entry of the tag and its parents moves by the delta, floored at 0, and
   * every other entry is unchanged; the result is whether the change of
   * some chain tag was significant; the explicit part is that of
   * `updateExplicitTags` with an immediate parent rebuild.
   */
  lemma UpdateTagMapValues(reg: Registry, l: Ledger, t: Tag, delta: int)
    requires Distinct(Chain(reg, t))
    ensures UpdateTagMap(reg, l, t, delta).result <==>
      (HasTagExact(l.explicitTags, t) || delta > 0) && exists k | k in Chain(reg, t) :: SignificantFor(l.gameplayTagCounts, delta, k)
    ensures UpdateTagMap(reg, l, t, delta).ledger.gameplayTagCounts.Keys == l.gameplayTagCounts.Keys
    ensures forall k | k in l.gameplayTagCounts ::
      UpdateTagMap(reg, l, t, delta).ledger.gameplayTagCounts[k] ==
        if (HasTagExact(l.explicitTags, t) || delta > 0) && k in Chain(reg, t) then Max(l.gameplayTagCounts[k] + delta, 0)
        else l.gameplayTagCounts[k]
    ensures UpdateTagMap(reg, l, t, delta).ledger.explicitTagCounts == UpdateExplicit(reg, l, t, delta, false).ledger.explicitTagCounts
    ensures UpdateTagMap(reg, l, t, delta).ledger.explicitTags == UpdateExplicit(reg, l, t, delta, false).ledger.explicitTags
  {
    UpdateExplicitSpec(reg, l, t, delta, false);
    var u := UpdateExplicit(reg, l, t, delta, false);
    if u.result {
      GatherKeepsKeys(u.ledger.gameplayTagCounts, u.ledger.gameplayTagEvents, t, delta, Chain(reg, t));
      GatherValues(u.ledger.gameplayTagCounts, u.ledger.gameplayTagEvents, t, delta, Chain(reg, t));
      GatherSignificant(u.ledger.gameplayTagCounts, u.ledger.gameplayTagEvents, t, delta, Chain(reg, t));
    }
  }

  /**
   * Over a chain without repeats, a single-tag update that goes through
   * fires, after the existing trace, exactly the bound delegates of the
   * calls staged for the tag and its parents, in chain order; one that is
   * refused fires nothing.
   */
  lemma UpdateTagMapTrace(reg: Registry, l: Ledger, t: Tag, delta: int)
    requires Distinct(Chain(reg, t))
    ensures UpdateTagMap(reg, l, t, delta).ledger.fired == l.fired +
      if HasTagExact(l.explicitTags, t) || delta > 0
      then Flush(Staged(l.gameplayTagCounts, l.gameplayTagEvents, t, delta, Chain(reg, t)), l.onAnyTagChangeBound)
      else []
  {
    UpdateExplicitSpec(reg, l, t, delta, false);
    var u := UpdateExplicit(reg, l, t, delta, false);
    if u.result {
      GatherStages(u.ledger.gameplayTagCounts, u.ledger.gameplayTagEvents, t, delta, Chain(reg, t));
    }
  }

  /**
   * Setting a tracked, non-negative explicit count of a tag that is explicit
   * (or raising it) leaves that count at the new value, floored at 0.
   */
  lemma SetTagCountSets(reg: Registry, l: Ledger, t: Tag, newCount: int)
    requires t in l.explicitTagCounts && l.explicitTagCounts[t] >= 0
    requires HasTagExact(l.explicitTags, t) || newCount > l.explicitTagCounts[t]
    ensures GetTagCount(SetTagCount(reg, l, t, newCount).ledger, t) == Max(newCount, 0)
  {
    var delta := newCount - l.explicitTagCounts[t];
    UpdateExplicitSpec(reg, l, t, delta, false);
    if delta != 0 {
      var u := UpdateExplicit(reg, l, t, delta, false);
      assert u.result;
      GatherKeepsKeys(u.ledger.gameplayTagCounts, u.ledger.gameplayTagEvents, t, delta, Chain(reg, t));
    }
  }

  /**
   * On a ledger whose explicit count map has no entry for `t`, increasing and
   * then decreasing `t` by the same amount leaves `t` an explicit tag, its
   * count 0, and nothing counted or fired: no count entry is ever created.
   */
  lemma NewLedgerNeverCounts(reg: Registry, t: Tag, n: int)
    requires IsValid(t) && n > 0
    ensures UpdateTagCount(reg, NewLedger, t, n) == Outcome(false, NewLedger.(explicitTags := WithTag(reg, Empty, t)))
    ensures var l1 := UpdateTagCount(reg, NewLedger, t, n).ledger;
      UpdateTagCount(reg, l1, t, -n) == Outcome(false, l1)
    ensures var l1 := UpdateTagCount(reg, NewLedger, t, n).ledger;
      HasTagExact(l1.explicitTags, t) && GetTagCount(l1, t) == 0 && !HasMatchingGameplayTag(l1, t)
  {
    var none: seq<Tag> := [];
    assert StrictlySorted(none);
    WithTagSpec(reg, Empty, t);
    var l1 := NewLedger.(explicitTags := WithTag(reg, Empty, t));
    GatherKeepsKeys(map[], map[], t, n, Chain(reg, t));
    GatherEmptyMap(map[], t, n, Chain(reg, t));
    GatherEmptyMap(map[], t, -n, Chain(reg, t));
    assert UpdateExplicit(reg, l1, t, -n, false) == Outcome(true, l1);
  }

  /** On an empty count map, gathering changes nothing, is not significant and defers nothing. */
  lemma {:induction false} GatherEmptyMap(events: map<Tag, DelegateInfo>, tag: Tag, delta: int, chain: seq<Tag>)
    ensures Gather(map[], events, tag, delta, chain) == Gathered(false, map[], [])
    decreases |chain|
  {
    if |chain| > 0 {
      GatherEmptyMap(events, tag, delta, chain[..|chain| - 1]);
    }
  }

  // ---------------------------------------------------------------------
  // The corrected updates: absent entries count as 0 and are created
  // ---------------------------------------------------------------------

  /** `updateExplicitTags` with a find-or-add of the explicit count entry (absent = 0). */
  function UpdateExplicitCorrected(reg: Registry, l: Ledger, t: Tag, delta: int, deferParentTagsOnRemove: bool): Outcome
  {
    var tagAlreadyExplicitlyExists := HasTagExact(l.explicitTags, t);
    if !tagAlreadyExplicitlyExists && delta <= 0 then Outcome(false, l)
    else
      var added := if !tagAlreadyExplicitlyExists then WithTag(reg, l.explicitTags, t) else l.explicitTags;
      var count := Max(GetTagCount(l, t) + delta, 0);
      var tags := if count <= 0 then Removed(reg, added, t, deferParentTagsOnRemove).after else added;
      Outcome(true, l.(explicitTagCounts := l.explicitTagCounts[t := count], explicitTags := tags))
  }

  /**
   * With find-or-add, raising an absent valid tag by `n` records count `n`
   * and makes it explicit, and lowering it again by `n` brings its count to
   * 0 and gives back exactly the original explicit container.
   */
  lemma CorrectedExplicitRoundTrip(reg: Registry, l: Ledger, t: Tag, n: int)
    requires StrictlySorted(l.explicitTags.gameplayTags) && l.explicitTags == Refilled(reg, l.explicitTags)
    requires IsValid(t) && !KeyIn(l.explicitTags.gameplayTags, t) && t !in l.explicitTagCounts && n > 0
    ensures var l1 := UpdateExplicitCorrected(reg, l, t, n, false).ledger;
      && GetTagCount(l1, t) == n && HasTagExact(l1.explicitTags, t)
      && var l2 := UpdateExplicitCorrected(reg, l1, t, -n, false).ledger;
      && GetTagCount(l2, t) == 0 && l2.explicitTags == l.explicitTags
  {
    var v := l.explicitTags;
    BinarySearchSorted(v.gameplayTags, t);
    RefilledSpec(reg, v);
    WithTagSpec(reg, v, t);
    var l1 := UpdateExplicitCorrected(reg, l, t, n, false).ledger;
    assert l1.explicitTags == WithTag(reg, v, t);
    AddThenRemoveRestores(reg, v, t);
  }

  /** One iteration of the gathering loop with a find-or-add of the count entry (absent = 0). */
  function GatherStepCorrected(g: Gathered, events: map<Tag, DelegateInfo>, tag: Tag, delta: int, tagToCheck: Tag): Gathered
  {
    GatherStep(g.(counts := if tagToCheck in g.counts then g.counts else g.counts[tagToCheck := 0]), events, tag, delta, tagToCheck)
  }

  /** The gathering loop with find-or-add. */
  function GatherCorrected(counts: map<Tag, int>, events: map<Tag, DelegateInfo>, tag: Tag, delta: int, chain: seq<Tag>): Gathered
    decreases |chain|
  {
    if |chain| == 0 then Gathered(false, counts, [])
    else GatherStepCorrected(GatherCorrected(counts, events, tag, delta, chain[..|chain| - 1]), events, tag, delta, chain[|chain| - 1])
  }

  /**
   * With find-or-add, raising a tag by `n` on an empty count map gives the
   * tag and each of its parents count `n`, so each of them then matches,
   * and the change is significant.
   */
  lemma {:induction false} GatherCorrectedCountsChain(events: map<Tag, DelegateInfo>, tag: Tag, n: int, chain: seq<Tag>)
    requires Distinct(chain) && n > 0
    ensures GatherCorrected(map[], events, tag, n, chain).counts.Keys == set k | k in chain
    ensures forall k | k in chain :: GatherCorrected(map[], events, tag, n, chain).counts[k] == n
    ensures GatherCorrected(map[], events, tag, n, chain).significant <==> |chain| > 0
    decreases |chain|
  {
    if |chain| > 0 {
      SplitLast(chain);
      GatherCorrectedCountsChain(events, tag, n, chain[..|chain| - 1]);
    }
  }


  // ---------------------------------------------------------------------
  // Deferred and batch updates
  // ---------------------------------------------------------------------

  /** The outcome of an update whose delegate calls are deferred to a caller's list. */
  datatype DeferredOutcome = DeferredOutcome(result: bool, ledger: Ledger, deferred: seq<Deferred>)

  /**
   * `updateTagMapDeferredParentRemovalInternal`: the explicit update with
   * the parent rebuild deferred; if it went through, gather onto the list.
   */
  function UpdateDeferred(reg: Registry, l: Ledger, t: Tag, delta: int, ds: seq<Deferred>): DeferredOutcome
  {
    var u := UpdateExplicit(reg, l, t, delta, true);
    if !u.result then DeferredOutcome(false, l, ds)
    else
      var g := Gather(u.ledger.gameplayTagCounts, u.ledger.gameplayTagEvents, t, delta, Chain(reg, t));
      DeferredOutcome(g.significant, u.ledger.(gameplayTagCounts := g.counts), ds + g.deferred)
  }

  /** `UpdateTagCountDeferredParentRemoval`: nothing for a zero delta. */
  function UpdateTagCountDeferred(reg: Registry, l: Ledger, t: Tag, delta: int, ds: seq<Deferred>): DeferredOutcome
  {
    if delta != 0 then UpdateDeferred(reg, l, t, delta, ds) else DeferredOutcome(false, l, ds)
  }

  /** The loop of the batch update: whether any tag was updated, the ledger, the collected calls. */
  function UpdateEach(reg: Registry, l: Ledger, tags: seq<Tag>, delta: int): DeferredOutcome
    decreases |tags|
  {
    if |tags| == 0 then DeferredOutcome(false, l, [])
    else
      var before := UpdateEach(reg, l, tags[..|tags| - 1], delta);
      var step := UpdateDeferred(reg, before.ledger, tags[|tags| - 1], delta, before.deferred);
      DeferredOutcome(before.result || step.result, step.ledger, step.deferred)
  }

  /**
   * `UpdateTagCount(container, countDelta)`: update each explicit tag of the
   * container with deferred parent rebuilds; after a decrease that updated
   * something, rebuild the explicit parents once; then run the calls.
   */
  function UpdateTagCounts(reg: Registry, l: Ledger, tags: seq<Tag>, delta: int): Ledger
  {
    if delta == 0 then l
    else
      var each := UpdateEach(reg, l, tags, delta);
      var explicitTags :=
        if each.result && delta < 0 then Refilled(reg, each.ledger.explicitTags)
        else each.ledger.explicitTags;
      each.ledger.(explicitTags := explicitTags,
                   fired := each.ledger.fired + Flush(each.deferred, each.ledger.onAnyTagChangeBound))
  }

  /**
   * The deferred update keeps the collected calls in front of the new ones,
   * creates no count entry, keeps counts non-negative and leaves the trace
   * and bindings alone; every call it adds carries the updated tag.
   */
  lemma UpdateDeferredSpec(reg: Registry, l: Ledger, t: Tag, delta: int, ds: seq<Deferred>)
    requires forall k | k in l.gameplayTagCounts :: l.gameplayTagCounts[k] >= 0
    ensures ds <= UpdateDeferred(reg, l, t, delta, ds).deferred
    ensures forall i | |ds| <= i < |UpdateDeferred(reg, l, t, delta, ds).deferred| ::
      UpdateDeferred(reg, l, t, delta, ds).deferred[i].tag == t
    ensures UpdateDeferred(reg, l, t, delta, ds).ledger.gameplayTagCounts.Keys == l.gameplayTagCounts.Keys
    ensures UpdateDeferred(reg, l, t, delta, ds).ledger.explicitTagCounts.Keys == l.explicitTagCounts.Keys
    ensures forall k | k in UpdateDeferred(reg, l, t, delta, ds).ledger.gameplayTagCounts ::
      UpdateDeferred(reg, l, t, delta, ds).ledger.gameplayTagCounts[k] >= 0
    ensures UpdateDeferred(reg, l, t, delta, ds).ledger.fired == l.fired
    ensures UpdateDeferred(reg, l, t, delta, ds).ledger.gameplayTagEvents == l.gameplayTagEvents
    ensures UpdateDeferred(reg, l, t, delta, ds).ledger.onAnyTagChangeBound == l.onAnyTagChangeBound
  {
    UpdateExplicitSpec(reg, l, t, delta, true);
    var u := UpdateExplicit(reg, l, t, delta, true);
    if u.result {
      var g := Gather(u.ledger.gameplayTagCounts, u.ledger.gameplayTagEvents, t, delta, Chain(reg, t));
      GatherKeepsKeys(u.ledger.gameplayTagCounts, u.ledger.gameplayTagEvents, t, delta, Chain(reg, t));
      var r := UpdateDeferred(reg, l, t, delta, ds).deferred;
      assert r == ds + g.deferred;
      forall i | |ds| <= i < |r| ensures r[i].tag == t {
        assert r[i] == g.deferred[i - |ds|];
        assert g.deferred[i - |ds|] in g.deferred;
      }
    }
  }

  /**
   * Over a chain without repeats, a deferred update goes through exactly
   * when the tag is explicit or the delta is positive; then each count
   * entry of the tag and its parents moves by the delta, floored at 0, and
   * every other entry is unchanged; the result is whether the change of
   * some chain tag was significant; the explicit part is that of
   * `updateExplicitTags` with the parent rebuild deferred.
   */
  lemma UpdateDeferredValues(reg: Registry, l: Ledger, t: Tag, delta: int, ds: seq<Deferred>)
    requires Distinct(Chain(reg, t))
    ensures UpdateDeferred(reg, l, t, delta, ds).result <==>
      (HasTagExact(l.explicitTags, t) || delta > 0) && exists k | k in Chain(reg, t) :: SignificantFor(l.gameplayTagCounts, delta, k)
    ensures UpdateDeferred(reg, l, t, delta, ds).ledger.gameplayTagCounts.Keys == l.gameplayTagCounts.Keys
    ensures forall k | k in l.gameplayTagCounts ::
      UpdateDeferred(reg, l, t, delta, ds).ledger.gameplayTagCounts[k] ==
        if (HasTagExact(l.explicitTags, t) || delta > 0) && k in Chain(reg, t) then Max(l.gameplayTagCounts[k] + delta, 0)
        else l.gameplayTagCounts[k]
    ensures UpdateDeferred(reg, l, t, delta, ds).ledger.explicitTagCounts == UpdateExplicit(reg, l, t, delta, true).ledger.explicitTagCounts
    ensures UpdateDeferred(reg, l, t, delta, ds).ledger.explicitTags == UpdateExplicit(reg, l, t, delta, true).ledger.explicitTags
  {
    UpdateExplicitSpec(reg, l, t, delta, true);
    var u := UpdateExplicit(reg, l, t, delta, true);
    if u.result {
      GatherKeepsKeys(u.ledger.gameplayTagCounts, u.ledger.gameplayTagEvents, t, delta, Chain(reg, t));
      GatherValues(u.ledger.gameplayTagCounts, u.ledger.gameplayTagEvents, t, delta, Chain(reg, t));
      GatherSignificant(u.ledger.gameplayTagCounts, u.ledger.gameplayTagEvents, t, delta, Chain(reg, t));
    }
  }

  /**
   * Over a chain without repeats, a deferred update that goes through
   * appends to the caller's list exactly the calls staged for the tag and
   * its parents, in chain order; one that is refused appends nothing.
   */
  lemma UpdateDeferredStages(reg: Registry, l: Ledger, t: Tag, delta: int, ds: seq<Deferred>)
    requires Distinct(Chain(reg, t))
    ensures UpdateDeferred(reg, l, t, delta, ds).deferred == ds +
      if HasTagExact(l.explicitTags, t) || delta > 0
      then Staged(l.gameplayTagCounts, l.gameplayTagEvents, t, delta, Chain(reg, t))
      else []
  {
    UpdateExplicitSpec(reg, l, t, delta, true);
    var u := UpdateExplicit(reg, l, t, delta, true);
    if u.result {
      GatherStages(u.ledger.gameplayTagCounts, u.ledger.gameplayTagEvents, t, delta, Chain(reg, t));
    }
  }

  /**
   * The batch loop creates no count entry, keeps counts non-negative and
   * leaves the trace and bindings alone; each collected call carries one of
   * the container's tags.
   */
  lemma {:induction false} UpdateEachSpec(reg: Registry, l: Ledger, tags: seq<Tag>, delta: int)
    requires forall k | k in l.gameplayTagCounts :: l.gameplayTagCounts[k] >= 0
    ensures UpdateEach(reg, l, tags, delta).ledger.gameplayTagCounts.Keys == l.gameplayTagCounts.Keys
    ensures UpdateEach(reg, l, tags, delta).ledger.explicitTagCounts.Keys == l.explicitTagCounts.Keys
    ensures forall k | k in UpdateEach(reg, l, tags, delta).ledger.gameplayTagCounts ::
      UpdateEach(reg, l, tags, delta).ledger.gameplayTagCounts[k] >= 0
    ensures UpdateEach(reg, l, tags, delta).ledger.fired == l.fired
    ensures UpdateEach(reg, l, tags, delta).ledger.gameplayTagEvents == l.gameplayTagEvents
    ensures UpdateEach(reg, l, tags, delta).ledger.onAnyTagChangeBound == l.onAnyTagChangeBound
    ensures forall d | d in UpdateEach(reg, l, tags, delta).deferred :: d.tag in tags
    decreases |tags|
  {
    if |tags| > 0 {
      var front := tags[..|tags| - 1];
      var last := tags[|tags| - 1];
      var before := UpdateEach(reg, l, front, delta);
      UpdateEachSpec(reg, l, front, delta);
      UpdateDeferredSpec(reg, before.ledger, last, delta, before.deferred);
      var after := UpdateDeferred(reg, before.ledger, last, delta, before.deferred).deferred;
      forall d | d in after ensures d.tag in tags {
        var i :| 0 <= i < |after| && after[i] == d;
        if i < |before.deferred| {
          assert before.deferred[i] == d;
          assert d.tag in front;
          var j :| 0 <= j < |front| && front[j] == d.tag;
          assert tags[j] == d.tag;
        } else {
          assert d.tag == last;
        }
      }
    }
  }

  /** The number of the tags whose chain holds `k`. */
  function Occurrences(reg: Registry, tags: seq<Tag>, k: Tag): nat
    decreases |tags|
  {
    if |tags| == 0 then 0
    else Occurrences(reg, tags[..|tags| - 1], k) + (if k in Chain(reg, tags[|tags| - 1]) then 1 else 0)
  }

  /** One more occurrence adds one more delta; a positive delta is never negative in sum. */
  lemma MultiplyStep(delta: int, n: nat)
    ensures delta * (n + 1) == delta * n + delta
    ensures delta > 0 ==> delta * n >= 0
  {
  }

  /**
   * A batch increase over tags whose chains have no repeats raises each
   * count entry by the delta once for every tag whose chain holds it (no
   * count is floored on the way up).
   */
  lemma {:induction false} UpdateEachRaises(reg: Registry, l: Ledger, tags: seq<Tag>, delta: int)
    requires delta > 0
    requires forall i | 0 <= i < |tags| :: Distinct(Chain(reg, tags[i]))
    requires forall k | k in l.gameplayTagCounts :: l.gameplayTagCounts[k] >= 0
    ensures UpdateEach(reg, l, tags, delta).ledger.gameplayTagCounts.Keys == l.gameplayTagCounts.Keys
    ensures forall k | k in l.gameplayTagCounts ::
      UpdateEach(reg, l, tags, delta).ledger.gameplayTagCounts[k] == l.gameplayTagCounts[k] + delta * Occurrences(reg, tags, k)
    decreases |tags|
  {
    if |tags| > 0 {
      var front := tags[..|tags| - 1];
      var last := tags[|tags| - 1];
      assert forall i | 0 <= i < |front| :: front[i] == tags[i];
      UpdateEachRaises(reg, l, front, delta);
      var before := UpdateEach(reg, l, front, delta);
      var step := UpdateDeferred(reg, before.ledger, last, delta, before.deferred);
      assert UpdateEach(reg, l, tags, delta).ledger == step.ledger;
      UpdateDeferredValues(reg, before.ledger, last, delta, before.deferred);
      RaiseStep(reg, l.gameplayTagCounts, before.ledger.gameplayTagCounts, step.ledger.gameplayTagCounts, tags, delta);
    }
  }

  /** One more tag of a batch increase raises the counts of its chain once more. */
  lemma RaiseStep(reg: Registry, counts: map<Tag, int>, before: map<Tag, int>, after: map<Tag, int>, tags: seq<Tag>, delta: int)
    requires |tags| > 0 && delta > 0
    requires forall k | k in counts :: counts[k] >= 0
    requires before.Keys == counts.Keys && after.Keys == counts.Keys
    requires forall k | k in counts :: before[k] == counts[k] + delta * Occurrences(reg, tags[..|tags| - 1], k)
    requires forall k | k in counts ::
      after[k] == if k in Chain(reg, tags[|tags| - 1]) then Max(before[k] + delta, 0) else before[k]
    ensures forall k | k in counts :: after[k] == counts[k] + delta * Occurrences(reg, tags, k)
  {
    forall k | k in counts ensures after[k] == counts[k] + delta * Occurrences(reg, tags, k) {
      MultiplyStep(delta, Occurrences(reg, tags[..|tags| - 1], k));
    }
  }

  /**
   * A batch increase raises each tracked, non-negative explicit count by the
   * delta once for every occurrence of its tag among the tags.
   */
  lemma {:induction false} UpdateEachRaisesExplicit(reg: Registry, l: Ledger, tags: seq<Tag>, delta: int)
    requires delta > 0
    requires forall k | k in l.explicitTagCounts :: l.explicitTagCounts[k] >= 0
    ensures UpdateEach(reg, l, tags, delta).ledger.explicitTagCounts.Keys == l.explicitTagCounts.Keys
    ensures forall k | k in l.explicitTagCounts ::
      UpdateEach(reg, l, tags, delta).ledger.explicitTagCounts[k] == l.explicitTagCounts[k] + delta * multiset(tags)[k]
    decreases |tags|
  {
    if |tags| > 0 {
      var front := tags[..|tags| - 1];
      var last := tags[|tags| - 1];
      assert tags == front + [last];
      UpdateEachRaisesExplicit(reg, l, front, delta);
      var before := UpdateEach(reg, l, front, delta);
      UpdateExplicitSpec(reg, before.ledger, last, delta, true);
      UpdateDeferredExplicit(reg, before.ledger, last, delta, before.deferred);
      forall k | k in l.explicitTagCounts
        ensures UpdateEach(reg, l, tags, delta).ledger.explicitTagCounts[k] == l.explicitTagCounts[k] + delta * multiset(tags)[k]
      {
        var n := multiset(front)[k];
        assert multiset(tags)[k] == n + (if k == last then 1 else 0);
        MultiplyStep(delta, n);
      }
    }
  }

  /** The explicit part of a deferred update is that of `updateExplicitTags` with the rebuild deferred. */
  lemma UpdateDeferredExplicit(reg: Registry, l: Ledger, t: Tag, delta: int, ds: seq<Deferred>)
    ensures UpdateDeferred(reg, l, t, delta, ds).ledger.explicitTagCounts == UpdateExplicit(reg, l, t, delta, true).ledger.explicitTagCounts
    ensures UpdateDeferred(reg, l, t, delta, ds).ledger.explicitTags == UpdateExplicit(reg, l, t, delta, true).ledger.explicitTags
  {
  }

  /**
   * The batch loop never touches the explicit parent tags on a decrease:
   * each removal defers the rebuild.
   */
  lemma {:induction false} UpdateEachDefersParents(reg: Registry, l: Ledger, tags: seq<Tag>, delta: int)
    requires delta <= 0
    ensures UpdateEach(reg, l, tags, delta).ledger.explicitTags.parentTags == l.explicitTags.parentTags
    decreases |tags|
  {
    if |tags| > 0 {
      var front := tags[..|tags| - 1];
      UpdateEachDefersParents(reg, l, front, delta);
      var before := UpdateEach(reg, l, front, delta);
      UpdateDeferredExplicit(reg, before.ledger, tags[|tags| - 1], delta, before.deferred);
    }
  }

  /** The batch loop keeps the explicit container well formed. */
  lemma {:induction false} UpdateEachWellformed(reg: Registry, l: Ledger, tags: seq<Tag>, delta: int)
    requires Wellformed(l.explicitTags)
    ensures Wellformed(UpdateEach(reg, l, tags, delta).ledger.explicitTags)
    decreases |tags|
  {
    if |tags| > 0 {
      var front := tags[..|tags| - 1];
      UpdateEachWellformed(reg, l, front, delta);
      var before := UpdateEach(reg, l, front, delta);
      UpdateDeferredExplicit(reg, before.ledger, tags[|tags| - 1], delta, before.deferred);
      UpdateExplicitMembership(reg, before.ledger, tags[|tags| - 1], delta, true);
    }
  }

  /**
   * The batch update rebuilds the explicit parent tags once, after the
   * loop, exactly when the delta is negative and some update was
   * significant; on a well-formed container the parents are then exactly
   * the registry parents of the remaining explicit tags, and on a decrease
   * without a rebuild they are the parents from before the batch.
   */
  lemma UpdateTagCountsExplicit(reg: Registry, l: Ledger, tags: seq<Tag>, delta: int)
    requires delta != 0
    ensures UpdateTagCounts(reg, l, tags, delta).explicitTags ==
      if UpdateEach(reg, l, tags, delta).result && delta < 0
      then Refilled(reg, UpdateEach(reg, l, tags, delta).ledger.explicitTags)
      else UpdateEach(reg, l, tags, delta).ledger.explicitTags
    ensures UpdateTagCounts(reg, l, tags, delta).explicitTags.gameplayTags == UpdateEach(reg, l, tags, delta).ledger.explicitTags.gameplayTags
    ensures Wellformed(l.explicitTags) && UpdateEach(reg, l, tags, delta).result && delta < 0 ==>
      ParentsExact(reg, UpdateTagCounts(reg, l, tags, delta).explicitTags)
    ensures !UpdateEach(reg, l, tags, delta).result && delta < 0 ==>
      UpdateTagCounts(reg, l, tags, delta).explicitTags.parentTags == l.explicitTags.parentTags
  {
    var each := UpdateEach(reg, l, tags, delta);
    if Wellformed(l.explicitTags) {
      UpdateEachWellformed(reg, l, tags, delta);
      RefilledSpec(reg, each.ledger.explicitTags);
    }
    if delta < 0 {
      UpdateEachDefersParents(reg, l, tags, delta);
    }
  }

  /**
   * The batch update creates no count entry, keeps counts non-negative,
   * only appends to the trace, and every delegate it fires receives one of
   * the container's tags.
   */
  lemma UpdateTagCountsSpec(reg: Registry, l: Ledger, tags: seq<Tag>, delta: int)
    requires forall k | k in l.gameplayTagCounts :: l.gameplayTagCounts[k] >= 0
    ensures UpdateTagCounts(reg, l, tags, delta).gameplayTagCounts.Keys == l.gameplayTagCounts.Keys
    ensures UpdateTagCounts(reg, l, tags, delta).explicitTagCounts.Keys == l.explicitTagCounts.Keys
    ensures forall k | k in UpdateTagCounts(reg, l, tags, delta).gameplayTagCounts ::
      UpdateTagCounts(reg, l, tags, delta).gameplayTagCounts[k] >= 0
    ensures l.fired <= UpdateTagCounts(reg, l, tags, delta).fired
    ensures forall i | |l.fired| <= i < |UpdateTagCounts(reg, l, tags, delta).fired| ::
      UpdateTagCounts(reg, l, tags, delta).fired[i].tag in tags
  {
    UpdateTagCountsKeepsCounts(reg, l, tags, delta);
    UpdateTagCountsFiresTags(reg, l, tags, delta);
  }

  /** The count half of `UpdateTagCountsSpec`. */
  lemma UpdateTagCountsKeepsCounts(reg: Registry, l: Ledger, tags: seq<Tag>, delta: int)
    requires forall k | k in l.gameplayTagCounts :: l.gameplayTagCounts[k] >= 0
    ensures UpdateTagCounts(reg, l, tags, delta).gameplayTagCounts.Keys == l.gameplayTagCounts.Keys
    ensures UpdateTagCounts(reg, l, tags, delta).explicitTagCounts.Keys == l.explicitTagCounts.Keys
    ensures forall k | k in UpdateTagCounts(reg, l, tags, delta).gameplayTagCounts ::
      UpdateTagCounts(reg, l, tags, delta).gameplayTagCounts[k] >= 0
  {
    if delta != 0 {
      UpdateEachSpec(reg, l, tags, delta);
      UpdateTagCountsShape(reg, l, tags, delta);
    }
  }

  /** The trace half of `UpdateTagCountsSpec`. */
  lemma UpdateTagCountsFiresTags(reg: Registry, l: Ledger, tags: seq<Tag>, delta: int)
    requires forall k | k in l.gameplayTagCounts :: l.gameplayTagCounts[k] >= 0
    ensures l.fired <= UpdateTagCounts(reg, l, tags, delta).fired
    ensures forall i | |l.fired| <= i < |UpdateTagCounts(reg, l, tags, delta).fired| ::
      UpdateTagCounts(reg, l, tags, delta).fired[i].tag in tags
  {
    if delta != 0 {
      var each := UpdateEach(reg, l, tags, delta);
      UpdateEachSpec(reg, l, tags, delta);
      var extra := Flush(each.deferred, l.onAnyTagChangeBound);
      UpdateTagCountsShape(reg, l, tags, delta);
      FlushedTagsIn(each.deferred, l.onAnyTagChangeBound, tags);
      var r := UpdateTagCounts(reg, l, tags, delta);
      assert r.fired == l.fired + extra;
      forall i | |l.fired| <= i < |r.fired| ensures r.fired[i].tag in tags {
        assert r.fired[i] == extra[i - |l.fired|];
      }
    }
  }

  /** A non-zero batch update: the maps of the batch loop, and its calls flushed onto the trace. */
  lemma UpdateTagCountsShape(reg: Registry, l: Ledger, tags: seq<Tag>, delta: int)
    requires delta != 0
    ensures var each := UpdateEach(reg, l, tags, delta);
      && UpdateTagCounts(reg, l, tags, delta).gameplayTagCounts == each.ledger.gameplayTagCounts
      && UpdateTagCounts(reg, l, tags, delta).explicitTagCounts == each.ledger.explicitTagCounts
      && UpdateTagCounts(reg, l, tags, delta).fired == each.ledger.fired + Flush(each.deferred, each.ledger.onAnyTagChangeBound)
  {
  }

  /** Flushing calls that all carry tags of `tags` fires only tags of `tags`. */
  lemma FlushedTagsIn(ds: seq<Deferred>, onAnyTagChangeBound: bool, tags: seq<Tag>)
    requires forall d | d in ds :: d.tag in tags
    ensures forall i | 0 <= i < |Flush(ds, onAnyTagChangeBound)| :: Flush(ds, onAnyTagChangeBound)[i].tag in tags
  {
    FlushSpec(ds, onAnyTagChangeBound);
    var f := Flush(ds, onAnyTagChangeBound);
    forall i | 0 <= i < |f| ensures f[i].tag in tags {
      assert f[i] in f;
      var d :| d in ds && f[i] == Fired(d.slot, d.tag, d.newCount);
    }
  }

  // ---------------------------------------------------------------------
  // NotifyStackCountChange, RegisterGameplayTagEvent, Reset
  // ---------------------------------------------------------------------

  /**
   * One iteration of `NotifyStackCountChange` for `tagToCheck`: only a tag
   * with an event entry is handled; its count entry is created at 0 if
   * absent, and its any-change delegate, if bound, receives the tag and
   * the count 0 whether or not the entry existed.
   */
  function NotifyStep(l: Ledger, tagToCheck: Tag): Ledger
  {
    if tagToCheck !in l.gameplayTagEvents then l
    else
      var tagCount := 0;
      var counts := if tagToCheck in l.gameplayTagCounts then l.gameplayTagCounts else l.gameplayTagCounts[tagToCheck := tagCount];
      var calls := if l.gameplayTagEvents[tagToCheck].onAnyChange then [Fired(OnAnyChange, tagToCheck, tagCount)] else [];
      l.(gameplayTagCounts := counts, fired := l.fired + calls)
  }

  /** The loop of `NotifyStackCountChange` over the explicit tags of the registry container. */
  function NotifyEach(l: Ledger, tags: seq<Tag>): Ledger
    decreases |tags|
  {
    if |tags| == 0 then l else NotifyStep(NotifyEach(l, tags[..|tags| - 1]), tags[|tags| - 1])
  }

  /** `NotifyStackCountChange`: none for an unknown tag, whose missing registry container the source dereferences. */
  function NotifyStackCountChange(reg: Registry, l: Ledger, t: Tag): Option<Ledger>
  {
    match GetSingleTagContainer(reg, t)
    case None => None
    case Some(tagAndParents) => Some(NotifyEach(l, tagAndParents.gameplayTags))
  }

  /**
   * Notifying keeps every existing count, adds a 0 entry exactly for the
   * tags with an event entry that had none, and reports count 0 in every
   * call it makes.
   */
  lemma {:induction false} NotifyEachSpec(l: Ledger, tags: seq<Tag>)
    ensures forall k | k in l.gameplayTagCounts :: (k in NotifyEach(l, tags).gameplayTagCounts &&
      NotifyEach(l, tags).gameplayTagCounts[k] == l.gameplayTagCounts[k])
    ensures forall k | k in NotifyEach(l, tags).gameplayTagCounts :: (k in l.gameplayTagCounts ||
      (k in tags && k in l.gameplayTagEvents && NotifyEach(l, tags).gameplayTagCounts[k] == 0))
    ensures forall k | k in tags && k in l.gameplayTagEvents :: k in NotifyEach(l, tags).gameplayTagCounts
    ensures l.fired <= NotifyEach(l, tags).fired
    ensures forall i | |l.fired| <= i < |NotifyEach(l, tags).fired| ::
      NotifyEach(l, tags).fired[i].count == 0 && NotifyEach(l, tags).fired[i].slot == OnAnyChange
    ensures NotifyEach(l, tags).gameplayTagEvents == l.gameplayTagEvents
    decreases |tags|
  {
    if |tags| > 0 {
      var front := tags[..|tags| - 1];
      NotifyEachSpec(l, front);
      forall k | k in front ensures k in tags {
        var i :| 0 <= i < |front| && front[i] == k;
        assert tags[i] == k;
      }
      forall k | k in tags ensures k in front || k == tags[|tags| - 1] {
        var i :| 0 <= i < |tags| && tags[i] == k;
        if i < |tags| - 1 { assert front[i] == k; }
      }
    }
  }

  /**
   * Notifying fires, for each of the tags with an event entry whose
   * any-change delegate is bound, that delegate with the tag and count 0,
   * and fires nothing else.
   */
  lemma {:induction false} NotifyEachFires(l: Ledger, tags: seq<Tag>)
    ensures forall k | k in tags && k in l.gameplayTagEvents && l.gameplayTagEvents[k].onAnyChange ::
      Fired(OnAnyChange, k, 0) in NotifyEach(l, tags).fired
    ensures forall i | |l.fired| <= i < |NotifyEach(l, tags).fired| ::
      && NotifyEach(l, tags).fired[i] == Fired(OnAnyChange, NotifyEach(l, tags).fired[i].tag, 0)
      && NotifyEach(l, tags).fired[i].tag in tags
      && NotifyEach(l, tags).fired[i].tag in l.gameplayTagEvents
      && l.gameplayTagEvents[NotifyEach(l, tags).fired[i].tag].onAnyChange
    decreases |tags|
  {
    if |tags| > 0 {
      var front := tags[..|tags| - 1];
      var last := tags[|tags| - 1];
      NotifyEachFires(l, front);
      NotifyEachSpec(l, front);
      var before := NotifyEach(l, front);
      var after := NotifyEach(l, tags);
      assert after == NotifyStep(before, last);
      assert before.fired <= after.fired;
      forall k | k in front ensures k in tags {
        var i :| 0 <= i < |front| && front[i] == k;
        assert tags[i] == k;
      }
      forall k | k in tags ensures k in front || k == last {
        var i :| 0 <= i < |tags| && tags[i] == k;
        if i < |tags| - 1 { assert front[i] == k; }
      }
      forall k | k in tags && k in l.gameplayTagEvents && l.gameplayTagEvents[k].onAnyChange
        ensures Fired(OnAnyChange, k, 0) in after.fired
      {
        if k in front {
          var j :| 0 <= j < |before.fired| && before.fired[j] == Fired(OnAnyChange, k, 0);
          assert after.fired[j] == before.fired[j];
        } else {
          assert after.fired[|after.fired| - 1] == Fired(OnAnyChange, k, 0);
        }
      }
      forall i | |l.fired| <= i < |after.fired|
        ensures after.fired[i].tag in tags
      {
        if i < |before.fired| {
          assert after.fired[i] == before.fired[i];
        }
      }
    }
  }

  /**
   * Notification walks only the explicit tags of the tag's registry
   * container (`tagAndParentsContainer` is never flattened), so for a node
   * container, whose one explicit tag is the tag itself, the parents are
   * never notified.
   */
  lemma NotifyNodeContainerOnlyTag(reg: Registry, l: Ledger, t: Tag)
    requires t in reg && reg[t].gameplayTags == [t]
    ensures NotifyStackCountChange(reg, l, t) == Some(NotifyStep(l, t))
  {
    assert [t][..0] == [];
    assert NotifyEach(l, [t]) == NotifyStep(NotifyEach(l, []), t);
  }

  /**
   * `RegisterGameplayTagEvent`: the event entry is created unbound if
   * absent; the delegate returned is a copy's, so it is never bound.
   */
  function RegisterGameplayTagEvent(l: Ledger, t: Tag, eventType: EventType): Outcome
  {
    var delegateInfo := Unbound;
    var events := if t in l.gameplayTagEvents then l.gameplayTagEvents else l.gameplayTagEvents[t := delegateInfo];
    var info := if t in l.gameplayTagEvents then delegateInfo else events[t];
    Outcome(if eventType == NewOrRemove then info.onNewOrRemove else info.onAnyChange, l.(gameplayTagEvents := events))
  }

  /**
   * Registering returns an unbound delegate, keeps an existing entry
   * unchanged, and otherwise adds exactly an unbound entry for the tag.
   */
  lemma RegisterSpec(l: Ledger, t: Tag, eventType: EventType)
    ensures !RegisterGameplayTagEvent(l, t, eventType).result
    ensures RegisterGameplayTagEvent(l, t, eventType).ledger.gameplayTagEvents ==
      if t in l.gameplayTagEvents then l.gameplayTagEvents else l.gameplayTagEvents[t := Unbound]
    ensures RegisterGameplayTagEvent(l, t, eventType).ledger.(gameplayTagEvents := l.gameplayTagEvents) == l
  {
  }

  /** `Reset`: clear both count maps and the explicit container; with `resetEvents`, also the events and the any-tag delegate. */
  function Reset(l: Ledger, resetEvents: bool): Ledger
  {
    var cleared := l.(gameplayTagCounts := map[], explicitTagCounts := map[], explicitTags := Empty);
    if resetEvents then cleared.(gameplayTagEvents := map[], onAnyTagChangeBound := false) else cleared
  }

  /**
   * After `Reset` no tag is matched, counted or held explicitly; the events
   * and the any-tag delegate survive exactly when `resetEvents` is false.
   */
  lemma ResetSpec(l: Ledger, t: Tag, resetEvents: bool)
    ensures !HasMatchingGameplayTag(Reset(l, resetEvents), t) && GetTagCount(Reset(l, resetEvents), t) == 0
    ensures !HasTag(Reset(l, resetEvents).explicitTags, t)
    ensures Reset(l, resetEvents).gameplayTagEvents == (if resetEvents then map[] else l.gameplayTagEvents)
    ensures Reset(l, resetEvents).onAnyTagChangeBound == (!resetEvents && l.onAnyTagChangeBound)
  {
  }
}
