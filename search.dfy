/**
 * The sorted tag arrays of a container are searched with the host array's
 * `BinarySearch`, ordered by `CompareTo`: it returns the index of an element
 * that compares 0 with the probe, or the bitwise complement (~lo) of the
 * position where the probe would be inserted.
 */
module TagSearch {
  import opened Tags

  /** Ascending under `CompareTo`, with no two elements comparing 0. */
  predicate StrictlySorted(s: seq<Tag>)
  {
    forall i, j {:trigger Compare(s[i], s[j])} | 0 <= i < j < |s| :: Compare(s[i], s[j]) < 0
  }

  /** Membership as a binary search sees it: some element compares 0 with `x`. */
  predicate KeyIn(s: seq<Tag>, x: Tag)
  {
    exists i | 0 <= i < |s| :: Compare(s[i], x) == 0
  }

  /** `p` splits `s` around `x`: every element before `p` is below `x`, every other one above. */
  predicate SplitsAt(s: seq<Tag>, x: Tag, p: int)
  {
    && 0 <= p <= |s|
    && (forall i | 0 <= i < p :: Compare(s[i], x) < 0)
    && (forall i | p <= i < |s| :: Compare(s[i], x) > 0)
  }

  /** The search loop between `lo` and `hi` (inclusive), as the host library runs it. */
  function Search(s: seq<Tag>, x: Tag, lo: int, hi: int): (r: int)
    requires 0 <= lo <= hi + 1 <= |s|
    ensures r >= 0 ==> lo <= r <= hi && Compare(s[r], x) == 0
    ensures r < 0 ==> lo <= -r - 1 <= hi + 1
    decreases hi - lo
  {
    if lo > hi then -lo - 1
    else
      var mid := (lo + hi) / 2;
      var c := Compare(s[mid], x);
      if c == 0 then mid
      else if c < 0 then Search(s, x, mid + 1, hi)
      else Search(s, x, lo, mid - 1)
  }

  /** `Array.BinarySearch(x)`: a found index, or ~insertionPoint (that is, -insertionPoint - 1). */
  function BinarySearch(s: seq<Tag>, x: Tag): (r: int)
    ensures r >= 0 ==> r < |s| && Compare(s[r], x) == 0
    ensures r < 0 ==> 0 <= -r - 1 <= |s|
  {
    Search(s, x, 0, |s| - 1)
  }

  /** In a strictly sorted array, everything up to an element below `x` is below `x`. */
  lemma BelowThrough(s: seq<Tag>, x: Tag, mid: int)
    requires StrictlySorted(s) && 0 <= mid < |s| && Compare(s[mid], x) < 0
    ensures forall i | 0 <= i <= mid :: Compare(s[i], x) < 0
  {
    forall i | 0 <= i <= mid ensures Compare(s[i], x) < 0 {
      if i < mid { CompareTransitive(s[i], s[mid], x); }
    }
  }

  /** In a strictly sorted array, everything from an element above `x` on is above `x`. */
  lemma AboveFrom(s: seq<Tag>, x: Tag, mid: int)
    requires StrictlySorted(s) && 0 <= mid < |s| && Compare(s[mid], x) > 0
    ensures forall i | mid <= i < |s| :: Compare(s[i], x) > 0
  {
    forall i | mid <= i < |s| ensures Compare(s[i], x) > 0 {
      if mid < i {
        CompareAntisymmetric(s[mid], x);
        CompareTransitive(x, s[mid], s[i]);
        CompareAntisymmetric(s[i], x);
      }
    }
  }

  lemma {:induction false} SearchInSorted(s: seq<Tag>, x: Tag, lo: int, hi: int)
    requires StrictlySorted(s) && 0 <= lo <= hi + 1 <= |s|
    requires forall i | 0 <= i < lo :: Compare(s[i], x) < 0
    requires forall i | hi < i < |s| :: Compare(s[i], x) > 0
    ensures Search(s, x, lo, hi) < 0 ==> SplitsAt(s, x, -Search(s, x, lo, hi) - 1)
    decreases hi - lo
  {
    if lo > hi {
      assert SplitsAt(s, x, lo);
    } else {
      var mid := (lo + hi) / 2;
      var c := Compare(s[mid], x);
      if c < 0 {
        BelowThrough(s, x, mid);
        SearchInSorted(s, x, mid + 1, hi);
      } else if c > 0 {
        AboveFrom(s, x, mid);
        SearchInSorted(s, x, lo, mid - 1);
      }
    }
  }

  /**
   * On a strictly sorted array the search finds `x` exactly when some element
   * compares 0 with it, and otherwise returns the complement of the position
   * that keeps the array sorted.
   */
  lemma BinarySearchSorted(s: seq<Tag>, x: Tag)
    requires StrictlySorted(s)
    ensures BinarySearch(s, x) >= 0 <==> KeyIn(s, x)
    ensures BinarySearch(s, x) < 0 ==> SplitsAt(s, x, -BinarySearch(s, x) - 1)
  {
    SearchInSorted(s, x, 0, |s| - 1);
    var r := BinarySearch(s, x);
    if r >= 0 {
      assert Compare(s[r], x) == 0;
    }
  }

  /** On a strictly sorted array an element comparing 0 with `x` is the one the search returns. */
  lemma BinarySearchFindsPosition(s: seq<Tag>, x: Tag, k: int)
    requires StrictlySorted(s) && 0 <= k < |s| && Compare(s[k], x) == 0
    ensures BinarySearch(s, x) == k
  {
    BinarySearchSorted(s, x);
    var r := BinarySearch(s, x);
    CompareAntisymmetric(s[k], x);
    CompareSubstitute(s[r], x, s[k]);
    CompareAntisymmetric(s[k], s[r]);
  }

  /** `List.Insert(p, x)`. */
  function InsertAt(s: seq<Tag>, p: int, x: Tag): (r: seq<Tag>)
    requires 0 <= p <= |s|
    ensures |r| == |s| + 1 && r[p] == x
    ensures forall i | 0 <= i < p :: r[i] == s[i]
    ensures forall i | p < i < |r| :: r[i] == s[i - 1]
  {
    s[..p] + [x] + s[p..]
  }

  lemma InsertAtSplitKeepsSorted(s: seq<Tag>, x: Tag, p: int)
    requires StrictlySorted(s) && SplitsAt(s, x, p)
    ensures StrictlySorted(InsertAt(s, p, x))
  {
    var r := InsertAt(s, p, x);
    forall i, j | 0 <= i < j < |r| ensures Compare(r[i], r[j]) < 0 {
      if j == p {
        assert r[i] == s[i];
      } else if i == p {
        assert r[j] == s[j - 1];
        CompareAntisymmetric(s[j - 1], x);
      } else {
        var i' := if i < p then i else i - 1;
        var j' := if j < p then j else j - 1;
        assert r[i] == s[i'] && r[j] == s[j'] && i' < j';
      }
    }
  }

  /** Deleting the element just inserted gives back the original array. */
  lemma InsertAtThenDelete(s: seq<Tag>, p: int, x: Tag)
    requires 0 <= p <= |s|
    ensures InsertAt(s, p, x)[..p] + InsertAt(s, p, x)[p + 1..] == s
  {
    var r := InsertAt(s, p, x);
    assert r[..p] == s[..p];
    assert r[p + 1..] == s[p..];
  }

  /** The binary insertion the container methods perform: insert `x` at ~index unless found. */
  function InsertSorted(s: seq<Tag>, x: Tag): (r: seq<Tag>)
  {
    var index := BinarySearch(s, x);
    if index >= 0 then s else InsertAt(s, -index - 1, x)
  }

  /**
   * Binary insertion keeps a strictly sorted array strictly sorted, leaves it
   * alone when an element already compares 0 with `x`, and otherwise adds
   * exactly `x`.
   */
  lemma InsertSortedSpec(s: seq<Tag>, x: Tag)
    requires StrictlySorted(s)
    ensures StrictlySorted(InsertSorted(s, x))
    ensures KeyIn(InsertSorted(s, x), x)
    ensures KeyIn(s, x) ==> InsertSorted(s, x) == s
    ensures !KeyIn(s, x) ==> multiset(InsertSorted(s, x)) == multiset(s) + multiset{x}
  {
    BinarySearchSorted(s, x);
    var index := BinarySearch(s, x);
    if index < 0 {
      var p := -index - 1;
      InsertAtSplitKeepsSorted(s, x, p);
      CompareZero(x, x);
      assert InsertSorted(s, x)[p] == x;
      assert s == s[..p] + s[p..];
    }
  }

  /** A search over a range whose every element is below `x` ends past the range. */
  lemma {:induction false} SearchAllBelow(s: seq<Tag>, x: Tag, lo: int, hi: int)
    requires 0 <= lo <= hi + 1 <= |s|
    requires forall i | lo <= i <= hi :: Compare(s[i], x) < 0
    ensures Search(s, x, lo, hi) == -(hi + 1) - 1
    decreases hi - lo
  {
    if lo <= hi {
      SearchAllBelow(s, x, (lo + hi) / 2 + 1, hi);
    }
  }

  /** Binary insertion of an element above every element appends it at the end. */
  lemma InsertSortedAbove(s: seq<Tag>, x: Tag)
    requires forall i | 0 <= i < |s| :: Compare(s[i], x) < 0
    ensures InsertSorted(s, x) == s + [x]
  {
    SearchAllBelow(s, x, 0, |s| - 1);
  }

  /** Binary insertion of the elements of `xs`, first to last (the loops of `AddParentTag` and `GetGameplayTagParents`). */
  function InsertAll(s: seq<Tag>, xs: seq<Tag>): (r: seq<Tag>)
    decreases |xs|
  {
    if |xs| == 0 then s else InsertSorted(InsertAll(s, xs[..|xs| - 1]), xs[|xs| - 1])
  }

  /** Inserting a sequence of tags into a strictly sorted array keeps it strictly sorted. */
  lemma {:induction false} InsertAllSorted(s: seq<Tag>, xs: seq<Tag>)
    requires StrictlySorted(s)
    ensures StrictlySorted(InsertAll(s, xs))
    decreases |xs|
  {
    if |xs| > 0 {
      InsertAllSorted(s, xs[..|xs| - 1]);
      InsertSortedSpec(InsertAll(s, xs[..|xs| - 1]), xs[|xs| - 1]);
    }
  }

  /** Binary insertion only ever adds `x`: it keeps every element and adds nothing else. */
  lemma InsertSortedMembers(s: seq<Tag>, x: Tag)
    requires StrictlySorted(s)
    ensures forall y :: y in s ==> y in InsertSorted(s, x)
    ensures forall y :: y in InsertSorted(s, x) ==> y in s || y == x
  {
    InsertSortedSpec(s, x);
    var r := InsertSorted(s, x);
    if !KeyIn(s, x) {
      forall y | y in r ensures y in s || y == x {
        assert y in multiset(r);
      }
      forall y | y in s ensures y in r {
        assert y in multiset(s);
      }
    }
  }

  /** Inserting a sequence of tags keeps every tag already there and adds only inserted ones. */
  lemma {:induction false} InsertAllMembers(s: seq<Tag>, xs: seq<Tag>)
    requires StrictlySorted(s)
    ensures forall y :: y in s ==> y in InsertAll(s, xs)
    ensures forall y :: y in InsertAll(s, xs) ==> y in s || y in xs
    decreases |xs|
  {
    if |xs| > 0 {
      var front := xs[..|xs| - 1];
      InsertAllMembers(s, front);
      InsertAllSorted(s, front);
      InsertSortedMembers(InsertAll(s, front), xs[|xs| - 1]);
      forall y | y in front ensures y in xs {
        var k :| 0 <= k < |front| && front[k] == y;
        assert xs[k] == y;
      }
    }
  }

  /** Everything in `s` is in `r`, so whatever a search finds in `s` it also finds in `r`. */
  lemma KeyInGrows(s: seq<Tag>, r: seq<Tag>, x: Tag)
    requires forall y :: y in s ==> y in r
    requires KeyIn(s, x)
    ensures KeyIn(r, x)
  {
    var k :| 0 <= k < |s| && Compare(s[k], x) == 0;
    assert s[k] in r;
    var k' :| 0 <= k' < |r| && r[k'] == s[k];
  }

  /** After inserting a sequence of tags, a binary search finds each of them. */
  lemma {:induction false} InsertAllFinds(s: seq<Tag>, xs: seq<Tag>)
    requires StrictlySorted(s)
    ensures forall i | 0 <= i < |xs| :: KeyIn(InsertAll(s, xs), xs[i])
    decreases |xs|
  {
    if |xs| > 0 {
      var front := xs[..|xs| - 1];
      var mid := InsertAll(s, front);
      InsertAllFinds(s, front);
      InsertAllSorted(s, front);
      InsertSortedSpec(mid, xs[|xs| - 1]);
      InsertSortedMembers(mid, xs[|xs| - 1]);
      var r := InsertAll(s, xs);
      forall i | 0 <= i < |xs| - 1 ensures KeyIn(r, xs[i]) {
        assert xs[i] == front[i];
        KeyInGrows(mid, r, xs[i]);
      }
    }
  }

  /** Deleting one element keeps a strictly sorted array strictly sorted. */
  lemma RemoveAtKeepsSorted(s: seq<Tag>, k: int)
    requires StrictlySorted(s) && 0 <= k < |s|
    ensures StrictlySorted(s[..k] + s[k + 1..])
  {
    var r := s[..k] + s[k + 1..];
    forall i, j | 0 <= i < j < |r| ensures Compare(r[i], r[j]) < 0 {
      var i' := if i < k then i else i + 1;
      var j' := if j < k then j else j + 1;
      assert r[i] == s[i'] && r[j] == s[j'];
    }
  }

  /** Removing from a strictly sorted array the element that compares 0 with `x` leaves none that does. */
  lemma RemoveAtDropsKey(s: seq<Tag>, k: int, x: Tag)
    requires StrictlySorted(s) && 0 <= k < |s| && Compare(s[k], x) == 0
    ensures !KeyIn(s[..k] + s[k + 1..], x)
  {
    var r := s[..k] + s[k + 1..];
    forall i | 0 <= i < |r| ensures Compare(r[i], x) != 0 {
      var i' := if i < k then i else i + 1;
      assert r[i] == s[i'];
      if i' < k {
        assert Compare(s[i'], s[k]) < 0;
      } else {
        assert Compare(s[k], s[i']) < 0;
        CompareAntisymmetric(s[k], s[i']);
      }
      CompareSubstitute(s[k], x, s[i']);
    }
  }
}
