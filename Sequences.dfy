/**
 * The two collection operations of the resolution pipeline: Kotlin's
 * `reduce { acc, next -> acc + next }` over a non-empty list of lists, and
 * `distinct()`, which keeps the first occurrence of every element.
 */
module Sequences {

  /** No element occurs twice. */
  predicate NoDup<T(==)>(s: seq<T>)
  {
    forall i, j :: 0 <= i < j < |s| ==> s[i] != s[j]
  }

  /** Position of the first occurrence of `x` in `s`. */
  function IndexOf<T(==)>(s: seq<T>, x: T): (k: nat)
    requires x in s
    ensures k < |s| && s[k] == x
    ensures forall i :: 0 <= i < k ==> s[i] != x
  {
    if s[0] == x then 0 else 1 + IndexOf(s[1..], x)
  }

  /** Extending a sequence does not move the first occurrence of an element it already holds. */
  lemma IndexOfAppend<T>(s: seq<T>, t: seq<T>, x: T)
    requires x in s
    ensures x in s + t && IndexOf(s + t, x) == IndexOf(s, x)
  {
    var k := IndexOf(s, x);
    var k' := IndexOf(s + t, x);
    assert (s + t)[k] == x;
    assert (s + t)[k'] == s[k'] by { assert k' <= k; }
  }

  /** A non-empty sequence is its prefix followed by its last element. */
  lemma SplitLast<T>(s: seq<T>)
    requires |s| > 0
    ensures s == s[..|s| - 1] + [s[|s| - 1]]
  {
  }

  /** An element that first occurs in the appended part is found after the whole prefix. */
  lemma IndexOfPastPrefix<T>(s: seq<T>, t: seq<T>, x: T)
    requires x !in s && x in t
    ensures x in s + t && IndexOf(s + t, x) == |s| + IndexOf(t, x)
  {
    var k := IndexOf(t, x);
    var k' := IndexOf(s + t, x);
    assert (s + t)[|s| + k] == x;
    assert forall i :: 0 <= i < |s| ==> (s + t)[i] == s[i];
    assert (s + t)[k'] == t[k' - |s|];
  }

  /** Kotlin `distinct()`: each element at its first position, later repeats dropped. */
  function Distinct<T(==,!new)>(s: seq<T>): (d: seq<T>)
    ensures forall x :: x in d <==> x in s
    ensures NoDup(d)
    ensures |d| <= |s|
  {
    if s == [] then []
    else
      var init := s[..|s| - 1];
      var d := Distinct(init);
      assert s == init + [s[|s| - 1]];
      if s[|s| - 1] in d then d else d + [s[|s| - 1]]
  }

  /** `distinct()` lists elements in the order of their first occurrence in the input. */
  lemma {:induction false} DistinctKeepsFirstOccurrenceOrder<T(!new)>(s: seq<T>, i: nat, j: nat)
    requires i < j < |Distinct(s)|
    ensures IndexOf(s, Distinct(s)[i]) < IndexOf(s, Distinct(s)[j])
  {
    var init := s[..|s| - 1];
    var last := s[|s| - 1];
    var d := Distinct(init);
    assert s == init + [last];
    var a, b := Distinct(s)[i], Distinct(s)[j];
    if last in d {
      DistinctKeepsFirstOccurrenceOrder(init, i, j);
      IndexOfAppend(init, [last], a);
      IndexOfAppend(init, [last], b);
    } else if j < |d| {
      DistinctKeepsFirstOccurrenceOrder(init, i, j);
      IndexOfAppend(init, [last], a);
      IndexOfAppend(init, [last], b);
    } else {
      assert b == last && last !in init;
      IndexOfAppend(init, [last], a);
      assert IndexOf(s, b) == |init|;
    }
  }

  /** A sequence without repeats is its own `distinct()`; hence `distinct()` is idempotent. */
  lemma {:induction false} DistinctOfNoDup<T(!new)>(s: seq<T>)
    requires NoDup(s)
    ensures Distinct(s) == s
  {
    if s != [] {
      var init := s[..|s| - 1];
      assert NoDup(init);
      DistinctOfNoDup(init);
      assert s[|s| - 1] !in init;
      assert s == init + [s[|s| - 1]];
    }
  }

  /** Appending elements that already occur contributes nothing to `distinct()`. */
  lemma {:induction false} DistinctIgnoresRepeats<T(!new)>(s: seq<T>, t: seq<T>)
    requires forall x :: x in t ==> x in s
    ensures Distinct(s + t) == Distinct(s)
  {
    if t == [] {
      assert s + t == s;
    } else {
      var t' := t[..|t| - 1];
      assert (s + t)[..|s + t| - 1] == s + t';
      assert (s + t)[|s + t| - 1] == t[|t| - 1];
      DistinctIgnoresRepeats(s, t');
    }
  }

  /** Kotlin `reduce { acc, next -> acc + next }`: a left fold that needs at least one list. */
  function Reduce<T(!new)>(lists: seq<seq<T>>): (r: seq<T>)
    requires |lists| > 0
    ensures forall x :: x in r <==> exists k :: 0 <= k < |lists| && x in lists[k]
  {
    if |lists| == 1 then lists[0]
    else
      var init := lists[..|lists| - 1];
      var acc := Reduce(init);
      assert forall k :: 0 <= k < |init| ==> init[k] == lists[k];
      acc + lists[|lists| - 1]
  }

  /** Merging one of the lists a second time adds nothing after `distinct()`. */
  lemma ReduceRepeatedList<T(!new)>(lists: seq<seq<T>>, k: nat)
    requires k < |lists|
    ensures Distinct(Reduce(lists + [lists[k]])) == Distinct(Reduce(lists))
  {
    var last := lists[k];
    assert (lists + [last])[..|lists|] == lists;
    assert forall x :: x in last ==> x in Reduce(lists);
    DistinctIgnoresRepeats(Reduce(lists), last);
  }

  /** Concatenation from the right, as a reference definition of merging. */
  function Flatten<T>(lists: seq<seq<T>>): seq<T>
  {
    if lists == [] then [] else lists[0] + Flatten(lists[1..])
  }

  lemma {:induction false} FlattenAppend<T>(lists: seq<seq<T>>, last: seq<T>)
    ensures Flatten(lists + [last]) == Flatten(lists) + last
  {
    if lists == [] {
      assert [] + [last] == [last];
      assert Flatten([last]) == last + Flatten([]);
    } else {
      assert (lists + [last])[1..] == lists[1..] + [last];
      FlattenAppend(lists[1..], last);
    }
  }

  /** The left fold used by the source merges the lists in the same order as plain concatenation. */
  lemma {:induction false} ReduceIsFlatten<T(!new)>(lists: seq<seq<T>>)
    requires |lists| > 0
    ensures Reduce(lists) == Flatten(lists)
  {
    if |lists| == 1 {
      assert Flatten(lists) == lists[0] + Flatten(lists[1..]);
      assert lists[1..] == [];
    } else {
      var init := lists[..|lists| - 1];
      ReduceIsFlatten(init);
      assert lists == init + [lists[|lists| - 1]];
      FlattenAppend(init, lists[|lists| - 1]);
    }
  }
}
