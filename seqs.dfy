/**
 * Order-preserving filtering of lists, the shape shared by every
 * "remove the entries that match" loop in the host (callback removal,
 * connection removal, arc purging).
 */
module Seqs {

  /** The elements of `s` that satisfy `keep`, in their original order. */
  function Filter<T(!new)>(s: seq<T>, keep: T -> bool): (r: seq<T>)
    ensures |r| <= |s|
    ensures forall i :: 0 <= i < |r| ==> keep(r[i])
  {
    if s == [] then [] else (if keep(s[0]) then [s[0]] else []) + Filter(s[1..], keep)
  }

  /** What a filter keeps: exactly the members that satisfy `keep`. */
  lemma {:induction false} FilterMembers<T(!new)>(s: seq<T>, keep: T -> bool)
    ensures forall x :: x in Filter(s, keep) <==> x in s && keep(x)
    decreases |s|
  {
    if s != [] {
      FilterMembers(s[1..], keep);
      assert s == [s[0]] + s[1..];
    }
  }

  /** Filtering distributes over concatenation, so it keeps relative order. */
  lemma {:induction false} FilterAppend<T(!new)>(a: seq<T>, b: seq<T>, keep: T -> bool)
    ensures Filter(a + b, keep) == Filter(a, keep) + Filter(b, keep)
    decreases |a|
  {
    if a == [] {
      assert a + b == b;
    } else {
      assert (a + b)[1..] == a[1..] + b;
      FilterAppend(a[1..], b, keep);
    }
  }

  /** Filtering twice is filtering once by both conditions. */
  lemma {:induction false} FilterTwice<T(!new)>(s: seq<T>, first: T -> bool, second: T -> bool, both: T -> bool)
    requires forall x :: both(x) == (first(x) && second(x))
    ensures Filter(Filter(s, first), second) == Filter(s, both)
    decreases |s|
  {
    if s != [] {
      FilterTwice(s[1..], first, second, both);
      var rest := Filter(s[1..], first);
      if first(s[0]) {
        assert Filter(s, first) == [s[0]] + rest;
        assert ([s[0]] + rest)[1..] == rest;
      } else {
        assert Filter(s, first) == rest;
      }
    }
  }

  /** A filter that keeps everything changes nothing. */
  lemma {:induction false} FilterAll<T(!new)>(s: seq<T>, keep: T -> bool)
    requires forall i :: 0 <= i < |s| ==> keep(s[i])
    ensures Filter(s, keep) == s
    decreases |s|
  {
    if s != [] {
      FilterAll(s[1..], keep);
    }
  }

  /** A filter leaves the list as it was exactly when it drops nothing. */
  lemma {:induction false} FilterUnchanged<T(!new)>(s: seq<T>, keep: T -> bool)
    ensures Filter(s, keep) == s <==> forall i :: 0 <= i < |s| ==> keep(s[i])
    decreases |s|
  {
    if forall i :: 0 <= i < |s| ==> keep(s[i]) {
      FilterAll(s, keep);
    } else {
      var i :| 0 <= i < |s| && !keep(s[i]);
      assert s[i] !in Filter(s, keep);
    }
  }

  /** One step of a loop that walks a list from the back, dropping as it goes. */
  lemma FilterStep<T(!new)>(s: seq<T>, i: nat, keep: T -> bool)
    requires 0 < i <= |s|
    ensures Filter(s[i - 1..], keep) == (if keep(s[i - 1]) then [s[i - 1]] else []) + Filter(s[i..], keep)
  {
    assert s[i - 1..][1..] == s[i..];
  }

  /** One step of a loop that walks a list from the back, deleting in place
      each entry that `keep` rejects: the entry at `i` is still the original
      one, and deleting it (or keeping it) extends the filtered suffix. */
  lemma BackwardStep<T(!new)>(s: seq<T>, i: nat, keep: T -> bool, current: seq<T>)
    requires i < |s|
    requires current == s[..i + 1] + Filter(s[i + 1..], keep)
    ensures i < |current| && current[i] == s[i]
    ensures keep(s[i]) ==> current == s[..i] + Filter(s[i..], keep)
    ensures !keep(s[i]) ==> current[..i] + current[i + 1..] == s[..i] + Filter(s[i..], keep)
  {
    FilterStep(s, i + 1, keep);
    assert s[..i + 1] == s[..i] + [s[i]];
    assert current[..i] == s[..i];
    assert current[i + 1..] == Filter(s[i + 1..], keep);
  }

  /** Where a backward deleting pass over `s` ends: what is left is the
      filtered list, and it is shorter exactly when some entry was rejected. */
  lemma BackwardPassDone<T(!new)>(s: seq<T>, keep: T -> bool, r: seq<T>)
    requires r == s[..0] + Filter(s[0..], keep)
    ensures r == Filter(s, keep)
    ensures |r| < |s| <==> exists k :: 0 <= k < |s| && !keep(s[k])
  {
    assert s[..0] == [] && s[0..] == s;
    FilterKeepsLength(s, keep);
  }

  /** A pass from the back of a list that deletes in place each entry
      `keep` rejects; answers what is left and whether it deleted any. */
  method RemoveFromBack<T(!new)>(before: seq<T>, keep: T -> bool) returns (r: seq<T>, removedAny: bool)
    ensures r == Filter(before, keep)
    ensures removedAny <==> |r| < |before|
    ensures removedAny <==> exists k :: 0 <= k < |before| && !keep(before[k])
  {
    r := before;
    removedAny := false;
    var i := |r|;
    while i > 0
      invariant 0 <= i <= |before|
      invariant r == before[..i] + Filter(before[i..], keep)
      invariant removedAny <==> |r| < |before|
    {
      BackwardStep(before, i - 1, keep, r);
      if !keep(r[i - 1]) {
        r := r[..i - 1] + r[i..];
        removedAny := true;
      }
      i := i - 1;
    }
    BackwardPassDone(before, keep, r);
  }

  lemma SplitAt<T>(s: seq<T>, p: nat)
    requires p < |s|
    ensures s == (s[..p] + [s[p]]) + s[p + 1..]
  {
  }

  /** A filter that keeps everything around position `p` but not the entry
      there deletes exactly that entry. */
  lemma FilterDropsOne<T(!new)>(s: seq<T>, p: nat, keep: T -> bool)
    requires p < |s| && !keep(s[p])
    requires Filter(s[..p], keep) == s[..p] && Filter(s[p + 1..], keep) == s[p + 1..]
    ensures Filter(s, keep) == s[..p] + s[p + 1..]
  {
    var front, back := s[..p], s[p + 1..];
    SplitAt(s, p);
    FilterAppend(front + [s[p]], back, keep);
    FilterAppend(front, [s[p]], keep);
    assert Filter([s[p]], keep) == [] by {
      assert [s[p]][1..] == [];
      assert Filter([s[p]], keep) == [] + Filter([], keep);
    }
    calc {
      Filter(s, keep);
      Filter(front + [s[p]], keep) + Filter(back, keep);
      (Filter(front, keep) + Filter([s[p]], keep)) + back;
      (front + []) + back;
      { assert front + [] == front; }
      front + back;
    }
  }

  /** A filter keeps the length of a list exactly when it drops nothing. */
  lemma {:induction false} FilterKeepsLength<T(!new)>(s: seq<T>, keep: T -> bool)
    ensures |Filter(s, keep)| == |s| <==> forall i :: 0 <= i < |s| ==> keep(s[i])
    decreases |s|
  {
    if s != [] {
      FilterKeepsLength(s[1..], keep);
      assert forall i :: 1 <= i < |s| ==> s[i] == s[1..][i - 1];
    }
  }

  /** Whether `s` begins with `prefix`. */
  predicate StartsWith<T(==)>(s: seq<T>, prefix: seq<T>)
  {
    |prefix| <= |s| && s[..|prefix|] == prefix
  }

  lemma StartsWithTrans<T>(s: seq<T>, middle: seq<T>, prefix: seq<T>)
    requires StartsWith(s, middle) && StartsWith(middle, prefix)
    ensures StartsWith(s, prefix)
  {
    assert s[..|prefix|] == s[..|middle|][..|prefix|];
  }

  /** Deleting an entry inside a prefix deletes it from the prefix. */
  lemma StartsWithRemoveAt<T>(s: seq<T>, prefix: seq<T>, i: nat)
    requires StartsWith(s, prefix) && i < |prefix|
    ensures StartsWith(RemoveAt(s, i), RemoveAt(prefix, i))
  {
    var r, q := RemoveAt(s, i), RemoveAt(prefix, i);
    forall k | 0 <= k < |q|
      ensures r[k] == q[k]
    {
      if k < i {
        assert r[k] == s[k] && q[k] == prefix[k];
      } else {
        assert r[k] == s[k + 1] && q[k] == prefix[k + 1];
      }
    }
    assert r[..|q|] == q;
  }

  /** Whatever a list starts with is in the list. */
  lemma PrefixMembers<T>(prefix: seq<T>, s: seq<T>)
    requires StartsWith(s, prefix)
    ensures forall x :: x in prefix ==> x in s
  {
    forall x | x in prefix
      ensures x in s
    {
      var k :| 0 <= k < |prefix| && prefix[k] == x;
      assert s[k] == x;
    }
  }

  /** The list with the entry at `index` deleted; an index out of range
      deletes nothing. */
  function RemoveAt<T>(s: seq<T>, index: int): (r: seq<T>)
    ensures 0 <= index < |s| ==> |r| == |s| - 1 && r[..index] == s[..index] && r[index..] == s[index + 1..]
    ensures !(0 <= index < |s|) ==> r == s
  {
    if 0 <= index < |s| then s[..index] + s[index + 1..] else s
  }

  /** A non-empty list in front of another is its head in front of the
      rest of both. */
  lemma ConsAppend<T>(s: seq<T>, t: seq<T>)
    requires s != []
    ensures s + t == [s[0]] + (s[1..] + t)
    ensures s == [s[0]] + s[1..]
  {
  }

  /** A list starts with what it agrees with position by position. */
  lemma StartsWithPointwise<T>(s: seq<T>, prefix: seq<T>)
    requires |prefix| <= |s| && forall i :: 0 <= i < |prefix| ==> s[i] == prefix[i]
    ensures StartsWith(s, prefix)
  {
  }

  /** A list does not start with what it differs from at some position. */
  lemma NotStartsWithAt<T>(s: seq<T>, prefix: seq<T>, i: nat)
    requires i < |prefix| && i < |s| && s[i] != prefix[i]
    ensures !StartsWith(s, prefix)
  {
  }
}
