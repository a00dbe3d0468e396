/** Small facts about sequences used as ordered sets (a Python set or dict in its iteration order). */
module Sequences {

  /** No element occurs twice. */
  ghost predicate Distinct<T(!new)>(s: seq<T>) {
    forall x :: multiset(s)[x] <= 1
  }

  /** `s` with the element at index `i` removed; the others keep their relative order. */
  function RemoveAt<T>(s: seq<T>, i: nat): (r: seq<T>)
    requires i < |s|
    ensures |r| == |s| - 1
  {
    s[..i] + s[i + 1..]
  }

  /** Removing position `i` takes exactly one occurrence of `s[i]` out of the multiset. */
  lemma RemoveAtMultiset<T>(s: seq<T>, i: nat)
    requires i < |s|
    ensures multiset(RemoveAt(s, i)) == multiset(s) - multiset{s[i]}
    ensures multiset(RemoveAt(s, i)) + multiset{s[i]} == multiset(s)
  {
    assert s == s[..i] + [s[i]] + s[i + 1..];
  }

  /** In a distinct sequence an element occurs at no position other than its own. */
  lemma DistinctIndex<T(!new)>(s: seq<T>, a: nat)
    requires Distinct(s) && a < |s|
    ensures forall b :: 0 <= b < |s| && b != a ==> s[b] != s[a]
  {
    var x := s[a];
    assert s == s[..a] + [x] + s[a + 1..];
    assert multiset(s) == multiset(s[..a]) + multiset{x} + multiset(s[a + 1..]);
    assert multiset(s)[x] <= 1;
    assert multiset(s[..a])[x] == 0 && multiset(s[a + 1..])[x] == 0;
    forall b | 0 <= b < |s| && b != a ensures s[b] != x {
      if b < a {
        assert s[b] == s[..a][b];
      } else {
        assert s[b] == s[a + 1..][b - a - 1];
      }
    }
  }

  /** Removing an element keeps a sequence distinct. */
  lemma DistinctRemoveAt<T(!new)>(s: seq<T>, i: nat)
    requires Distinct(s) && i < |s|
    ensures Distinct(RemoveAt(s, i))
  {
    RemoveAtMultiset(s, i);
  }

  /** Dropping the last element keeps a sequence distinct. */
  lemma DistinctPrefix<T(!new)>(s: seq<T>)
    requires Distinct(s) && s != []
    ensures Distinct(s[..|s| - 1])
  {
    DistinctRemoveAt(s, |s| - 1);
    assert RemoveAt(s, |s| - 1) == s[..|s| - 1];
  }

  /** Where an element other than `s[i]` sits once `s[i]` is removed. */
  lemma RemoveAtIndex<T>(s: seq<T>, i: nat, j: nat)
    requires i < |s| && j < |s| && j != i
    ensures var j' := if j < i then j else j - 1;
      j' < |RemoveAt(s, i)| && RemoveAt(s, i)[j'] == s[j]
  {
    if j > i {
      assert RemoveAt(s, i)[j - 1] == s[i + 1..][j - 1 - i];
    }
  }
}
