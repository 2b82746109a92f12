/**
 * `Arraystring`, the slice of strings that `Objectstringstring.Keys` returns,
 * with the `sort.Interface` methods of def.go and the `Sort` that the formatter
 * calls on it.  A Go slice shares its backing store, so it is an `array` here.
 */
module Arraystring {

  /**
   * Go's `<` on strings: byte-wise lexicographic order.  On valid UTF-8, byte
   * order and code-point order agree, so comparing characters is the same.
   */
  predicate StrLess(a: string, b: string)
    decreases |a|
  {
    if |a| == 0 then |b| > 0
    else if |b| == 0 then false
    else if a[0] != b[0] then a[0] < b[0]
    else StrLess(a[1..], b[1..])
  }

  /** `a` and `b` agree on their first `k` characters and `a` is smaller right after them. */
  ghost predicate LessAt(a: string, b: string, k: nat) {
    && k <= |a| && k <= |b|
    && a[..k] == b[..k]
    && (k == |a| < |b| || (k < |a| && k < |b| && a[k] < b[k]))
  }

  /** `StrLess` is the textbook lexicographic order: a common prefix, then a smaller character or the end of `a`. */
  lemma {:induction false} StrLessIsLexicographic(a: string, b: string)
    ensures StrLess(a, b) <==> exists k :: LessAt(a, b, k)
    decreases |a|
  {
    if |a| == 0 {
      if |b| > 0 { assert LessAt(a, b, 0); }
    } else if |b| == 0 {
    } else if a[0] != b[0] {
      if a[0] < b[0] { assert LessAt(a, b, 0); }
      forall k: nat | 0 < k <= |a| && k <= |b| ensures a[..k] != b[..k] {
        assert a[..k][0] != b[..k][0];
      }
    } else {
      StrLessIsLexicographic(a[1..], b[1..]);
      if StrLess(a, b) {
        var k: nat :| LessAt(a[1..], b[1..], k);
        assert a[..k + 1] == [a[0]] + a[1..][..k];
        assert b[..k + 1] == [b[0]] + b[1..][..k];
        assert LessAt(a, b, k + 1);
      }
      forall k: nat | LessAt(a, b, k) ensures k > 0 && LessAt(a[1..], b[1..], k - 1) {
        assert a[1..][..k - 1] == a[..k][1..];
        assert b[1..][..k - 1] == b[..k][1..];
      }
    }
  }

  lemma {:induction false} StrLessIrreflexive(a: string)
    ensures !StrLess(a, a)
    decreases |a|
  {
    if |a| > 0 { StrLessIrreflexive(a[1..]); }
  }

  lemma {:induction false} StrLessTransitive(a: string, b: string, c: string)
    requires StrLess(a, b) && StrLess(b, c)
    ensures StrLess(a, c)
    decreases |a|
  {
    if |a| > 0 && a[0] == b[0] && b[0] == c[0] {
      StrLessTransitive(a[1..], b[1..], c[1..]);
    }
  }

  /** Any two strings are equal or ordered one way. */
  lemma {:induction false} StrLessTotal(a: string, b: string)
    ensures a == b || StrLess(a, b) || StrLess(b, a)
    decreases |a|
  {
    if |a| > 0 && |b| > 0 && a[0] == b[0] {
      StrLessTotal(a[1..], b[1..]);
      if a[1..] == b[1..] {
        assert a == [a[0]] + a[1..] && b == [b[0]] + b[1..];
      }
    }
  }

  lemma StrLessAsymmetric(a: string, b: string)
    requires StrLess(a, b)
    ensures !StrLess(b, a)
  {
    if StrLess(b, a) {
      StrLessTransitive(a, b, a);
      StrLessIrreflexive(a);
    }
  }

  /** `Len`: the length of the slice. */
  function Len(a: array<string>): (n: nat)
    reads a
    ensures n == |a[..]|
  {
    a.Length
  }

  /** `Less(i, j)`: the element at `i` sorts strictly before the one at `j`. */
  predicate Less(a: array<string>, i: nat, j: nat)
    requires i < a.Length && j < a.Length
    reads a
  {
    StrLess(a[i], a[j])
  }

  /** The sequence after exchanging the elements at `i` and `j`. */
  function Swapped(s: seq<string>, i: nat, j: nat): (r: seq<string>)
    requires i < |s| && j < |s|
  {
    s[i := s[j]][j := s[i]]
  }

  /** `Swap(i, j)`: exchanges two slots in place. */
  method Swap(a: array<string>, i: nat, j: nat)
    requires i < a.Length && j < a.Length
    modifies a
    ensures a[..] == Swapped(old(a[..]), i, j)
  {
    a[i], a[j] := a[j], a[i];
  }

  /** After a swap, `i` holds the old `s[j]`, `j` the old `s[i]`, and nothing else moved. */
  lemma SwappedAt(s: seq<string>, i: nat, j: nat)
    requires i < |s| && j < |s|
    ensures |Swapped(s, i, j)| == |s|
    ensures Swapped(s, i, j)[i] == s[j] && Swapped(s, i, j)[j] == s[i]
    ensures forall k :: 0 <= k < |s| && k != i && k != j ==> Swapped(s, i, j)[k] == s[k]
  {
  }

  /** A swap permutes the elements. */
  lemma SwappedPermutes(s: seq<string>, i: nat, j: nat)
    requires i < |s| && j < |s|
    ensures multiset(Swapped(s, i, j)) == multiset(s)
  {
    var t := s[i := s[j]];
    assert multiset(t) == multiset(s) - multiset{s[i]} + multiset{s[j]};
  }

  /** A swap inside the first `n` elements swaps within that prefix and leaves the rest alone. */
  lemma SwappedWithin(s: seq<string>, i: nat, j: nat, n: nat)
    requires i < n && j < n && n <= |s|
    ensures Swapped(s, i, j)[..n] == Swapped(s[..n], i, j)
    ensures Swapped(s, i, j)[n..] == s[n..]
  {
  }

  /** Swapping twice restores the original. */
  lemma SwappedTwice(s: seq<string>, i: nat, j: nat)
    requires i < |s| && j < |s|
    ensures Swapped(Swapped(s, i, j), i, j) == s
  {
  }

  /** No element is followed by a smaller one. */
  ghost predicate Sorted(s: seq<string>) {
    forall i, j :: 0 <= i < j < |s| ==> !StrLess(s[j], s[i])
  }

  /** Every element is smaller than every later one. */
  ghost predicate StrictlySorted(s: seq<string>) {
    forall i, j :: 0 <= i < j < |s| ==> StrLess(s[i], s[j])
  }

  ghost predicate Distinct(s: seq<string>) {
    forall i, j :: 0 <= i < j < |s| ==> s[i] != s[j]
  }

  /**
   * Insertion sort over `Less` and `Swap`.  The generated `Sort()` of `Arraystring`
   * is not part of this model; it is taken to sort in place by `Less`.
   */
  method Sort(a: array<string>)
    modifies a
    ensures Sorted(a[..])
    ensures multiset(a[..]) == multiset(old(a[..]))
  {
    var i := 0;
    while i < Len(a)
      invariant i <= a.Length
      invariant Sorted(a[..i])
      invariant multiset(a[..]) == multiset(old(a[..]))
    {
      Insert(a, i);
      i := i + 1;
    }
    assert a[..] == a[..a.Length];
  }

  /** Moves `a[i]` left past every larger element, so that `a[..i + 1]` ends up sorted. */
  method Insert(a: array<string>, i: nat)
    requires i < a.Length && Sorted(a[..i])
    modifies a
    ensures Sorted(a[..i + 1])
    ensures multiset(a[..i + 1]) == multiset(old(a[..i + 1]))
    ensures a[i + 1..] == old(a[i + 1..])
    ensures multiset(a[..]) == multiset(old(a[..]))
  {
    InsertionStarts(a[..], i);
    var j: nat := i;
    while 0 < j && Less(a, j, j - 1)
      invariant j <= i < a.Length
      invariant Inserting(a[..], i, j)
      invariant multiset(a[..i + 1]) == multiset(old(a[..i + 1]))
      invariant a[i + 1..] == old(a[i + 1..])
      invariant multiset(a[..]) == multiset(old(a[..]))
    {
      ghost var before := a[..];
      Swap(a, j, j - 1);
      SwappedPermutes(before, j, j - 1);
      SwappedWithin(before, j, j - 1, i + 1);
      SwappedPermutes(before[..i + 1], j, j - 1);
      InsertionSteps(before, i, j);
      j := j - 1;
    }
    InsertionEnds(a[..], i, j);
  }

  /**
   * The invariant of `Insert`: within `s[..i + 1]`, every pair is in order except
   * the pairs whose later element is the one being moved, at `j`.
   */
  ghost predicate Inserting(s: seq<string>, i: nat, j: nat)
    requires j <= i < |s|
  {
    forall k, l :: 0 <= k < l <= i && l != j ==> !StrLess(s[l], s[k])
  }

  lemma InsertionStarts(s: seq<string>, i: nat)
    requires i < |s| && Sorted(s[..i])
    ensures Inserting(s, i, i)
  {
    forall k, l | 0 <= k < l < i ensures !StrLess(s[l], s[k]) {
      assert s[l] == s[..i][l] && s[k] == s[..i][k];
    }
  }

  lemma InsertionSteps(s: seq<string>, i: nat, j: nat)
    requires 0 < j <= i < |s| && Inserting(s, i, j) && StrLess(s[j], s[j - 1])
    ensures Inserting(Swapped(s, j, j - 1), i, j - 1)
  {
    StrLessAsymmetric(s[j], s[j - 1]);
  }

  lemma InsertionEnds(s: seq<string>, i: nat, j: nat)
    requires j <= i < |s| && Inserting(s, i, j) && (j == 0 || !StrLess(s[j], s[j - 1]))
    ensures Sorted(s[..i + 1])
  {
    forall k, l | 0 <= k < l <= i ensures !StrLess(s[l], s[k]) {
      if l == j && k < j - 1 {
        LeNotLess(s[k], s[j - 1], s[j]);
      }
    }
  }

  /** `a` before `b` before `c`, none of them out of order, puts `a` before `c`. */
  lemma LeNotLess(a: string, b: string, c: string)
    requires !StrLess(b, a) && !StrLess(c, b)
    ensures !StrLess(c, a)
  {
    StrLessTotal(a, b);
    StrLessTotal(b, c);
    if StrLess(c, a) {
      if a == b { } else if b == c { } else {
        StrLessTransitive(a, b, c);
        StrLessAsymmetric(a, c);
      }
    }
  }

  /** Sorting a list without duplicates leaves it strictly increasing. */
  lemma SortedDistinctIsStrict(s: seq<string>)
    requires Sorted(s) && Distinct(s)
    ensures StrictlySorted(s)
  {
    forall i, j | 0 <= i < j < |s| ensures StrLess(s[i], s[j]) {
      StrLessTotal(s[i], s[j]);
    }
  }

  /** Without duplicates, every element occurs once. */
  lemma {:induction false} DistinctOccursOnce(s: seq<string>)
    requires Distinct(s)
    ensures forall x :: multiset(s)[x] <= 1
  {
    if s != [] {
      var rest := s[1..];
      assert Distinct(rest);
      DistinctOccursOnce(rest);
      assert s == [s[0]] + rest;
      forall x ensures multiset(s)[x] <= 1 {
        assert x == s[0] ==> x !in rest;
      }
    }
  }

  /** A permutation of a list without duplicates has none either. */
  lemma PermutationKeepsDistinct(a: seq<string>, b: seq<string>)
    requires multiset(a) == multiset(b) && Distinct(b)
    ensures Distinct(a)
  {
    DistinctOccursOnce(b);
    forall i, j | 0 <= i < j < |a| ensures a[i] == a[j] ==> multiset(a)[a[j]] >= 2 {
      assert a == a[..j] + [a[j]] + a[j + 1..];
      assert a[..j][i] == a[i];
    }
  }

  /** `k` is in `keys` and smaller than every other element of it. */
  ghost predicate IsLeast(k: string, keys: set<string>) {
    k in keys && forall x :: x in keys && x != k ==> StrLess(k, x)
  }

  lemma {:induction false} LeastExists(keys: set<string>)
    requires keys != {}
    ensures exists k :: IsLeast(k, keys)
    decreases keys
  {
    var y :| y in keys;
    if keys == {y} {
      assert IsLeast(y, keys);
    } else {
      LeastExists(keys - {y});
      var z :| IsLeast(z, keys - {y});
      StrLessTotal(y, z);
      if StrLess(y, z) {
        forall x | x in keys && x != y ensures StrLess(y, x) {
          if x != z { StrLessTransitive(y, z, x); }
        }
        assert IsLeast(y, keys);
      } else {
        assert IsLeast(z, keys);
      }
    }
  }

  /** The head of a strictly increasing list is its least element. */
  lemma HeadIsLeast(s: seq<string>)
    requires s != [] && StrictlySorted(s)
    ensures IsLeast(s[0], set x | x in s)
  {
  }

  /** Two strictly increasing lists with the same elements are the same list. */
  lemma {:induction false} StrictlySortedUnique(s: seq<string>, t: seq<string>)
    requires StrictlySorted(s) && StrictlySorted(t)
    requires |s| == |t| && forall x :: x in s <==> x in t
    ensures s == t
    decreases |s|
  {
    if s != [] && t != [] {
      HeadIsLeast(s);
      HeadIsLeast(t);
      assert (set x | x in s) == (set x | x in t);
      if s[0] != t[0] {
        StrLessAsymmetric(s[0], t[0]);
      }
      forall x ensures x in s[1..] <==> x in t[1..] {
        StrLessIrreflexive(s[0]);
        assert x in s[1..] <==> x in s && x != s[0];
        assert x in t[1..] <==> x in t && x != t[0];
      }
      StrictlySortedUnique(s[1..], t[1..]);
      assert s == [s[0]] + s[1..] && t == [t[0]] + t[1..];
    }
  }

  /** The keys of a set in ascending order. */
  ghost function SortedKeys(keys: set<string>): (r: seq<string>)
    ensures |r| == |keys|
    ensures forall x :: x in r <==> x in keys
    ensures StrictlySorted(r)
    decreases keys
  {
    if keys == {} then []
    else
      LeastExists(keys);
      var k :| IsLeast(k, keys);
      [k] + SortedKeys(keys - {k})
  }

  /** Any strictly increasing listing of a set is its `SortedKeys`: the order does not depend on how the set was listed. */
  lemma SortedListingIsSortedKeys(s: seq<string>, keys: set<string>)
    requires StrictlySorted(s)
    requires |s| == |keys| && forall x :: x in s <==> x in keys
    ensures s == SortedKeys(keys)
  {
    StrictlySortedUnique(s, SortedKeys(keys));
  }
}
