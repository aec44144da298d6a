/**
 * The list operations the subscriber registry relies on, on values.
 *
 * The registry is a `CopyOnWriteArrayList`: every mutation builds a new
 * array and publishes it, so each state of the list is a value, and the
 * operations the broadcaster uses are functions from one such value to the
 * next:
 *   - `add(x)` appends x unconditionally (sequence concatenation);
 *   - `remove(Object)` drops the FIRST element equal to x, or leaves the
 *     list as it is when there is none (`RemoveFirst`);
 *   - `removeAll(Collection)` drops EVERY element contained in the
 *     collection and keeps the others in their order (`RemoveAll`).
 * `Select` is the order-preserving filter that describes the outcome of a
 * broadcast: the handles whose delivery succeeded, or those whose delivery
 * failed.
 */
module CowList {

  /** No element occurs twice. */
  predicate Distinct<T(==)>(s: seq<T>) {
    forall i, j :: 0 <= i < j < |s| ==> s[i] != s[j]
  }

  /** r can be obtained from s by deleting elements, keeping the order of the rest. */
  predicate IsSubsequence<T(==)>(r: seq<T>, s: seq<T>)
    decreases |s|
  {
    if s == [] then r == []
    else IsSubsequence(r, s[1..]) || (r != [] && r[0] == s[0] && IsSubsequence(r[1..], s[1..]))
  }

  /** The elements x of s whose outcome p(x) is b, in their order in s. */
  function Select<T>(s: seq<T>, p: T -> bool, b: bool): (r: seq<T>)
    ensures |r| <= |s|
    ensures forall k :: 0 <= k < |r| ==> r[k] in s && p(r[k]) == b
    ensures forall k :: 0 <= k < |s| && p(s[k]) == b ==> s[k] in r
  {
    if s == [] then []
    else if p(s[0]) == b then [s[0]] + Select(s[1..], p, b)
    else Select(s[1..], p, b)
  }

  /** `List.remove(Object)`: drops the first occurrence of x, if any. */
  function RemoveFirst<T(==)>(s: seq<T>, x: T): (r: seq<T>)
    ensures x !in s ==> r == s
    ensures |r| == if x in s then |s| - 1 else |s|
  {
    if s == [] then []
    else if s[0] == x then s[1..]
    else [s[0]] + RemoveFirst(s[1..], x)
  }

  /** `List.removeAll(Collection)`: drops every element that occurs in c. */
  function RemoveAll<T(==)>(s: seq<T>, c: seq<T>): (r: seq<T>)
    ensures |r| <= |s|
    ensures forall k :: 0 <= k < |r| ==> r[k] in s && r[k] !in c
    ensures forall k :: 0 <= k < |s| && s[k] !in c ==> s[k] in r
  {
    if s == [] then []
    else if s[0] in c then RemoveAll(s[1..], c)
    else [s[0]] + RemoveAll(s[1..], c)
  }

  /** Every element of s has exactly one of the two outcomes. */
  lemma {:induction false} SelectSplits<T>(s: seq<T>, p: T -> bool)
    ensures |Select(s, p, true)| + |Select(s, p, false)| == |s|
    ensures multiset(Select(s, p, true)) + multiset(Select(s, p, false)) == multiset(s)
  {
    if s != [] {
      SelectSplits(s[1..], p);
      assert s == [s[0]] + s[1..];
    }
  }

  /** Selecting keeps the relative order: the result is a subsequence. */
  lemma {:induction false} SelectIsSubsequence<T>(s: seq<T>, p: T -> bool, b: bool)
    ensures IsSubsequence(Select(s, p, b), s)
  {
    if s != [] {
      SelectIsSubsequence(s[1..], p, b);
      if p(s[0]) == b {
        assert Select(s, p, b)[1..] == Select(s[1..], p, b);
      }
    }
  }

  /** Selecting over a list grown at the end: what a loop over the list accumulates. */
  lemma {:induction false} SelectAppend<T>(s: seq<T>, x: T, p: T -> bool, b: bool)
    ensures Select(s + [x], p, b) == Select(s, p, b) + (if p(x) == b then [x] else [])
  {
    if s == [] {
      assert [x][1..] == [];
    } else {
      assert (s + [x])[1..] == s[1..] + [x];
      SelectAppend(s[1..], x, p, b);
    }
  }

  /** Selecting from a list without duplicates yields a list without duplicates. */
  lemma {:induction false} SelectDistinct<T>(s: seq<T>, p: T -> bool, b: bool)
    requires Distinct(s)
    ensures Distinct(Select(s, p, b))
  {
    if s != [] {
      DistinctTail(s);
      SelectDistinct(s[1..], p, b);
      if p(s[0]) == b {
        ConsDistinct(s[0], Select(s[1..], p, b));
      }
    }
  }

  /** removeAll given exactly the failed elements leaves exactly the succeeded ones.
      It holds for every list, duplicates included, because the outcome is a
      function of the element. */
  lemma {:induction false} RemoveAllSelect<T>(s: seq<T>, c: seq<T>, p: T -> bool)
    requires forall x :: x in s ==> (x in c <==> !p(x))
    ensures RemoveAll(s, c) == Select(s, p, true)
  {
    if s != [] {
      assert forall x :: x in s[1..] ==> x in s;
      RemoveAllSelect(s[1..], c, p);
    }
  }

  /** removeAll never adds or reorders, whatever the collection: the result is a subsequence. */
  lemma RemoveAllIsSubsequence<T>(s: seq<T>, c: seq<T>)
    ensures IsSubsequence(RemoveAll(s, c), s)
  {
    var p := (x: T) => x !in c;
    RemoveAllSelect(s, c, p);
    SelectIsSubsequence(s, p, true);
  }

  /** The failed elements passed back to removeAll leave the succeeded ones. */
  lemma RemoveFailed<T>(s: seq<T>, p: T -> bool)
    ensures RemoveAll(s, Select(s, p, false)) == Select(s, p, true)
  {
    RemoveAllSelect(s, Select(s, p, false), p);
  }

  /** remove(Object) takes out one copy of x when there is one, and nothing else. */
  lemma {:induction false} RemoveFirstMultiset<T>(s: seq<T>, x: T)
    ensures multiset(RemoveFirst(s, x)) == multiset(s) - multiset{x}
  {
    if s != [] {
      assert s == [s[0]] + s[1..];
      if s[0] != x {
        RemoveFirstMultiset(s[1..], x);
      }
    }
  }

  /** remove(Object) removes the first occurrence and keeps everything around it. */
  lemma {:induction false} RemoveFirstAt<T>(s: seq<T>, x: T, i: nat)
    requires i < |s| && s[i] == x && x !in s[..i]
    ensures RemoveFirst(s, x) == s[..i] + s[i + 1..]
  {
    if i > 0 {
      assert s[0] in s[..i];
      assert s[1..][..i - 1] == s[1..i];
      assert x !in s[1..][..i - 1];
      RemoveFirstAt(s[1..], x, i - 1);
      assert s[..i] == [s[0]] + s[1..i];
      assert s[i + 1..] == s[1..][i..];
    }
  }

  /** The result of remove(Object) is a subsequence of the list. */
  lemma {:induction false} RemoveFirstIsSubsequence<T>(s: seq<T>, x: T)
    ensures IsSubsequence(RemoveFirst(s, x), s)
  {
    if s != [] {
      if s[0] == x {
        SubsequenceRefl(s[1..]);
      } else {
        RemoveFirstIsSubsequence(s[1..], x);
        assert RemoveFirst(s, x)[1..] == RemoveFirst(s[1..], x);
      }
    }
  }

  /** On a list without duplicates remove(Object) takes x out entirely and
      nothing else, so a second removal changes nothing: removal is idempotent. */
  lemma {:induction false} RemoveFirstDistinct<T>(s: seq<T>, x: T)
    requires Distinct(s)
    ensures Distinct(RemoveFirst(s, x))
    ensures forall y :: y in RemoveFirst(s, x) <==> y in s && y != x
    ensures RemoveFirst(RemoveFirst(s, x), x) == RemoveFirst(s, x)
  {
    var r := RemoveFirst(s, x);
    RemoveFirstMultiset(s, x);
    forall y ensures y in r <==> y in s && y != x {
      // the multiplicity of every element of a duplicate-free list is at most one
      assert y in r <==> multiset(r)[y] > 0;
      assert y in s <==> multiset(s)[y] > 0;
      if y in s {
        CountDistinct(s, y);
      }
    }
    RemoveFirstIsSubsequence(s, x);
    SubsequenceDistinct(r, s);
  }

  /** Without distinctness remove(Object) is not idempotent: removing twice
      from [x, x] takes out both copies. */
  lemma RemoveFirstTwiceOnDuplicate<T>(x: T)
    ensures RemoveFirst([x, x], x) == [x]
    ensures RemoveFirst(RemoveFirst([x, x], x), x) == []
  {
    assert [x, x][1..] == [x];
  }

  /** add of an element not yet present keeps the list duplicate-free. */
  lemma AppendDistinct<T>(s: seq<T>, x: T)
    requires Distinct(s) && x !in s
    ensures Distinct(s + [x])
  {
    forall i, j | 0 <= i < j < |s + [x]| ensures (s + [x])[i] != (s + [x])[j] {
      if j == |s| {
        assert (s + [x])[i] == s[i];
      } else {
        assert (s + [x])[i] == s[i] && (s + [x])[j] == s[j];
      }
    }
  }

  // ---- helpers ----

  lemma DistinctTail<T>(s: seq<T>)
    requires Distinct(s) && s != []
    ensures Distinct(s[1..]) && s[0] !in s[1..]
  {
    forall k | 0 <= k < |s[1..]| ensures s[1..][k] != s[0] {
      assert s[1..][k] == s[k + 1];
    }
  }

  lemma ConsDistinct<T>(x: T, t: seq<T>)
    requires x !in t && Distinct(t)
    ensures Distinct([x] + t)
  {
    forall i, j | 0 <= i < j < |[x] + t| ensures ([x] + t)[i] != ([x] + t)[j] {
      assert ([x] + t)[j] == t[j - 1];
      if i > 0 {
        assert ([x] + t)[i] == t[i - 1];
      }
    }
  }

  lemma {:induction false} CountDistinct<T>(s: seq<T>, y: T)
    requires Distinct(s) && y in s
    ensures multiset(s)[y] == 1
  {
    assert s == [s[0]] + s[1..];
    DistinctTail(s);
    if s[0] == y {
      assert multiset(s[1..])[y] == 0;
    } else {
      CountDistinct(s[1..], y);
    }
  }

  lemma {:induction false} SubsequenceRefl<T>(s: seq<T>)
    ensures IsSubsequence(s, s)
  {
    if s != [] {
      SubsequenceRefl(s[1..]);
    }
  }

  lemma {:induction false} SubsequenceMembers<T>(r: seq<T>, s: seq<T>)
    requires IsSubsequence(r, s)
    ensures forall x :: x in r ==> x in s
  {
    if s != [] {
      if IsSubsequence(r, s[1..]) {
        SubsequenceMembers(r, s[1..]);
      } else {
        SubsequenceMembers(r[1..], s[1..]);
        assert r == [r[0]] + r[1..];
      }
    }
  }

  lemma {:induction false} SubsequenceDistinct<T>(r: seq<T>, s: seq<T>)
    requires IsSubsequence(r, s) && Distinct(s)
    ensures Distinct(r)
  {
    if s != [] {
      DistinctTail(s);
      if IsSubsequence(r, s[1..]) {
        SubsequenceDistinct(r, s[1..]);
      } else {
        SubsequenceDistinct(r[1..], s[1..]);
        SubsequenceMembers(r[1..], s[1..]);
        ConsDistinct(r[0], r[1..]);
        assert r == [r[0]] + r[1..];
      }
    }
  }
}
