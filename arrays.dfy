/** `Array.prototype.sort(cmp)`, `Array.prototype.filter(p)` and
    `Array.prototype.slice(0, n)` on sequences.
    JavaScript's sort is stable (elements the comparator calls equal keep
    their order), so it is modelled as a stable insertion sort: each element
    in turn is inserted after every earlier element that does not compare
    greater than it. For a comparator that is a total preorder on the
    elements this is the one stable sorted permutation. */
module Arrays {
  import opened Strings

  /** No pair of `s` is out of order for the comparator. */
  ghost predicate SortedBy<T>(s: seq<T>, cmp: (T, T) -> int) {
    forall i, j :: 0 <= i < j < |s| ==> cmp(s[i], s[j]) <= 0
  }

  /** On the elements of `u`, "`cmp(a, b) <= 0`" is total and transitive. */
  ghost predicate TotalPreorderOn<T>(cmp: (T, T) -> int, u: seq<T>) {
    && (forall a, b :: a in u && b in u ==> cmp(a, b) <= 0 || cmp(b, a) <= 0)
    && (forall a, b, c :: a in u && b in u && c in u && cmp(a, b) <= 0 && cmp(b, c) <= 0 ==> cmp(a, c) <= 0)
  }

  /** Places `x` in front of the first element of `r` that compares greater
      than it, so after every element that compares equal. */
  function InsertBy<T>(r: seq<T>, x: T, cmp: (T, T) -> int): (o: seq<T>)
    ensures |o| == |r| + 1
  {
    if r == [] then [x]
    else if cmp(r[0], x) > 0 then [x] + r
    else [r[0]] + InsertBy(r[1..], x, cmp)
  }

  /** `s.sort(cmp)` on a copy of `s`. */
  function SortBy<T>(s: seq<T>, cmp: (T, T) -> int): (o: seq<T>)
    ensures |o| == |s|
    ensures multiset(o) == multiset(s)
  {
    if s == [] then []
    else
      assert s == s[..|s| - 1] + [s[|s| - 1]];
      InsertByPermutes(SortBy(s[..|s| - 1], cmp), s[|s| - 1], cmp);
      InsertBy(SortBy(s[..|s| - 1], cmp), s[|s| - 1], cmp)
  }

  lemma TransitiveAt<T>(cmp: (T, T) -> int, u: seq<T>, a: T, b: T, c: T)
    requires TotalPreorderOn(cmp, u) && a in u && b in u && c in u
    ensures cmp(a, b) <= 0 && cmp(b, c) <= 0 ==> cmp(a, c) <= 0
  {
  }

  lemma TotalAt<T>(cmp: (T, T) -> int, u: seq<T>, a: T, b: T)
    requires TotalPreorderOn(cmp, u) && a in u && b in u
    ensures cmp(a, b) <= 0 || cmp(b, a) <= 0
  {
  }

  /** Inserting splits `r` at `k`: the elements in front of `x` compare at
      most `x`, and the first one after it, if any, compares greater. */
  lemma {:induction false} InsertBySplit<T>(r: seq<T>, x: T, cmp: (T, T) -> int) returns (k: nat)
    ensures k <= |r| && InsertBy(r, x, cmp) == r[..k] + [x] + r[k..]
    ensures forall i :: 0 <= i < k ==> cmp(r[i], x) <= 0
    ensures k < |r| ==> cmp(r[k], x) > 0
  {
    if r == [] || cmp(r[0], x) > 0 {
      k := 0;
      assert r[..0] == [] && r[0..] == r;
    } else {
      var tail := r[1..];
      var k' := InsertBySplit(tail, x, cmp);
      k := k' + 1;
      assert InsertBy(r, x, cmp) == r[..k] + [x] + r[k..] by {
        var front := [r[0]] + tail[..k'];
        assert InsertBy(r, x, cmp) == [r[0]] + (tail[..k'] + [x] + tail[k'..]);
        assert [r[0]] + (tail[..k'] + [x] + tail[k'..]) == front + [x] + tail[k'..];
        assert r[..k] == front by {
          assert r == [r[0]] + tail;
        }
        assert r[k..] == tail[k'..];
      }
      assert forall i :: 0 <= i < k ==> cmp(r[i], x) <= 0 by {
        forall i | 0 < i < k ensures cmp(r[i], x) <= 0 {
          assert r[i] == tail[i - 1];
        }
      }
      assert k < |r| ==> cmp(r[k], x) > 0 by {
        if k < |r| {
          assert r[k] == tail[k'];
        }
      }
    }
  }

  /** Inserting adds `x` and keeps every element of `r`. */
  lemma InsertByPermutes<T>(r: seq<T>, x: T, cmp: (T, T) -> int)
    ensures multiset(InsertBy(r, x, cmp)) == multiset(r) + multiset{x}
  {
    var k := InsertBySplit(r, x, cmp);
    var front, back := r[..k], r[k..];
    assert multiset(front + [x] + back) == multiset(front) + multiset{x} + multiset(back);
    assert multiset(r) == multiset(front) + multiset(back) by {
      assert r == front + back;
    }
    assert multiset(front) + multiset{x} + multiset(back) == multiset(front) + multiset(back) + multiset{x};
  }

  /** Into a sorted `r`, `x` goes after exactly the elements that compare at
      most it; every element after it compares greater, and `x` at most
      it. */
  lemma InsertByShape<T>(r: seq<T>, x: T, cmp: (T, T) -> int, u: seq<T>) returns (k: nat)
    requires SortedBy(r, cmp) && TotalPreorderOn(cmp, u)
    requires x in u && forall y :: y in r ==> y in u
    ensures k <= |r| && InsertBy(r, x, cmp) == r[..k] + [x] + r[k..]
    ensures forall i :: 0 <= i < k ==> cmp(r[i], x) <= 0
    ensures forall i :: k <= i < |r| ==> cmp(r[i], x) > 0 && cmp(x, r[i]) <= 0
  {
    k := InsertBySplit(r, x, cmp);
    forall i | k <= i < |r| ensures cmp(r[i], x) > 0 && cmp(x, r[i]) <= 0 {
      assert r[k] in r && r[i] in r;
      TotalAt(cmp, u, x, r[k]);
      TransitiveAt(cmp, u, x, r[k], r[i]);
      TransitiveAt(cmp, u, r[k], r[i], x);
    }
  }

  /** Placing `x` between the part of a sorted `r` that is at most `x` and
      the part it is at most gives a sorted sequence. */
  lemma SplitSorted<T>(r: seq<T>, k: nat, x: T, cmp: (T, T) -> int)
    requires SortedBy(r, cmp) && k <= |r|
    requires forall i :: 0 <= i < k ==> cmp(r[i], x) <= 0
    requires forall i :: k <= i < |r| ==> cmp(x, r[i]) <= 0
    ensures SortedBy(r[..k] + [x] + r[k..], cmp)
  {
    var o := r[..k] + [x] + r[k..];
    forall i, j | 0 <= i < j < |o| ensures cmp(o[i], o[j]) <= 0 {
      if j < k {
        assert o[i] == r[i] && o[j] == r[j];
      } else if j == k {
        assert o[i] == r[i] && o[j] == x;
      } else if i < k {
        assert o[i] == r[i] && o[j] == r[j - 1];
      } else if i == k {
        assert o[i] == x && o[j] == r[j - 1];
      } else {
        assert o[i] == r[i - 1] && o[j] == r[j - 1];
      }
    }
  }

  /** Inserting into a sorted sequence keeps it sorted. */
  lemma {:induction false} InsertBySorted<T>(r: seq<T>, x: T, cmp: (T, T) -> int, u: seq<T>)
    requires SortedBy(r, cmp) && TotalPreorderOn(cmp, u)
    requires x in u && forall y :: y in r ==> y in u
    ensures SortedBy(InsertBy(r, x, cmp), cmp)
  {
    var k := InsertByShape(r, x, cmp, u);
    SplitSorted(r, k, x, cmp);
  }

  /** The sort's result is sorted when the comparator is a total preorder on
      the elements. */
  lemma {:induction false} SortBySorted<T>(s: seq<T>, cmp: (T, T) -> int)
    requires TotalPreorderOn(cmp, s)
    ensures SortedBy(SortBy(s, cmp), cmp)
  {
    if s != [] {
      var init, last := s[..|s| - 1], s[|s| - 1];
      assert TotalPreorderOn(cmp, init) by {
        assert forall y :: y in init ==> y in s;
      }
      SortBySorted(init, cmp);
      forall y | y in SortBy(init, cmp) ensures y in s {
        assert y in multiset(SortBy(init, cmp));
        assert y in init;
      }
      InsertBySorted(SortBy(init, cmp), last, cmp, s);
    }
  }

  /** When no element of `r` compares greater than `x`, `x` goes last. */
  lemma InsertByLast<T>(r: seq<T>, x: T, cmp: (T, T) -> int)
    requires forall i :: 0 <= i < |r| ==> cmp(r[i], x) <= 0
    ensures InsertBy(r, x, cmp) == r + [x]
  {
    var k := InsertBySplit(r, x, cmp);
    assert r[..k] == r && r[k..] == [];
  }

  /** Stability: sorting a sequence that is already sorted leaves it as it is. */
  lemma {:induction false} SortByOfSorted<T>(s: seq<T>, cmp: (T, T) -> int)
    requires SortedBy(s, cmp)
    ensures SortBy(s, cmp) == s
  {
    if s != [] {
      var init, last := s[..|s| - 1], s[|s| - 1];
      assert SortedBy(init, cmp) by {
        forall i, j | 0 <= i < j < |init| ensures cmp(init[i], init[j]) <= 0 {
          assert init[i] == s[i] && init[j] == s[j];
        }
      }
      SortByOfSorted(init, cmp);
      assert forall i :: 0 <= i < |init| ==> cmp(init[i], last) <= 0 by {
        forall i | 0 <= i < |init| ensures cmp(init[i], last) <= 0 {
          assert init[i] == s[i];
        }
      }
      InsertByLast(init, last, cmp);
      assert s == init + [last];
    }
  }

  /** No element occurs twice. */
  ghost predicate Distinct<T>(s: seq<T>) {
    forall i, j :: 0 <= i < j < |s| ==> s[i] != s[j]
  }

  /** A sequence without repeats holds each element at most once. */
  lemma {:induction false} DistinctCounts<T>(s: seq<T>)
    requires Distinct(s)
    ensures forall x :: multiset(s)[x] <= 1
    decreases |s|
  {
    if s != [] {
      var init, last := s[..|s| - 1], s[|s| - 1];
      assert s == init + [last];
      assert Distinct(init) by {
        forall i, j | 0 <= i < j < |init| ensures init[i] != init[j] {
          assert init[i] == s[i] && init[j] == s[j];
        }
      }
      DistinctCounts(init);
      assert last !in init by {
        forall i | 0 <= i < |init| ensures init[i] != last {
          assert init[i] == s[i];
        }
      }
      assert multiset(s) == multiset(init) + multiset{last};
    }
  }

  /** A permutation of a sequence without repeats has none either. */
  lemma PermutationDistinct<T>(a: seq<T>, b: seq<T>)
    requires multiset(a) == multiset(b) && Distinct(a)
    ensures Distinct(b)
  {
    DistinctCounts(a);
    forall i, j | 0 <= i < j < |b| ensures b[i] != b[j] {
      var x := b[i];
      assert b == b[..j] + b[j..];
      assert multiset(b)[x] == multiset(b[..j])[x] + multiset(b[j..])[x];
      assert b[..j][i] == x && b[j..][0] == b[j];
    }
  }

  /** `s.filter(p)`. */
  function Filter<T(==)>(s: seq<T>, p: T -> bool): (o: seq<T>)
    ensures |o| <= |s|
    ensures forall i :: 0 <= i < |o| ==> o[i] in s && p(o[i])
    ensures forall i :: 0 <= i < |s| && p(s[i]) ==> s[i] in o
  {
    if s == [] then []
    else
      var rest := Filter(s[1..], p);
      assert forall i :: 1 <= i < |s| ==> s[i] == s[1..][i - 1];
      if p(s[0]) then [s[0]] + rest else rest
  }

  /** When a relation holds between every earlier and later element, it
      holds between the head and everything after it. */
  lemma HeadRelatesToTail<T>(s: seq<T>, rel: (T, T) -> bool)
    requires s != [] && forall i, j :: 0 <= i < j < |s| ==> rel(s[i], s[j])
    ensures forall y :: y in s[1..] ==> rel(s[0], y)
  {
    forall y | y in s[1..] ensures rel(s[0], y) {
      var k :| 0 <= k < |s[1..]| && s[1..][k] == y;
      assert s[k + 1] == y;
    }
  }

  /** ... and between every earlier and later element of the tail. */
  lemma TailKeepsOrder<T>(s: seq<T>, rel: (T, T) -> bool)
    requires s != [] && forall i, j :: 0 <= i < j < |s| ==> rel(s[i], s[j])
    ensures forall i, j :: 0 <= i < j < |s[1..]| ==> rel(s[1..][i], s[1..][j])
  {
    forall i, j | 0 <= i < j < |s[1..]| ensures rel(s[1..][i], s[1..][j]) {
      assert s[1..][i] == s[i + 1] && s[1..][j] == s[j + 1];
    }
  }

  /** Putting in front an element related to everything keeps the relation. */
  lemma ConsKeepsOrder<T>(x: T, t: seq<T>, rel: (T, T) -> bool)
    requires forall i :: 0 <= i < |t| ==> rel(x, t[i])
    requires forall i, j :: 0 <= i < j < |t| ==> rel(t[i], t[j])
    ensures forall i, j :: 0 <= i < j < |[x] + t| ==> rel(([x] + t)[i], ([x] + t)[j])
  {
    var o := [x] + t;
    forall i, j | 0 <= i < j < |o| ensures rel(o[i], o[j]) {
      assert o[j] == t[j - 1];
      if i > 0 {
        assert o[i] == t[i - 1];
      }
    }
  }

  /** Filtering keeps any relation that held between every earlier and later
      element. */
  lemma {:induction false} FilterKeepsOrder<T>(s: seq<T>, p: T -> bool, rel: (T, T) -> bool)
    requires forall i, j :: 0 <= i < j < |s| ==> rel(s[i], s[j])
    ensures forall i, j :: 0 <= i < j < |Filter(s, p)| ==> rel(Filter(s, p)[i], Filter(s, p)[j])
  {
    if s != [] {
      TailKeepsOrder(s, rel);
      FilterKeepsOrder(s[1..], p, rel);
      if p(s[0]) {
        HeadRelatesToTail(s, rel);
        var t := Filter(s[1..], p);
        assert forall i :: 0 <= i < |t| ==> t[i] in s[1..];
        ConsKeepsOrder(s[0], t, rel);
        assert Filter(s, p) == [s[0]] + t;
      }
    }
  }

  /** Filtering strings in ascending order leaves them in ascending order. */
  lemma FilterStrictlySorted(s: seq<string>, p: string -> bool)
    requires StrictlySorted(s)
    ensures StrictlySorted(Filter(s, p))
  {
    var lt := Less;
    assert forall i, j :: 0 <= i < j < |s| ==> lt(s[i], s[j]);
    FilterKeepsOrder(s, p, lt);
    var r := Filter(s, p);
    forall i, j | 0 <= i < j < |r| ensures Less(r[i], r[j]) {
      assert lt(r[i], r[j]);
    }
  }

  /** Filtering a sorted sequence leaves it sorted. */
  lemma FilterSortedBy<T>(s: seq<T>, p: T -> bool, cmp: (T, T) -> int)
    requires SortedBy(s, cmp)
    ensures SortedBy(Filter(s, p), cmp)
  {
    var rel := (x, y) => cmp(x, y) <= 0;
    assert forall i, j :: 0 <= i < j < |s| ==> rel(s[i], s[j]);
    FilterKeepsOrder(s, p, rel);
    var r := Filter(s, p);
    forall i, j | 0 <= i < j < |r| ensures cmp(r[i], r[j]) <= 0 {
      assert rel(r[i], r[j]);
    }
  }

  /** Filtering a concatenation filters each part. */
  lemma {:induction false} FilterAppend<T>(a: seq<T>, b: seq<T>, p: T -> bool)
    ensures Filter(a + b, p) == Filter(a, p) + Filter(b, p)
  {
    if a != [] {
      assert (a + b)[1..] == a[1..] + b;
      FilterAppend(a[1..], b, p);
    } else {
      assert a + b == b;
    }
  }

  /** `a` is `b` with some elements left out, the rest in the same order. */
  ghost predicate IsSubsequence<T>(a: seq<T>, b: seq<T>)
    decreases |b|
  {
    if a == [] then true
    else if b == [] then false
    else if a[0] == b[0] then IsSubsequence(a[1..], b[1..])
    else IsSubsequence(a, b[1..])
  }

  lemma {:induction false} FilterIsSubsequence<T>(s: seq<T>, p: T -> bool)
    ensures IsSubsequence(Filter(s, p), s)
  {
    if s != [] {
      FilterIsSubsequence(s[1..], p);
      if p(s[0]) {
        assert Filter(s, p)[1..] == Filter(s[1..], p);
      } else {
        SubsequenceDropFront(Filter(s, p), s);
      }
    }
  }

  lemma {:induction false} SubsequenceDropFront<T>(a: seq<T>, b: seq<T>)
    requires b != [] && IsSubsequence(a, b[1..])
    ensures IsSubsequence(a, b)
    decreases |b|, 0
  {
    if a != [] && a[0] == b[0] {
      SubsequenceOfTail(a, b[1..]);
    }
  }

  /** Dropping the first element keeps a subsequence a subsequence. */
  lemma {:induction false} SubsequenceOfTail<T>(a: seq<T>, b: seq<T>)
    requires a != [] && IsSubsequence(a, b)
    ensures IsSubsequence(a[1..], b)
    decreases |b|, 1
  {
    if a[0] == b[0] {
      if a[1..] != [] {
        SubsequenceDropFront(a[1..], b);
      }
    } else {
      SubsequenceOfTail(a, b[1..]);
      SubsequenceDropFront(a[1..], b);
    }
  }

  /** A prefix of a subsequence is a subsequence. */
  lemma {:induction false} SubsequencePrefix<T>(a: seq<T>, b: seq<T>, n: nat)
    requires n <= |a| && IsSubsequence(a, b)
    ensures IsSubsequence(a[..n], b)
    decreases |b|
  {
    if n > 0 {
      if a[0] == b[0] {
        SubsequencePrefix(a[1..], b[1..], n - 1);
        assert a[..n][1..] == a[1..][..n - 1];
      } else {
        SubsequencePrefix(a, b[1..], n);
      }
    }
  }

  /** `s.slice(0, n)`: the first `n` elements, all of them when `n` is at
      least the length, and all but the last `-n` when `n` is negative. */
  function Slice<T>(s: seq<T>, n: int): (r: seq<T>)
    ensures |r| <= |s| && r == s[..|r|]
    ensures n >= 0 ==> |r| == if n <= |s| then n else |s|
    ensures n < 0 ==> |r| == if -n <= |s| then |s| + n else 0
  {
    if n >= 0 then (if n <= |s| then s[..n] else s)
    else if -n <= |s| then s[..|s| + n]
    else []
  }
}
