/** Sequence arithmetic shared by the two depth estimators: sums, counts,
    sorting and de-duplication of integer readings. */
module SeqMath {

  function Sum(s: seq<int>): int {
    if |s| == 0 then 0 else s[0] + Sum(s[1..])
  }

  predicate Sorted(s: seq<int>) {
    forall i, j :: 0 <= i < j < |s| ==> s[i] <= s[j]
  }

  predicate StrictlyIncreasing(s: seq<int>) {
    forall i, j :: 0 <= i < j < |s| ==> s[i] < s[j]
  }

  predicate AllWithin(s: seq<int>, lo: int, hi: int) {
    forall i :: 0 <= i < |s| ==> lo <= s[i] <= hi
  }

  /** Smallest element of a non-empty sequence. */
  function Min(s: seq<int>): (m: int)
    requires |s| > 0
    ensures m in s
    ensures forall i :: 0 <= i < |s| ==> m <= s[i]
  {
    if |s| == 1 then s[0]
    else
      var rest := Min(s[1..]);
      assert forall i :: 1 <= i < |s| ==> s[i] == s[1..][i - 1];
      if s[0] <= rest then s[0] else rest
  }

  /** Largest element of a non-empty sequence. */
  function Max(s: seq<int>): (m: int)
    requires |s| > 0
    ensures m in s
    ensures forall i :: 0 <= i < |s| ==> s[i] <= m
  {
    if |s| == 1 then s[0]
    else
      var rest := Max(s[1..]);
      assert forall i :: 1 <= i < |s| ==> s[i] == s[1..][i - 1];
      if s[0] >= rest then s[0] else rest
  }

  /** A sum of values that all lie in [lo, hi] lies in [|s|*lo, |s|*hi]. */
  lemma {:induction false} SumBounds(s: seq<int>, lo: int, hi: int)
    requires AllWithin(s, lo, hi)
    ensures |s| * lo <= Sum(s) <= |s| * hi
  {
    if |s| > 0 {
      assert AllWithin(s[1..], lo, hi) by {
        forall i | 0 <= i < |s[1..]| ensures lo <= s[1..][i] <= hi {
          assert s[1..][i] == s[i + 1];
        }
      }
      SumBounds(s[1..], lo, hi);
    }
  }

  /** Inserts `x` into a sorted sequence, keeping it sorted. */
  function Insert(x: int, s: seq<int>): (r: seq<int>)
    requires Sorted(s)
    ensures Sorted(r)
    ensures multiset(r) == multiset(s) + multiset{x}
    ensures |r| == |s| + 1
  {
    if |s| == 0 then [x]
    else if x <= s[0] then [x] + s
    else
      var tail := Insert(x, s[1..]);
      assert s == [s[0]] + s[1..];
      InsertedAbove(x, s, tail);
      [s[0]] + tail
  }

  /** Inserting an `x` above the head of `s` into the rest of `s` yields only
      elements at or above that head. */
  lemma InsertedAbove(x: int, s: seq<int>, tail: seq<int>)
    requires Sorted(s) && |s| > 0 && s[0] < x
    requires multiset(tail) == multiset(s[1..]) + multiset{x}
    ensures forall i :: 0 <= i < |tail| ==> s[0] <= tail[i]
  {
    forall i | 0 <= i < |tail| ensures s[0] <= tail[i] {
      assert tail[i] in multiset(tail);
      if tail[i] != x {
        assert tail[i] in multiset(s[1..]);
        var j :| 0 <= j < |s[1..]| && s[1..][j] == tail[i];
        assert s[1..][j] == s[j + 1];
      }
    }
  }

  /** Sorts ascending (insertion sort): the result is an ordered permutation. */
  function Sort(s: seq<int>): (r: seq<int>)
    ensures Sorted(r)
    ensures multiset(r) == multiset(s)
    ensures |r| == |s|
  {
    if |s| == 0 then []
    else
      assert s == [s[0]] + s[1..];
      Insert(s[0], Sort(s[1..]))
  }

  /** Sorting an already sorted sequence leaves it as it is. */
  lemma {:induction false} SortSorted(s: seq<int>)
    requires Sorted(s)
    ensures Sort(s) == s
  {
    if |s| > 0 {
      assert Sorted(s[1..]);
      SortSorted(s[1..]);
      assert s == [s[0]] + s[1..];
    }
  }

  /** Drops repeated neighbours of a sorted sequence, leaving each value once. */
  function Dedup(s: seq<int>): (r: seq<int>)
    requires Sorted(s)
    ensures StrictlyIncreasing(r)
    ensures forall x :: x in r <==> x in s
    ensures |s| > 0 ==> |r| > 0 && r[0] == s[0]
  {
    if |s| <= 1 then s
    else
      var rest := Dedup(s[1..]);
      assert forall x :: x in s <==> x == s[0] || x in s[1..];
      if s[0] == s[1] then rest
      else
        assert forall i :: 0 <= i < |rest| ==> s[0] < rest[i] by {
          forall i | 0 <= i < |rest| ensures s[0] < rest[i] {
            assert rest[i] in s[1..];
          }
        }
        [s[0]] + rest
  }

  /** Number of occurrences of `v` in `s`. */
  function Count(s: seq<int>, v: int): nat {
    if |s| == 0 then 0 else (if s[0] == v then 1 else 0) + Count(s[1..], v)
  }

  /** The occurrence count is the multiset (histogram) multiplicity. */
  lemma {:induction false} CountIsMultiplicity(s: seq<int>, v: int)
    ensures Count(s, v) == multiset(s)[v]
  {
    if |s| > 0 {
      assert s == [s[0]] + s[1..];
      CountIsMultiplicity(s[1..], v);
    }
  }

  /** Sum of the elements of `s` that are at most `c`. */
  function SumAtMost(s: seq<int>, c: int): int {
    if |s| == 0 then 0 else (if s[0] <= c then s[0] else 0) + SumAtMost(s[1..], c)
  }

  /** Number of the elements of `s` that are at most `c`. */
  function CountAtMost(s: seq<int>, c: int): nat {
    if |s| == 0 then 0 else (if s[0] <= c then 1 else 0) + CountAtMost(s[1..], c)
  }

  /** Counting splits over concatenation. */
  lemma {:induction false} CountAtMostConcat(a: seq<int>, b: seq<int>, c: int)
    ensures CountAtMost(a + b, c) == CountAtMost(a, c) + CountAtMost(b, c)
  {
    if |a| == 0 {
      assert a + b == b;
    } else {
      assert (a + b)[0] == a[0] && (a + b)[1..] == a[1..] + b;
      CountAtMostConcat(a[1..], b, c);
    }
  }

  lemma {:induction false} CountAtMostLength(s: seq<int>, c: int)
    ensures CountAtMost(s, c) <= |s|
  {
    if |s| > 0 {
      CountAtMostLength(s[1..], c);
    }
  }

  /** Counting depends only on the multiset of elements, not their order. */
  lemma {:induction false} CountAtMostPerm(s: seq<int>, t: seq<int>, c: int)
    requires multiset(s) == multiset(t)
    ensures CountAtMost(s, c) == CountAtMost(t, c)
    decreases |s|
  {
    if |s| == 0 {
      assert |t| == |multiset(t)| == 0;
    } else {
      var x := s[0];
      assert s == [x] + s[1..];
      assert x in multiset(t);
      var j :| 0 <= j < |t| && t[j] == x;
      var t' := t[..j] + t[j + 1..];
      assert t == t[..j] + ([x] + t[j + 1..]);
      assert multiset(t') == multiset(t) - multiset{x};
      assert multiset(s[1..]) == multiset(s) - multiset{x};
      CountAtMostPerm(s[1..], t', c);
      CountAtMostConcat(t[..j], [x] + t[j + 1..], c);
      CountAtMostConcat(t[..j], t[j + 1..], c);
      assert ([x] + t[j + 1..])[1..] == t[j + 1..];
    }
  }

  /** The element at position k of a sorted rearrangement of `s` has rank k in `s`:
      at most k elements of `s` lie below it and more than k at or below it. */
  lemma RankOfSorted(s: seq<int>, t: seq<int>, k: nat)
    requires Sorted(t) && multiset(s) == multiset(t) && k < |t|
    ensures CountAtMost(s, t[k] - 1) <= k < CountAtMost(s, t[k])
  {
    SortedCountAtMost(t, k);
    CountAtMostPerm(s, t, t[k] - 1);
    CountAtMostPerm(s, t, t[k]);
  }

  /** In a sorted sequence, fewer than k+1 elements lie below element k and
      more than k lie at or below it. */
  lemma SortedCountAtMost(t: seq<int>, k: nat)
    requires Sorted(t) && k < |t|
    ensures CountAtMost(t, t[k] - 1) <= k < CountAtMost(t, t[k])
  {
    SortedCountBelow(t, k);
    SortedCountUpTo(t, k);
  }

  /** In a sorted sequence at most k elements lie below element k. */
  lemma SortedCountBelow(t: seq<int>, k: nat)
    requires Sorted(t) && k < |t|
    ensures CountAtMost(t, t[k] - 1) <= k
  {
    assert t == t[..k] + t[k..];
    CountAtMostConcat(t[..k], t[k..], t[k] - 1);
    CountAtMostLength(t[..k], t[k] - 1);
    var from := t[k..];
    forall i | 0 <= i < |from| ensures t[k] <= from[i] {
      assert from[i] == t[k + i];
    }
    AtMostBelowAll(from, t[k] - 1, t[k]);
  }

  /** In a sorted sequence more than k elements lie at or below element k. */
  lemma SortedCountUpTo(t: seq<int>, k: nat)
    requires Sorted(t) && k < |t|
    ensures k < CountAtMost(t, t[k])
  {
    assert t == t[..k + 1] + t[k + 1..];
    CountAtMostConcat(t[..k + 1], t[k + 1..], t[k]);
    var upTo := t[..k + 1];
    forall i | 0 <= i < |upTo| ensures upTo[i] <= t[k] {
      assert upTo[i] == t[i];
    }
    AtMostAll(upTo, t[k]);
  }

  /** Raising the cut-off from `a` to the next value `b` that occurs (nothing
      lies strictly between them) adds exactly the copies of `b`. */
  lemma {:induction false} AtMostStep(s: seq<int>, a: int, b: int)
    requires a < b
    requires forall i :: 0 <= i < |s| ==> !(a < s[i] < b)
    ensures SumAtMost(s, b) == SumAtMost(s, a) + b * Count(s, b)
    ensures CountAtMost(s, b) == CountAtMost(s, a) + Count(s, b)
  {
    if |s| > 0 {
      assert forall i :: 0 <= i < |s[1..]| ==> s[1..][i] == s[i + 1];
      AtMostStep(s[1..], a, b);
      var k := Count(s[1..], b);
      assert !(a < s[0] < b);
      assert b * Count(s, b) == (if s[0] == b then b else 0) + b * k by {
        assert Count(s, b) == (if s[0] == b then 1 else 0) + k;
      }
    }
  }

  /** With every element at least `lo`, a cut-off below `lo` selects nothing. */
  lemma {:induction false} AtMostBelowAll(s: seq<int>, c: int, lo: int)
    requires c < lo
    requires forall i :: 0 <= i < |s| ==> lo <= s[i]
    ensures SumAtMost(s, c) == 0 && CountAtMost(s, c) == 0
  {
    if |s| > 0 {
      assert forall i :: 0 <= i < |s[1..]| ==> s[1..][i] == s[i + 1];
      AtMostBelowAll(s[1..], c, lo);
    }
  }

  /** Elements selected by a cut-off all lie between `lo` and the cut-off. */
  lemma {:induction false} AtMostBounds(s: seq<int>, c: int, lo: int)
    requires forall i :: 0 <= i < |s| ==> lo <= s[i]
    ensures CountAtMost(s, c) * lo <= SumAtMost(s, c) <= CountAtMost(s, c) * c
  {
    if |s| > 0 {
      assert forall i :: 0 <= i < |s[1..]| ==> s[1..][i] == s[i + 1];
      AtMostBounds(s[1..], c, lo);
      var n' := CountAtMost(s[1..], c);
      if s[0] <= c {
        assert CountAtMost(s, c) == n' + 1;
        assert (n' + 1) * lo == n' * lo + lo;
        assert (n' + 1) * c == n' * c + c;
      }
    }
  }

  /** A cut-off at or above the maximum selects everything. */
  lemma {:induction false} AtMostAll(s: seq<int>, c: int)
    requires forall i :: 0 <= i < |s| ==> s[i] <= c
    ensures SumAtMost(s, c) == Sum(s) && CountAtMost(s, c) == |s|
  {
    if |s| > 0 {
      assert forall i :: 0 <= i < |s[1..]| ==> s[1..][i] == s[i + 1];
      AtMostAll(s[1..], c);
    }
  }
}
