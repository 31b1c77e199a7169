/**
 * A stable sort by an integer rank, standing in for `Array.prototype.sort`
 * with a comparator of the form `(a, b) => rank(a) - rank(b)`.
 *
 * ECMAScript 2019 (section 22.1.3.27, "Array.prototype.sort") requires the
 * sort to be stable: elements the comparator calls equal keep their relative
 * order. It does not fix the algorithm. `Sort` below is an insertion sort, and
 * `StableSortUnique` shows that any ordered, stable rearrangement of the input
 * is exactly its result, so nothing depends on the choice of algorithm.
 */
module StableSort {

  /** `r` is non-decreasing by `rank`. */
  ghost predicate Sorted<T>(r: seq<T>, rank: T -> int) {
    forall i, j :: 0 <= i < j < |r| ==> rank(r[i]) <= rank(r[j])
  }

  /** The elements of `s` whose rank is `v`, in the order they have in `s`. */
  function Tier<T>(s: seq<T>, rank: T -> int, v: int): (r: seq<T>)
    ensures |r| <= |s|
    ensures forall x :: x in r ==> x in s && rank(x) == v
  {
    if s == [] then []
    else if rank(s[0]) == v then [s[0]] + Tier(s[1..], rank, v)
    else Tier(s[1..], rank, v)
  }

  /** Elements of equal rank occur in `r` in the same relative order as in `s`. */
  ghost predicate Stable<T>(r: seq<T>, s: seq<T>, rank: T -> int) {
    forall v :: Tier(r, rank, v) == Tier(s, rank, v)
  }

  /** Puts `x` in front of the first element of `s` that does not rank below it. */
  function Insert<T>(x: T, s: seq<T>, rank: T -> int): (r: seq<T>)
    ensures |r| == |s| + 1
  {
    if s == [] || rank(x) <= rank(s[0]) then [x] + s
    else [s[0]] + Insert(x, s[1..], rank)
  }

  /** Stable insertion sort of `s`, ascending by `rank`. */
  function Sort<T>(s: seq<T>, rank: T -> int): (r: seq<T>)
    ensures |r| == |s|
  {
    if s == [] then [] else Insert(s[0], Sort(s[1..], rank), rank)
  }

  lemma {:induction false} InsertSorted<T>(x: T, s: seq<T>, rank: T -> int)
    requires Sorted(s, rank)
    ensures Sorted(Insert(x, s, rank), rank)
    ensures multiset(Insert(x, s, rank)) == multiset(s) + multiset{x}
  {
    if s == [] || rank(x) <= rank(s[0]) {
      assert Insert(x, s, rank) == [x] + s;
    } else {
      InsertSorted(x, s[1..], rank);
      var t := Insert(x, s[1..], rank);
      assert Insert(x, s, rank) == [s[0]] + t;
      assert s == [s[0]] + s[1..];
      forall y | y in t ensures rank(s[0]) <= rank(y) {
        assert y in multiset(t);
      }
    }
  }

  lemma {:induction false} InsertTier<T>(x: T, s: seq<T>, rank: T -> int, v: int)
    ensures Tier(Insert(x, s, rank), rank, v)
         == if rank(x) == v then [x] + Tier(s, rank, v) else Tier(s, rank, v)
  {
    if s == [] || rank(x) <= rank(s[0]) {
      assert ([x] + s)[1..] == s;
    } else {
      InsertTier(x, s[1..], rank, v);
      assert ([s[0]] + Insert(x, s[1..], rank))[1..] == Insert(x, s[1..], rank);
    }
  }

  /** The sort orders its input by rank and only rearranges it. */
  lemma {:induction false} SortSortedPermutation<T>(s: seq<T>, rank: T -> int)
    ensures Sorted(Sort(s, rank), rank)
    ensures multiset(Sort(s, rank)) == multiset(s)
  {
    if s != [] {
      SortSortedPermutation(s[1..], rank);
      InsertSorted(s[0], Sort(s[1..], rank), rank);
      assert s == [s[0]] + s[1..];
    }
  }

  /** The sort is stable: each tier of its result is the same tier of its input. */
  lemma {:induction false} SortStable<T>(s: seq<T>, rank: T -> int)
    ensures Stable(Sort(s, rank), s, rank)
  {
    forall v ensures Tier(Sort(s, rank), rank, v) == Tier(s, rank, v) {
      SortTier(s, rank, v);
    }
  }

  lemma {:induction false} SortTier<T>(s: seq<T>, rank: T -> int, v: int)
    ensures Tier(Sort(s, rank), rank, v) == Tier(s, rank, v)
  {
    if s != [] {
      SortTier(s[1..], rank, v);
      InsertTier(s[0], Sort(s[1..], rank), rank, v);
    }
  }

  lemma {:induction false} TierHeadBound<T>(s: seq<T>, rank: T -> int, v: int)
    requires Sorted(s, rank) && Tier(s, rank, v) != []
    ensures rank(s[0]) <= v
  {
    var x := Tier(s, rank, v)[0];
    assert x in Tier(s, rank, v);
    var i :| 0 <= i < |s| && s[i] == x;
  }

  lemma TierOfHead<T>(s: seq<T>, rank: T -> int)
    requires s != []
    ensures Tier(s, rank, rank(s[0])) != []
  {
  }

  /** Two ordered sequences with the same tiers are equal. */
  lemma {:induction false} SameTiersEqual<T>(r1: seq<T>, r2: seq<T>, rank: T -> int)
    requires Sorted(r1, rank) && Sorted(r2, rank)
    requires forall v :: Tier(r1, rank, v) == Tier(r2, rank, v)
    ensures r1 == r2
    decreases |r1|
  {
    if r1 == [] || r2 == [] {
      if r1 != [] {
        TierOfHead(r1, rank);
        assert false;
      } else if r2 != [] {
        TierOfHead(r2, rank);
        assert false;
      }
    } else {
      TierHeadBound(r1, rank, rank(r2[0]));
      TierHeadBound(r2, rank, rank(r1[0]));
      var v := rank(r1[0]);
      assert Tier(r1, rank, v) == [r1[0]] + Tier(r1[1..], rank, v);
      assert Tier(r2, rank, v) == [r2[0]] + Tier(r2[1..], rank, v);
      assert r1[0] == Tier(r1, rank, v)[0] == r2[0];
      forall w ensures Tier(r1[1..], rank, w) == Tier(r2[1..], rank, w) {
        assert Tier(r1, rank, w) == Tier(r2, rank, w);
        if w == v {
          assert Tier(r1[1..], rank, w) == Tier(r1, rank, w)[1..];
        }
      }
      SameTiersEqual(r1[1..], r2[1..], rank);
      assert r1 == [r1[0]] + r1[1..] && r2 == [r2[0]] + r2[1..];
    }
  }

  /**
   * Any rearrangement of `s` that is ordered by rank and stable is `Sort(s)`:
   * the ECMAScript requirements on a stable sort determine its result.
   */
  lemma StableSortUnique<T>(s: seq<T>, r: seq<T>, rank: T -> int)
    requires Sorted(r, rank) && Stable(r, s, rank)
    ensures r == Sort(s, rank)
  {
    SortSortedPermutation(s, rank);
    SortStable(s, rank);
    SameTiersEqual(r, Sort(s, rank), rank);
  }

  /** Each tier of a prefix is a prefix of the tier of the whole. */
  lemma {:induction false} TierPrefix<T>(s: seq<T>, n: nat, rank: T -> int, v: int)
    requires n <= |s|
    ensures Tier(s[..n], rank, v) <= Tier(s, rank, v)
  {
    if n > 0 {
      TierPrefix(s[1..], n - 1, rank, v);
      assert s[..n][1..] == s[1..][..n - 1];
    }
  }

  /**
   * In an ordered sequence, nothing left after taking the first `n` elements ranks
   * below anything taken.
   */
  lemma SortedSplit<T>(s: seq<T>, n: nat, rank: T -> int)
    requires Sorted(s, rank) && n <= |s|
    ensures forall x, y :: x in s[..n] && y in multiset(s) - multiset(s[..n]) ==> rank(x) <= rank(y)
  {
    assert s == s[..n] + s[n..];
    assert multiset(s) - multiset(s[..n]) == multiset(s[n..]);
    forall x, y | x in s[..n] && y in s[n..] ensures rank(x) <= rank(y) {
      var i :| 0 <= i < n && s[..n][i] == x;
      var j :| 0 <= j < |s| - n && s[n..][j] == y;
      assert s[i] == x && s[n + j] == y;
    }
  }

  /** Tiers depend only on which elements share a rank, not on the rank values. */
  lemma {:induction false} TierSameClass<T>(s: seq<T>, rank1: T -> int, v1: int, rank2: T -> int, v2: int)
    requires forall x :: x in s ==> (rank1(x) == v1 <==> rank2(x) == v2)
    ensures Tier(s, rank1, v1) == Tier(s, rank2, v2)
  {
    if s != [] {
      TierSameClass(s[1..], rank1, v1, rank2, v2);
    }
  }

  /** Strictly increasing neighbours make a strictly increasing sequence. */
  lemma {:induction false} StrictlyIncreasing<T>(s: seq<T>, rank: T -> int)
    requires forall i :: 0 <= i < |s| - 1 ==> rank(s[i]) < rank(s[i + 1])
    ensures forall i, j :: 0 <= i < j < |s| ==> rank(s[i]) < rank(s[j])
  {
    if |s| > 1 {
      StrictlyIncreasing(s[1..], rank);
      forall j | 1 <= j < |s| ensures rank(s[0]) < rank(s[j]) {
        if j > 1 {
          assert rank(s[1..][0]) < rank(s[1..][j - 1]);
        }
      }
    }
  }

  /** A sequence already ordered by rank is left as it is. */
  lemma SortedFixpoint<T>(s: seq<T>, rank: T -> int)
    requires Sorted(s, rank)
    ensures Sort(s, rank) == s
  {
    StableSortUnique(s, s, rank);
  }

  function Reverse<T>(s: seq<T>): (r: seq<T>)
    ensures |r| == |s|
    ensures forall i :: 0 <= i < |s| ==> r[i] == s[|s| - 1 - i]
  {
    if s == [] then [] else Reverse(s[1..]) + [s[0]]
  }

  lemma ReverseMembers<T>(s: seq<T>)
    ensures forall x :: x in Reverse(s) <==> x in s
  {
    forall x | x in s ensures x in Reverse(s) {
      var i :| 0 <= i < |s| && s[i] == x;
      assert Reverse(s)[|s| - 1 - i] == x;
    }
  }

  /** Reversing an ordered sequence orders it by the negated rank. */
  lemma ReverseSorted<T>(s: seq<T>, up: T -> int, down: T -> int)
    requires Sorted(s, up)
    requires forall x :: down(x) == -up(x)
    ensures Sorted(Reverse(s), down)
  {
    var r := Reverse(s);
    forall i, j | 0 <= i < j < |r| ensures down(r[i]) <= down(r[j]) {
      assert r[i] == s[|s| - 1 - i] && r[j] == s[|s| - 1 - j];
      assert up(s[|s| - 1 - j]) <= up(s[|s| - 1 - i]);
    }
  }

  lemma {:induction false} TierAppend<T>(a: seq<T>, b: seq<T>, rank: T -> int, v: int)
    ensures Tier(a + b, rank, v) == Tier(a, rank, v) + Tier(b, rank, v)
  {
    if a == [] {
      assert a + b == b;
    } else {
      assert (a + b)[1..] == a[1..] + b;
      TierAppend(a[1..], b, rank, v);
    }
  }

  lemma {:induction false} TierReverse<T>(s: seq<T>, rank: T -> int, v: int)
    ensures Tier(Reverse(s), rank, v) == Reverse(Tier(s, rank, v))
  {
    if s != [] {
      TierReverse(s[1..], rank, v);
      TierAppend(Reverse(s[1..]), [s[0]], rank, v);
      assert Tier([s[0]], rank, v) == if rank(s[0]) == v then [s[0]] else [];
      var t := Tier(s[1..], rank, v);
      if rank(s[0]) == v {
        assert Reverse([s[0]] + t) == Reverse(t) + [s[0]] by {
          assert ([s[0]] + t)[1..] == t;
        }
      }
    }
  }

  lemma {:induction false} TierNone<T>(s: seq<T>, rank: T -> int, v: int)
    requires forall x :: x in s ==> rank(x) != v
    ensures Tier(s, rank, v) == []
  {
    if s != [] {
      TierNone(s[1..], rank, v);
    }
  }

  /** When no two elements of `s` share a rank, each tier holds at most one element. */
  lemma {:induction false} DistinctRanksTier<T>(s: seq<T>, rank: T -> int, v: int)
    requires forall i, j :: 0 <= i < j < |s| ==> rank(s[i]) != rank(s[j])
    ensures |Tier(s, rank, v)| <= 1
  {
    if s != [] {
      DistinctRanksTier(s[1..], rank, v);
      if rank(s[0]) == v {
        forall x | x in s[1..] ensures rank(x) != v {
          var j :| 0 <= j < |s[1..]| && s[1..][j] == x;
          assert s[j + 1] == x;
        }
        TierNone(s[1..], rank, v);
      }
    }
  }

  lemma NegatedTier<T>(s: seq<T>, up: T -> int, down: T -> int, v: int)
    requires forall x :: down(x) == -up(x)
    ensures Tier(s, down, v) == Tier(s, up, -v)
  {
    TierSameClass(s, down, v, up, -v);
  }

  /**
   * Ranks that are negations of each other, with no rank shared in `s`: the
   * reversed ascending sort has, for the negated rank, the tiers of `s`.
   */
  lemma ReverseSortTier<T>(s: seq<T>, up: T -> int, down: T -> int, v: int)
    requires forall x :: down(x) == -up(x)
    requires forall i, j :: 0 <= i < j < |s| ==> down(s[i]) != down(s[j])
    ensures Tier(Reverse(Sort(s, up)), down, v) == Tier(s, down, v)
  {
    var asc := Sort(s, up);
    TierReverse(asc, down, v);
    NegatedTier(asc, up, down, v);
    SortTier(s, up, -v);
    NegatedTier(s, up, down, v);
    DistinctRanksTier(s, down, v);
    var t := Tier(s, down, v);
    assert Reverse(t) == t;
  }
}
