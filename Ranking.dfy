/**
 * Array.prototype.sort with a comparator, which ECMAScript 2019 and later
 * require to be stable. Every comparator of the task screens orders
 * elements by a key; the key is a Rank compared lexicographically, and the
 * sort is modelled as a stable insertion sort by that Rank. The lemmas show
 * that its result is sorted, a permutation of its input, keeps elements of
 * equal rank in their input order, and is the only sequence with these
 * properties, so any stable sort returns the same result.
 */
module Ranking {
  import opened Lists

  datatype Rank = Rank(major: int, minor: int)

  predicate RankLe(a: Rank, b: Rank) {
    a.major < b.major || (a.major == b.major && a.minor <= b.minor)
  }

  predicate RankLt(a: Rank, b: Rank) {
    !RankLe(b, a)
  }

  /** The elements of `s` whose rank is `k`, in their order in `s`. */
  function Select<T>(s: seq<T>, rank: T -> Rank, k: Rank): seq<T> {
    Filter(s, (x: T) => rank(x) == k)
  }

  ghost predicate Sorted<T>(s: seq<T>, rank: T -> Rank) {
    forall i, j :: 0 <= i < j < |s| ==> RankLe(rank(s[i]), rank(s[j]))
  }

  /** `s` holds the elements of `orig`, and elements of equal rank keep their relative order. */
  ghost predicate StableWrt<T>(orig: seq<T>, s: seq<T>, rank: T -> Rank) {
    forall k :: Select(s, rank, k) == Select(orig, rank, k)
  }

  /** Inserts `x` after every element whose rank is not above that of `x`. */
  function Insert<T>(s: seq<T>, x: T, rank: T -> Rank): seq<T> {
    if s == [] then [x]
    else if RankLt(rank(x), rank(s[0])) then [x] + s
    else [s[0]] + Insert(s[1..], x, rank)
  }

  /** Sorts by inserting the elements of `s` one at a time, in their order in `s`. */
  function SortByRank<T>(s: seq<T>, rank: T -> Rank): seq<T>
    decreases |s|
  {
    if s == [] then [] else Insert(SortByRank(s[..|s| - 1], rank), s[|s| - 1], rank)
  }

  lemma {:induction false} SelectCons<T>(x: T, s: seq<T>, rank: T -> Rank, k: Rank)
    ensures Select([x] + s, rank, k) == (if rank(x) == k then [x] else []) + Select(s, rank, k)
  {
    assert ([x] + s)[0] == x && ([x] + s)[1..] == s;
  }

  lemma SelectMember<T>(s: seq<T>, rank: T -> Rank, k: Rank, x: T)
    ensures x in Select(s, rank, k) <==> x in s && rank(x) == k
  {
    FilterMember(s, (y: T) => rank(y) == k, x);
  }

  lemma {:induction false} InsertMultiset<T>(s: seq<T>, x: T, rank: T -> Rank)
    ensures multiset(Insert(s, x, rank)) == multiset(s) + multiset{x}
  {
    if s != [] && !RankLt(rank(x), rank(s[0])) {
      InsertMultiset(s[1..], x, rank);
      assert s == [s[0]] + s[1..];
    }
  }

  lemma {:induction false} InsertSorted<T>(s: seq<T>, x: T, rank: T -> Rank)
    requires Sorted(s, rank)
    ensures Sorted(Insert(s, x, rank), rank)
  {
    if s != [] && !RankLt(rank(x), rank(s[0])) {
      var rest := Insert(s[1..], x, rank);
      InsertSorted(s[1..], x, rank);
      InsertMultiset(s[1..], x, rank);
      forall j | 0 <= j < |rest| ensures RankLe(rank(s[0]), rank(rest[j])) {
        assert rest[j] in multiset(s[1..]) + multiset{x};
        if rest[j] != x {
          assert rest[j] in s[1..];
        }
      }
    }
  }

  lemma {:induction false} InsertSelect<T>(s: seq<T>, x: T, rank: T -> Rank, k: Rank)
    requires Sorted(s, rank)
    ensures Select(Insert(s, x, rank), rank, k) == Select(s, rank, k) + (if rank(x) == k then [x] else [])
  {
    if s == [] {
      SelectCons(x, [], rank, k);
    } else if RankLt(rank(x), rank(s[0])) {
      SelectCons(x, s, rank, k);
      if rank(x) == k && Select(s, rank, k) != [] {
        var y := Select(s, rank, k)[0];
        SelectMember(s, rank, k, y);
        assert false;
      }
    } else {
      SelectCons(s[0], Insert(s[1..], x, rank), rank, k);
      InsertSelect(s[1..], x, rank, k);
      SelectCons(s[0], s[1..], rank, k);
      assert s == [s[0]] + s[1..];
    }
  }

  /** The sort returns a permutation of its input. */
  lemma {:induction false} SortPermutation<T>(s: seq<T>, rank: T -> Rank)
    ensures multiset(SortByRank(s, rank)) == multiset(s)
    decreases |s|
  {
    if s != [] {
      var n := |s| - 1;
      SortPermutation(s[..n], rank);
      InsertMultiset(SortByRank(s[..n], rank), s[n], rank);
      assert s == s[..n] + [s[n]];
    }
  }

  /** The sort returns a sequence in non-decreasing rank order. */
  lemma {:induction false} SortSorted<T>(s: seq<T>, rank: T -> Rank)
    ensures Sorted(SortByRank(s, rank), rank)
    decreases |s|
  {
    if s != [] {
      SortSorted(s[..|s| - 1], rank);
      InsertSorted(SortByRank(s[..|s| - 1], rank), s[|s| - 1], rank);
    }
  }

  /** The sort keeps elements of equal rank in their input order. */
  lemma {:induction false} SortStable<T>(s: seq<T>, rank: T -> Rank)
    ensures StableWrt(s, SortByRank(s, rank), rank)
    decreases |s|
  {
    if s != [] {
      var n := |s| - 1;
      forall k ensures Select(SortByRank(s, rank), rank, k) == Select(s, rank, k) {
        SortSorted(s[..n], rank);
        InsertSelect(SortByRank(s[..n], rank), s[n], rank, k);
        SortStable(s[..n], rank);
        FilterAppend(s[..n], [s[n]], (x: T) => rank(x) == k);
        SelectCons(s[n], [], rank, k);
        assert s == s[..n] + [s[n]];
      }
    }
  }

  /** Two sorted sequences that agree on the elements of every rank, in order, are equal. */
  lemma {:induction false} SortedAgreeingEqual<T>(a: seq<T>, b: seq<T>, rank: T -> Rank)
    requires Sorted(a, rank) && Sorted(b, rank)
    requires forall k :: Select(a, rank, k) == Select(b, rank, k)
    ensures a == b
    decreases |a|
  {
    if a == [] && b == [] {
    } else if a == [] {
      SelectMember(b, rank, rank(b[0]), b[0]);
    } else if b == [] {
      SelectMember(a, rank, rank(a[0]), a[0]);
    } else {
      var ka, kb := rank(a[0]), rank(b[0]);
      SelectMember(a, rank, ka, a[0]);
      SelectMember(b, rank, ka, a[0]);
      SelectMember(b, rank, kb, b[0]);
      SelectMember(a, rank, kb, b[0]);
      assert a[0] in b && b[0] in a;
      assert RankLe(kb, ka) && RankLe(ka, kb);
      assert ka == kb;
      assert a == [a[0]] + a[1..] && b == [b[0]] + b[1..];
      SelectCons(a[0], a[1..], rank, ka);
      SelectCons(b[0], b[1..], rank, ka);
      var sa, sb := Select(a, rank, ka), Select(b, rank, ka);
      assert sa == sb;
      assert a[0] == sa[0] == sb[0] == b[0];
      forall k ensures Select(a[1..], rank, k) == Select(b[1..], rank, k) {
        SelectCons(a[0], a[1..], rank, k);
        SelectCons(b[0], b[1..], rank, k);
        if k == ka {
          assert Select(a[1..], rank, k) == sa[1..];
          assert Select(b[1..], rank, k) == sb[1..];
        } else {
          assert Select(a[1..], rank, k) == Select(a, rank, k);
        }
      }
      SortedAgreeingEqual(a[1..], b[1..], rank);
    }
  }

  /**
   * Any sequence that is sorted by rank and keeps elements of equal rank in
   * their input order is the result of SortByRank.
   */
  lemma SortUnique<T>(s: seq<T>, t: seq<T>, rank: T -> Rank)
    requires Sorted(t, rank) && StableWrt(s, t, rank)
    ensures t == SortByRank(s, rank)
  {
    SortSorted(s, rank);
    SortStable(s, rank);
    SortedAgreeingEqual(t, SortByRank(s, rank), rank);
  }
}
