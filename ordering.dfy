/**
 * `Array.prototype.sort((a, b) => a.start - b.start)` on mention ranges.
 * The ECMAScript sort is stable, so it is modelled as a stable insertion
 * sort: ranges with equal `start` keep their relative order.
 */
module Ordering {
  import opened Types

  /** Ascending by `start`. */
  predicate SortedByStart(s: seq<MentionRange>)
  {
    forall i, j :: 0 <= i < j < |s| ==> s[i].start <= s[j].start
  }

  /** The ranges of `s` whose `start` is `k`, in their order in `s`. */
  function WithStart(s: seq<MentionRange>, k: int): seq<MentionRange>
  {
    if s == [] then []
    else (if s[0].start == k then [s[0]] else []) + WithStart(s[1..], k)
  }

  /** `WithStart` keeps exactly the ranges of `s` that start at `k`. */
  lemma {:induction false} WithStartMembers(s: seq<MentionRange>, k: int)
    ensures forall x :: x in WithStart(s, k) <==> x in s && x.start == k
  {
    if s != [] {
      WithStartMembers(s[1..], k);
      assert s == [s[0]] + s[1..];
    }
  }

  /** Puts `x` in front of the first range of `s` that does not start before it. */
  function Insert(x: MentionRange, s: seq<MentionRange>): seq<MentionRange>
  {
    if s == [] || x.start <= s[0].start then [x] + s else [s[0]] + Insert(x, s[1..])
  }

  function SortByStart(s: seq<MentionRange>): seq<MentionRange>
  {
    if s == [] then [] else Insert(s[0], SortByStart(s[1..]))
  }

  lemma {:induction false} InsertPermutes(x: MentionRange, s: seq<MentionRange>)
    ensures multiset(Insert(x, s)) == multiset(s) + multiset{x}
  {
    if !(s == [] || x.start <= s[0].start) {
      InsertPermutes(x, s[1..]);
      assert s == [s[0]] + s[1..];
    }
  }

  lemma {:induction false} InsertMembers(x: MentionRange, s: seq<MentionRange>)
    ensures forall y :: y in Insert(x, s) ==> y == x || y in s
  {
    if !(s == [] || x.start <= s[0].start) {
      InsertMembers(x, s[1..]);
    }
  }

  lemma SortedCons(a: MentionRange, r: seq<MentionRange>)
    requires SortedByStart(r)
    requires forall y :: y in r ==> a.start <= y.start
    ensures SortedByStart([a] + r)
  {
    forall i, j | 0 <= i < j < |[a] + r|
      ensures ([a] + r)[i].start <= ([a] + r)[j].start
    {
      assert ([a] + r)[j] == r[j - 1];
      if i > 0 {
        assert ([a] + r)[i] == r[i - 1];
      }
    }
  }

  lemma {:induction false} InsertSorted(x: MentionRange, s: seq<MentionRange>)
    requires SortedByStart(s)
    ensures SortedByStart(Insert(x, s))
  {
    if !(s == [] || x.start <= s[0].start) {
      var r := Insert(x, s[1..]);
      InsertSorted(x, s[1..]);
      InsertMembers(x, s[1..]);
      forall y | y in r ensures s[0].start <= y.start {
        if y != x {
          var m :| 0 <= m < |s[1..]| && s[1..][m] == y;
          assert s[m + 1] == y;
        }
      }
      SortedCons(s[0], r);
    }
  }

  lemma {:induction false} WithStartConcat(a: seq<MentionRange>, b: seq<MentionRange>, k: int)
    ensures WithStart(a + b, k) == WithStart(a, k) + WithStart(b, k)
  {
    if a == [] {
      assert a + b == b;
    } else {
      var h := if a[0].start == k then [a[0]] else [];
      WithStartCons(a[0], a[1..] + b, k);
      assert a + b == [a[0]] + (a[1..] + b);
      WithStartConcat(a[1..], b, k);
      assert WithStart(a, k) == h + WithStart(a[1..], k);
      ConcatAssoc(h, WithStart(a[1..], k), WithStart(b, k));
    }
  }

  lemma {:induction false} InsertWithStart(x: MentionRange, s: seq<MentionRange>, k: int)
    requires SortedByStart(s)
    ensures WithStart(Insert(x, s), k) == (if x.start == k then [x] else []) + WithStart(s, k)
  {
    if s == [] || x.start <= s[0].start {
      WithStartCons(x, s, k);
    } else {
      var r := Insert(x, s[1..]);
      var h := if s[0].start == k then [s[0]] else [];
      var xs := if x.start == k then [x] else [];
      assert Insert(x, s) == [s[0]] + r;
      InsertWithStart(x, s[1..], k);
      WithStartCons(s[0], r, k);
      assert WithStart(s, k) == h + WithStart(s[1..], k);
      SwapEmpty(h, xs, WithStart(s[1..], k));
    }
  }

  lemma WithStartCons(a: MentionRange, r: seq<MentionRange>, k: int)
    ensures WithStart([a] + r, k) == (if a.start == k then [a] else []) + WithStart(r, k)
  {
    assert ([a] + r)[1..] == r;
  }

  lemma ConcatAssoc(a: seq<MentionRange>, b: seq<MentionRange>, c: seq<MentionRange>)
    ensures a + (b + c) == (a + b) + c
  {
  }

  lemma SwapEmpty(a: seq<MentionRange>, b: seq<MentionRange>, c: seq<MentionRange>)
    requires a == [] || b == []
    ensures a + (b + c) == b + (a + c)
  {
    if a == [] {
      assert a + (b + c) == b + c && a + c == c;
    } else {
      assert b + (a + c) == a + c && b + c == c;
    }
  }

  /** The sort yields an ascending permutation of its input. */
  lemma {:induction false} SortByStartSortedPermutation(s: seq<MentionRange>)
    ensures SortedByStart(SortByStart(s))
    ensures multiset(SortByStart(s)) == multiset(s)
  {
    if s != [] {
      SortByStartSortedPermutation(s[1..]);
      InsertSorted(s[0], SortByStart(s[1..]));
      InsertPermutes(s[0], SortByStart(s[1..]));
      assert s == [s[0]] + s[1..];
    }
  }

  /** The sort is stable: ranges with the same `start` stay in input order. */
  lemma {:induction false} SortByStartStable(s: seq<MentionRange>, k: int)
    ensures WithStart(SortByStart(s), k) == WithStart(s, k)
  {
    if s != [] {
      SortByStartStable(s[1..], k);
      SortByStartSortedPermutation(s[1..]);
      InsertWithStart(s[0], SortByStart(s[1..]), k);
      WithStartConcat([s[0]], s[1..], k);
      assert s == [s[0]] + s[1..];
    }
  }

  /** Membership is what the sort preserves, in both directions. */
  lemma SortByStartMembers(s: seq<MentionRange>)
    ensures forall x :: x in SortByStart(s) <==> x in s
  {
    SortByStartSortedPermutation(s);
    forall x ensures x in SortByStart(s) <==> x in s {
      assert x in SortByStart(s) <==> x in multiset(SortByStart(s));
      assert x in s <==> x in multiset(s);
    }
  }
  /** No range occurs twice. */
  predicate NoDuplicates(s: seq<MentionRange>)
  {
    forall i, j :: 0 <= i < j < |s| ==> s[i] != s[j]
  }

  lemma NoDuplicatesConcat(a: seq<MentionRange>, b: seq<MentionRange>)
    requires NoDuplicates(a) && NoDuplicates(b)
    requires forall x :: x in a ==> x !in b
    ensures NoDuplicates(a + b)
  {
    forall i, j | 0 <= i < j < |a + b| ensures (a + b)[i] != (a + b)[j] {
      if i < |a| && j >= |a| {
        assert (a + b)[i] in a;
        assert (a + b)[j] == b[j - |a|];
      } else if i >= |a| {
        assert (a + b)[i] == b[i - |a|] && (a + b)[j] == b[j - |a|];
      }
    }
  }

  lemma {:induction false} InsertNoDuplicates(x: MentionRange, s: seq<MentionRange>)
    requires NoDuplicates(s) && x !in s
    ensures NoDuplicates(Insert(x, s))
  {
    if s == [] || x.start <= s[0].start {
      NoDuplicatesConcat([x], s);
    } else {
      InsertNoDuplicates(x, s[1..]);
      InsertMembers(x, s[1..]);
      assert s[0] !in s[1..];
      NoDuplicatesConcat([s[0]], Insert(x, s[1..]));
    }
  }

  /** Sorting introduces no duplicates. */
  lemma {:induction false} SortByStartNoDuplicates(s: seq<MentionRange>)
    requires NoDuplicates(s)
    ensures NoDuplicates(SortByStart(s))
  {
    if s != [] {
      SortByStartNoDuplicates(s[1..]);
      SortByStartMembers(s[1..]);
      assert s[0] !in s[1..];
      InsertNoDuplicates(s[0], SortByStart(s[1..]));
    }
  }
}
