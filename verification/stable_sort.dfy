/**
  Sorting an ordered dictionary by value while keeping every key with its
  value, the way PHP's `asort` does with the default comparison. Since PHP 8
  the sort is stable: entries with equal values keep their relative order.
  The model is an insertion sort, and `SortedIsUnique` shows that no other
  stable sort could give a different answer.
 */
module StableSort {
  import opened OrderedMaps

  /** Values never decrease along `m`. */
  predicate SortedByValue<K>(m: seq<Entry<K, int>>)
  {
    forall i, j :: 0 <= i < j < |m| ==> m[i].value <= m[j].value
  }

  /** The entries of `m` whose value is `v`, in the order of `m`. */
  function WithValue<K>(m: seq<Entry<K, int>>, v: int): seq<Entry<K, int>>
  {
    if m == [] then []
    else (if m[0].value == v then [m[0]] else []) + WithValue(m[1..], v)
  }

  /**
    The number of leading entries of `s` whose value is smaller than that of
    `e`: the index at which `e` is inserted.
   */
  function InsertPoint<K>(e: Entry<K, int>, s: seq<Entry<K, int>>): (c: nat)
    ensures c <= |s|
  {
    if s == [] || e.value <= s[0].value then 0
    else 1 + InsertPoint(e, s[1..])
  }

  /** Entries before the insertion point are smaller than `e`; the one at it is not. */
  lemma {:induction false} InsertPointBounds<K>(e: Entry<K, int>, s: seq<Entry<K, int>>, x: int)
    requires 0 <= x < |s|
    ensures x < InsertPoint(e, s) ==> s[x].value < e.value
    ensures x == InsertPoint(e, s) ==> e.value <= s[x].value
  {
    if e.value > s[0].value && x > 0 {
      InsertPointBounds(e, s[1..], x - 1);
    }
  }

  /** Places `e` before the first entry of `s` whose value is not smaller than its own. */
  function Insert<K>(e: Entry<K, int>, s: seq<Entry<K, int>>): seq<Entry<K, int>>
  {
    var c := InsertPoint(e, s);
    s[..c] + [e] + s[c..]
  }

  /** Inserting into a sorted sequence keeps it sorted. */
  lemma {:induction false} InsertSorted<K>(e: Entry<K, int>, s: seq<Entry<K, int>>)
    requires SortedByValue(s)
    ensures SortedByValue(Insert(e, s))
  {
    var c := InsertPoint(e, s);
    var r := Insert(e, s);
    forall i, j | 0 <= i < j < |r| ensures r[i].value <= r[j].value {
      if i < c && j == c {
        InsertPointBounds(e, s, i);
      } else if i < c && j > c {
        assert r[i] == s[i] && r[j] == s[j - 1];
      } else if i == c {
        InsertPointBounds(e, s, c);
        assert r[j] == s[j - 1];
      } else if i > c {
        assert r[i] == s[i - 1] && r[j] == s[j - 1];
      }
    }
  }

  /** Inserting adds exactly `e`. */
  lemma {:induction false} InsertPermutes<K>(e: Entry<K, int>, s: seq<Entry<K, int>>)
    ensures multiset(Insert(e, s)) == multiset(s) + multiset{e}
  {
    var c := InsertPoint(e, s);
    assert s == s[..c] + s[c..];
  }

  /** `asort`: the entries of `m` ordered by value, by insertion sort. */
  function Sort<K>(m: seq<Entry<K, int>>): (r: seq<Entry<K, int>>)
    ensures |r| == |m|
  {
    if m == [] then [] else Insert(m[0], Sort(m[1..]))
  }

  /** Sorting orders by value. */
  lemma {:induction false} SortIsSorted<K>(m: seq<Entry<K, int>>)
    ensures SortedByValue(Sort(m))
  {
    if m != [] {
      SortIsSorted(m[1..]);
      InsertSorted(m[0], Sort(m[1..]));
    }
  }

  /** Sorting only reorders: the result is a permutation of the input. */
  lemma {:induction false} SortPermutes<K>(m: seq<Entry<K, int>>)
    ensures multiset(Sort(m)) == multiset(m)
  {
    if m != [] {
      SortPermutes(m[1..]);
      InsertPermutes(m[0], Sort(m[1..]));
      assert m == [m[0]] + m[1..];
    }
  }

  /** `WithValue` distributes over concatenation. */
  lemma {:induction false} WithValueAppend<K>(a: seq<Entry<K, int>>, b: seq<Entry<K, int>>, v: int)
    ensures WithValue(a + b, v) == WithValue(a, v) + WithValue(b, v)
  {
    if a != [] {
      WithValueAppend(a[1..], b, v);
      var h := if a[0].value == v then [a[0]] else [];
      assert (a + b)[0] == a[0] && (a + b)[1..] == a[1..] + b;
      assert WithValue(a + b, v) == h + WithValue(a[1..] + b, v);
      assert WithValue(a, v) == h + WithValue(a[1..], v);
    } else {
      assert a + b == b;
    }
  }

  /** No entry holds `v`, so none is kept. */
  lemma {:induction false} WithValueAbsent<K>(a: seq<Entry<K, int>>, v: int)
    requires forall x :: 0 <= x < |a| ==> a[x].value != v
    ensures WithValue(a, v) == []
  {
    if a != [] {
      WithValueAbsent(a[1..], v);
    }
  }

  /** Inserting `e` puts it ahead of every entry that has the same value. */
  lemma {:induction false} InsertWithValue<K>(e: Entry<K, int>, s: seq<Entry<K, int>>, v: int)
    ensures WithValue(Insert(e, s), v) == (if e.value == v then [e] else []) + WithValue(s, v)
  {
    var c := InsertPoint(e, s);
    var a, b := s[..c], s[c..];
    assert s == a + b;
    WithValueAppend(a + [e], b, v);
    WithValueAppend(a, [e], v);
    WithValueAppend(a, b, v);
    assert WithValue([e], v) == (if e.value == v then [e] else []) + WithValue([e][1..], v);
    if e.value == v {
      forall x | 0 <= x < |a| ensures a[x].value != v {
        InsertPointBounds(e, s, x);
      }
      WithValueAbsent(a, v);
    }
  }

  /** Stability: for every value, the entries holding it keep their relative order. */
  lemma {:induction false} SortIsStable<K>(m: seq<Entry<K, int>>, v: int)
    ensures WithValue(Sort(m), v) == WithValue(m, v)
  {
    if m != [] {
      SortIsStable(m[1..], v);
      InsertWithValue(m[0], Sort(m[1..]), v);
    }
  }

  /** An entry of `m` with value `v` is an entry of `WithValue(m, v)`, and back. */
  lemma {:induction false} WithValueMembers<K>(m: seq<Entry<K, int>>, v: int, e: Entry<K, int>)
    ensures e in WithValue(m, v) <==> e in m && e.value == v
  {
    if m != [] {
      WithValueMembers(m[1..], v, e);
      assert m == [m[0]] + m[1..];
    }
  }

  /** A non-empty sequence has entries with the value of its first entry. */
  lemma {:induction false} NonEmptyHasValue<K>(m: seq<Entry<K, int>>)
    requires m != []
    ensures WithValue(m, m[0].value) != []
  {
  }

  /**
    Of two sorted sequences that agree on `WithValue` for every value, the
    first entry of one is no larger than the first entry of the other.
   */
  lemma {:induction false} SortedSameHead<K>(a: seq<Entry<K, int>>, b: seq<Entry<K, int>>)
    requires SortedByValue(b)
    requires a != [] && b != []
    requires WithValue(a, a[0].value) == WithValue(b, a[0].value)
    ensures b[0].value <= a[0].value
  {
    var va := a[0].value;
    assert WithValue(a, va)[0] == a[0];
    WithValueMembers(b, va, a[0]);
    var i :| 0 <= i < |b| && b[i] == a[0];
  }

  /** Two sequences with the same first entry agree on `WithValue` iff their tails do. */
  lemma {:induction false} WithValueTails<K>(a: seq<Entry<K, int>>, b: seq<Entry<K, int>>)
    requires a != [] && b != [] && a[0] == b[0]
    requires forall v :: WithValue(a, v) == WithValue(b, v)
    ensures forall v :: WithValue(a[1..], v) == WithValue(b[1..], v)
  {
    forall v ensures WithValue(a[1..], v) == WithValue(b[1..], v) {
      var x := if a[0].value == v then [a[0]] else [];
      assert WithValue(a, v) == x + WithValue(a[1..], v);
      assert WithValue(b, v) == x + WithValue(b[1..], v);
      assert WithValue(a[1..], v) == WithValue(a, v)[|x|..];
      assert WithValue(b[1..], v) == WithValue(b, v)[|x|..];
    }
  }

  /**
    A sorted sequence is determined by its entries per value: two sorted
    sequences that agree on `WithValue` for every value are equal.
   */
  lemma {:induction false} SortedIsUnique<K(!new)>(a: seq<Entry<K, int>>, b: seq<Entry<K, int>>)
    requires SortedByValue(a) && SortedByValue(b)
    requires forall v :: WithValue(a, v) == WithValue(b, v)
    ensures a == b
  {
    if a == [] && b != [] {
      NonEmptyHasValue(b);
      assert false;
    } else if a != [] && b == [] {
      NonEmptyHasValue(a);
      assert false;
    } else if a != [] {
      SortedSameHead(a, b);
      SortedSameHead(b, a);
      assert WithValue(a, a[0].value)[0] == a[0] && WithValue(b, b[0].value)[0] == b[0];
      WithValueTails(a, b);
      assert SortedByValue(a[1..]) && SortedByValue(b[1..]);
      SortedIsUnique(a[1..], b[1..]);
      assert a == [a[0]] + a[1..] && b == [b[0]] + b[1..];
    }
  }

  /** `Sort` is the only stable sort: any sorted rearrangement that is stable equals it. */
  lemma {:induction false} SortIsTheStableSort<K(!new)>(m: seq<Entry<K, int>>, t: seq<Entry<K, int>>)
    requires SortedByValue(t)
    requires forall v :: WithValue(t, v) == WithValue(m, v)
    ensures t == Sort(m)
  {
    forall v ensures WithValue(t, v) == WithValue(Sort(m), v) {
      SortIsStable(m, v);
    }
    SortIsSorted(m);
    SortedIsUnique(t, Sort(m));
  }

  /** Inserting an entry with a fresh key keeps the keys distinct. */
  lemma {:induction false} InsertKeepsKeysUnique<K>(e: Entry<K, int>, s: seq<Entry<K, int>>)
    requires UniqueKeys(s)
    requires forall x :: x in s ==> x.key != e.key
    ensures UniqueKeys(Insert(e, s))
  {
    var c := InsertPoint(e, s);
    var r := Insert(e, s);
    forall i, j | 0 <= i < j < |r| ensures r[i].key != r[j].key {
      if i == c {
        assert r[j] == s[j - 1] && s[j - 1] in s;
      } else if j == c {
        assert r[i] == s[i] && s[i] in s;
      } else {
        var i' := if i < c then i else i - 1;
        var j' := if j < c then j else j - 1;
        assert r[i] == s[i'] && r[j] == s[j'] && i' < j';
      }
    }
  }

  /** Sorting a dictionary with distinct keys gives a dictionary with distinct keys. */
  lemma {:induction false} SortKeepsKeysUnique<K>(m: seq<Entry<K, int>>)
    requires UniqueKeys(m)
    ensures UniqueKeys(Sort(m))
  {
    if m != [] {
      SortKeepsKeysUnique(m[1..]);
      var t := Sort(m[1..]);
      SortKeepsEntries(m[1..]);
      assert forall x :: x in m[1..] ==> x.key != m[0].key;
      InsertKeepsKeysUnique(m[0], t);
    }
  }

  /** Sorting keeps every key with its value: the same pairs, hence the same lookups. */
  lemma {:induction false} SortKeepsPairs<K>(m: seq<Entry<K, int>>, k: K)
    requires UniqueKeys(m)
    ensures Lookup(Sort(m), k) == Lookup(m, k)
  {
    var r := Sort(m);
    SortKeepsKeysUnique(m);
    SortKeepsEntries(m);
    if Lookup(m, k).Some? {
      LookupIsMembership(m, k, Lookup(m, k).value);
      LookupIsMembership(r, k, Lookup(m, k).value);
    } else if Lookup(r, k).Some? {
      LookupIsMembership(r, k, Lookup(r, k).value);
      LookupIsMembership(m, k, Lookup(r, k).value);
    }
  }

  /** Sorting neither adds nor drops a key. */
  lemma {:induction false} SortKeepsKeys<K>(m: seq<Entry<K, int>>, k: K)
    ensures k in Keys(Sort(m)) <==> k in Keys(m)
  {
    var r := Sort(m);
    SortKeepsEntries(m);
    if k in Keys(r) {
      var i :| 0 <= i < |r| && r[i].key == k;
      assert r[i] in m;
      var j :| 0 <= j < |m| && m[j] == r[i];
      assert Keys(m)[j] == k;
    }
    if k in Keys(m) {
      var i :| 0 <= i < |m| && m[i].key == k;
      assert m[i] in r;
      var j :| 0 <= j < |r| && r[j] == m[i];
      assert Keys(r)[j] == k;
    }
  }

  /** Sorting neither adds nor drops an entry. */
  lemma {:induction false} SortKeepsEntries<K>(m: seq<Entry<K, int>>)
    ensures forall e :: e in Sort(m) <==> e in m
  {
    var r := Sort(m);
    SortPermutes(m);
    forall e ensures e in r <==> e in m {
      assert e in r <==> e in multiset(r);
      assert e in m <==> e in multiset(m);
    }
  }

  /**
    Stability, pairwise: of two entries with equal values, the one that comes
    first in `m` comes first in `Sort(m)`.
   */
  lemma {:induction false} SortKeepsTiesInOrder<K>(m: seq<Entry<K, int>>, p: int, q: int, i: int, j: int)
    requires UniqueKeys(m)
    requires 0 <= p < q < |m| && m[p].value == m[q].value
    requires 0 <= i < |m| && 0 <= j < |m|
    requires Sort(m)[i] == m[p] && Sort(m)[j] == m[q]
    ensures i < j
  {
    var tail := Sort(m[1..]);
    var c := InsertPoint(m[0], tail);
    if p == 0 {
      SortCons(m);
      HeadNotInSortedTail(m, q);
      if j < c {
        InsertPointBounds(m[0], tail, j);
      }
    } else {
      var i' := SortTailIndex(m, p, i);
      var j' := SortTailIndex(m, q, j);
      assert UniqueKeys(m[1..]);
      SortKeepsTiesInOrder(m[1..], p - 1, q - 1, i', j');
    }
  }

  /**
    An entry other than the first sits at index `i` of `Sort(m)` exactly when
    it sits at the corresponding index `i'` of the sorted tail, the indices
    from the insertion point of `m[0]` on being shifted by one.
   */
  lemma {:induction false} SortTailIndex<K>(m: seq<Entry<K, int>>, p: int, i: int) returns (i': int)
    requires UniqueKeys(m)
    requires 0 < p < |m| && 0 <= i < |m| && Sort(m)[i] == m[p]
    ensures var c := InsertPoint(m[0], Sort(m[1..]));
      && 0 <= i' < |m| - 1 && Sort(m[1..])[i'] == m[1..][p - 1]
      && i' == (if i < c then i else i - 1)
  {
    var tail := Sort(m[1..]);
    var c := InsertPoint(m[0], tail);
    HeadNotInSortedTail(m, p);
    InsertAt(m[0], tail, i);
    i' := if i < c then i else i - 1;
  }

  /** Where each entry of `Insert(e, s)` comes from. */
  lemma {:induction false} InsertAt<K>(e: Entry<K, int>, s: seq<Entry<K, int>>, x: int)
    requires 0 <= x <= |s|
    ensures var c := InsertPoint(e, s);
      Insert(e, s)[x] == (if x < c then s[x] else if x == c then e else s[x - 1])
  {
    var c := InsertPoint(e, s);
    var a := s[..c] + [e];
    assert Insert(e, s) == a + s[c..];
    if x > c {
      assert (a + s[c..])[x] == s[c..][x - c - 1];
    }
  }

  /** Where each entry of `Sort(m)` comes from: the sorted tail with `m[0]` inserted. */
  lemma {:induction false} SortCons<K>(m: seq<Entry<K, int>>)
    requires m != []
    ensures var tail := Sort(m[1..]);
      var c := InsertPoint(m[0], tail);
      forall x :: 0 <= x < |m| ==>
        Sort(m)[x] == (if x < c then tail[x] else if x == c then m[0] else tail[x - 1])
  {
    forall x | 0 <= x < |m|
      ensures Sort(m)[x] == Insert(m[0], Sort(m[1..]))[x]
    {
      InsertAt(m[0], Sort(m[1..]), x);
    }
  }

  /** With distinct keys, the first entry is not in the sorted tail and every other is. */
  lemma {:induction false} HeadNotInSortedTail<K>(m: seq<Entry<K, int>>, q: int)
    requires UniqueKeys(m)
    requires 0 < q < |m|
    ensures m[0] !in Sort(m[1..]) && m[q] in Sort(m[1..]) && m[q] != m[0]
  {
    SortKeepsEntries(m[1..]);
    assert forall x :: x in m[1..] ==> x.key != m[0].key;
    assert m[q] in m[1..];
  }

  /** Every entry of `m` has a place in `Sort(m)`. */
  lemma {:induction false} SortIndexOf<K>(m: seq<Entry<K, int>>, p: int) returns (i: int)
    requires 0 <= p < |m|
    ensures 0 <= i < |m| && Sort(m)[i] == m[p]
  {
    SortKeepsEntries(m);
    assert m[p] in Sort(m);
    i :| 0 <= i < |m| && Sort(m)[i] == m[p];
  }

  /**
    The rank of an entry after sorting: `m[p]` lands before `m[q]` exactly
    when its value is smaller, or the values are equal and it comes first
    in `m`.
   */
  lemma {:induction false} SortRanks<K>(m: seq<Entry<K, int>>, p: int, q: int, i: int, j: int)
    requires UniqueKeys(m)
    requires 0 <= p < |m| && 0 <= q < |m|
    requires 0 <= i < |m| && 0 <= j < |m|
    requires Sort(m)[i] == m[p] && Sort(m)[j] == m[q]
    ensures i < j <==> m[p].value < m[q].value || (m[p].value == m[q].value && p < q)
  {
    var t := Sort(m);
    SortKeepsKeysUnique(m);
    SortIsSorted(m);
    if m[p].value == m[q].value {
      if p < q {
        SortKeepsTiesInOrder(m, p, q, i, j);
      } else if q < p {
        SortKeepsTiesInOrder(m, q, p, j, i);
      }
    } else if i < j {
      assert t[i].value <= t[j].value;
    } else if j < i {
      assert t[j].value <= t[i].value;
    }
  }
}
