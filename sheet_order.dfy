/**
 * The ordering step of deleteSheet (updateSheetOrderIndices): the remaining sheets are sorted by
 * their current orderIndex with List.sort, a stable sort. A sheet enters the sort as an entry
 * (sheet id, orderIndex).
 */
module SheetOrder {

  /** A sheet as the sort sees it: (sheet id, orderIndex). */
  type Entry = (nat, nat)

  /** Ordered by orderIndex, as `Integer.compare(a.getOrderIndex(), b.getOrderIndex())` orders. */
  predicate SortedByOrder(s: seq<Entry>)
  {
    forall i, j :: 0 <= i < j < |s| ==> s[i].1 <= s[j].1
  }

  /** Insert `x` into a sorted list after every entry whose orderIndex is not greater. */
  function Insert(s: seq<Entry>, x: Entry): (r: seq<Entry>)
    ensures |r| == |s| + 1
  {
    if s == [] then [x]
    else if x.1 < s[0].1 then [x] + s
    else
      assert s == [s[0]] + s[1..];
      [s[0]] + Insert(s[1..], x)
  }

  /** The tail of a sorted list is sorted, and its head comes first. */
  lemma SortedTail(s: seq<Entry>)
    requires s != [] && SortedByOrder(s)
    ensures SortedByOrder(s[1..])
    ensures forall i :: 0 <= i < |s| ==> s[0].1 <= s[i].1
  {
    forall i, j | 0 <= i < j < |s[1..]|
      ensures s[1..][i].1 <= s[1..][j].1
    {
      assert s[1..][i] == s[i + 1] && s[1..][j] == s[j + 1];
    }
  }

  /** A lower bound on the orderIndex of every entry and of `x` bounds the inserted list. */
  lemma {:induction false} InsertLowerBound(s: seq<Entry>, x: Entry, b: nat)
    requires forall i :: 0 <= i < |s| ==> b <= s[i].1
    requires b <= x.1
    ensures forall i :: 0 <= i < |Insert(s, x)| ==> b <= Insert(s, x)[i].1
  {
    if s != [] && x.1 >= s[0].1 {
      InsertLowerBound(s[1..], x, b);
    }
  }

  /** Inserting into a sorted list keeps it sorted. */
  lemma {:induction false} InsertKeepsSorted(s: seq<Entry>, x: Entry)
    requires SortedByOrder(s)
    ensures SortedByOrder(Insert(s, x))
  {
    if s != [] && x.1 >= s[0].1 {
      SortedTail(s);
      var rest := Insert(s[1..], x);
      InsertKeepsSorted(s[1..], x);
      InsertLowerBound(s[1..], x, s[0].1);
      var r := [s[0]] + rest;
      forall i, j | 0 <= i < j < |r|
        ensures r[i].1 <= r[j].1
      {
        assert r[j] == rest[j - 1];
        if i > 0 {
          assert r[i] == rest[i - 1];
        }
      }
    }
  }

  /** List.sort by orderIndex: insertion sort, which is stable. */
  function Sort(s: seq<Entry>): (r: seq<Entry>)
    ensures |r| == |s|
    decreases |s|
  {
    if s == [] then []
    else
      Insert(Sort(s[..|s| - 1]), s[|s| - 1])
  }

  /** Insert adds `x` and keeps every entry. */
  lemma {:induction false} InsertPermutes(s: seq<Entry>, x: Entry)
    ensures multiset(Insert(s, x)) == multiset(s) + multiset{x}
  {
    if s != [] && x.1 >= s[0].1 {
      InsertPermutes(s[1..], x);
      assert s == [s[0]] + s[1..];
    }
  }

  /** The sort keeps every entry: its result is a permutation of its input. */
  lemma {:induction false} SortPermutes(s: seq<Entry>)
    ensures multiset(Sort(s)) == multiset(s)
    decreases |s|
  {
    if s != [] {
      SortPermutes(s[..|s| - 1]);
      InsertPermutes(Sort(s[..|s| - 1]), s[|s| - 1]);
      assert s == s[..|s| - 1] + [s[|s| - 1]];
    }
  }

  /** The sort's result is ordered by orderIndex. */
  lemma {:induction false} SortIsSorted(s: seq<Entry>)
    ensures SortedByOrder(Sort(s))
    decreases |s|
  {
    if s != [] {
      SortIsSorted(s[..|s| - 1]);
      InsertKeepsSorted(Sort(s[..|s| - 1]), s[|s| - 1]);
    }
  }

  /** The entries of a list that carry orderIndex `k`, in list order. */
  function WithOrder(s: seq<Entry>, k: nat): (r: seq<Entry>)
    ensures |r| <= |s|
    ensures forall e :: e in r <==> e in s && e.1 == k
    decreases |s|
  {
    if s == [] then []
    else
      var init := WithOrder(s[..|s| - 1], k);
      assert s == s[..|s| - 1] + [s[|s| - 1]];
      if s[|s| - 1].1 == k then init + [s[|s| - 1]] else init
  }

  /** Filtering distributes over concatenation. */
  lemma {:induction false} WithOrderAppend(a: seq<Entry>, b: seq<Entry>, k: nat)
    ensures WithOrder(a + b, k) == WithOrder(a, k) + WithOrder(b, k)
    decreases |b|
  {
    if b == [] {
      assert a + b == a;
    } else {
      var b' := b[..|b| - 1];
      assert (a + b)[..|a + b| - 1] == a + b';
      assert (a + b)[|a + b| - 1] == b[|b| - 1];
      WithOrderAppend(a, b', k);
    }
  }

  /** Filtering a one-entry list. */
  lemma WithOrderSingle(x: Entry, k: nat)
    ensures WithOrder([x], k) == if x.1 == k then [x] else []
  {
    assert [x][..0] == [];
  }

  /** No entry of a list whose orderIndex values all exceed `k` carries `k`. */
  lemma {:induction false} NoneWithOrder(s: seq<Entry>, k: nat)
    requires forall i :: 0 <= i < |s| ==> s[i].1 > k
    ensures WithOrder(s, k) == []
    decreases |s|
  {
    if s != [] {
      NoneWithOrder(s[..|s| - 1], k);
    }
  }

  /** Inserting in front of a sorted list whose head has a greater orderIndex. */
  lemma InsertFrontWithOrder(s: seq<Entry>, x: Entry, k: nat)
    requires forall i :: 0 <= i < |s| ==> x.1 < s[i].1
    ensures WithOrder([x] + s, k) == WithOrder(s, k) + WithOrder([x], k)
  {
    WithOrderAppend([x], s, k);
    WithOrderSingle(x, k);
    if x.1 == k {
      NoneWithOrder(s, k);
    }
  }

  /**
   * Insert places `x` after every entry of its own orderIndex: among the entries with one
   * orderIndex, `x` comes last.
   */
  lemma {:induction false} InsertWithOrder(s: seq<Entry>, x: Entry, k: nat)
    requires SortedByOrder(s)
    ensures WithOrder(Insert(s, x), k) == WithOrder(s, k) + WithOrder([x], k)
    decreases |s|
  {
    if s == [] {
      assert Insert(s, x) == [x];
    } else {
      SortedTail(s);
      if x.1 < s[0].1 {
        InsertFrontWithOrder(s, x, k);
      } else {
        var rest := Insert(s[1..], x);
        assert s == [s[0]] + s[1..];
        InsertWithOrder(s[1..], x, k);
        WithOrderAppend([s[0]], rest, k);
        WithOrderAppend([s[0]], s[1..], k);
      }
    }
  }

  /**
   * The sort is stable: the entries that share an orderIndex keep their relative order.
   */
  lemma {:induction false} SortIsStable(s: seq<Entry>, k: nat)
    ensures WithOrder(Sort(s), k) == WithOrder(s, k)
    decreases |s|
  {
    if s != [] {
      var init, last := s[..|s| - 1], s[|s| - 1];
      assert s == init + [last];
      SortIsStable(init, k);
      SortIsSorted(init);
      InsertWithOrder(Sort(init), last, k);
      WithOrderAppend(init, [last], k);
    }
  }

  /** An entry whose orderIndex is not below any entry of the list goes to the end. */
  lemma {:induction false} InsertAtEnd(s: seq<Entry>, x: Entry)
    requires forall i :: 0 <= i < |s| ==> s[i].1 <= x.1
    ensures Insert(s, x) == s + [x]
  {
    if s != [] {
      InsertAtEnd(s[1..], x);
      assert s == [s[0]] + s[1..];
    }
  }

  /** Dropping the last entry of a sorted list leaves it sorted, below that entry. */
  lemma SortedInit(s: seq<Entry>)
    requires s != [] && SortedByOrder(s)
    ensures SortedByOrder(s[..|s| - 1])
    ensures forall i :: 0 <= i < |s| - 1 ==> s[i].1 <= s[|s| - 1].1
  {
  }

  /** A list already ordered by orderIndex comes out of the sort unchanged. */
  lemma {:induction false} SortedIsFixed(s: seq<Entry>)
    requires SortedByOrder(s)
    ensures Sort(s) == s
    decreases |s|
  {
    if s != [] {
      var init, last := s[..|s| - 1], s[|s| - 1];
      SortedInit(s);
      SortedIsFixed(init);
      InsertAtEnd(init, last);
      assert s == init + [last];
    }
  }
}
