/**
 * The cells of one sheet and the queries CellRepository declares over them.
 *
 * A sheet's cells are a finite map from (rowIndex, columnIndex) to the cell's value. Every
 * query takes the grid of ONE sheet, so no query can see another sheet's cells; the service
 * keeps one grid per sheet id.
 */
module CellRepository {
  import opened Wrappers

  /** A cell address: (rowIndex, columnIndex), both zero-based. */
  type Addr = (nat, nat)

  /** The cells of one sheet. */
  type Grid = map<Addr, string>

  /** The store holds only non-empty values: an absent cell is the blank value. */
  predicate Sparse(g: Grid)
  {
    forall a :: a in g ==> g[a] != ""
  }

  /** The row indices in use. */
  function RowIndices(g: Grid): (rows: set<nat>)
    ensures forall a {:trigger a in g} :: a in g ==> a.0 in rows
    ensures forall r :: r in rows ==> exists a {:trigger a in g} :: a in g && a.0 == r
  {
    set a {:trigger a in g} | a in g :: a.0
  }

  /** findBySheetAndRowIndex: exactly the cells of one row. */
  function FindByRowIndex(g: Grid, row: nat): (r: Grid)
    ensures forall a {:trigger a in r} :: a in r <==> a in g && a.0 == row
    ensures forall a :: a in r ==> r[a] == g[a]
  {
    map a {:trigger a in g} | a in g && a.0 == row :: g[a]
  }

  /** findBySheetAndColumnIndex: exactly the cells of one column. */
  function FindByColumnIndex(g: Grid, col: nat): (r: Grid)
    ensures forall a {:trigger a in r} :: a in r <==> a in g && a.1 == col
    ensures forall a :: a in r ==> r[a] == g[a]
  {
    map a {:trigger a in g} | a in g && a.1 == col :: g[a]
  }

  /** findBySheetAndRowIndexGreaterThan: the cells strictly below a row. */
  function FindByRowIndexGreaterThan(g: Grid, row: int): (r: Grid)
    ensures forall a {:trigger a in r} :: a in r <==> a in g && a.0 > row
    ensures forall a :: a in r ==> r[a] == g[a]
  {
    map a {:trigger a in g} | a in g && a.0 > row :: g[a]
  }

  /** findBySheetAndColumnIndexGreaterThan: the cells strictly right of a column. */
  function FindByColumnIndexGreaterThan(g: Grid, col: nat): (r: Grid)
    ensures forall a {:trigger a in r} :: a in r <==> a in g && a.1 > col
    ensures forall a :: a in r ==> r[a] == g[a]
  {
    map a {:trigger a in g} | a in g && a.1 > col :: g[a]
  }

  /** findBySheetAndColumnIndexGreaterThanEqual: the cells in or right of a column. */
  function FindByColumnIndexGreaterThanEqual(g: Grid, col: nat): (r: Grid)
    ensures forall a {:trigger a in r} :: a in r <==> a in g && a.1 >= col
    ensures forall a :: a in r ==> r[a] == g[a]
  {
    map a {:trigger a in g} | a in g && a.1 >= col :: g[a]
  }

  /** The inclusive column query is the strict one plus the column itself, and nothing more. */
  lemma InclusiveIsStrictPlusColumn(g: Grid, col: nat)
    ensures FindByColumnIndexGreaterThanEqual(g, col) ==
            FindByColumnIndexGreaterThan(g, col) + FindByColumnIndex(g, col)
    ensures FindByColumnIndexGreaterThan(g, col).Keys !! FindByColumnIndex(g, col).Keys
    ensures FindByColumnIndexGreaterThan(g, col) == FindByColumnIndexGreaterThanEqual(g, col + 1)
  {
    var ge, gt, eq := FindByColumnIndexGreaterThanEqual(g, col), FindByColumnIndexGreaterThan(g, col), FindByColumnIndex(g, col);
    assert ge.Keys == gt.Keys + eq.Keys;
    assert ge == gt + eq;
    assert gt.Keys == FindByColumnIndexGreaterThanEqual(g, col + 1).Keys;
  }

  /** The largest element of a finite non-empty set of naturals. */
  ghost function SetMax(s: set<nat>): (m: nat)
    requires s != {}
    ensures m in s && forall x :: x in s ==> x <= m
  {
    var y :| y in s;
    var rest := s - {y};
    assert forall x :: x in s ==> x == y || x in rest;
    if rest == {} then y
    else
      var m := SetMax(rest);
      if y > m then y else m
  }

  /** findMaxRowIndexBySheet: the largest row index in use, or None (SQL NULL) for no cells. */
  function FindMaxRowIndex(g: Grid): (r: Option<nat>)
    ensures r.None? <==> g == map[]
    ensures r.Some? ==> r.value in RowIndices(g)
    ensures forall a {:trigger a in g} :: a in g ==> r.Some? && a.0 <= r.value
  {
    if g == map[] then None
    else
      var rows := RowIndices(g);
      assert rows != {} by {
        var a :| a in g;
        assert a.0 in rows;
      }
      assert SetMax(rows) in rows;
      var m :| m in rows && forall x :: x in rows ==> x <= m;
      Some(m)
  }

  /** The order of findBySheetOrdered: by rowIndex, then by columnIndex. */
  predicate Before(a: Addr, b: Addr)
  {
    a.0 < b.0 || (a.0 == b.0 && a.1 < b.1)
  }

  /** The first address of a non-empty grid in that order. */
  ghost function FirstOf(g: Grid): (m: Addr)
    requires g != map[]
    ensures m in g && forall x :: x in g && x != m ==> Before(m, x)
    decreases |g|
  {
    var y :| y in g;
    RemoveOneSize(g, y);
    var rest := g - {y};
    if rest == map[] then y
    else
      var m := FirstOf(rest);
      if Before(y, m) then y else m
  }

  /** findBySheetOrdered: the cells listed by rowIndex, then by columnIndex. */
  function FindOrdered(g: Grid): (r: seq<(Addr, string)>)
    ensures |r| == |g|
    decreases |g|
  {
    if g == map[] then []
    else
      var m := First(g);
      RemoveOneSize(g, m);
      [(m, g[m])] + FindOrdered(g - {m})
  }

  /** Every entry of the ordered listing is a cell of the grid. */
  lemma {:induction false} FindOrderedListsCells(g: Grid, i: nat)
    requires i < |FindOrdered(g)|
    ensures FindOrdered(g)[i].0 in g && FindOrdered(g)[i].1 == g[FindOrdered(g)[i].0]
    decreases |g|
  {
    var m := First(g);
    RemoveOneSize(g, m);
    if i > 0 {
      FindOrderedListsCells(g - {m}, i - 1);
    }
  }

  /** Every cell of the grid is listed. */
  lemma {:induction false} FindOrderedListsAll(g: Grid, a: Addr)
    requires a in g
    ensures (a, g[a]) in FindOrdered(g)
    decreases |g|
  {
    var m := First(g);
    RemoveOneSize(g, m);
    if a != m {
      FindOrderedListsAll(g - {m}, a);
    }
  }

  /** Strictly increasing addresses, in the order of findBySheetOrdered. */
  predicate StrictlyOrdered(s: seq<(Addr, string)>)
  {
    forall i, j :: 0 <= i < j < |s| ==> Before(s[i].0, s[j].0)
  }

  /** An entry before every entry of an ordered listing extends it in order. */
  lemma OrderedCons(h: (Addr, string), tail: seq<(Addr, string)>)
    requires StrictlyOrdered(tail)
    requires forall k :: 0 <= k < |tail| ==> Before(h.0, tail[k].0)
    ensures StrictlyOrdered([h] + tail)
  {
    var s := [h] + tail;
    forall i, j | 0 <= i < j < |s|
      ensures Before(s[i].0, s[j].0)
    {
      assert s[j] == tail[j - 1];
      if i > 0 {
        assert s[i] == tail[i - 1];
      }
    }
  }

  /** The listing is strictly sorted by rowIndex, then columnIndex. */
  lemma {:induction false} FindOrderedIsSorted(g: Grid)
    ensures StrictlyOrdered(FindOrdered(g))
    decreases |g|
  {
    if g != map[] {
      var m := First(g);
      RemoveOneSize(g, m);
      var rest := g - {m};
      var tail := FindOrdered(rest);
      FindOrderedIsSorted(rest);
      forall k | 0 <= k < |tail|
        ensures Before(m, tail[k].0)
      {
        FindOrderedListsCells(rest, k);
        FirstComesFirst(g, tail[k].0);
      }
      OrderedCons((m, g[m]), tail);
    }
  }

  /** The first address comes before every other address of the grid. */
  lemma FirstComesFirst(g: Grid, x: Addr)
    requires x in g && x != First(g)
    ensures Before(First(g), x)
  {
  }

  /** Two grids that hold the same cells at every address are the same grid. */
  lemma SameCells(h: Grid, s: Grid)
    requires forall a :: a in h <==> a in s
    requires forall a :: a in h ==> h[a] == s[a]
    ensures h == s
  {
    assert h.Keys == s.Keys;
  }

  /** Grids over disjoint addresses together hold as many cells as both. */
  lemma DisjointUnionSize(x: Grid, y: Grid)
    requires x.Keys !! y.Keys
    ensures |x + y| == |x| + |y|
  {
    assert (x + y).Keys == x.Keys + y.Keys;
  }

  /** Removing addresses that are all present removes that many cells. */
  lemma RemoveKeysSize(g: Grid, k: set<Addr>)
    requires k <= g.Keys
    ensures |g - k| == |g| - |k|
  {
    assert (g - k).Keys == g.Keys - k;
    assert |g.Keys - k| == |g.Keys| - |k|;
  }

  /** Removing a present address removes exactly one cell. */
  lemma RemoveOneSize(g: Grid, m: Addr)
    requires m in g
    ensures |g - {m}| == |g| - 1
    ensures forall a :: a in g - {m} <==> a in g && a != m
  {
    assert (g - {m}).Keys == g.Keys - {m};
  }

  /** The first address of a non-empty grid. */
  function First(g: Grid): (m: Addr)
    requires g != map[]
    ensures m in g && forall x :: x in g && x != m ==> Before(m, x)
  {
    assert FirstOf(g) in g;
    var m :| m in g && forall x :: x in g && x != m ==> Before(m, x);
    m
  }
}
