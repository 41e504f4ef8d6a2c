/**
 * SpreadsheetService: the spreadsheets, their ordered sheets, one cell grid per sheet and the
 * permission records, held as the fields of one object. Every operation makes the checks the
 * service makes, in the same order, and changes nothing when one of them fails.
 *
 * Repository lookups are map lookups and the exceptions are error outcomes:
 * ResourceNotFoundException is NotFound, UnauthorizedException is Unauthorized,
 * IllegalArgumentException is InvalidArgument and IllegalStateException is InvalidState.
 */
module Service {
  import opened Wrappers
  import opened Errors
  import opened Permissions
  import opened CellRepository
  import GridOps
  import GridWriter
  import SheetOrder

  /** A spreadsheet: the owner's username and the sheet ids by orderIndex (@OrderBy("orderIndex ASC")). */
  datatype Spreadsheet = Spreadsheet(name: string, description: string, owner: string, sheets: seq<nat>)

  /** A sheet: its name, the id of its spreadsheet and its position among that spreadsheet's sheets. */
  datatype Sheet = Sheet(name: string, spreadsheet: nat, orderIndex: nat)

  // ---------------------------------------------------------------- the service invariant

  /** The list of spreadsheet `id`: each entry is a sheet of `id` whose orderIndex is its position. */
  predicate Ordered(id: nat, list: seq<nat>, sheets: map<nat, Sheet>)
  {
    forall i :: 0 <= i < |list| ==>
      list[i] in sheets && sheets[list[i]].spreadsheet == id && sheets[list[i]].orderIndex == i
  }

  predicate ListsOrdered(spreadsheets: map<nat, Spreadsheet>, sheets: map<nat, Sheet>)
  {
    forall id :: id in spreadsheets ==> Ordered(id, spreadsheets[id].sheets, sheets)
  }

  /** Every sheet belongs to a spreadsheet that lists it. */
  predicate SheetsListed(spreadsheets: map<nat, Spreadsheet>, sheets: map<nat, Sheet>)
  {
    forall s :: s in sheets ==>
      sheets[s].spreadsheet in spreadsheets && s in spreadsheets[sheets[s].spreadsheet].sheets
  }

  /** One sparse grid per sheet. */
  predicate GridsOfSheets(sheets: map<nat, Sheet>, cells: map<nat, Grid>)
  {
    cells.Keys == sheets.Keys && forall s :: s in cells ==> Sparse(cells[s])
  }

  /** Every id in use is below the next id to hand out. */
  predicate IdsBelow(spreadsheets: map<nat, Spreadsheet>, sheets: map<nat, Sheet>, nextId: nat)
  {
    (forall id :: id in spreadsheets ==> id < nextId) && (forall s :: s in sheets ==> s < nextId)
  }

  predicate OwnersAreUsers(spreadsheets: map<nat, Spreadsheet>, users: set<string>)
  {
    forall id :: id in spreadsheets ==> spreadsheets[id].owner in users
  }

  /** A record names an existing spreadsheet and an existing user other than its owner. */
  predicate RecordsValid(permissions: Records, spreadsheets: map<nat, Spreadsheet>, users: set<string>)
  {
    forall k {:trigger k in permissions} :: k in permissions ==>
      k.0 in spreadsheets && k.1 in users && k.1 != spreadsheets[k.0].owner
  }

  /** The service invariant over the service's state. */
  predicate Invariant(users: set<string>, spreadsheets: map<nat, Spreadsheet>, sheets: map<nat, Sheet>,
                      cells: map<nat, Grid>, permissions: Records, nextId: nat)
  {
    && ListsOrdered(spreadsheets, sheets)
    && SheetsListed(spreadsheets, sheets)
    && GridsOfSheets(sheets, cells)
    && IdsBelow(spreadsheets, sheets, nextId)
    && OwnersAreUsers(spreadsheets, users)
    && RecordsValid(permissions, spreadsheets, users)
  }

  /** createSpreadsheet keeps the invariant: a fresh spreadsheet with one fresh sheet at position 0. */
  lemma AddSpreadsheetKeepsInvariant(users: set<string>, spreadsheets: map<nat, Spreadsheet>, sheets: map<nat, Sheet>,
                                     cells: map<nat, Grid>, permissions: Records, nextId: nat,
                                     name: string, description: string, user: string)
    requires Invariant(users, spreadsheets, sheets, cells, permissions, nextId) && user in users
    ensures Invariant(users, spreadsheets[nextId := Spreadsheet(name, description, user, [nextId + 1])],
                      sheets[nextId + 1 := Sheet("Sheet1", nextId, 0)], cells[nextId + 1 := map[]],
                      permissions, nextId + 2)
  {
    var id := nextId;
    var spreadsheets' := spreadsheets[id := Spreadsheet(name, description, user, [id + 1])];
    var sheets' := sheets[id + 1 := Sheet("Sheet1", id, 0)];
    NewSpreadsheetListsOrdered(spreadsheets, sheets, id, spreadsheets'[id], sheets');
    NewSpreadsheetSheetsListed(spreadsheets, sheets, id, spreadsheets'[id], sheets');
    NewSheetGrid(sheets, cells, id + 1, sheets'[id + 1]);
  }

  /** A new sheet with an empty grid keeps one sparse grid per sheet. */
  lemma NewSheetGrid(sheets: map<nat, Sheet>, cells: map<nat, Grid>, s: nat, sheet: Sheet)
    requires GridsOfSheets(sheets, cells)
    ensures GridsOfSheets(sheets[s := sheet], cells[s := map[]])
  {
    assert sheets[s := sheet].Keys == sheets.Keys + {s};
    assert cells[s := map[]].Keys == cells.Keys + {s};
  }

  /** The one sheet of a fresh spreadsheet is listed by it, and every other sheet stays listed. */
  lemma NewSpreadsheetSheetsListed(spreadsheets: map<nat, Spreadsheet>, sheets: map<nat, Sheet>, id: nat,
                                   created: Spreadsheet, sheets': map<nat, Sheet>)
    requires SheetsListed(spreadsheets, sheets) && IdsBelow(spreadsheets, sheets, id)
    requires created.sheets == [id + 1] && sheets' == sheets[id + 1 := Sheet("Sheet1", id, 0)]
    ensures SheetsListed(spreadsheets[id := created], sheets')
  {
    var spreadsheets' := spreadsheets[id := created];
    forall s | s in sheets'
      ensures sheets'[s].spreadsheet in spreadsheets' && s in spreadsheets'[sheets'[s].spreadsheet].sheets
    {
      if s != id + 1 {
        assert sheets'[s] == sheets[s];
        assert sheets[s].spreadsheet in spreadsheets;
      } else {
        assert created.sheets[0] == s;
      }
    }
  }

  /** A fresh spreadsheet whose one sheet is fresh leaves every other list ordered. */
  lemma NewSpreadsheetListsOrdered(spreadsheets: map<nat, Spreadsheet>, sheets: map<nat, Sheet>, id: nat,
                                   created: Spreadsheet, sheets': map<nat, Sheet>)
    requires ListsOrdered(spreadsheets, sheets) && IdsBelow(spreadsheets, sheets, id)
    requires created.sheets == [id + 1] && sheets' == sheets[id + 1 := Sheet("Sheet1", id, 0)]
    ensures ListsOrdered(spreadsheets[id := created], sheets')
  {
    var spreadsheets' := spreadsheets[id := created];
    forall other | other in spreadsheets'
      ensures Ordered(other, spreadsheets'[other].sheets, sheets')
    {
      if other != id {
        assert Ordered(other, spreadsheets[other].sheets, sheets);
      }
    }
  }

  /** createSheet keeps the invariant: a fresh sheet at the end of its spreadsheet's list. */
  lemma AddSheetKeepsInvariant(users: set<string>, spreadsheets: map<nat, Spreadsheet>, sheets: map<nat, Sheet>,
                               cells: map<nat, Grid>, permissions: Records, nextId: nat,
                               id: nat, name: string)
    requires Invariant(users, spreadsheets, sheets, cells, permissions, nextId) && id in spreadsheets
    ensures Invariant(users, spreadsheets[id := spreadsheets[id].(sheets := spreadsheets[id].sheets + [nextId])],
                      sheets[nextId := Sheet(name, id, |spreadsheets[id].sheets|)], cells[nextId := map[]],
                      permissions, nextId + 1)
  {
    var list := spreadsheets[id].sheets;
    var spreadsheets' := spreadsheets[id := spreadsheets[id].(sheets := list + [nextId])];
    var sheets' := sheets[nextId := Sheet(name, id, |list|)];
    forall other | other in spreadsheets'
      ensures Ordered(other, spreadsheets'[other].sheets, sheets')
    {
      assert Ordered(other, spreadsheets[other].sheets, sheets);
    }
    forall s | s in sheets'
      ensures sheets'[s].spreadsheet in spreadsheets' && s in spreadsheets'[sheets'[s].spreadsheet].sheets
    {
      if s != nextId {
        assert s in spreadsheets[sheets[s].spreadsheet].sheets;
      } else {
        assert spreadsheets'[id].sheets[|list|] == s;
      }
    }
  }

  /** The sheets of one spreadsheet, as the cascade finds them. */
  function SheetsOf(sheets: map<nat, Sheet>, id: nat): (r: set<nat>)
    ensures forall s :: s in r <==> s in sheets && sheets[s].spreadsheet == id
  {
    set s | s in sheets && sheets[s].spreadsheet == id
  }

  /** The permission records left once spreadsheet `id` is gone: every record of another spreadsheet, unchanged. */
  function RecordsWithout(permissions: Records, id: nat): (r: Records)
    ensures forall k :: k in r <==> k in permissions && k.0 != id
    ensures forall k :: k in r ==> r[k] == permissions[k]
  {
    map k {:trigger k in permissions} | k in permissions && k.0 != id :: permissions[k]
  }

  /** deleteSpreadsheet keeps the invariant: the spreadsheet goes with its sheets, grids and records. */
  lemma DeleteSpreadsheetKeepsInvariant(users: set<string>, spreadsheets: map<nat, Spreadsheet>, sheets: map<nat, Sheet>,
                                        cells: map<nat, Grid>, permissions: Records, nextId: nat, id: nat)
    requires Invariant(users, spreadsheets, sheets, cells, permissions, nextId) && id in spreadsheets
    ensures Invariant(users, spreadsheets - {id}, sheets - SheetsOf(sheets, id), cells - SheetsOf(sheets, id),
                      RecordsWithout(permissions, id), nextId)
  {
    var spreadsheets', sheets' := spreadsheets - {id}, sheets - SheetsOf(sheets, id);
    forall other | other in spreadsheets'
      ensures Ordered(other, spreadsheets'[other].sheets, sheets')
    {
      assert Ordered(other, spreadsheets[other].sheets, sheets);
    }
  }

  /** Storing a sparse grid for an existing sheet keeps one sparse grid per sheet. */
  lemma GridsStayValid(sheets: map<nat, Sheet>, cells: map<nat, Grid>, sheetId: nat, h: Grid)
    requires GridsOfSheets(sheets, cells) && sheetId in sheets && Sparse(h)
    ensures GridsOfSheets(sheets, cells[sheetId := h])
  {
  }

  /** An ordered list names no sheet twice. */
  lemma OrderedIsDistinct(id: nat, list: seq<nat>, sheets: map<nat, Sheet>)
    requires Ordered(id, list, sheets)
    ensures forall i, j :: 0 <= i < j < |list| ==> list[i] != list[j]
  {
  }

  // ---------------------------------------------------------------- the decisions

  /**
   * grantPermission's checks in their order: a caller other than the owner must pass
   * checkPermission at ADMIN, then the target must exist and must not be the owner.
   */
  function GrantGate(isOwner: bool, callerExists: bool, callerRecord: Option<Level>,
                     targetExists: bool, targetIsOwner: bool): Outcome<Error>
  {
    if !isOwner && CheckPermission(false, callerExists, callerRecord, ADMIN).Fail? then
      CheckPermission(false, callerExists, callerRecord, ADMIN)
    else if !targetExists then Fail(NotFound)
    else if targetIsOwner then Fail(InvalidArgument)
    else Pass
  }

  /** A grant goes through exactly for the owner or an ADMIN, on an existing user other than the owner. */
  lemma GrantGateIff(isOwner: bool, callerExists: bool, callerRecord: Option<Level>,
                     targetExists: bool, targetIsOwner: bool)
    ensures GrantGate(isOwner, callerExists, callerRecord, targetExists, targetIsOwner).Pass? <==>
              (isOwner || (callerExists && callerRecord == Some(ADMIN))) && targetExists && !targetIsOwner
    ensures targetIsOwner ==> GrantGate(isOwner, callerExists, callerRecord, targetExists, targetIsOwner).Fail?
  {
  }

  /** The caller is authorised before the target is looked at: a refused caller sees the gate's refusal. */
  lemma GrantChecksCallerFirst(callerExists: bool, callerRecord: Option<Level>, targetExists: bool, targetIsOwner: bool)
    requires CheckPermission(false, callerExists, callerRecord, ADMIN).Fail?
    ensures GrantGate(false, callerExists, callerRecord, targetExists, targetIsOwner) ==
              CheckPermission(false, callerExists, callerRecord, ADMIN)
  {
  }

  /** revokePermission's checks in their order: only the owner, and the target must exist. */
  function RevokeGate(isOwner: bool, targetExists: bool): (o: Outcome<Error>)
    ensures o.Pass? <==> isOwner && targetExists
    ensures !isOwner ==> o == Fail(Unauthorized)
  {
    if !isOwner then Fail(Unauthorized)
    else if !targetExists then Fail(NotFound)
    else Pass
  }

  /** deleteSpreadsheet's check: only the owner, whatever records the caller holds. */
  function OwnerGate(isOwner: bool): (o: Outcome<Error>)
    ensures o.Pass? <==> isOwner
  {
    if isOwner then Pass else Fail(Unauthorized)
  }

  /** An ADMIN grantee passes checkPermission at every level yet may not delete the spreadsheet. */
  lemma AdminGranteeCannotDelete(required: Level)
    ensures CheckPermission(false, true, Some(ADMIN), required) == Pass
    ensures OwnerGate(false) == Fail(Unauthorized)
  {
  }

  // ---------------------------------------------------------------- sheet lists

  /** List.remove(Object): the first occurrence of `x` is taken out. */
  function RemoveFirst(s: seq<nat>, x: nat): (r: seq<nat>)
    ensures x in s ==> |r| == |s| - 1
    ensures x !in s ==> r == s
    ensures forall y :: y != x ==> (y in r <==> y in s)
  {
    if s == [] then []
    else if s[0] == x then s[1..]
    else
      assert s == [s[0]] + s[1..];
      [s[0]] + RemoveFirst(s[1..], x)
  }

  /** In a list where `s[p]` does not occur earlier, removing it splits the list at p. */
  lemma {:induction false} RemoveFirstAt(s: seq<nat>, p: nat)
    requires p < |s| && s[p] !in s[..p]
    ensures RemoveFirst(s, s[p]) == s[..p] + s[p + 1..]
  {
    if p > 0 {
      assert s[0] in s[..p];
      assert s[1..][p - 1] == s[p];
      assert s[1..][..p - 1] == s[1..p];
      RemoveFirstAt(s[1..], p - 1);
    }
  }

  /** The sort's view of a list of sheets: (sheet id, orderIndex) pairs. */
  function Entries(list: seq<nat>, sheets: map<nat, Sheet>): (e: seq<SheetOrder.Entry>)
    requires forall i :: 0 <= i < |list| ==> list[i] in sheets
    ensures |e| == |list|
    ensures forall i :: 0 <= i < |list| ==> e[i] == (list[i], sheets[list[i]].orderIndex)
  {
    seq(|list|, i requires 0 <= i < |list| => (list[i], sheets[list[i]].orderIndex))
  }

  /** The sheet ids of a list of entries. */
  function Ids(e: seq<SheetOrder.Entry>): (r: seq<nat>)
    ensures |r| == |e|
    ensures forall i :: 0 <= i < |e| ==> r[i] == e[i].0
  {
    seq(|e|, i requires 0 <= i < |e| => e[i].0)
  }

  lemma IdsAppend(a: seq<SheetOrder.Entry>, b: seq<SheetOrder.Entry>)
    ensures Ids(a + b) == Ids(a) + Ids(b)
  {
  }

  /** Inserting an entry adds its id to the ids. */
  lemma {:induction false} IdsOfInsert(s: seq<SheetOrder.Entry>, x: SheetOrder.Entry)
    ensures multiset(Ids(SheetOrder.Insert(s, x))) == multiset(Ids(s)) + multiset{x.0}
    decreases |s|
  {
    if s == [] {
      assert Ids([x]) == [x.0];
    } else if x.1 < s[0].1 {
      IdsAppend([x], s);
      assert Ids([x]) == [x.0];
    } else {
      IdsOfInsert(s[1..], x);
      IdsAppend([s[0]], SheetOrder.Insert(s[1..], x));
      assert s == [s[0]] + s[1..];
      IdsAppend([s[0]], s[1..]);
      assert Ids([s[0]]) == [s[0].0];
    }
  }

  /** Sorting entries permutes their ids. */
  lemma {:induction false} IdsOfSort(e: seq<SheetOrder.Entry>)
    ensures multiset(Ids(SheetOrder.Sort(e))) == multiset(Ids(e))
    decreases |e|
  {
    if e != [] {
      var init, last := e[..|e| - 1], e[|e| - 1];
      assert multiset(Ids(SheetOrder.Sort(e))) == multiset(Ids(SheetOrder.Sort(init))) + multiset{last.0} by {
        assert SheetOrder.Sort(e) == SheetOrder.Insert(SheetOrder.Sort(init), last);
        IdsOfInsert(SheetOrder.Sort(init), last);
      }
      assert multiset(Ids(e)) == multiset(Ids(init)) + multiset{last.0} by {
        assert e == init + [last];
        IdsAppend(init, [last]);
        assert Ids(e) == Ids(init) + [last.0];
      }
      IdsOfSort(init);
    }
  }

  /**
   * updateSheetOrderIndices' sort: the list sorted by orderIndex with a stable sort. The result
   * is a permutation of the list, ordered by orderIndex.
   */
  function SortedByOrderIndex(list: seq<nat>, sheets: map<nat, Sheet>): (r: seq<nat>)
    requires forall i :: 0 <= i < |list| ==> list[i] in sheets
    ensures multiset(r) == multiset(list)
    ensures forall i :: 0 <= i < |r| ==> r[i] in sheets
  {
    var e := Entries(list, sheets);
    var r := Ids(SheetOrder.Sort(e));
    IdsOfSort(e);
    assert Ids(e) == list;
    assert forall i :: 0 <= i < |r| ==> r[i] in sheets by {
      forall i | 0 <= i < |r|
        ensures r[i] in sheets
      {
        assert r[i] in multiset(list);
      }
    }
    r
  }

  /** The sorted list is ordered by orderIndex. */
  lemma SortedByOrderIndexIsOrdered(list: seq<nat>, sheets: map<nat, Sheet>)
    requires forall i :: 0 <= i < |list| ==> list[i] in sheets
    ensures forall i, j :: 0 <= i < j < |SortedByOrderIndex(list, sheets)| ==>
              sheets[SortedByOrderIndex(list, sheets)[i]].orderIndex <= sheets[SortedByOrderIndex(list, sheets)[j]].orderIndex
  {
    var e := Entries(list, sheets);
    var sorted := SheetOrder.Sort(e);
    SheetOrder.SortIsSorted(e);
    SheetOrder.SortPermutes(e);
    forall i | 0 <= i < |sorted|
      ensures sorted[i].0 in sheets && sorted[i].1 == sheets[sorted[i].0].orderIndex
    {
      assert sorted[i] in multiset(e);
      var k :| 0 <= k < |e| && e[k] == sorted[i];
    }
  }

  /** A list already in orderIndex order is left as it is. */
  lemma SortedListIsKept(list: seq<nat>, sheets: map<nat, Sheet>)
    requires forall i :: 0 <= i < |list| ==> list[i] in sheets
    requires forall i, j :: 0 <= i < j < |list| ==> sheets[list[i]].orderIndex <= sheets[list[j]].orderIndex
    ensures SortedByOrderIndex(list, sheets) == list
  {
    var e := Entries(list, sheets);
    assert SheetOrder.SortedByOrder(e);
    SheetOrder.SortedIsFixed(e);
    assert Ids(e) == list;
  }

  /** The renumbering loop: the sheet at position i of `order` gets orderIndex i, in list order. */
  function Renumber(sheets: map<nat, Sheet>, order: seq<nat>): (r: map<nat, Sheet>)
    requires forall i :: 0 <= i < |order| ==> order[i] in sheets
    ensures r.Keys == sheets.Keys
    decreases |order|
  {
    if order == [] then sheets
    else
      var prev := Renumber(sheets, order[..|order| - 1]);
      var x := order[|order| - 1];
      prev[x := prev[x].(orderIndex := |order| - 1)]
  }

  /** Renumbering changes no name and no spreadsheet, and leaves the sheets outside `order` alone. */
  lemma {:induction false} RenumberKeeps(sheets: map<nat, Sheet>, order: seq<nat>, s: nat)
    requires forall i :: 0 <= i < |order| ==> order[i] in sheets
    requires s in sheets
    ensures Renumber(sheets, order)[s].name == sheets[s].name
    ensures Renumber(sheets, order)[s].spreadsheet == sheets[s].spreadsheet
    ensures s !in order ==> Renumber(sheets, order)[s] == sheets[s]
    decreases |order|
  {
    if order != [] {
      var init := order[..|order| - 1];
      RenumberKeeps(sheets, init, s);
      if s !in order {
        assert s !in init;
      }
    }
  }

  /** With no sheet listed twice, the sheet at position i carries orderIndex i afterwards. */
  lemma {:induction false} RenumberIsDense(sheets: map<nat, Sheet>, order: seq<nat>, i: nat)
    requires forall k :: 0 <= k < |order| ==> order[k] in sheets
    requires forall k, l :: 0 <= k < l < |order| ==> order[k] != order[l]
    requires i < |order|
    ensures Renumber(sheets, order)[order[i]] == sheets[order[i]].(orderIndex := i)
    decreases |order|
  {
    var init := order[..|order| - 1];
    if i < |order| - 1 {
      assert init[i] == order[i];
      RenumberIsDense(sheets, init, i);
    } else {
      assert order[i] !in init;
      RenumberKeeps(sheets, init, order[i]);
    }
  }

  /**
   * The sheets left after deleting `sheetId` from the ordered list of spreadsheet `id`: they
   * belong to `id`, none of them twice, and they are already in orderIndex order.
   */
  lemma RemainingSheets(id: nat, list: seq<nat>, sheets: map<nat, Sheet>, sheetId: nat)
    requires Ordered(id, list, sheets) && sheetId in list
    ensures forall s :: s in RemoveFirst(list, sheetId) ==> s in sheets && sheets[s].spreadsheet == id
    ensures sheetId !in RemoveFirst(list, sheetId)
    ensures forall k, l :: 0 <= k < l < |RemoveFirst(list, sheetId)| ==>
              RemoveFirst(list, sheetId)[k] != RemoveFirst(list, sheetId)[l]
    ensures forall k :: 0 <= k < |RemoveFirst(list, sheetId)| ==> RemoveFirst(list, sheetId)[k] in sheets
    ensures SortedByOrderIndex(RemoveFirst(list, sheetId), sheets) == RemoveFirst(list, sheetId)
  {
    OrderedIsDistinct(id, list, sheets);
    var p :| 0 <= p < |list| && list[p] == sheetId;
    assert list[p] !in list[..p];
    RemoveFirstAt(list, p);
    var rest := RemoveFirst(list, sheetId);
    RestStaysSorted(id, list, sheets, p, rest);
    SortedListIsKept(rest, sheets);
    RestIsDistinct(list, p, rest);
  }

  // ---------------------------------------------------------------- the service

  class SpreadsheetService {
    var users: set<string>
    var spreadsheets: map<nat, Spreadsheet>
    var sheets: map<nat, Sheet>
    var cells: map<nat, Grid>
    var permissions: Records
    var nextId: nat

    ghost predicate Valid()
      reads this
    {
      Invariant(users, spreadsheets, sheets, cells, permissions, nextId)
    }

    /** A service over a fixed set of registered users and no spreadsheets. */
    constructor (registered: set<string>)
      ensures Valid()
      ensures users == registered && spreadsheets == map[] && sheets == map[]
      ensures cells == map[] && permissions == map[] && nextId == 0
    {
      users := registered;
      spreadsheets := map[];
      sheets := map[];
      cells := map[];
      permissions := map[];
      nextId := 0;
    }

    /** checkPermission on spreadsheet `id` for `user`. */
    function Access(id: nat, user: string, required: Level): Outcome<Error>
      reads this
      requires id in spreadsheets
    {
      CheckPermission(spreadsheets[id].owner == user, user in users, Lookup(permissions, (id, user)), required)
    }

    /** findById on a spreadsheet, then checkPermission. */
    function SpreadsheetGate(id: nat, user: string, required: Level): (o: Outcome<Error>)
      reads this
      ensures id !in spreadsheets ==> o == Fail(NotFound)
    {
      if id !in spreadsheets then Fail(NotFound) else Access(id, user, required)
    }

    /** findById on a sheet, then checkPermission on its spreadsheet. */
    function SheetGate(sheetId: nat, user: string, required: Level): (o: Outcome<Error>)
      reads this
      ensures sheetId !in sheets ==> o == Fail(NotFound)
      ensures o.Pass? ==> sheetId in sheets && sheets[sheetId].spreadsheet in spreadsheets
    {
      if sheetId !in sheets || sheets[sheetId].spreadsheet !in spreadsheets then Fail(NotFound)
      else Access(sheets[sheetId].spreadsheet, user, required)
    }

    /** Only the cells changed. */
    twostate predicate OnlyCellsChanged()
      reads this
    {
      users == old(users) && spreadsheets == old(spreadsheets) && sheets == old(sheets) &&
      permissions == old(permissions) && nextId == old(nextId)
    }

    /** Every edit ends by saving the sheet's new grid. */
    method StoreGrid(sheetId: nat, h: Grid)
      requires Valid() && sheetId in sheets && Sparse(h)
      modifies this
      ensures Valid()
      ensures cells == old(cells)[sheetId := h]
      ensures OnlyCellsChanged()
    {
      GridsStayValid(sheets, cells, sheetId, h);
      cells := cells[sheetId := h];
    }

    // ------------------------------------------------------------ spreadsheets and sheets

    /** Saves a new state that keeps the invariant; the registered users stay as they are. */
    method Commit(spreadsheets': map<nat, Spreadsheet>, sheets': map<nat, Sheet>, cells': map<nat, Grid>,
                  permissions': Records, nextId': nat)
      requires Invariant(users, spreadsheets', sheets', cells', permissions', nextId')
      modifies this
      ensures Valid()
      ensures users == old(users) && spreadsheets == spreadsheets' && sheets == sheets' && cells == cells'
      ensures permissions == permissions' && nextId == nextId'
    {
      spreadsheets, sheets, cells, permissions, nextId := spreadsheets', sheets', cells', permissions', nextId';
    }

    /** createSpreadsheet: owned by the caller, with one sheet "Sheet1" at orderIndex 0 and no cells. */
    method CreateSpreadsheet(name: string, description: string, user: string) returns (r: Result<nat, Error>)
      requires Valid()
      modifies this
      ensures Valid()
      ensures user !in old(users) ==> r == Err(NotFound) && unchanged(this)
      ensures user in old(users) ==> r.Ok? && r.value !in old(spreadsheets) && r.value + 1 !in old(sheets)
      ensures r.Ok? ==>
                spreadsheets == old(spreadsheets)[r.value := Spreadsheet(name, description, user, [r.value + 1])] &&
                sheets == old(sheets)[r.value + 1 := Sheet("Sheet1", r.value, 0)] &&
                cells == old(cells)[r.value + 1 := map[]] &&
                users == old(users) && permissions == old(permissions) && nextId == old(nextId) + 2
    {
      if user !in users {
        return Err(NotFound);
      }
      AddSpreadsheetKeepsInvariant(users, spreadsheets, sheets, cells, permissions, nextId, name, description, user);
      var id := nextId;
      var cells' := cells[id + 1 := map[]];
      Commit(spreadsheets[id := Spreadsheet(name, description, user, [id + 1])], sheets[id + 1 := Sheet("Sheet1", id, 0)],
             cells', permissions, id + 2);
      r := Ok(id);
    }

    /** createSheet: EDIT, then a new empty sheet whose orderIndex is the current number of sheets. */
    method CreateSheet(id: nat, name: string, user: string) returns (r: Result<nat, Error>)
      requires Valid()
      modifies this
      ensures Valid()
      ensures r.Err? <==> old(SpreadsheetGate(id, user, EDIT)).Fail?
      ensures r.Err? ==> r.error == old(SpreadsheetGate(id, user, EDIT)).error && unchanged(this)
      ensures r.Ok? ==> (id in old(spreadsheets) && r.value !in old(sheets) &&
                spreadsheets == old(spreadsheets)[id := old(spreadsheets[id]).(sheets := old(spreadsheets[id].sheets) + [r.value])] &&
                sheets == old(sheets)[r.value := Sheet(name, id, |old(spreadsheets[id].sheets)|)] &&
                cells == old(cells)[r.value := map[]] &&
                users == old(users) && permissions == old(permissions) && nextId == old(nextId) + 1)
    {
      var gate := SpreadsheetGate(id, user, EDIT);
      if gate.Fail? {
        return Err(gate.error);
      }
      AddSheetKeepsInvariant(users, spreadsheets, sheets, cells, permissions, nextId, id, name);
      var sheetId := nextId;
      var ss := spreadsheets[id];
      Commit(spreadsheets[id := ss.(sheets := ss.sheets + [sheetId])], sheets[sheetId := Sheet(name, id, |ss.sheets|)],
             cells[sheetId := map[]], permissions, sheetId + 1);
      r := Ok(sheetId);
    }

    /** getUserSpreadsheets: the spreadsheets the user owns together with those shared with them. */
    function UserSpreadsheets(user: string): (r: Result<set<nat>, Error>)
      reads this
      requires Valid()
      ensures r.Err? <==> user !in users
      ensures r.Err? ==> r.error == NotFound
      ensures r.Ok? ==> forall id :: id in r.value <==>
                id in spreadsheets && (spreadsheets[id].owner == user || Lookup(permissions, (id, user)).Some?)
    {
      if user !in users then Err(NotFound)
      else
        var owned := set id | id in spreadsheets && spreadsheets[id].owner == user;
        var shared := set k {:trigger k in permissions} | k in permissions && k.1 == user :: k.0;
        assert forall id :: id in shared <==> (id, user) in permissions;
        Ok(owned + shared)
    }

    /** deleteSpreadsheet: owner only; its sheets, their cells and its permission records go with it. */
    method DeleteSpreadsheet(id: nat, user: string) returns (o: Outcome<Error>)
      requires Valid()
      modifies this
      ensures Valid()
      ensures id !in old(spreadsheets) ==> o == Fail(NotFound)
      ensures id in old(spreadsheets) ==> o == OwnerGate(old(spreadsheets[id].owner) == user)
      ensures o.Fail? ==> unchanged(this)
      ensures o.Pass? ==>
                spreadsheets == old(spreadsheets) - {id} &&
                sheets == old(sheets) - SheetsOf(old(sheets), id) &&
                cells == old(cells) - SheetsOf(old(sheets), id) &&
                permissions == RecordsWithout(old(permissions), id) &&
                users == old(users) && nextId == old(nextId)
    {
      if id !in spreadsheets {
        return Fail(NotFound);
      }
      o := OwnerGate(spreadsheets[id].owner == user);
      if o.Fail? {
        return;
      }
      var doomed := SheetsOf(sheets, id);
      DeleteSpreadsheetKeepsInvariant(users, spreadsheets, sheets, cells, permissions, nextId, id);
      Commit(spreadsheets - {id}, sheets - doomed, cells - doomed, RecordsWithout(permissions, id), nextId);
    }

    // ------------------------------------------------------------ permissions

    /** grantPermission's outcome in the current state. */
    function GrantOutcome(id: nat, caller: string, target: string): Outcome<Error>
      reads this
    {
      if id !in spreadsheets then Fail(NotFound)
      else GrantGate(spreadsheets[id].owner == caller, caller in users, Lookup(permissions, (id, caller)),
                     target in users, target == spreadsheets[id].owner)
    }

    /** grantPermission: the (spreadsheet, target) record is created or overwritten with `level`. */
    method GrantPermission(id: nat, caller: string, target: string, level: Level) returns (o: Outcome<Error>)
      requires Valid()
      modifies this
      ensures Valid()
      ensures o == old(GrantOutcome(id, caller, target))
      ensures o.Fail? ==> unchanged(this)
      ensures o.Pass? ==> permissions == Upsert(old(permissions), id, target, level)
      ensures users == old(users) && spreadsheets == old(spreadsheets) && sheets == old(sheets)
      ensures cells == old(cells) && nextId == old(nextId)
    {
      o := GrantOutcome(id, caller, target);
      if o.Pass? {
        permissions := Upsert(permissions, id, target, level);
      }
    }

    /** revokePermission's outcome in the current state. */
    function RevokeOutcome(id: nat, caller: string, target: string): Outcome<Error>
      reads this
    {
      if id !in spreadsheets then Fail(NotFound)
      else RevokeGate(spreadsheets[id].owner == caller, target in users)
    }

    /** revokePermission: the (spreadsheet, target) record is deleted when there is one. */
    method RevokePermission(id: nat, caller: string, target: string) returns (o: Outcome<Error>)
      requires Valid()
      modifies this
      ensures Valid()
      ensures o == old(RevokeOutcome(id, caller, target))
      ensures o.Fail? ==> unchanged(this)
      ensures o.Pass? ==> permissions == Permissions.Remove(old(permissions), id, target)
      ensures users == old(users) && spreadsheets == old(spreadsheets) && sheets == old(sheets)
      ensures cells == old(cells) && nextId == old(nextId)
    {
      o := RevokeOutcome(id, caller, target);
      if o.Pass? {
        permissions := Permissions.Remove(permissions, id, target);
      }
    }

    // ------------------------------------------------------------ cell edits

    /** updateCells: EDIT, then each update in list order. */
    method UpdateCells(sheetId: nat, updates: seq<GridOps.CellUpdate>, user: string) returns (o: Outcome<Error>)
      requires Valid()
      modifies this
      ensures Valid()
      ensures o == old(SheetGate(sheetId, user, EDIT))
      ensures o.Fail? ==> unchanged(this)
      ensures o.Pass? ==> (sheetId in old(cells) &&
                 cells == old(cells)[sheetId := GridOps.UpdateCells(old(cells[sheetId]), updates)])
      ensures OnlyCellsChanged()
    {
      o := SheetGate(sheetId, user, EDIT);
      if o.Pass? {
        var h := GridWriter.ApplyUpdates(cells[sheetId], updates);
        GridOps.UpdatesKeepSparse(cells[sheetId], updates);
        StoreGrid(sheetId, h);
      }
    }

    /** updateRow: EDIT, then the row is replaced by the trimmed non-blank values. */
    method UpdateRow(sheetId: nat, row: nat, values: seq<Option<string>>, user: string) returns (o: Outcome<Error>)
      requires Valid()
      modifies this
      ensures Valid()
      ensures o == old(SheetGate(sheetId, user, EDIT))
      ensures o.Fail? ==> unchanged(this)
      ensures o.Pass? ==> (sheetId in old(cells) &&
                 cells == old(cells)[sheetId := GridOps.ReplaceRow(old(cells[sheetId]), row, values)])
      ensures OnlyCellsChanged()
    {
      o := SheetGate(sheetId, user, EDIT);
      if o.Pass? {
        var h := GridWriter.ReplaceRowCells(cells[sheetId], row, values);
        GridOps.RowWritesKeepSparse(cells[sheetId], row, values, []);
        StoreGrid(sheetId, h);
      }
    }

    /** appendRow: EDIT, then the values go to the first unused row, whose index is returned. */
    method AppendRow(sheetId: nat, values: seq<Option<string>>, user: string) returns (r: Result<nat, Error>)
      requires Valid()
      modifies this
      ensures Valid()
      ensures r.Err? <==> old(SheetGate(sheetId, user, EDIT)).Fail?
      ensures r.Err? ==> r.error == old(SheetGate(sheetId, user, EDIT)).error && unchanged(this)
      ensures r.Ok? ==> (sheetId in old(cells) && r.value == GridOps.NextRow(old(cells[sheetId])) &&
                 cells == old(cells)[sheetId := GridOps.AppendRow(old(cells[sheetId]), values)])
      ensures OnlyCellsChanged()
    {
      var gate := SheetGate(sheetId, user, EDIT);
      if gate.Fail? {
        return Err(gate.error);
      }
      var h, newRow := GridWriter.AppendRowCells(cells[sheetId], values);
      GridOps.RowWritesKeepSparse(cells[sheetId], 0, values, []);
      StoreGrid(sheetId, h);
      r := Ok(newRow);
    }

    /** appendMultipleRows: EDIT, then input row i goes to the first unused row plus i; returns the row count. */
    method AppendMultipleRows(sheetId: nat, rows: seq<seq<Option<string>>>, user: string) returns (r: Result<nat, Error>)
      requires Valid()
      modifies this
      ensures Valid()
      ensures r.Err? <==> old(SheetGate(sheetId, user, EDIT)).Fail?
      ensures r.Err? ==> r.error == old(SheetGate(sheetId, user, EDIT)).error && unchanged(this)
      ensures r.Ok? ==> (sheetId in old(cells) && r.value == |rows| &&
                 cells == old(cells)[sheetId := GridOps.AppendRows(old(cells[sheetId]), rows)])
      ensures OnlyCellsChanged()
    {
      var gate := SheetGate(sheetId, user, EDIT);
      if gate.Fail? {
        return Err(gate.error);
      }
      var h, appended := GridWriter.AppendRowsCells(cells[sheetId], rows);
      GridOps.RowWritesKeepSparse(cells[sheetId], 0, [], rows);
      StoreGrid(sheetId, h);
      r := Ok(appended);
    }

    /** deleteRows: EDIT, then rows start .. start+count-1 are removed and the rows below move up. */
    method DeleteRows(sheetId: nat, start: nat, count: nat, user: string) returns (o: Outcome<Error>)
      requires Valid()
      modifies this
      ensures Valid()
      ensures o == old(SheetGate(sheetId, user, EDIT))
      ensures o.Fail? ==> unchanged(this)
      ensures o.Pass? ==> (sheetId in old(cells) &&
                 cells == old(cells)[sheetId := GridOps.DeleteRows(old(cells[sheetId]), start, count)])
      ensures OnlyCellsChanged()
    {
      o := SheetGate(sheetId, user, EDIT);
      if o.Pass? {
        var h := GridWriter.DeleteRowBlock(cells[sheetId], start, count);
        GridOps.ShiftsKeepSparse(cells[sheetId], start, count, 0, []);
        StoreGrid(sheetId, h);
      }
    }

    /** insertColumn: EDIT, then the columns from `col` move right and column `col` receives the values. */
    method InsertColumn(sheetId: nat, col: nat, values: seq<Option<string>>, user: string) returns (o: Outcome<Error>)
      requires Valid()
      modifies this
      ensures Valid()
      ensures o == old(SheetGate(sheetId, user, EDIT))
      ensures o.Fail? ==> unchanged(this)
      ensures o.Pass? ==> (sheetId in old(cells) &&
                 cells == old(cells)[sheetId := GridOps.InsertColumn(old(cells[sheetId]), col, values)])
      ensures OnlyCellsChanged()
    {
      o := SheetGate(sheetId, user, EDIT);
      if o.Pass? {
        var h := GridWriter.InsertColumnCells(cells[sheetId], col, values);
        GridOps.ShiftsKeepSparse(cells[sheetId], 0, 0, col, values);
        StoreGrid(sheetId, h);
      }
    }

    /** deleteColumn: EDIT, then column `col` is removed and the columns to its right move left. */
    method DeleteColumn(sheetId: nat, col: nat, user: string) returns (o: Outcome<Error>)
      requires Valid()
      modifies this
      ensures Valid()
      ensures o == old(SheetGate(sheetId, user, EDIT))
      ensures o.Fail? ==> unchanged(this)
      ensures o.Pass? ==> (sheetId in old(cells) &&
                 cells == old(cells)[sheetId := GridOps.DeleteColumn(old(cells[sheetId]), col)])
      ensures OnlyCellsChanged()
    {
      o := SheetGate(sheetId, user, EDIT);
      if o.Pass? {
        var h := GridWriter.DeleteColumnCells(cells[sheetId], col);
        GridOps.ShiftsKeepSparse(cells[sheetId], 0, 0, col, []);
        StoreGrid(sheetId, h);
      }
    }

    // ------------------------------------------------------------ deleteSheet

    /** deleteSheet's checks in their order: the sheet exists, EDIT, and it is not the last sheet. */
    function DeleteSheetGate(sheetId: nat, user: string): (o: Outcome<Error>)
      reads this
      ensures o.Pass? ==> sheetId in sheets && sheets[sheetId].spreadsheet in spreadsheets
    {
      var gate := SheetGate(sheetId, user, EDIT);
      if gate.Fail? then gate
      else if |spreadsheets[sheets[sheetId].spreadsheet].sheets| <= 1 then Fail(InvalidState)
      else Pass
    }

    /**
     * deleteSheet: the sheet and its cells go, and the remaining sheets keep their order and are
     * numbered 0, 1, 2, ... again.
     */
    method DeleteSheet(sheetId: nat, user: string) returns (o: Outcome<Error>)
      requires Valid()
      modifies this
      ensures Valid()
      ensures o == old(DeleteSheetGate(sheetId, user))
      ensures o.Fail? ==> unchanged(this)
      ensures o.Pass? ==> (old(sheetId in sheets && sheets[sheetId].spreadsheet in spreadsheets) &&
                           SheetRemoved(old(spreadsheets), old(sheets), old(cells), spreadsheets, sheets, cells, sheetId))
      ensures users == old(users) && permissions == old(permissions) && nextId == old(nextId)
    {
      o := DeleteSheetGate(sheetId, user);
      if o.Pass? {
        RemoveSheet(sheetId);
      }
    }

    /** The steps of deleteSheet after its checks. */
    method RemoveSheet(sheetId: nat)
      requires Valid() && sheetId in sheets && sheets[sheetId].spreadsheet in spreadsheets
      modifies this
      ensures Valid()
      ensures SheetRemoved(old(spreadsheets), old(sheets), old(cells), spreadsheets, sheets, cells, sheetId)
      ensures users == old(users) && permissions == old(permissions) && nextId == old(nextId)
    {
      var id := sheets[sheetId].spreadsheet;
      var rest := RemoveFirst(spreadsheets[id].sheets, sheetId);
      RemoveSheetStep(users, spreadsheets, sheets, cells, permissions, nextId, sheetId);
      var order, renumbered := UpdateSheetOrderIndices(rest, sheets);
      Commit(spreadsheets[id := spreadsheets[id].(sheets := order)], renumbered - {sheetId}, cells - {sheetId},
             permissions, nextId);
    }
  }

  /**
   * The state deleteSheet leaves behind: the spreadsheet lists its other sheets in their previous
   * order, each sheet of that list is numbered by its position, every other sheet is untouched,
   * and the deleted sheet and its grid are gone.
   */
  ghost predicate SheetRemoved(spreadsheets: map<nat, Spreadsheet>, sheets: map<nat, Sheet>, cells: map<nat, Grid>,
                               spreadsheets': map<nat, Spreadsheet>, sheets': map<nat, Sheet>, cells': map<nat, Grid>,
                               sheetId: nat)
    requires sheetId in sheets && sheets[sheetId].spreadsheet in spreadsheets
  {
    var id := sheets[sheetId].spreadsheet;
    var rest := RemoveFirst(spreadsheets[id].sheets, sheetId);
    && spreadsheets' == spreadsheets[id := spreadsheets[id].(sheets := rest)]
    && sheets'.Keys == sheets.Keys - {sheetId}
    && (forall i :: 0 <= i < |rest| ==>
          rest[i] in sheets && rest[i] in sheets' && sheets'[rest[i]] == sheets[rest[i]].(orderIndex := i))
    && (forall s :: s in sheets' && s !in rest ==> s in sheets && sheets'[s] == sheets[s])
    && cells' == cells - {sheetId}
  }

  /**
   * updateSheetOrderIndices: sort a spreadsheet's sheets by orderIndex, then give the sheet at
   * position i orderIndex i, one sheet at a time.
   */
  method UpdateSheetOrderIndices(list: seq<nat>, sheets: map<nat, Sheet>) returns (order: seq<nat>, renumbered: map<nat, Sheet>)
    requires forall i :: 0 <= i < |list| ==> list[i] in sheets
    ensures order == SortedByOrderIndex(list, sheets)
    ensures renumbered == Renumber(sheets, order)
  {
    order := SortedByOrderIndex(list, sheets);
    renumbered := sheets;
    var i := 0;
    while i < |order|
      invariant 0 <= i <= |order|
      invariant renumbered == Renumber(sheets, order[..i])
    {
      assert order[..i + 1][..i] == order[..i];
      renumbered := renumbered[order[i] := renumbered[order[i]].(orderIndex := i)];
      i := i + 1;
    }
    assert order[..i] == order;
  }

  /**
   * deleteSheet on values: with `sheetId` taken out of its spreadsheet's list, the list is still in
   * orderIndex order, and renumbering it gives the state SheetRemoved describes, which keeps the
   * invariant.
   */
  lemma RemoveSheetStep(users: set<string>, spreadsheets: map<nat, Spreadsheet>, sheets: map<nat, Sheet>,
                        cells: map<nat, Grid>, permissions: Records, nextId: nat, sheetId: nat)
    requires Invariant(users, spreadsheets, sheets, cells, permissions, nextId)
    requires sheetId in sheets && sheets[sheetId].spreadsheet in spreadsheets
    ensures var id := sheets[sheetId].spreadsheet;
            var rest := RemoveFirst(spreadsheets[id].sheets, sheetId);
            && (forall i :: 0 <= i < |rest| ==> rest[i] in sheets)
            && SortedByOrderIndex(rest, sheets) == rest
            && Invariant(users, spreadsheets[id := spreadsheets[id].(sheets := rest)], Renumber(sheets, rest) - {sheetId},
                         cells - {sheetId}, permissions, nextId)
            && SheetRemoved(spreadsheets, sheets, cells, spreadsheets[id := spreadsheets[id].(sheets := rest)],
                            Renumber(sheets, rest) - {sheetId}, cells - {sheetId}, sheetId)
  {
    var id := sheets[sheetId].spreadsheet;
    var list := spreadsheets[id].sheets;
    assert Ordered(id, list, sheets);
    RemainingSheets(id, list, sheets, sheetId);
    var rest := RemoveFirst(list, sheetId);
    var spreadsheets', sheets' := spreadsheets[id := spreadsheets[id].(sheets := rest)], Renumber(sheets, rest) - {sheetId};
    RenumberedRest(sheets, rest, sheetId, sheets');
    DeleteSheetKeepsInvariant(users, spreadsheets, sheets, cells, permissions, nextId, spreadsheets', sheets', id, sheetId, rest);
  }

  /** The renumbered sheets without the deleted one, as deleteSheet leaves them. */
  lemma RenumberedRest(sheets: map<nat, Sheet>, rest: seq<nat>, sheetId: nat, sheets': map<nat, Sheet>)
    requires forall i :: 0 <= i < |rest| ==> rest[i] in sheets
    requires forall k, l :: 0 <= k < l < |rest| ==> rest[k] != rest[l]
    requires sheetId !in rest
    requires sheets' == Renumber(sheets, rest) - {sheetId}
    ensures sheets'.Keys == sheets.Keys - {sheetId}
    ensures forall i :: 0 <= i < |rest| ==> rest[i] in sheets' && sheets'[rest[i]] == sheets[rest[i]].(orderIndex := i)
    ensures forall s :: s in sheets' ==> sheets'[s].spreadsheet == sheets[s].spreadsheet
    ensures forall s :: s in sheets' && s !in rest ==> sheets'[s] == sheets[s]
  {
    forall i | 0 <= i < |rest|
      ensures sheets'[rest[i]] == sheets[rest[i]].(orderIndex := i)
    {
      RenumberIsDense(sheets, rest, i);
    }
    forall s | s in sheets'
      ensures sheets'[s].spreadsheet == sheets[s].spreadsheet
      ensures s !in rest ==> sheets'[s] == sheets[s]
    {
      RenumberKeeps(sheets, rest, s);
    }
  }

  /** Cutting position p out of a list with no repeats leaves no repeats and drops `list[p]`. */
  lemma RestIsDistinct(list: seq<nat>, p: nat, rest: seq<nat>)
    requires p < |list| && forall i, j :: 0 <= i < j < |list| ==> list[i] != list[j]
    requires rest == list[..p] + list[p + 1..]
    ensures list[p] !in rest
    ensures forall k, l :: 0 <= k < l < |rest| ==> rest[k] != rest[l]
  {
    forall i | 0 <= i < |rest|
      ensures rest[i] == (if i < p then list[i] else list[i + 1])
    {
    }
  }

  /** Removing one entry from an ordered list leaves the orderIndex values increasing. */
  lemma RestStaysSorted(id: nat, list: seq<nat>, sheets: map<nat, Sheet>, p: nat, rest: seq<nat>)
    requires Ordered(id, list, sheets) && p < |list|
    requires rest == list[..p] + list[p + 1..]
    ensures forall i :: 0 <= i < |rest| ==> rest[i] in sheets && sheets[rest[i]].spreadsheet == id
    ensures forall s :: s in rest ==> s in sheets && sheets[s].spreadsheet == id
    ensures forall i, j :: 0 <= i < j < |rest| ==> sheets[rest[i]].orderIndex <= sheets[rest[j]].orderIndex
  {
    forall i | 0 <= i < |rest|
      ensures rest[i] == (if i < p then list[i] else list[i + 1])
    {
    }
  }

  /** deleteSheet keeps the invariant: the renumbered remaining list is ordered again. */
  lemma DeleteSheetKeepsInvariant(users: set<string>, spreadsheets: map<nat, Spreadsheet>, sheets: map<nat, Sheet>,
                                  cells: map<nat, Grid>, permissions: Records, nextId: nat,
                                  spreadsheets': map<nat, Spreadsheet>, sheets': map<nat, Sheet>,
                                  id: nat, sheetId: nat, rest: seq<nat>)
    requires Invariant(users, spreadsheets, sheets, cells, permissions, nextId)
    requires id in spreadsheets && sheetId in sheets && sheets[sheetId].spreadsheet == id
    requires rest == RemoveFirst(spreadsheets[id].sheets, sheetId) && sheetId !in rest
    requires forall s :: s in rest ==> s in sheets && sheets[s].spreadsheet == id
    requires spreadsheets' == spreadsheets[id := spreadsheets[id].(sheets := rest)]
    requires sheets'.Keys == sheets.Keys - {sheetId}
    requires forall i :: 0 <= i < |rest| ==> sheets'[rest[i]] == sheets[rest[i]].(orderIndex := i)
    requires forall s :: s in sheets' ==> sheets'[s].spreadsheet == sheets[s].spreadsheet
    requires forall s :: s in sheets' && s !in rest ==> sheets'[s] == sheets[s]
    ensures Invariant(users, spreadsheets', sheets', cells - {sheetId}, permissions, nextId)
  {
    RemainingListsOrdered(spreadsheets, sheets, spreadsheets', sheets', id, sheetId, rest);
    RemainingSheetsListed(spreadsheets, sheets, spreadsheets', sheets', id, sheetId, rest);
    RemainingRest(users, spreadsheets, sheets, cells, permissions, nextId, spreadsheets', sheets', id, sheetId, rest);
  }

  lemma RemainingRest(users: set<string>, spreadsheets: map<nat, Spreadsheet>, sheets: map<nat, Sheet>,
                      cells: map<nat, Grid>, permissions: Records, nextId: nat,
                      spreadsheets': map<nat, Spreadsheet>, sheets': map<nat, Sheet>, id: nat, sheetId: nat,
                      rest: seq<nat>)
    requires GridsOfSheets(sheets, cells) && IdsBelow(spreadsheets, sheets, nextId)
    requires OwnersAreUsers(spreadsheets, users) && RecordsValid(permissions, spreadsheets, users)
    requires id in spreadsheets && spreadsheets' == spreadsheets[id := spreadsheets[id].(sheets := rest)]
    requires sheets'.Keys == sheets.Keys - {sheetId}
    ensures GridsOfSheets(sheets', cells - {sheetId}) && IdsBelow(spreadsheets', sheets', nextId)
    ensures OwnersAreUsers(spreadsheets', users) && RecordsValid(permissions, spreadsheets', users)
  {
    assert spreadsheets'.Keys == spreadsheets.Keys;
  }

  lemma RemainingListsOrdered(spreadsheets: map<nat, Spreadsheet>, sheets: map<nat, Sheet>,
                              spreadsheets': map<nat, Spreadsheet>, sheets': map<nat, Sheet>,
                              id: nat, sheetId: nat, rest: seq<nat>)
    requires ListsOrdered(spreadsheets, sheets) && id in spreadsheets
    requires sheetId in sheets && sheets[sheetId].spreadsheet == id && sheetId !in rest
    requires forall s :: s in rest ==> s in sheets && sheets[s].spreadsheet == id
    requires spreadsheets' == spreadsheets[id := spreadsheets[id].(sheets := rest)]
    requires sheets'.Keys == sheets.Keys - {sheetId}
    requires forall i :: 0 <= i < |rest| ==> sheets'[rest[i]] == sheets[rest[i]].(orderIndex := i)
    requires forall s :: s in sheets' && s !in rest ==> sheets'[s] == sheets[s]
    ensures ListsOrdered(spreadsheets', sheets')
  {
    forall other | other in spreadsheets' && other != id
      ensures Ordered(other, spreadsheets'[other].sheets, sheets')
    {
      var list := spreadsheets[other].sheets;
      assert Ordered(other, list, sheets);
      forall i | 0 <= i < |list|
        ensures list[i] in sheets' && sheets'[list[i]] == sheets[list[i]]
      {
        assert list[i] !in rest;
      }
    }
  }

  lemma RemainingSheetsListed(spreadsheets: map<nat, Spreadsheet>, sheets: map<nat, Sheet>,
                              spreadsheets': map<nat, Spreadsheet>, sheets': map<nat, Sheet>,
                              id: nat, sheetId: nat, rest: seq<nat>)
    requires SheetsListed(spreadsheets, sheets) && id in spreadsheets
    requires rest == RemoveFirst(spreadsheets[id].sheets, sheetId)
    requires spreadsheets' == spreadsheets[id := spreadsheets[id].(sheets := rest)]
    requires sheets'.Keys == sheets.Keys - {sheetId}
    requires forall s :: s in sheets' ==> sheets'[s].spreadsheet == sheets[s].spreadsheet
    ensures SheetsListed(spreadsheets', sheets')
  {
    forall s | s in sheets'
      ensures sheets'[s].spreadsheet in spreadsheets' && s in spreadsheets'[sheets'[s].spreadsheet].sheets
    {
      assert s in spreadsheets[sheets[s].spreadsheet].sheets;
    }
  }
}
