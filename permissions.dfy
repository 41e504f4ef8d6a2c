/**
 * The three-level permission gate of the osivia SpreadsheetService (checkPermission) and the
 * record-store operations that grantPermission and revokePermission perform on it.
 */
module Permissions {
  import opened Wrappers
  import opened Errors

  /** PermissionType, as it appears on the wire. */
  datatype Level = VIEW | EDIT | ADMIN

  /**
   * checkPermission. The caller is the spreadsheet's owner (`isOwner`), or else a user that
   * exists or not (`userExists`) and holds at most one permission record (`record`).
   */
  function CheckPermission(isOwner: bool, userExists: bool, record: Option<Level>, required: Level): Outcome<Error>
  {
    if isOwner then Pass
    else if !userExists then Fail(NotFound)
    else if record.None? then Fail(Unauthorized)
    else if required == VIEW then Pass
    else if required == EDIT && record.value == VIEW then Fail(Unauthorized)
    else if required == ADMIN && record.value != ADMIN then Fail(Unauthorized)
    else Pass
  }

  /** An independent reading of the levels as a chain VIEW < EDIT < ADMIN. */
  function Rank(l: Level): nat
  {
    match l
    case VIEW => 0
    case EDIT => 1
    case ADMIN => 2
  }

  /** The ranks order the three levels strictly, so no two levels share a rank. */
  lemma RankOrdersLevels()
    ensures Rank(VIEW) < Rank(EDIT) < Rank(ADMIN)
    ensures forall a: Level, b: Level :: Rank(a) == Rank(b) ==> a == b
  {
  }

  /** The gate passes exactly the owner and the holders of a record ranked at least as high. */
  lemma GateMatchesRank(isOwner: bool, userExists: bool, record: Option<Level>, required: Level)
    ensures CheckPermission(isOwner, userExists, record, required).Pass? <==>
            isOwner || (userExists && record.Some? && Rank(record.value) >= Rank(required))
  {
  }

  /** The owner passes at every level, with or without a record. */
  lemma OwnerAlwaysPasses(userExists: bool, record: Option<Level>, required: Level)
    ensures CheckPermission(true, userExists, record, required) == Pass
  {
  }

  /** A non-owner without a record is refused as Unauthorized at every level. */
  lemma NoRecordIsUnauthorized(required: Level)
    ensures CheckPermission(false, true, None, required) == Fail(Unauthorized)
  {
  }

  /** The decision table for a non-owner who holds a record. */
  lemma DecisionTable(l: Level)
    ensures CheckPermission(false, true, Some(l), VIEW) == Pass
    ensures CheckPermission(false, true, Some(l), EDIT) == (if l == VIEW then Fail(Unauthorized) else Pass)
    ensures CheckPermission(false, true, Some(l), ADMIN) == (if l == ADMIN then Pass else Fail(Unauthorized))
  {
  }

  /** Passing at ADMIN implies passing at EDIT, and passing at EDIT implies passing at VIEW. */
  lemma LevelsAreNested(isOwner: bool, userExists: bool, record: Option<Level>)
    ensures CheckPermission(isOwner, userExists, record, ADMIN).Pass? ==> CheckPermission(isOwner, userExists, record, EDIT).Pass?
    ensures CheckPermission(isOwner, userExists, record, EDIT).Pass? ==> CheckPermission(isOwner, userExists, record, VIEW).Pass?
  {
  }

  /** Every refusal is NotFound (the user does not exist) or Unauthorized. */
  lemma RefusalsAreNotFoundOrUnauthorized(isOwner: bool, userExists: bool, record: Option<Level>, required: Level)
    ensures CheckPermission(isOwner, userExists, record, required) == Fail(NotFound) <==> !isOwner && !userExists
    ensures CheckPermission(isOwner, userExists, record, required).Fail? ==>
              CheckPermission(isOwner, userExists, record, required).error in {NotFound, Unauthorized}
  {
  }

  /**
   * The permission records: at most one level per (spreadsheet id, user name) pair, the unique
   * key of SpreadsheetPermission. findBySpreadsheetAndUser is `Lookup` on this map.
   */
  type Records = map<(nat, string), Level>

  /** The upsert that grantPermission performs once its checks pass. */
  function Upsert(records: Records, spreadsheet: nat, user: string, level: Level): (r: Records)
    ensures Lookup(r, (spreadsheet, user)) == Some(level)
    ensures forall k :: k != (spreadsheet, user) ==> (k in r <==> k in records)
    ensures forall k :: k != (spreadsheet, user) && k in r ==> r[k] == records[k]
  {
    records[(spreadsheet, user) := level]
  }

  /** The removal that revokePermission performs once its checks pass; nothing if absent. */
  function Remove(records: Records, spreadsheet: nat, user: string): (r: Records)
    ensures Lookup(r, (spreadsheet, user)) == None
    ensures forall k :: k != (spreadsheet, user) ==> (k in r <==> k in records)
    ensures forall k :: k != (spreadsheet, user) && k in r ==> r[k] == records[k]
    ensures (spreadsheet, user) !in records ==> r == records
  {
    records - {(spreadsheet, user)}
  }

  /** Re-granting replaces the old level: the last grant is the one recorded. */
  lemma RegrantReplaces(records: Records, spreadsheet: nat, user: string, old_: Level, new_: Level)
    ensures Upsert(Upsert(records, spreadsheet, user, old_), spreadsheet, user, new_) == Upsert(records, spreadsheet, user, new_)
  {
  }

  /** Revoking twice is the same as revoking once. */
  lemma RevokeIsIdempotent(records: Records, spreadsheet: nat, user: string)
    ensures Remove(Remove(records, spreadsheet, user), spreadsheet, user) == Remove(records, spreadsheet, user)
  {
  }
}
