/**
 * The `participants` table and its access paths: the `Participant` entity
 * (primary key `userId`), the DAO's REPLACE insert, point select and
 * `COUNT(*)`, and `ParticipantRepository`, which forwards to the DAO and
 * turns the count into an existence check.
 *
 * The table is a map from primary key to row. Every call the repository
 * makes is appended to a ghost log, so that a caller's contract can say
 * whether the table was read or written at all.
 */
module Data {
  import opened Optional
  import opened KotlinText

  /** A row of the `participants` table. */
  datatype Participant = Participant(
    userId: Int32,
    fullName: string,
    title: string,
    registrationType: Int32,
    photoPath: Option<string>)

  type Table = map<Int32, Participant>

  /** The primary-key constraint: each row is filed under its own `userId`. */
  predicate KeyedByUserId(t: Table) {
    forall id | id in t :: t[id].userId == id
  }

  /** `SELECT * FROM participants WHERE userId = :userId`: the row, or null when there is none. */
  function SelectById(t: Table, id: Int32): (r: Option<Participant>)
    ensures r.Some? <==> id in t
    ensures r.Some? ==> r.value == t[id]
  {
    if id in t then Some(t[id]) else None
  }

  /** `SELECT COUNT(*) FROM participants WHERE userId = :userId`. */
  function CountByUserId(t: Table, id: Int32): (n: nat)
    ensures n == 0 <==> forall k | k in t :: t[k].userId != id
  {
    NoMatchIffNoneCounted(t, id);
    |set k | k in t && t[k].userId == id|
  }

  lemma NoMatchIffNoneCounted(t: Table, id: Int32)
    ensures (set k | k in t && t[k].userId == id) == {} <==> forall k | k in t :: t[k].userId != id
  {
    var matching := set k | k in t && t[k].userId == id;
    if matching != {} {
      var k :| k in matching;
      assert k in t && t[k].userId == id;
    } else {
      forall k | k in t ensures t[k].userId != id {
        assert k !in matching;
      }
    }
  }

  /**
   * `ParticipantRepository.checkUserIdExists`: the count is positive. Under
   * the primary-key constraint this is membership of the key.
   */
  predicate UserIdExists(t: Table, id: Int32)
    ensures KeyedByUserId(t) ==> (UserIdExists(t, id) <==> id in t)
  {
    if KeyedByUserId(t) then
      CountIsZeroOrOne(t, id);
      CountByUserId(t, id) > 0
    else
      CountByUserId(t, id) > 0
  }

  /** `@Insert(onConflict = REPLACE)`: the row for `p.userId`, if any, is replaced by `p`. */
  function Replace(t: Table, p: Participant): (r: Table)
    ensures r.Keys == t.Keys + {p.userId}
  {
    t[p.userId := p]
  }

  /** Since `userId` is the primary key, at most one row matches it. */
  lemma CountIsZeroOrOne(t: Table, id: Int32)
    requires KeyedByUserId(t)
    ensures CountByUserId(t, id) == if id in t then 1 else 0
  {
    var matching := set k | k in t && t[k].userId == id;
    if id in t {
      assert matching == {id};
    } else {
      assert matching == {};
    }
  }

  /** The existence check agrees with the point select. */
  lemma ExistsIffSelected(t: Table, id: Int32)
    requires KeyedByUserId(t)
    ensures UserIdExists(t, id) <==> SelectById(t, id).Some?
  {
    CountIsZeroOrOne(t, id);
  }

  /** A selected row carries the key it was selected by. */
  lemma SelectedRowHasKey(t: Table, id: Int32)
    requires KeyedByUserId(t) && SelectById(t, id).Some?
    ensures SelectById(t, id).value.userId == id
  {
  }

  /** After an insert the row is there, whether or not one with that key was there before. */
  lemma ReplaceThenSelect(t: Table, p: Participant)
    ensures SelectById(Replace(t, p), p.userId) == Some(p)
  {
  }

  /** An insert leaves the rows of every other key as they were. */
  lemma ReplaceKeepsOtherRows(t: Table, p: Participant, id: Int32)
    requires id != p.userId
    ensures SelectById(Replace(t, p), id) == SelectById(t, id)
  {
  }

  /** Inserting the same row twice leaves the table inserting it once does. */
  lemma ReplaceIdempotent(t: Table, p: Participant)
    ensures Replace(Replace(t, p), p) == Replace(t, p)
  {
  }

  /** An insert keeps the primary-key constraint. */
  lemma ReplaceKeepsKeyed(t: Table, p: Participant)
    requires KeyedByUserId(t)
    ensures KeyedByUserId(Replace(t, p))
  {
  }

  /** One call the repository made, in the order made. */
  datatype StoreCall = Insert(participant: Participant) | GetById(id: Int32) | CountById(id: Int32)

  /** What a suspending store call did: returned a value, or threw an exception with this message. */
  datatype Completion<+T> = Returned(value: T) | Threw(message: string)

  /** The text a view model shows for a store exception: `"Error: ${e.message}"`. */
  function StoreFailureText(message: string): string {
    "Error: " + message
  }

  /**
   * The repository over the single on-device table. A store call either
   * completes or throws; `fault` names the exception message of a call that
   * throws, and `None` lets it complete.
   */
  class ParticipantRepository {
    var table: Table
    ghost var calls: seq<StoreCall>

    ghost predicate Valid()
      reads this
    {
      KeyedByUserId(table)
    }

    constructor ()
      ensures Valid() && table == map[] && calls == []
    {
      table := map[];
      calls := [];
    }

    /** `insertParticipant`: REPLACE into the table; a throwing insert changes nothing. */
    method InsertParticipant(p: Participant, fault: Option<string>) returns (r: Completion<()>)
      requires Valid()
      modifies this
      ensures Valid()
      ensures calls == old(calls) + [Insert(p)]
      ensures fault.None? ==> r == Returned(()) && table == Replace(old(table), p)
      ensures fault.Some? ==> r == Threw(fault.value) && table == old(table)
    {
      calls := calls + [Insert(p)];
      if fault.Some? {
        r := Threw(fault.value);
      } else {
        ReplaceKeepsKeyed(table, p);
        table := Replace(table, p);
        r := Returned(());
      }
    }

    /** `getParticipantById`: the stored row or null; the table is only read. */
    method GetParticipantById(id: Int32, fault: Option<string>) returns (r: Completion<Option<Participant>>)
      modifies this`calls
      ensures calls == old(calls) + [GetById(id)]
      ensures r == if fault.Some? then Threw(fault.value) else Returned(SelectById(table, id))
    {
      calls := calls + [GetById(id)];
      if fault.Some? {
        r := Threw(fault.value);
      } else {
        r := Returned(SelectById(table, id));
      }
    }

    /** `checkUserIdExists`: `countByUserId(id) > 0`; the table is only read. */
    method CheckUserIdExists(id: Int32, fault: Option<string>) returns (r: Completion<bool>)
      modifies this`calls
      ensures calls == old(calls) + [CountById(id)]
      ensures r == if fault.Some? then Threw(fault.value) else Returned(UserIdExists(table, id))
    {
      calls := calls + [CountById(id)];
      if fault.Some? {
        r := Threw(fault.value);
      } else {
        r := Returned(UserIdExists(table, id));
      }
    }
  }
}
