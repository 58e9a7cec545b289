/**
 * The record store: the WildAnimals table and the five single-statement
 * operations of DatabaseManager. The table is modelled as the sequence of its
 * rows in storage order; each SQL statement is given its meaning over that
 * sequence by a function, and the DatabaseManager methods are proved against
 * those functions. A storage fault (connection or statement failure) is an
 * explicit parameter of each method.
 */
module Store {
  import opened Wrappers
  import opened Animal

  // ---------------------------------------------------------------------------
  // Meaning of the SQL statements over the row sequence
  // ---------------------------------------------------------------------------

  /** Some row carries tag id `id`. */
  predicate HasId(rows: seq<AnimalRow>, id: int) {
    exists k :: 0 <= k < |rows| && rows[k].id == id
  }

  /** No two rows share a tag id (the assumed primary-key constraint). */
  predicate UniqueIds(rows: seq<AnimalRow>) {
    forall i, j :: 0 <= i < |rows| && 0 <= j < |rows| && rows[i].id == rows[j].id ==> i == j
  }

  /** The number of rows with tag id `id`: the affected-row count of `... WHERE id = ?`. */
  function CountId(rows: seq<AnimalRow>, id: int): (n: nat)
    ensures n <= |rows|
    ensures n > 0 <==> HasId(rows, id)
  {
    if rows == [] then 0
    else (if rows[0].id == id then 1 else 0) + CountId(rows[1..], id)
  }

  /** `SELECT * FROM WildAnimals WHERE id = ?` read with one `rs.next()`: the first matching row, if any. */
  function SelectById(rows: seq<AnimalRow>, id: int): (r: Option<AnimalRow>)
    ensures r.None? <==> !HasId(rows, id)
    ensures r.Some? ==> r.value in rows && r.value.id == id
    ensures r.Some? ==> exists k :: 0 <= k < |rows| && rows[k] == r.value
                                  && forall j :: 0 <= j < k ==> rows[j].id != id
  {
    if rows == [] then None
    else if rows[0].id == id then Some(rows[0])
    else
      var r := SelectById(rows[1..], id);
      assert r.Some? ==> exists k :: 0 <= k < |rows| && rows[k] == r.value
                                  && forall j :: 0 <= j < k ==> rows[j].id != id by {
        if r.Some? {
          var k :| 0 <= k < |rows[1..]| && rows[1..][k] == r.value
                   && forall j :: 0 <= j < k ==> rows[1..][j].id != id;
          assert rows[k + 1] == r.value && forall j :: 0 <= j < k + 1 ==> rows[j].id != id;
        }
      }
      r
  }

  /**
   * The row written by `UPDATE WildAnimals SET species = ?, name = ?, age = ?, gender = ?,
   * weight = ?, healthStatus = ? WHERE id = ?` on a matching row: six columns from `a`, the id kept.
   */
  function Rewrite(row: AnimalRow, a: AnimalRow): (r: AnimalRow)
  {
    row.(species := a.species, name := a.name, age := a.age,
         gender := a.gender, weight := a.weight, healthStatus := a.healthStatus)
  }

  /** The table after the UPDATE statement: every row whose id is `a.id` rewritten, the others as they were. */
  function UpdateRows(rows: seq<AnimalRow>, a: AnimalRow): (r: seq<AnimalRow>)
    ensures |r| == |rows|
    ensures forall k :: 0 <= k < |rows| ==> r[k].id == rows[k].id
    ensures forall k :: 0 <= k < |rows| && rows[k].id == a.id ==> r[k] == a
    ensures forall k :: 0 <= k < |rows| && rows[k].id != a.id ==> r[k] == rows[k]
  {
    if rows == [] then []
    else [if rows[0].id == a.id then Rewrite(rows[0], a) else rows[0]] + UpdateRows(rows[1..], a)
  }

  /** The table after `DELETE FROM WildAnimals WHERE id = ?`: the rows with other ids, in their order. */
  function DeleteRows(rows: seq<AnimalRow>, id: int): (r: seq<AnimalRow>)
    ensures |r| + CountId(rows, id) == |rows|
    ensures forall x :: x in r <==> x in rows && x.id != id
  {
    if rows == [] then []
    else if rows[0].id == id then DeleteRows(rows[1..], id)
    else [rows[0]] + DeleteRows(rows[1..], id)
  }

  /** The first `n` rows, or all of them when there are fewer. */
  function Take(rows: seq<AnimalRow>, n: nat): (r: seq<AnimalRow>)
    ensures |r| <= |rows| && r == rows[..|r|]
    ensures |r| == if n < |rows| then n else |rows|
  {
    if n < |rows| then rows[..n] else rows
  }

  /**
   * What `SELECT * FROM WildAnimals` delivers to the `while (rs.next())` loop: every row, or,
   * when the read fails after `k` rows (`k == 0`: the connection or query failed), the first `k`.
   */
  function ListedRows(rows: seq<AnimalRow>, readFault: Option<nat>): (r: seq<AnimalRow>)
    ensures readFault.None? ==> r == rows
    ensures readFault == Some(0) ==> r == []
    ensures |r| <= |rows| && r == rows[..|r|]
  {
    match readFault
    case None => rows
    case Some(k) => Take(rows, k)
  }

  // ---------------------------------------------------------------------------
  // Properties of the statements
  // ---------------------------------------------------------------------------

  /** Dropping the first row keeps the ids unique. */
  lemma {:induction false} UniqueTail(rows: seq<AnimalRow>)
    requires UniqueIds(rows) && rows != []
    ensures UniqueIds(rows[1..])
  {
  }

  /** The ids of the rows after the first. */
  lemma {:induction false} NoIdInTail(rows: seq<AnimalRow>, id: int)
    requires rows != [] && !HasId(rows, id)
    ensures !HasId(rows[1..], id)
  {
  }

  /** With unique ids, a WHERE id = ? statement affects at most one row. */
  lemma {:induction false} UniqueCountAtMostOne(rows: seq<AnimalRow>, id: int)
    requires UniqueIds(rows)
    ensures CountId(rows, id) <= 1
  {
    if rows != [] {
      UniqueTail(rows);
      UniqueCountAtMostOne(rows[1..], id);
    }
  }

  /** With unique ids, the row SELECT ... WHERE id = ? finds is the only row with that id. */
  lemma {:induction false} SelectFindsTheOnlyMatch(rows: seq<AnimalRow>, k: nat)
    requires UniqueIds(rows) && k < |rows|
    ensures SelectById(rows, rows[k].id) == Some(rows[k])
  {
  }

  /** An inserted row with a fresh id is found by its id, and the table keeps unique ids. */
  lemma {:induction false} InsertThenSelect(rows: seq<AnimalRow>, a: AnimalRow)
    requires !HasId(rows, a.id)
    ensures SelectById(rows + [a], a.id) == Some(a)
  {
    if rows != [] {
      assert (rows + [a])[1..] == rows[1..] + [a];
      NoIdInTail(rows, a.id);
      InsertThenSelect(rows[1..], a);
    }
  }

  /** Inserting a row with a fresh id keeps the ids unique. */
  lemma {:induction false} InsertKeepsUnique(rows: seq<AnimalRow>, a: AnimalRow)
    requires UniqueIds(rows) && !HasId(rows, a.id)
    ensures UniqueIds(rows + [a])
  {
  }

  /** An insert does not change what any other id selects. */
  lemma {:induction false} InsertKeepsOtherSelects(rows: seq<AnimalRow>, a: AnimalRow, id: int)
    requires id != a.id
    ensures SelectById(rows + [a], id) == SelectById(rows, id)
  {
    if rows != [] {
      assert (rows + [a])[1..] == rows[1..] + [a];
      InsertKeepsOtherSelects(rows[1..], a, id);
    }
  }

  /** An UPDATE on an id that matches no row leaves the table exactly as it was. */
  lemma {:induction false} UpdateWithoutMatchIsIdentity(rows: seq<AnimalRow>, a: AnimalRow)
    requires !HasId(rows, a.id)
    ensures UpdateRows(rows, a) == rows
  {
  }

  /** After an UPDATE on a present id, selecting that id yields the record passed in, field for field. */
  lemma {:induction false} UpdateThenSelect(rows: seq<AnimalRow>, a: AnimalRow)
    requires HasId(rows, a.id)
    ensures SelectById(UpdateRows(rows, a), a.id) == Some(a)
  {
  }

  /** UPDATE never changes an id, so the ids stay unique and every other id selects what it did. */
  lemma {:induction false} UpdateKeepsIds(rows: seq<AnimalRow>, a: AnimalRow, id: int)
    requires UniqueIds(rows)
    ensures UniqueIds(UpdateRows(rows, a))
    ensures id != a.id ==> SelectById(UpdateRows(rows, a), id) == SelectById(rows, id)
  {
  }

  /** A DELETE on an id that matches no row leaves the table exactly as it was. */
  lemma {:induction false} DeleteWithoutMatchIsIdentity(rows: seq<AnimalRow>, id: int)
    requires !HasId(rows, id)
    ensures DeleteRows(rows, id) == rows
  {
    if rows != [] {
      NoIdInTail(rows, id);
      DeleteWithoutMatchIsIdentity(rows[1..], id);
    }
  }

  /** With unique ids, DELETE removes exactly the one matching row and keeps the others in order. */
  lemma {:induction false} DeleteRemovesOneRow(rows: seq<AnimalRow>, k: nat)
    requires UniqueIds(rows) && k < |rows|
    ensures DeleteRows(rows, rows[k].id) == rows[..k] + rows[k + 1..]
  {
    var id := rows[k].id;
    UniqueTail(rows);
    if k == 0 {
      assert !HasId(rows[1..], id) by {
        forall j | 0 <= j < |rows[1..]| ensures rows[1..][j].id != id { assert rows[j + 1] == rows[1..][j]; }
      }
      DeleteWithoutMatchIsIdentity(rows[1..], id);
    } else {
      assert rows[0].id != id;
      assert rows[1..][k - 1] == rows[k];
      DeleteRemovesOneRow(rows[1..], k - 1);
      RemoveFromTail(rows, k);
    }
  }

  /** Cutting row `k - 1` of the tail and putting the first row back is cutting row `k`. */
  lemma {:induction false} RemoveFromTail(rows: seq<AnimalRow>, k: nat)
    requires 0 < k < |rows|
    ensures [rows[0]] + (rows[1..][..k - 1] + rows[1..][k..]) == rows[..k] + rows[k + 1..]
  {
  }

  /** After a DELETE, no row with the id is left. */
  lemma {:induction false} DeleteThenSelect(rows: seq<AnimalRow>, id: int)
    ensures SelectById(DeleteRows(rows, id), id).None?
  {
  }

  /** Removing one row of a table with unique ids keeps them unique. */
  lemma {:induction false} RemoveRowKeepsUnique(rows: seq<AnimalRow>, k: nat)
    requires UniqueIds(rows) && k < |rows|
    ensures UniqueIds(rows[..k] + rows[k + 1..])
  {
  }

  /** DELETE keeps the ids of a table unique. */
  lemma {:induction false} DeleteKeepsUnique(rows: seq<AnimalRow>, id: int)
    requires UniqueIds(rows)
    ensures UniqueIds(DeleteRows(rows, id))
  {
    if HasId(rows, id) {
      var k :| 0 <= k < |rows| && rows[k].id == id;
      DeleteRemovesOneRow(rows, k);
      RemoveRowKeepsUnique(rows, k);
    } else {
      DeleteWithoutMatchIsIdentity(rows, id);
    }
  }

  // ---------------------------------------------------------------------------
  // DatabaseManager
  // ---------------------------------------------------------------------------

  class DatabaseManager {
    /** The file path of the SQLite database (only used to connect, which is not modelled). */
    const dbPath: string
    /** The WildAnimals table of that file, in storage order. */
    var rows: seq<AnimalRow>

    /** The table's rows have unique ids: the assumed primary key on `id`. */
    predicate Valid()
      reads this
    {
      UniqueIds(rows)
    }

    constructor (dbPath: string, table: seq<AnimalRow>)
      requires UniqueIds(table)
      ensures Valid() && this.dbPath == dbPath && rows == table
    {
      this.dbPath := dbPath;
      rows := table;
    }

    /**
     * Every row as a fresh WildAnimal, column for column and in storage order; an
     * empty table gives an empty list. A fault after `k` rows leaves the first `k`.
     */
    method GetAllWildAnimalRecords(readFault: Option<nat>) returns (animals: seq<WildAnimal>)
      ensures |animals| == |ListedRows(rows, readFault)|
      ensures forall i :: 0 <= i < |animals| ==> animals[i].Row() == rows[i]
      ensures forall i :: 0 <= i < |animals| ==> fresh(animals[i])
      ensures forall i, j :: 0 <= i < j < |animals| ==> animals[i] != animals[j]
    {
      var listed := ListedRows(rows, readFault);
      animals := [];
      var i := 0;
      while i < |listed|
        invariant 0 <= i <= |listed| && |animals| == i
        invariant forall j :: 0 <= j < i ==> animals[j].Row() == listed[j]
        invariant forall j :: 0 <= j < i ==> fresh(animals[j])
        invariant forall j, l :: 0 <= j < l < i ==> animals[j] != animals[l]
      {
        var r := listed[i];
        var animal := new WildAnimal(r.id, r.species, r.name, r.age, r.gender, r.weight, r.healthStatus);
        animals := animals + [animal];
        i := i + 1;
      }
    }

    /** The first row with tag id `id` as a fresh WildAnimal, or null when none matches or the query fails. */
    method GetWildAnimalById(id: int, fault: bool) returns (animal: WildAnimal?)
      ensures fault ==> animal == null
      ensures !fault ==> (animal == null <==> !HasId(rows, id))
      ensures animal != null ==> fresh(animal) && Some(animal.Row()) == SelectById(rows, id)
    {
      animal := null;
      if !fault {
        var r := SelectById(rows, id);
        if r.Some? {
          var v := r.value;
          animal := new WildAnimal(v.id, v.species, v.name, v.age, v.gender, v.weight, v.healthStatus);
        }
      }
    }

    /**
     * INSERT with all seven fields bound. It fails, leaving the table as it was, on a storage
     * fault or when the id is already present (the primary-key violation).
     */
    method InsertWildAnimal(animal: WildAnimal, fault: bool) returns (success: bool)
      requires Valid()
      modifies this`rows
      ensures Valid()
      ensures success <==> !fault && !HasId(old(rows), animal.GetId())
      ensures rows == if success then old(rows) + [animal.Row()] else old(rows)
      ensures success ==> SelectById(rows, animal.GetId()) == Some(animal.Row())
    {
      var row := AnimalRow(animal.GetId(), animal.GetSpecies(), animal.GetName(), animal.GetAge(),
                           animal.GetGender(), animal.GetWeight(), animal.GetHealthStatus());
      if fault || HasId(rows, row.id) {
        return false;
      }
      InsertKeepsUnique(rows, row);
      InsertThenSelect(rows, row);
      rows := rows + [row];
      return true;
    }

    /** UPDATE of the six mutable columns on the rows with `animal`'s id; true iff some row was affected. */
    method UpdateWildAnimal(animal: WildAnimal, fault: bool) returns (success: bool)
      requires Valid()
      modifies this`rows
      ensures Valid()
      ensures success <==> !fault && HasId(old(rows), animal.GetId())
      ensures rows == if fault then old(rows) else UpdateRows(old(rows), animal.Row())
      ensures !success ==> rows == old(rows)
      ensures success ==> SelectById(rows, animal.GetId()) == Some(animal.Row())
    {
      if fault {
        return false;
      }
      var row := animal.Row();
      var affectedRows := CountId(rows, row.id);
      UpdateKeepsIds(rows, row, row.id);
      if affectedRows == 0 {
        UpdateWithoutMatchIsIdentity(rows, row);
      } else {
        UpdateThenSelect(rows, row);
      }
      rows := UpdateRows(rows, row);
      return affectedRows > 0;
    }

    /** DELETE of the rows with tag id `id`; true iff some row was removed. */
    method DeleteWildAnimal(id: int, fault: bool) returns (success: bool)
      requires Valid()
      modifies this`rows
      ensures Valid()
      ensures success <==> !fault && HasId(old(rows), id)
      ensures rows == if fault then old(rows) else DeleteRows(old(rows), id)
      ensures !success ==> rows == old(rows)
      ensures !fault ==> !HasId(rows, id)
    {
      if fault {
        return false;
      }
      var affectedRows := CountId(rows, id);
      DeleteThenSelect(rows, id);
      DeleteKeepsUnique(rows, id);
      if affectedRows == 0 {
        DeleteWithoutMatchIsIdentity(rows, id);
      }
      rows := DeleteRows(rows, id);
      return affectedRows > 0;
    }
  }
}
