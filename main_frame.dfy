/**
 * The decision logic of the main window: the average-weight query of the
 * "Average Weight by Species" dialog, the refresh that copies the store's
 * records into the display table, and the guard chain of the delete action.
 * Widgets and message dialogs are not modelled; the user's answers to the
 * dialogs and storage faults are parameters.
 */
module MainFrame {
  import opened Wrappers
  import opened Animal
  import opened Store

  // ---------------------------------------------------------------------------
  // Java's String.trim: strips every character up to U+0020 from both ends
  // ---------------------------------------------------------------------------

  predicate IsTrimmed(c: char) {
    c <= ' '
  }

  /** The first index at or after `lo` whose character is not a blank (or `|s|`): Java's forward scan. */
  function TrimStartIndex(s: string, lo: nat): (b: nat)
    requires lo <= |s|
    ensures lo <= b <= |s|
    ensures forall i :: lo <= i < b ==> IsTrimmed(s[i])
    ensures b < |s| ==> !IsTrimmed(s[b])
    decreases |s| - lo
  {
    if lo < |s| && IsTrimmed(s[lo]) then TrimStartIndex(s, lo + 1) else lo
  }

  /** The end of `s[lo..hi]` once its trailing blanks are dropped: Java's backward scan. */
  function TrimEndIndex(s: string, lo: nat, hi: nat): (e: nat)
    requires lo <= hi <= |s|
    ensures lo <= e <= hi
    ensures forall i :: e <= i < hi ==> IsTrimmed(s[i])
    ensures e > lo ==> !IsTrimmed(s[e - 1])
    decreases hi
  {
    if hi > lo && IsTrimmed(s[hi - 1]) then TrimEndIndex(s, lo, hi - 1) else hi
  }

  /**
   * `s.trim()`: the infix `s[b..e]` where everything before `b` and from `e` on is a
   * character up to U+0020, and the infix neither starts nor ends with one.
   */
  function Trim(s: string): (r: string)
    ensures var b := TrimStartIndex(s, 0); var e := TrimEndIndex(s, b, |s|);
            && r == s[b..e]
            && (forall i :: 0 <= i < b ==> IsTrimmed(s[i]))
            && (forall i :: e <= i < |s| ==> IsTrimmed(s[i]))
    ensures r != [] ==> !IsTrimmed(r[0]) && !IsTrimmed(r[|r| - 1])
  {
    var b := TrimStartIndex(s, 0);
    s[b..TrimEndIndex(s, b, |s|)]
  }

  /** `s.trim().isEmpty()` holds exactly when every character of `s` is at most U+0020. */
  lemma {:induction false} TrimEmptyIffBlank(s: string)
    ensures Trim(s) == [] <==> forall i :: 0 <= i < |s| ==> IsTrimmed(s[i])
  {
  }

  /** Trimming twice gives what trimming once gives. */
  lemma {:induction false} TrimIdempotent(s: string)
    ensures Trim(Trim(s)) == Trim(s)
  {
    var r := Trim(s);
    if r != [] {
      assert TrimStartIndex(r, 0) == 0;
      assert TrimEndIndex(r, 0, |r|) == |r|;
    }
  }

  // ---------------------------------------------------------------------------
  // Average weight by species
  // ---------------------------------------------------------------------------

  /** The species the dialog queries: none for a cancelled (null) or blank input, else the trimmed input. */
  function SpeciesKey(input: Option<string>): (key: Option<string>)
    ensures key.None? <==> input.None? || forall i :: 0 <= i < |input.value| ==> IsTrimmed(input.value[i])
    ensures key.Some? ==> key.value == Trim(input.value) && key.value != []
  {
    if input.None? then None
    else
      TrimEmptyIffBlank(input.value);
      if Trim(input.value) == [] then None else Some(Trim(input.value))
  }

  /** The number of rows whose species equals `species` exactly: the count `AVG` divides by. */
  function CountSpecies(rows: seq<AnimalRow>, species: string): (n: nat)
    ensures n <= |rows|
    ensures n > 0 <==> exists k :: 0 <= k < |rows| && rows[k].species == species
  {
    if rows == [] then 0
    else (if rows[0].species == species then 1 else 0) + CountSpecies(rows[1..], species)
  }

  /** The weights of the rows whose species equals `species` exactly, in table order: one per matching row. */
  function MatchingWeights(rows: seq<AnimalRow>, species: string): (ws: seq<real>)
    ensures |ws| == CountSpecies(rows, species)
  {
    if rows == [] then []
    else (if rows[0].species == species then [rows[0].weight] else []) + MatchingWeights(rows[1..], species)
  }

  /** Each matched weight is the weight of a row of that species, and every such row's weight is matched. */
  lemma {:induction false} MatchingWeightsAreTheSpeciesWeights(rows: seq<AnimalRow>, species: string)
    ensures forall i :: 0 <= i < |MatchingWeights(rows, species)| ==>
              exists k :: 0 <= k < |rows| && rows[k].species == species && rows[k].weight == MatchingWeights(rows, species)[i]
    ensures forall k :: 0 <= k < |rows| && rows[k].species == species ==> rows[k].weight in MatchingWeights(rows, species)
  {
    if rows != [] {
      var head := if rows[0].species == species then [rows[0].weight] else [];
      var rest := MatchingWeights(rows[1..], species);
      assert MatchingWeights(rows, species) == head + rest;
      assert forall k :: 0 <= k < |rows[1..]| ==> rows[1..][k] == rows[k + 1];
      MatchingWeightsAreTheSpeciesWeights(rows[1..], species);
      var ws := MatchingWeights(rows, species);
      forall i | 0 <= i < |ws|
        ensures exists k :: 0 <= k < |rows| && rows[k].species == species && rows[k].weight == ws[i]
      {
        if i < |head| {
          assert rows[0].weight == ws[i];
        } else {
          var j := i - |head|;
          assert ws[i] == rest[j];
          var k :| 0 <= k < |rows[1..]| && rows[1..][k].species == species && rows[1..][k].weight == rest[j];
          assert rows[k + 1].weight == ws[i];
        }
      }
      forall k | 0 <= k < |rows| && rows[k].species == species
        ensures rows[k].weight in head + rest
      {
        if k > 0 {
          assert rows[1..][k - 1] == rows[k];
        }
      }
      assert forall i :: 0 <= i < |ws| ==>
        exists k :: 0 <= k < |rows| && rows[k].species == species && rows[k].weight == ws[i];
    } else {
      assert MatchingWeights(rows, species) == [];
    }
  }

  /** Matching distributes over concatenation, so the weights come out in table order. */
  lemma {:induction false} MatchingWeightsAppend(a: seq<AnimalRow>, b: seq<AnimalRow>, species: string)
    ensures MatchingWeights(a + b, species) == MatchingWeights(a, species) + MatchingWeights(b, species)
  {
    if a != [] {
      assert (a + b)[0] == a[0] && (a + b)[1..] == a[1..] + b;
      MatchingWeightsAppend(a[1..], b, species);
      var head := if a[0].species == species then [a[0].weight] else [];
      assert MatchingWeights(a + b, species) == head + MatchingWeights(a[1..] + b, species);
      assert MatchingWeights(a, species) == head + MatchingWeights(a[1..], species);
    } else {
      assert a + b == b;
    }
  }

  function Sum(ws: seq<real>): real {
    if ws == [] then 0.0 else ws[0] + Sum(ws[1..])
  }

  /**
   * `SELECT AVG(weight) FROM WildAnimals WHERE species = ?`: SQL's AVG is NULL (here `None`)
   * over no rows, and otherwise the exact mean of the matching weights.
   */
  function AverageWeight(rows: seq<AnimalRow>, species: string): (avg: Option<real>)
    ensures avg.None? <==> forall k :: 0 <= k < |rows| ==> rows[k].species != species
    ensures avg.Some? ==> avg.value * (CountSpecies(rows, species) as real) == Sum(MatchingWeights(rows, species))
  {
    var ws := MatchingWeights(rows, species);
    if |ws| == 0 then None else Some(Sum(ws) / (|ws| as real))
  }

  /** What the dialog reports. */
  datatype AverageReport =
    | NotQueried            // cancelled or blank input: no query is issued
    | NoAnimalsFound        // AVG was NULL: "No animals found for species"
    | Average(kg: real)     // "Average weight for species ..."
    | QueryFailed           // SQLException: "Database Error"

  /** The outcome of `showAverageWeightDialog` for the text the user typed, given whether the query fails. */
  function AverageWeightDialog(rows: seq<AnimalRow>, input: Option<string>, fault: bool): (r: AverageReport)
    ensures r.NotQueried? <==> SpeciesKey(input).None?
    ensures r.QueryFailed? <==> SpeciesKey(input).Some? && fault
    ensures r.NoAnimalsFound? <==> SpeciesKey(input).Some? && !fault
                                   && forall k :: 0 <= k < |rows| ==> rows[k].species != Trim(input.value)
    ensures r.Average? ==> AverageWeight(rows, Trim(input.value)) == Some(r.kg)
  {
    match SpeciesKey(input)
    case None => NotQueried
    case Some(key) =>
      if fault then QueryFailed
      else match AverageWeight(rows, key)
        case None => NoAnimalsFound
        case Some(avg) => Average(avg)
  }

  /** Every weight lies in `[lo, hi]`, so their sum lies in `[lo * n, hi * n]`. */
  lemma {:induction false} SumBounds(ws: seq<real>, lo: real, hi: real)
    requires forall i :: 0 <= i < |ws| ==> lo <= ws[i] <= hi
    ensures lo * (|ws| as real) <= Sum(ws) <= hi * (|ws| as real)
  {
    if ws != [] {
      SumBounds(ws[1..], lo, hi);
    }
  }

  /** When every row of the species weighs within `[lo, hi]`, so does every matched weight. */
  lemma {:induction false} MatchingWeightsWithin(rows: seq<AnimalRow>, species: string, lo: real, hi: real)
    requires forall k :: 0 <= k < |rows| && rows[k].species == species ==> lo <= rows[k].weight <= hi
    ensures forall i :: 0 <= i < |MatchingWeights(rows, species)| ==> lo <= MatchingWeights(rows, species)[i] <= hi
  {
    if rows != [] {
      assert forall k :: 0 <= k < |rows[1..]| ==> rows[1..][k] == rows[k + 1];
      MatchingWeightsWithin(rows[1..], species, lo, hi);
    }
  }

  /** The mean lies between the least and the greatest weight of the species; with no negative weights it is not negative. */
  lemma {:induction false} AverageWithinWeights(rows: seq<AnimalRow>, species: string, lo: real, hi: real)
    requires forall k :: 0 <= k < |rows| && rows[k].species == species ==> lo <= rows[k].weight <= hi
    requires AverageWeight(rows, species).Some?
    ensures lo <= AverageWeight(rows, species).value <= hi
  {
    var ws := MatchingWeights(rows, species);
    MatchingWeightsWithin(rows, species, lo, hi);
    SumBounds(ws, lo, hi);
    MeanBetween(AverageWeight(rows, species).value, |ws| as real, Sum(ws), lo, hi);
  }

  /** Dividing `lo * n <= sum <= hi * n` by the positive `n`. */
  lemma {:induction false} MeanBetween(avg: real, n: real, sum: real, lo: real, hi: real)
    requires n > 0.0 && avg * n == sum && lo * n <= sum <= hi * n
    ensures lo <= avg <= hi
  {
  }

  /** A sample table: two lions and a tiger. */
  function SampleRows(): seq<AnimalRow> {
    [AnimalRow(1, "Lion", "Leo", 5, "Male", 100.0, "Healthy"),
     AnimalRow(2, "Lion", "Nala", 4, "Female", 150.0, "Healthy"),
     AnimalRow(3, "Tiger", "Raja", 6, "Male", 200.0, "Sick")]
  }

  /** Leading and trailing blanks of the typed species are dropped before the query. */
  lemma {:induction false} PaddedInputIsTrimmed()
    ensures SpeciesKey(Some("  Lion ")) == Some("Lion")
  {
    var s := "  Lion ";
    assert TrimStartIndex(s, 0) == 2 by {
      assert TrimStartIndex(s, 2) == 2;
    }
    assert TrimEndIndex(s, 2, 7) == 6 by {
      assert TrimEndIndex(s, 2, 6) == 6;
    }
    assert s[2..6] == "Lion";
  }

  /** Lion:100, Lion:150 and Tiger:200 give a Lion average of 125. */
  lemma {:induction false} LionAverage()
    ensures AverageWeight(SampleRows(), "Lion") == Some(125.0)
  {
  }

  /** No row of the sample table is a zebra. */
  lemma {:induction false} ZebraNoData()
    ensures SpeciesKey(Some("Zebra")) == Some("Zebra")
    ensures AverageWeight(SampleRows(), "Zebra") == None
  {
    assert TrimStartIndex("Zebra", 0) == 0 && TrimEndIndex("Zebra", 0, 5) == 5;
    assert "Zebra"[0..5] == "Zebra";
    var rows := SampleRows();
    assert rows[0].species[0] != 'Z' && rows[1].species[0] != 'Z' && rows[2].species[0] != 'Z';
  }

  /** The dialog over the sample table: 125 for "  Lion ", no data for "Zebra". */
  lemma {:induction false} LionExample()
    ensures AverageWeightDialog(SampleRows(), Some("  Lion "), false) == Average(125.0)
    ensures AverageWeightDialog(SampleRows(), Some("Zebra"), false) == NoAnimalsFound
  {
    PaddedInputIsTrimmed();
    LionAverage();
    ZebraNoData();
  }

  /** "No data" is not an average of zero: a species whose only animal weighs 0 kg gets an average. */
  lemma {:induction false} NoDataIsNotZero(a: AnimalRow)
    requires a.species == "Lion" && a.weight == 0.0
    ensures AverageWeightDialog([a], Some("Lion"), false) == Average(0.0)
    ensures AverageWeightDialog([], Some("Lion"), false) == NoAnimalsFound
  {
    assert TrimStartIndex("Lion", 0) == 0 && TrimEndIndex("Lion", 0, 4) == 4;
    assert "Lion"[0..4] == "Lion";
    assert MatchingWeights([a], "Lion") == [0.0] by {
      assert [a][1..] == [];
    }
    assert Sum([0.0]) == 0.0 by {
      assert [0.0][1..] == [];
    }
  }

  // ---------------------------------------------------------------------------
  // The display table
  // ---------------------------------------------------------------------------

  /** One cell of the table model: an Integer, a String or a Double. */
  datatype Cell = IntCell(i: int) | TextCell(s: string) | RealCell(r: real)

  /** The display row of a record as `refreshAnimalTable` fills it: id, species, name, age, gender, weight, health status. */
  function DisplayRow(a: AnimalRow): seq<Cell> {
    [IntCell(a.id), TextCell(a.species), TextCell(a.name), IntCell(a.age),
     TextCell(a.gender), RealCell(a.weight), TextCell(a.healthStatus)]
  }

  /** The value of the field a column header names, if it names one. */
  function FieldNamed(a: AnimalRow, header: string): Option<Cell> {
    if header == "Tag ID" then Some(IntCell(a.id))
    else if header == "Species" then Some(TextCell(a.species))
    else if header == "Name" then Some(TextCell(a.name))
    else if header == "Age" then Some(IntCell(a.age))
    else if header == "Gender" then Some(TextCell(a.gender))
    else if header == "Weight" then Some(RealCell(a.weight))
    else if header == "Health Status" then Some(TextCell(a.healthStatus))
    else None
  }

  /** The column headers as the table model declares them: "Name" before "Species". */
  function DeclaredColumnNames(): seq<string> {
    ["Tag ID", "Name", "Species", "Age", "Gender", "Weight", "Health Status"]
  }

  /** The column headers in the order the rows are filled. */
  function ColumnNames(): seq<string> {
    ["Tag ID", "Species", "Name", "Age", "Gender", "Weight", "Health Status"]
  }

  /** As declared, the "Name" column shows the species and the "Species" column shows the name. */
  lemma {:induction false} DeclaredHeadersSwapped(a: AnimalRow)
    requires a.species != a.name
    ensures DisplayRow(a)[1] != FieldNamed(a, DeclaredColumnNames()[1]).value
    ensures DisplayRow(a)[2] != FieldNamed(a, DeclaredColumnNames()[2]).value
  {
  }

  /** With the corrected headers every column is headed by the name of the field it shows. */
  lemma {:induction false} ColumnNamesDescribeRows(a: AnimalRow, k: nat)
    requires k < |DisplayRow(a)|
    ensures |ColumnNames()| == |DisplayRow(a)|
    ensures FieldNamed(a, ColumnNames()[k]) == Some(DisplayRow(a)[k])
  {
  }

  /** The outcome of the delete action. */
  datatype DeleteReport =
    | EmptyTable          // "No animal records available to delete."
    | NoSelection         // "Please select a row to delete."
    | NotConfirmed        // the user answered No
    | Deleted(tagId: int) // "Animal deleted successfully." and the table is reloaded
    | DeleteFailed(tagId: int) // "No record found with Tag ID ..."

  class WATSMainFrame {
    /** The store the frame reads and writes. */
    const dbManager: DatabaseManager
    /** The rows of the display table model, each an `Object[]` of seven cells. */
    var tableModel: seq<seq<Cell>>
    /** The headers of the display table model. */
    const columnNames: seq<string>

    /** The store keeps its invariant and every display row has its Tag ID, an Integer, in column 0. */
    predicate Valid()
      reads this, dbManager
    {
      dbManager.Valid() && forall i :: 0 <= i < |tableModel| ==> |tableModel[i]| == 7 && tableModel[i][0].IntCell?
    }

    constructor (db: DatabaseManager)
      requires db.Valid()
      ensures Valid() && dbManager == db && tableModel == [] && columnNames == ColumnNames()
    {
      dbManager := db;
      tableModel := [];
      columnNames := ColumnNames();
    }

    /** Clears the table model and adds one display row per listed record, in list order. */
    method RefreshAnimalTable(readFault: Option<nat>)
      requires Valid()
      modifies this`tableModel
      ensures Valid()
      ensures |tableModel| == |ListedRows(dbManager.rows, readFault)|
      ensures forall i :: 0 <= i < |tableModel| ==> tableModel[i] == DisplayRow(dbManager.rows[i])
    {
      var animals := dbManager.GetAllWildAnimalRecords(readFault);
      tableModel := [];
      for i := 0 to |animals|
        invariant |tableModel| == i
        invariant forall j :: 0 <= j < i ==> tableModel[j] == DisplayRow(dbManager.rows[j])
        invariant forall j :: 0 <= j < |animals| ==> animals[j].Row() == dbManager.rows[j]
      {
        var animal := animals[i];
        var row := [IntCell(animal.GetId()), TextCell(animal.GetSpecies()), TextCell(animal.GetName()),
                    IntCell(animal.GetAge()), TextCell(animal.GetGender()), RealCell(animal.GetWeight()),
                    TextCell(animal.GetHealthStatus())];
        tableModel := tableModel + [row];
      }
    }

    /**
     * The delete action: it needs a non-empty table, a selected row (`selectedRow`, -1 for none)
     * and the user's confirmation, and then deletes the Tag ID in column 0 of that row.
     */
    method HandleDeleteAnimal(selectedRow: int, confirmed: bool, deleteFault: bool, readFault: Option<nat>)
      returns (report: DeleteReport)
      requires Valid() && -1 <= selectedRow < |tableModel|
      modifies this`tableModel, dbManager`rows
      ensures Valid()
      ensures old(tableModel) == [] <==> report.EmptyTable?
      ensures report.NoSelection? <==> old(tableModel) != [] && selectedRow == -1
      ensures report.NotConfirmed? <==> selectedRow != -1 && !confirmed
      ensures report.EmptyTable? || report.NoSelection? || report.NotConfirmed? ==>
                dbManager.rows == old(dbManager.rows) && tableModel == old(tableModel)
      ensures report.Deleted? || report.DeleteFailed? ==>
                selectedRow != -1 && confirmed && report.tagId == old(tableModel)[selectedRow][0].i
      ensures report.Deleted? ==>
                && !deleteFault && HasId(old(dbManager.rows), report.tagId)
                && dbManager.rows == DeleteRows(old(dbManager.rows), report.tagId)
                && |tableModel| == |ListedRows(dbManager.rows, readFault)|
                && forall i :: 0 <= i < |tableModel| ==> tableModel[i] == DisplayRow(dbManager.rows[i])
      ensures report.DeleteFailed? ==>
                && (deleteFault || !HasId(old(dbManager.rows), report.tagId))
                && dbManager.rows == old(dbManager.rows) && tableModel == old(tableModel)
    {
      if |tableModel| == 0 {
        return EmptyTable;
      }
      if selectedRow == -1 {
        return NoSelection;
      }
      var tagId := tableModel[selectedRow][0].i;
      if !confirmed {
        return NotConfirmed;
      }
      var success := dbManager.DeleteWildAnimal(tagId, deleteFault);
      if success {
        RefreshAnimalTable(readFault);
        return Deleted(tagId);
      } else {
        return DeleteFailed(tagId);
      }
    }
  }
}
