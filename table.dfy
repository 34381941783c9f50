/**
 * The generic table model behind every table of the system: a fixed list of typed columns with
 * unique names and a list of rows whose cells match the column classes.
 */
module Tables {
  import opened Wrappers
  import opened Columns

  datatype TableError =
    | DuplicateColumnNames            // the constructor's check
    | RowSizeMismatch                 // a new row of the wrong length
    | NullCell(column: int)           // a null element of a new row (`getClass()` on null)
    | CellTypeMismatch(column: int)   // an element of a new row of another class than its column
    | NullValue                       // `setValueAt` with null
    | WrongValueType                  // a value or cell of another class than its column
    | UnknownColumn                   // a column that is not part of the table
    | RowOutOfBounds                  // `List.get`/`List.remove` with an index outside the list
    | RowDoesNotExist                 // `removeRow` with an index at or past the row count

  function Names(cols: seq<Column>): set<string> {
    set i | 0 <= i < |cols| :: cols[i].name
  }

  predicate UniqueNames(cols: seq<Column>) {
    forall i, j :: 0 <= i < j < |cols| ==> cols[i].name != cols[j].name
  }

  lemma {:induction false} NamesAtMostColumns(cols: seq<Column>)
    ensures |Names(cols)| <= |cols|
  {
    if cols != [] {
      var n := |cols| - 1;
      NamesOfPrefix(cols);
      NamesAtMostColumns(cols[..n]);
    }
  }

  lemma NamesOfPrefix(cols: seq<Column>)
    requires cols != []
    ensures Names(cols) == Names(cols[..|cols| - 1]) + {cols[|cols| - 1].name}
  {
    var n := |cols| - 1;
    assert forall i :: 0 <= i < n ==> cols[..n][i] == cols[i];
    forall x | x in Names(cols) ensures x in Names(cols[..n]) + {cols[n].name} {
      var i :| 0 <= i < |cols| && cols[i].name == x;
      if i < n { assert cols[..n][i].name == x; }
    }
  }

  /** Comparing the size of the set of names with the number of columns, as the constructor does,
      is exactly the check that no two columns share a name. */
  lemma {:induction false} NameCountIffUnique(cols: seq<Column>)
    ensures |Names(cols)| == |cols| <==> UniqueNames(cols)
  {
    if cols != [] {
      var n := |cols| - 1;
      var prefix := cols[..n];
      NamesOfPrefix(cols);
      NameCountIffUnique(prefix);
      NamesAtMostColumns(prefix);
      assert forall i :: 0 <= i < n ==> prefix[i] == cols[i];
      if cols[n].name in Names(prefix) {
        var i :| 0 <= i < n && prefix[i].name == cols[n].name;
        assert Names(cols) == Names(prefix);
        assert !UniqueNames(cols) by { assert cols[i].name == cols[n].name; }
      } else if UniqueNames(prefix) {
        assert UniqueNames(cols) by {
          forall i, j | 0 <= i < j < |cols| ensures cols[i].name != cols[j].name {
            if j == n { assert cols[i].name == prefix[i].name; }
            else { assert prefix[i].name != prefix[j].name; }
          }
        }
      } else {
        var i, j :| 0 <= i < j < n && prefix[i].name == prefix[j].name;
        assert cols[i].name == cols[j].name;
      }
    }
  }

  /** A row fits the columns when it has one cell per column, each an instance of its column's class. */
  predicate RowMatches(cols: seq<Column>, row: seq<Value>) {
    |row| == |cols| && forall i :: 0 <= i < |row| ==> IsInstance(cols[i].columnType, row[i])
  }

  /** `List.indexOf`: the first position of the column (compared by identity), or -1. */
  function IndexOf(cols: seq<Column>, c: Column): (i: int)
    ensures -1 <= i < |cols|
    ensures i >= 0 ==> cols[i] == c && forall j :: 0 <= j < i ==> cols[j] != c
    ensures i == -1 <==> c !in cols
  {
    if cols == [] then -1
    else if cols[0] == c then 0
    else var k := IndexOf(cols[1..], c); if k == -1 then -1 else k + 1
  }

  class Table {
    const columns: seq<Column>
    var data: seq<seq<Value>>

    /** Column names are unique and every row fits the columns. */
    ghost predicate Valid()
      reads this
    {
      UniqueNames(columns) && forall k :: 0 <= k < |data| ==> RowMatches(columns, data[k])
    }

    constructor(columns: seq<Column>)
      requires UniqueNames(columns)
      ensures this.columns == columns && data == []
      ensures Valid()
    {
      this.columns := columns;
      data := [];
    }

    /** `new Table(columns...)`: refused exactly when two columns share a name. */
    static method Create(columns: seq<Column>) returns (r: Result<Table, TableError>)
      ensures r.Ok? <==> UniqueNames(columns)
      ensures r.Err? ==> r.error == DuplicateColumnNames
      ensures r.Ok? ==> fresh(r.value) && r.value.columns == columns && r.value.data == [] && r.value.Valid()
    {
      NameCountIffUnique(columns);
      if |columns| != |Names(columns)| {
        return Err(DuplicateColumnNames);
      }
      var t := new Table(columns);
      return Ok(t);
    }

    /** No cell is ever editable in place. */
    function IsCellEditable(row: int, col: int): (editable: bool)
      ensures !editable
    {
      false
    }

    /** `assertIndexedColumn`: the column's position, or an error for a column of another table. */
    function IndexedColumn(c: Column): (r: Result<int, TableError>)
      ensures r.Ok? <==> c in columns
      ensures r.Ok? ==> 0 <= r.value < |columns| && columns[r.value] == c
      ensures r.Err? ==> r.error == UnknownColumn
    {
      var i := IndexOf(columns, c);
      if i < 0 then Err(UnknownColumn) else Ok(i)
    }

    /** The cell of a row under a column, checked against the column's class; the row is looked up
        first, then the column, then the class. */
    function GetRowValue(row: int, c: Column): (r: Result<Value, TableError>)
      reads this
      ensures r.Ok? <==> 0 <= row < |data| && c in columns && IndexOf(columns, c) < |data[row]|
                         && IsInstance(c.columnType, data[row][IndexOf(columns, c)])
      ensures r.Ok? ==> r.value == data[row][IndexOf(columns, c)]
      ensures !(0 <= row < |data|) ==> r == Err(RowOutOfBounds)
      ensures 0 <= row < |data| && c !in columns ==> r == Err(UnknownColumn)
    {
      if !(0 <= row < |data|) then Err(RowOutOfBounds)
      else if IndexedColumn(c).Err? then Err(UnknownColumn)
      else if |data[row]| <= IndexedColumn(c).value then Err(RowOutOfBounds)
      else match c.ValueOf(data[row][IndexedColumn(c).value])
        case Ok(v) => Ok(v)
        case Err(_) => Err(WrongValueType)
    }

    /** Replaces one cell: the value must be non-null and of the column's class, the column part
        of the table and the row present. Exactly that cell changes, and reading it back gives the
        value. */
    method SetValueAt(value: Value, row: int, c: Column) returns (r: Result<(), TableError>)
      requires Valid()
      modifies this
      ensures Valid()
      ensures value == Null ==> r == Err(NullValue)
      ensures value != Null && !IsInstance(c.columnType, value) ==> r == Err(WrongValueType)
      ensures r.Ok? <==> IsInstance(c.columnType, value) && c in columns && 0 <= row < |old(data)|
      ensures r.Ok? ==> data == old(data)[row := old(data)[row][IndexOf(columns, c) := value]]
      ensures r.Ok? ==> GetRowValue(row, c) == Ok(value)
      ensures r.Err? ==> data == old(data)
    {
      if ClassOf(value).None? {
        return Err(NullValue);
      }
      if ClassOf(value) != Some(c.columnType) {
        return Err(WrongValueType);
      }
      var col := IndexedColumn(c);
      if col.Err? {
        return Err(UnknownColumn);
      }
      if !(0 <= row < |data|) {
        return Err(RowOutOfBounds);
      }
      var i := col.value;
      assert RowMatches(columns, data[row]);
      var updated := data[row][i := value];
      assert RowMatches(columns, updated);
      data := data[row := updated];
      r := Ok(());
    }

    /** Appends a row after checking its length and then each element in order; the first
        element that is null or of another class than its column is the one reported. */
    method AddRow(row: seq<Value>) returns (r: Result<(), TableError>)
      requires Valid()
      modifies this
      ensures Valid()
      ensures r.Ok? <==> RowMatches(columns, row)
      ensures r.Ok? ==> data == old(data) + [row]
      ensures r.Ok? ==> forall i :: 0 <= i < |columns| ==> GetRowValue(|old(data)|, columns[i]) == Ok(row[i])
      ensures r.Err? ==> data == old(data)
      ensures |row| != |columns| ==> r == Err(RowSizeMismatch)
      ensures r.Err? && |row| == |columns| ==>
                (r.error.NullCell? || r.error.CellTypeMismatch?)
                && 0 <= r.error.column < |row|
                && (forall j :: 0 <= j < r.error.column ==> IsInstance(columns[j].columnType, row[j]))
                && !IsInstance(columns[r.error.column].columnType, row[r.error.column])
                && (r.error.NullCell? <==> row[r.error.column] == Null)
    {
      if |row| != |columns| {
        return Err(RowSizeMismatch);
      }
      var i := 0;
      while i < |row|
        invariant 0 <= i <= |row|
        invariant forall j :: 0 <= j < i ==> IsInstance(columns[j].columnType, row[j])
      {
        if row[i] == Null {
          return Err(NullCell(i));
        }
        if ClassOf(row[i]) != Some(columns[i].columnType) {
          return Err(CellTypeMismatch(i));
        }
        i := i + 1;
      }
      data := data + [row];
      r := Ok(());
      forall i | 0 <= i < |columns| ensures GetRowValue(|old(data)|, columns[i]) == Ok(row[i]) {
        assert IndexOf(columns, columns[i]) == i by {
          assert forall j :: 0 <= j < i ==> columns[j].name != columns[i].name;
        }
      }
    }

    /** Removes one row; the others keep their order. An index at or past the row count and a
        negative index are refused. */
    method RemoveRow(rowIndex: int) returns (r: Result<(), TableError>)
      requires Valid()
      modifies this
      ensures Valid()
      ensures r.Ok? <==> 0 <= rowIndex < |old(data)|
      ensures r.Ok? ==> data == old(data)[..rowIndex] + old(data)[rowIndex + 1..]
      ensures r.Err? ==> data == old(data)
      ensures rowIndex >= |old(data)| ==> r == Err(RowDoesNotExist)
    {
      if |data| <= rowIndex {
        return Err(RowDoesNotExist);
      }
      if rowIndex < 0 {
        return Err(RowOutOfBounds);
      }
      data := data[..rowIndex] + data[rowIndex + 1..];
      r := Ok(());
    }
  }
}
