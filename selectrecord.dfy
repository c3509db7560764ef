/**
 * ui/selectrecord.py: the disambiguation dialog. The table model maps
 * (row, column, role) to a cell value; a double-click on the title or year
 * column selects that row and accepts the dialog.
 */
module RecordSelection {
  import opened Wrappers
  import opened Movies

  datatype Orientation = Horizontal | Vertical

  /** The item data roles the model distinguishes; every other role is `OtherRole`. */
  datatype Role = DisplayRole | UserRole | ForegroundRole | OtherRole(code: int)

  /** A model index: `Invalid` is the index whose `isValid()` is false. */
  datatype ModelIndex = Invalid | Index(row: int, column: int)

  /** What `data` and `headerData` return; `NoValue` is Python's `None`. */
  datatype Value = NoValue | Text(s: string) | Number(n: int) | Brush(colorName: string)

  const HeaderLabels: seq<string> := ["Title", "Year", "IMDb"]

  /** `MoviesModel.rowCount`: one row per record. */
  function RowCount(infos: seq<MovieInfo>): (n: nat)
    ensures n == |infos|
  {
    |infos|
  }

  /** `MoviesModel.columnCount`: title, year and IMDb. */
  function ColumnCount(): (n: nat)
    ensures n == |HeaderLabels|
  {
    3
  }

  /** `MoviesModel.headerData`: column labels across the top, 1-based row numbers down the side. */
  function HeaderData(section: int, orientation: Orientation, role: Role): (r: Value)
    requires orientation == Horizontal && role == DisplayRole ==> 0 <= section < |HeaderLabels|
    ensures role != DisplayRole ==> r == NoValue
    ensures role == DisplayRole && orientation == Horizontal ==> r == Text(HeaderLabels[section])
    ensures role == DisplayRole && orientation == Vertical ==> r == Number(section + 1)
  {
    if orientation == Horizontal && role == DisplayRole then Text(HeaderLabels[section])
    else if orientation == Vertical && role == DisplayRole then Number(section + 1)
    else NoValue
  }

  /** `MoviesModel.data`: the value shown (or stored) in one cell. */
  function Data(infos: seq<MovieInfo>, index: ModelIndex, role: Role): (r: Value)
    requires index.Index? && (role == DisplayRole || role == UserRole) ==> 0 <= index.row < |infos|
    ensures index.Invalid? ==> r == NoValue
    ensures index.Index? && role == ForegroundRole ==> r == (if index.column == 2 then Brush("blue") else NoValue)
    ensures role.OtherRole? ==> r == NoValue
    ensures index.Index? && index.column !in {0, 1, 2} ==> r == NoValue
    ensures index.Index? && (role == DisplayRole || role == UserRole) ==>
              (index.column == 0 ==> r == Text(infos[index.row].title)) &&
              (index.column == 1 ==> r == Number(infos[index.row].year))
    ensures index.Index? && index.column == 2 && role == DisplayRole ==> r == Text(MakeImdbUrl(infos[index.row].imdbId))
    ensures index.Index? && index.column == 2 && role == UserRole ==> r == Text(infos[index.row].imdbId)
  {
    match index
    case Invalid => NoValue
    case Index(row, column) =>
      if role == ForegroundRole && column == 2 then Brush("blue")
      else if role != DisplayRole && role != UserRole then NoValue
      else
        var info := infos[row];
        if column == 0 then Text(info.title)
        else if column == 1 then Number(info.year)
        else if column == 2 then
          (if role == DisplayRole then Text(MakeImdbUrl(info.imdbId)) else Text(info.imdbId))
        else NoValue
  }

  /** Every column the model reports has a header label, and every row a 1-based number. */
  lemma HeadersCoverTable(infos: seq<MovieInfo>)
    ensures forall i :: 0 <= i < ColumnCount() ==>
              HeaderData(i, Horizontal, DisplayRole) == Text(HeaderLabels[i]) && HeaderLabels[i] != ""
    ensures forall i :: 0 <= i < RowCount(infos) ==> HeaderData(i, Vertical, DisplayRole) == Number(i + 1)
  {
  }

  /** Every row the model reports shows its own record's title and year. */
  lemma RowsShowRecords(infos: seq<MovieInfo>)
    ensures forall i :: 0 <= i < RowCount(infos) ==>
              Data(infos, Index(i, 0), DisplayRole) == Text(infos[i].title) &&
              Data(infos, Index(i, 1), DisplayRole) == Number(infos[i].year)
  {
  }

  /**
   * The link shown in an IMDb cell is the title page of the id stored in the
   * same cell, and `get_imdb` reads that id back from it.
   */
  lemma ImdbCellLinksToStoredId(infos: seq<MovieInfo>, row: int)
    requires 0 <= row < |infos| && PyStrings.IsDigits(infos[row].imdbId)
    ensures Data(infos, Index(row, 2), DisplayRole) == Text(MakeImdbUrl(Data(infos, Index(row, 2), UserRole).s))
    ensures GetImdb(Data(infos, Index(row, 2), DisplayRole).s) == "tt" + Data(infos, Index(row, 2), UserRole).s
  {
    GetImdbOfUrl(infos[row].imdbId);
  }

  /** `MoviesTable.cellDoubleClicked`: the row it reports, if any. */
  function CellDoubleClicked(index: ModelIndex): (selected: Option<int>)
    ensures selected.Some? <==> index.Index? && index.column in {0, 1}
    ensures selected.Some? ==> selected.value == index.row
  {
    match index
    case Invalid => None
    case Index(row, column) => if column == 0 || column == 1 then Some(row) else None
  }

  datatype DialogState = Open | Accepted | Rejected

  /** `SelectRecord`: the dialog holding the records and the row the user chose. */
  class SelectRecord {
    const infos: seq<MovieInfo>
    var row: Option<int>
    var state: DialogState

    constructor (infos: seq<MovieInfo>)
      ensures this.infos == infos && row == None && state == Open
    {
      this.infos := infos;
      row := None;
      state := Open;
    }

    /** `tableMovieSelected`: remember the row and accept the dialog. */
    method TableMovieSelected(selected: int)
      modifies this
      ensures row == Some(selected) && state == Accepted
    {
      row := Some(selected);
      state := Accepted;
    }

    /** The Close button: reject the dialog, leaving the row as it was. */
    method Reject()
      modifies this
      ensures row == old(row) && state == Rejected
    {
      state := Rejected;
    }

    /** A double-click in the table, passed on to `tableMovieSelected` when it selects. */
    method DoubleClick(index: ModelIndex)
      modifies this
      ensures CellDoubleClicked(index).Some? ==> row == CellDoubleClicked(index) && state == Accepted
      ensures CellDoubleClicked(index).None? ==> row == old(row) && state == old(state)
    {
      var selected := CellDoubleClicked(index);
      if selected.Some? {
        TableMovieSelected(selected.value);
      }
    }
  }
}
