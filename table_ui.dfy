/**
 * The view wrapped around every table: shortened cell texts, hidden columns, the pop-up menu
 * kept in step with the selection, and the information dialog about the selected row.
 */
module TableView {
  import opened Wrappers
  import opened Columns
  import opened Tables
  import opened Menus
  import opened Messages

  /** At most twenty characters of the value, followed by "..." when something was cut off. */
  function TruncatedString(value: string): (r: string)
    ensures |r| <= 23
    ensures |value| <= 20 ==> r == value
    ensures |value| > 20 ==> |r| == 23 && r[..20] == value[..20] && r[20..] == "..."
    ensures r == "" <==> value == ""
  {
    if |value| > 20 then value[..20] + "..." else value
  }

  /** Shortening a shortened text changes nothing more. */
  lemma TruncatedStringIdempotent(value: string)
    ensures TruncatedString(TruncatedString(value)) == TruncatedString(value)
  {
  }

  // ---------------------------------------------------------------- hiding columns

  /** The position of the first header equal to the name, or the number of headers. */
  function FirstIndex(headers: seq<string>, name: string): (i: nat)
    ensures i <= |headers|
    ensures i < |headers| ==> headers[i] == name
    ensures forall j :: 0 <= j < i ==> headers[j] != name
  {
    if headers == [] then 0
    else if headers[0] == name then 0
    else 1 + FirstIndex(headers[1..], name)
  }

  /** The visible headers after hiding the column with the name: nothing happens for no name, a
      name no header has, or when only one column is left; otherwise the first matching header
      goes and the others keep their order. */
  function Hidden(headers: seq<string>, name: Option<string>): (r: seq<string>)
    ensures |headers| >= 1 ==> |r| >= 1
    ensures |r| == |headers| || |r| == |headers| - 1
    ensures r == headers <==> name.None? || FirstIndex(headers, name.value) == |headers| || |headers| == 1
    ensures r != headers ==> var i := FirstIndex(headers, name.value);
                             i < |headers| && headers[i] == name.value && r == headers[..i] + headers[i + 1..]
  {
    match name
    case None => headers
    case Some(n) =>
      var i := FirstIndex(headers, n);
      if i == |headers| || |headers| == 1 then headers else headers[..i] + headers[i + 1..]
  }

  /** Hiding the columns with each of the names in turn. */
  function HiddenAll(headers: seq<string>, names: seq<string>): (r: seq<string>)
    ensures |headers| >= 1 ==> |r| >= 1
    ensures |r| <= |headers|
  {
    if names == [] then headers
    else Hidden(HiddenAll(headers, names[..|names| - 1]), Some(names[|names| - 1]))
  }

  /** Every header left after hiding was there before. */
  lemma {:induction false} HiddenAllKeepsOnlyHeaders(headers: seq<string>, names: seq<string>)
    ensures forall x :: x in HiddenAll(headers, names) ==> x in headers
  {
    if names != [] {
      var before := HiddenAll(headers, names[..|names| - 1]);
      HiddenAllKeepsOnlyHeaders(headers, names[..|names| - 1]);
      var after := Hidden(before, Some(names[|names| - 1]));
      if after != before {
        var i := FirstIndex(before, names[|names| - 1]);
        assert forall x :: x in after ==> x in before[..i] || x in before[i + 1..];
      }
    }
  }

  // ---------------------------------------------------------------- the information dialog

  /** One line of the dialog: the column name, a tab and the shortened value. */
  function Line(name: string, value: string): string {
    name + ":\t" + TruncatedString(value)
  }

  /** The lines for the (name, value text) pairs whose value text is not empty, in order. */
  function InfoLines(entries: seq<(string, string)>): (ls: seq<string>)
    ensures |ls| <= |entries|
  {
    if entries == [] then []
    else
      var n := |entries| - 1;
      InfoLines(entries[..n]) + (if entries[n].1 == "" then [] else [Line(entries[n].0, entries[n].1)])
  }

  /** Each line followed by a newline. */
  function Terminated(lines: seq<string>): string {
    if lines == [] then "" else Terminated(lines[..|lines| - 1]) + lines[|lines| - 1] + "\n"
  }

  /** The text the dialog is asked to lay out. */
  function InfoText(entries: seq<(string, string)>): string {
    Terminated(InfoLines(entries))
  }

  lemma {:induction false} JoinAppend(p: seq<string>, x: string, sep: char)
    requires |p| >= 1
    ensures Join(p + [x], sep) == Join(p, sep) + [sep] + x
  {
    if |p| > 1 {
      JoinAppend(p[1..], x, sep);
      assert (p + [x])[1..] == p[1..] + [x];
    } else {
      assert (p + [x])[1..] == [x];
    }
  }

  /** The newline-terminated lines are the lines and one empty piece joined by newlines. */
  lemma {:induction false} TerminatedIsJoin(lines: seq<string>)
    ensures Terminated(lines) == Join(lines + [""], '\n')
  {
    if lines != [] {
      var n := |lines| - 1;
      TerminatedIsJoin(lines[..n]);
      assert lines[..n] + [lines[n]] == lines;
      if n == 0 {
        assert lines + [""] == [lines[0], ""];
      } else {
        JoinAppend(lines[..n], lines[n], '\n');
        JoinAppend(lines[..n], "", '\n');
        JoinAppend(lines, "", '\n');
      }
    }
  }

  lemma DropOneTrailingEmpty(p: seq<string>)
    requires p != [] && p[|p| - 1] != ""
    ensures DropTrailingEmpty(p + [""]) == p
  {
    assert (p + [""])[..|p|] == p;
  }

  /** A value with a newline cuts its line in two, and the dialog refuses lines of different
      widths: the information about a row whose note reads "a", newline, "b" cannot be shown. */
  lemma InfoTextCanBreakDialog()
    ensures ParseGrid(InfoText([("INFO", "a\nb")])) == Err(WrongFormatting)
  {
    var text := "INFO:\ta\nb\n";
    BrokenInfoText();
    BrokenTextSplits();
    var t := CellTable(text);
    assert t[0] == JavaSplit("INFO:\ta", '\t') && t[1] == JavaSplit("b", '\t');
    BrokenLineSplits();
    assert |t[0]| == 2 && |t[1]| == 1;
  }

  lemma BrokenInfoText()
    ensures InfoText([("INFO", "a\nb")]) == "INFO:\ta\nb\n"
  {
    var entries := [("INFO", "a\nb")];
    assert entries[..0] == [];
    var line := Line("INFO", "a\nb");
    assert line == "INFO:\ta\nb";
    assert InfoLines(entries) == [line];
    TerminatedIsJoin([line]);
  }

  lemma BrokenTextSplits()
    ensures JavaSplit("INFO:\ta\nb\n", '\n') == ["INFO:\ta", "b"]
  {
    var text := "INFO:\ta\nb\n";
    var pieces := ["INFO:\ta", "b", ""];
    assert Join(pieces, '\n') == text;
    SplitAllJoin(pieces, '\n');
    assert '\n' in text by { assert text[7] == '\n'; }
    DropOneTrailingEmpty(["INFO:\ta", "b"]);
    assert pieces == ["INFO:\ta", "b"] + [""];
  }

  lemma BrokenLineSplits()
    ensures JavaSplit("INFO:\ta", '\t') == ["INFO:", "a"] && JavaSplit("b", '\t') == ["b"]
  {
    var cells := ["INFO:", "a"];
    SplitAllJoin(cells, '\t');
    assert Join(cells, '\t') == "INFO:\ta";
    assert '\t' in "INFO:\ta" by { assert "INFO:\ta"[5] == '\t'; }
  }

  /** Tabs and newlines in a value become spaces. */
  function Sanitized(s: string): (r: string)
    ensures |r| == |s|
    ensures '\t' !in r && '\n' !in r
    ensures forall i :: 0 <= i < |s| ==> s[i] != '\t' && s[i] != '\n' ==> r[i] == s[i]
  {
    seq(|s|, i requires 0 <= i < |s| => if s[i] == '\t' || s[i] == '\n' then ' ' else s[i])
  }

  function SanitizedEntries(entries: seq<(string, string)>): (r: seq<(string, string)>)
    ensures |r| == |entries|
    ensures forall i :: 0 <= i < |r| ==> r[i].0 == entries[i].0 && r[i].1 == Sanitized(entries[i].1)
  {
    seq(|entries|, i requires 0 <= i < |entries| => (entries[i].0, Sanitized(entries[i].1)))
  }

  /** The dialog text with tabs and newlines in the values replaced by spaces. */
  function SafeInfoText(entries: seq<(string, string)>): string {
    InfoText(SanitizedEntries(entries))
  }

  predicate Clean(s: string) {
    '\t' !in s && '\n' !in s
  }

  /** A line the dialog can lay out as one row of two cells. */
  predicate GoodLine(l: string) {
    l != "" && '\n' !in l && |JavaSplit(l, '\t')| == 2
  }

  lemma LineIsGood(name: string, value: string)
    requires Clean(name) && Clean(value) && value != ""
    ensures GoodLine(Line(name, value))
  {
    var tv := TruncatedString(value);
    assert Clean(tv) by {
      if |value| > 20 {
        assert forall ch :: ch in value[..20] ==> ch in value;
        assert forall ch :: ch in tv ==> ch in value[..20] || ch in "...";
      }
    }
    var cells := [name + ":", tv];
    assert Clean(name + ":") by {
      assert forall ch :: ch in name + ":" ==> ch in name || ch == ':';
    }
    SplitAllJoin(cells, '\t');
    var l := Line(name, value);
    assert Join(cells, '\t') == l;
    assert '\t' in l by { assert l[|name| + 1] == '\t'; }
    assert forall ch :: ch in l ==> ch in name + ":" || ch == '\t' || ch in tv;
  }

  /** Every line of entries without tabs and newlines is one the dialog can lay out. */
  lemma {:induction false} CleanLines(entries: seq<(string, string)>)
    requires forall i :: 0 <= i < |entries| ==> Clean(entries[i].0) && Clean(entries[i].1)
    ensures forall k :: 0 <= k < |InfoLines(entries)| ==> GoodLine(InfoLines(entries)[k])
  {
    if entries != [] {
      var n := |entries| - 1;
      CleanLines(entries[..n]);
      if entries[n].1 != "" {
        LineIsGood(entries[n].0, entries[n].1);
      }
    }
  }

  /** With tabs and newlines in the values replaced, the dialog always lays the text out: one
      row of two cells per non-empty value, or a single empty cell when every value is empty. */
  lemma SafeInfoTextAlwaysShows(entries: seq<(string, string)>)
    requires forall i :: 0 <= i < |entries| ==> Clean(entries[i].0)
    ensures ParseGrid(SafeInfoText(entries)).Ok?
    ensures var ls := InfoLines(SanitizedEntries(entries));
            ls != [] ==> ParseGrid(SafeInfoText(entries)).value.rows == |ls|
                         && ParseGrid(SafeInfoText(entries)).value.columns == 2
  {
    var es := SanitizedEntries(entries);
    var ls := InfoLines(es);
    CleanLines(es);
    if ls == [] {
      var text := SafeInfoText(entries);
      assert text == "";
      assert CellTable(text) == [[""]];
    } else {
      TerminatedIsJoin(ls);
      GoodLinesSplit(ls);
      GoodLinesGrid(SafeInfoText(entries), ls);
    }
  }

  /** Good lines joined by newlines, with a newline after the last, split back into them. */
  lemma GoodLinesSplit(ls: seq<string>)
    requires ls != [] && forall k :: 0 <= k < |ls| ==> GoodLine(ls[k])
    ensures JavaSplit(Join(ls + [""], '\n'), '\n') == ls
  {
    var pieces := ls + [""];
    var text := Join(pieces, '\n');
    assert forall i :: 0 <= i < |pieces| ==> '\n' !in pieces[i];
    SplitAllJoin(pieces, '\n');
    JoinAppend(ls, "", '\n');
    assert '\n' in text by { assert text[|Join(ls, '\n')|] == '\n'; }
    DropOneTrailingEmpty(ls);
  }

  /** A text that splits into good lines is laid out as one row of two cells per line. */
  lemma GoodLinesGrid(text: string, ls: seq<string>)
    requires ls != [] && forall k :: 0 <= k < |ls| ==> GoodLine(ls[k])
    requires JavaSplit(text, '\n') == ls
    ensures ParseGrid(text).Ok? && ParseGrid(text).value.rows == |ls| && ParseGrid(text).value.columns == 2
  {
    var t := CellTable(text);
    assert |t| == |ls|;
    forall i | 0 <= i < |t| ensures |t[i]| == 2 {
      assert t[i] == JavaSplit(ls[i], '\t');
    }
    TwoWideGrid(t);
  }

  lemma TwoWideGrid(t: seq<seq<string>>)
    requires t != [] && forall i :: 0 <= i < |t| ==> |t[i]| == 2
    ensures GridOf(t).Ok? && GridOf(t).value.rows == |t| && GridOf(t).value.columns == 2
  {
  }

  lemma SafeInfoTextStep(entries: seq<(string, string)>, name: string, value: string)
    ensures SafeInfoText(entries + [(name, value)])
         == SafeInfoText(entries) + (if value == "" then "" else Line(name, Sanitized(value)) + "\n")
  {
    var x := SanitizedEntries(entries);
    var e := (name, Sanitized(value));
    assert SanitizedEntries(entries + [(name, value)]) == x + [e];
    assert (x + [e])[..|x|] == x;
    assert (x + [e])[|x|] == e;
    var ls := InfoLines(x);
    assert Sanitized(value) == "" <==> value == "";
    if value != "" {
      var l := Line(name, Sanitized(value));
      assert InfoLines(x + [e]) == ls + [l];
      assert (ls + [l])[..|ls|] == ls;
      assert Terminated(ls + [l]) == Terminated(ls) + l + "\n";
    } else {
      assert InfoLines(x + [e]) == ls;
    }
  }

  // ---------------------------------------------------------------- the view

  /** The column names as the table header shows them. */
  function HeaderNames(cols: seq<Column>): (r: seq<string>)
    ensures |r| == |cols| && forall i :: 0 <= i < |cols| ==> r[i] == cols[i].name
  {
    seq(|cols|, i requires 0 <= i < |cols| => cols[i].name)
  }

  datatype InfoError =
    | CellError(cell: TableError)   // a column cannot be read for the selected row
    | LayoutError(grid: GridError)  // the dialog cannot lay out the text

  class TableUI {
    const menu: Menu
    const model: Table
    var visible: seq<string>

    /** All columns are visible and, with nothing selected, every menu item is disabled. */
    constructor(menu: Menu, model: Table)
      requires menu.Valid()
      modifies menu
      ensures this.menu == menu && this.model == model
      ensures visible == HeaderNames(model.columns)
      ensures menu.Valid() && |menu.items| == |old(menu.items)|
      ensures forall i :: 0 <= i < |menu.items| ==> !menu.items[i].enabled
    {
      this.menu := menu;
      this.model := model;
      visible := HeaderNames(model.columns);
      new;
      menu.UpdateActions(0);
    }

    /** The menu follows the number of selected rows. */
    method RowSelectionChanged(selectedItemsCount: int)
      requires menu.Valid()
      modifies menu
      ensures menu.Valid() && |menu.items| == |old(menu.items)|
      ensures forall i :: 0 <= i < |menu.items| ==> menu.items[i].enabled == EnabledFor(menu.conditions[i], selectedItemsCount)
    {
      menu.UpdateActions(selectedItemsCount);
    }

    /** Hides the first visible column with the header, unless it is the last one visible. */
    method HideColumn(columnName: Option<string>)
      modifies this
      ensures visible == Hidden(old(visible), columnName)
    {
      if columnName.None? {
        return;
      }
      var name := columnName.value;
      var i := 0;
      while i < |visible|
        invariant 0 <= i <= |visible|
        invariant visible == old(visible)
        invariant forall j :: 0 <= j < i ==> visible[j] != name
      {
        if visible[i] == name {
          if |visible| == 1 {
            return;
          }
          visible := visible[..i] + visible[i + 1..];
          return;
        }
        i := i + 1;
      }
    }

    /** Hides the columns one after another. */
    method HideColumns(columns: seq<Column>)
      modifies this
      ensures visible == HiddenAll(old(visible), HeaderNames(columns))
    {
      var names := HeaderNames(columns);
      var k := 0;
      while k < |columns|
        invariant 0 <= k <= |columns|
        invariant visible == HiddenAll(old(visible), names[..k])
      {
        assert names[..k + 1][..k] == names[..k];
        HideColumn(Some(columns[k].name));
        k := k + 1;
      }
      assert names[..|columns|] == names;
    }

    /** The (column name, value text) pairs of a row, or the error of the first column that
        cannot be read. */
    function Entries(cols: seq<Column>, position: int, render: Value -> string): Result<seq<(string, string)>, TableError>
      reads model
    {
      if cols == [] then Ok([])
      else
        var n := |cols| - 1;
        match Entries(cols[..n], position, render)
        case Err(e) => Err(e)
        case Ok(es) =>
          match model.GetRowValue(position, cols[n])
          case Err(e) => Err(e)
          case Ok(v) => Ok(es + [(cols[n].name, render(v))])
    }

    /** The information dialog about the row at `position`: the columns' names and values, empty
        values skipped; `render` is the text of a cell value. A column that cannot be read is an
        error; with clean column names the text is always laid out. */
    method ShowPersonalizedInfo(columns: seq<Column>, position: int, render: Value -> string)
      returns (r: Result<Grid, InfoError>)
      ensures Entries(columns, position, render).Err? ==> r == Err(CellError(Entries(columns, position, render).error))
      ensures Entries(columns, position, render).Ok? ==>
                r == match ParseGrid(SafeInfoText(Entries(columns, position, render).value))
                     case Ok(g) => Ok(g)
                     case Err(e) => Err(LayoutError(e))
      ensures Entries(columns, position, render).Ok? && (forall i :: 0 <= i < |columns| ==> Clean(columns[i].name)) ==> r.Ok?
    {
      var text := "";
      ghost var entries: seq<(string, string)> := [];
      var k := 0;
      while k < |columns|
        invariant 0 <= k <= |columns|
        invariant Entries(columns[..k], position, render) == Ok(entries)
        invariant text == SafeInfoText(entries)
      {
        var cell := model.GetRowValue(position, columns[k]);
        EntriesStep(columns, position, render, k, entries);
        if cell.Err? {
          EntriesErrorSticks(columns, position, render, k + 1);
          return Err(CellError(cell.error));
        }
        var value := render(cell.value);
        SafeInfoTextStep(entries, columns[k].name, value);
        if value != "" {
          text := text + Line(columns[k].name, Sanitized(value)) + "\n";
        }
        entries := entries + [(columns[k].name, value)];
        k := k + 1;
      }
      assert columns[..|columns|] == columns;
      var grid := ParseGrid(text);
      CleanNamesShow(columns, position, render, entries);
      match grid
      case Err(e) => r := Err(LayoutError(e));
      case Ok(g) => r := Ok(g);
    }

    lemma CleanNamesShow(columns: seq<Column>, position: int, render: Value -> string, entries: seq<(string, string)>)
      requires Entries(columns, position, render) == Ok(entries)
      ensures (forall i :: 0 <= i < |columns| ==> Clean(columns[i].name)) ==> ParseGrid(SafeInfoText(entries)).Ok?
    {
      EntriesNamed(columns, position, render);
      if forall i :: 0 <= i < |columns| ==> Clean(columns[i].name) {
        SafeInfoTextAlwaysShows(entries);
      }
    }

    /** The pairs of a row that can be read are named after the columns, one per column. */
    lemma {:induction false} EntriesNamed(cols: seq<Column>, position: int, render: Value -> string)
      ensures Entries(cols, position, render).Ok? ==>
                var es := Entries(cols, position, render).value;
                |es| == |cols| && forall i :: 0 <= i < |cols| ==> es[i].0 == cols[i].name
    {
      if cols != [] {
        var n := |cols| - 1;
        EntriesNamed(cols[..n], position, render);
      }
    }

    lemma EntriesStep(cols: seq<Column>, position: int, render: Value -> string, k: nat, es: seq<(string, string)>)
      requires k < |cols| && Entries(cols[..k], position, render) == Ok(es)
      ensures Entries(cols[..k + 1], position, render)
           == match model.GetRowValue(position, cols[k])
              case Err(e) => Err(e)
              case Ok(v) => Ok(es + [(cols[k].name, render(v))])
    {
      assert cols[..k + 1][..k] == cols[..k];
    }

    /** Once a column fails, so does every longer list of columns. */
    lemma {:induction false} EntriesErrorSticks(cols: seq<Column>, position: int, render: Value -> string, k: nat)
      requires k <= |cols| && Entries(cols[..k], position, render).Err?
      ensures Entries(cols, position, render) == Entries(cols[..k], position, render)
      decreases |cols| - k
    {
      if k < |cols| {
        assert cols[..k + 1][..k] == cols[..k];
        EntriesErrorSticks(cols, position, render, k + 1);
      } else {
        assert cols[..k] == cols;
      }
    }
  }
}
