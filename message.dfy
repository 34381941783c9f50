/**
 * The text layout of the information, warning and error dialogs: a message is split into lines
 * and each line into tab-separated cells, which must form a full rectangle.
 */
module Messages {
  import opened Wrappers

  /** Every piece between separators, empty pieces included; there is always at least one. */
  function SplitAll(s: string, sep: char): (r: seq<string>)
    ensures |r| >= 1
    ensures forall i :: 0 <= i < |r| ==> sep !in r[i]
  {
    if s == [] then [""]
    else if s[0] == sep then [""] + SplitAll(s[1..], sep)
    else
      var rest := SplitAll(s[1..], sep);
      [[s[0]] + rest[0]] + rest[1..]
  }

  /** The pieces with one separator between each two. */
  function Join(pieces: seq<string>, sep: char): string
    requires |pieces| >= 1
  {
    if |pieces| == 1 then pieces[0] else pieces[0] + [sep] + Join(pieces[1..], sep)
  }

  /** Joining the pieces gives back the text. */
  lemma {:induction false} JoinSplitAll(s: string, sep: char)
    ensures Join(SplitAll(s, sep), sep) == s
  {
    if s != [] {
      JoinSplitAll(s[1..], sep);
      var rest := SplitAll(s[1..], sep);
      if s[0] != sep {
        if |rest| > 1 {
          assert ([[s[0]] + rest[0]] + rest[1..])[1..] == rest[1..];
          assert Join(rest, sep) == rest[0] + [sep] + Join(rest[1..], sep);
        }
      }
    }
  }

  lemma {:induction false} SplitAllOfPrefix(a: string, t: string, sep: char)
    requires sep !in a
    ensures SplitAll(a + t, sep) == [a + SplitAll(t, sep)[0]] + SplitAll(t, sep)[1..]
  {
    if a != [] {
      assert (a + t)[1..] == a[1..] + t;
      assert (a + t)[0] == a[0];
      SplitAllOfPrefix(a[1..], t, sep);
      assert [a[0]] + (a[1..] + SplitAll(t, sep)[0]) == a + SplitAll(t, sep)[0];
    } else {
      assert a + t == t;
      assert a + SplitAll(t, sep)[0] == SplitAll(t, sep)[0];
    }
  }

  /** Splitting a join of separator-free pieces gives back the pieces. */
  lemma {:induction false} SplitAllJoin(pieces: seq<string>, sep: char)
    requires |pieces| >= 1
    requires forall i :: 0 <= i < |pieces| ==> sep !in pieces[i]
    ensures SplitAll(Join(pieces, sep), sep) == pieces
  {
    if |pieces| == 1 {
      SplitAllOfPrefix(pieces[0], "", sep);
      assert pieces[0] + "" == pieces[0];
    } else {
      var rest := Join(pieces[1..], sep);
      SplitAllJoin(pieces[1..], sep);
      var tail := [sep] + rest;
      assert tail[0] == sep && tail[1..] == rest;
      assert SplitAll(tail, sep) == [""] + pieces[1..];
      SplitAllOfPrefix(pieces[0], tail, sep);
      assert Join(pieces, sep) == pieces[0] + tail;
      assert pieces[0] + "" == pieces[0];
      assert [pieces[0]] + pieces[1..] == pieces;
    }
  }

  /** Drops the empty pieces at the end, as Java's `String.split` does. */
  function DropTrailingEmpty(p: seq<string>): (r: seq<string>)
    ensures |r| <= |p| && r == p[..|r|]
    ensures forall i :: |r| <= i < |p| ==> p[i] == ""
    ensures r == [] || r[|r| - 1] != ""
  {
    if p == [] then []
    else if p[|p| - 1] == "" then DropTrailingEmpty(p[..|p| - 1])
    else p
  }

  /** Java's `String.split` on a one-character pattern: the whole text when the separator does
      not occur, otherwise the pieces without the trailing empty ones. */
  function JavaSplit(s: string, sep: char): (r: seq<string>)
    ensures forall i :: 0 <= i < |r| ==> sep !in r[i]
  {
    if sep !in s then [s] else DropTrailingEmpty(SplitAll(s, sep))
  }

  function Blanks(n: nat): seq<string> {
    seq(n, _ => "")
  }

  /** The split pieces, with the dropped empty pieces put back and joined, are the text. */
  lemma JavaSplitKeepsText(s: string, sep: char)
    ensures |JavaSplit(s, sep)| <= |SplitAll(s, sep)|
    ensures s == Join(JavaSplit(s, sep) + Blanks(|SplitAll(s, sep)| - |JavaSplit(s, sep)|), sep)
  {
    var all := SplitAll(s, sep);
    JoinSplitAll(s, sep);
    if sep !in s {
      SplitAllJoin([s], sep);
      assert [s] + Blanks(0) == [s];
    } else {
      var r := JavaSplit(s, sep);
      assert r + Blanks(|all| - |r|) == all;
    }
  }

  /** A text made of separators only splits into nothing. */
  lemma {:induction false} SeparatorsOnlySplitToNothing(s: string, sep: char)
    requires |s| > 0 && forall i :: 0 <= i < |s| ==> s[i] == sep
    ensures JavaSplit(s, sep) == []
  {
    assert s[0] in s;
    AllBlankPieces(s, sep);
  }

  lemma {:induction false} AllBlankPieces(s: string, sep: char)
    requires forall i :: 0 <= i < |s| ==> s[i] == sep
    ensures forall i :: 0 <= i < |SplitAll(s, sep)| ==> SplitAll(s, sep)[i] == ""
  {
    if s != [] {
      AllBlankPieces(s[1..], sep);
    }
  }

  // ---------------------------------------------------------------- the grid

  datatype Grid = Grid(rows: nat, columns: nat, cells: seq<string>)

  datatype GridError =
    | NoSuchElement     // no line at all: the maximum of an empty stream
    | WrongFormatting   // lines with different numbers of cells

  /** The lines of the message, each split into its cells. */
  function CellTable(s: string): seq<seq<string>>
  {
    var lines := JavaSplit(s, '\n');
    seq(|lines|, i requires 0 <= i < |lines| => JavaSplit(lines[i], '\t'))
  }

  predicate Rectangular(t: seq<seq<string>>) {
    forall i, j :: 0 <= i < |t| && 0 <= j < |t| ==> |t[i]| == |t[j]|
  }

  function MaxWidth(t: seq<seq<string>>): (m: nat)
    requires |t| > 0
    ensures forall i :: 0 <= i < |t| ==> |t[i]| <= m
    ensures exists i :: 0 <= i < |t| && |t[i]| == m
  {
    if |t| == 1 then |t[0]|
    else
      var m := MaxWidth(t[1..]);
      assert forall i :: 1 <= i < |t| ==> t[1..][i - 1] == t[i];
      if |t[0]| >= m then |t[0]| else m
  }

  function MinWidth(t: seq<seq<string>>): (m: nat)
    requires |t| > 0
    ensures forall i :: 0 <= i < |t| ==> m <= |t[i]|
    ensures exists i :: 0 <= i < |t| && |t[i]| == m
  {
    if |t| == 1 then |t[0]|
    else
      var m := MinWidth(t[1..]);
      assert forall i :: 1 <= i < |t| ==> t[1..][i - 1] == t[i];
      if |t[0]| <= m then |t[0]| else m
  }

  /** The widest and the narrowest line agree exactly when all lines are equally wide. */
  lemma WidthsAgreeIffRectangular(t: seq<seq<string>>)
    requires |t| > 0
    ensures MaxWidth(t) == MinWidth(t) <==> Rectangular(t)
    ensures Rectangular(t) ==> forall i :: 0 <= i < |t| ==> |t[i]| == MaxWidth(t)
  {
    if Rectangular(t) {
      var i :| 0 <= i < |t| && |t[i]| == MaxWidth(t);
      var k :| 0 <= k < |t| && |t[k]| == MinWidth(t);
      assert |t[i]| == |t[k]|;
    }
  }

  /** The cells row after row. */
  function Flatten(t: seq<seq<string>>): seq<string> {
    if t == [] then [] else t[0] + Flatten(t[1..])
  }

  // MulStep and MulBound are the arithmetic behind FlattenAt's row-major positions.
  lemma MulStep(i: int, c: int, j: int)
    ensures i * c + j == c + ((i - 1) * c + j)
  {
  }

  lemma MulBound(i: nat, n: nat, c: nat, j: nat)
    requires i < n && j < c
    ensures i * c + j < n * c
  {
    assert i * c <= (n - 1) * c;
    MulStep(n, c, 0);
  }

  lemma {:induction false} FlattenLength(t: seq<seq<string>>, c: nat)
    requires forall i :: 0 <= i < |t| ==> |t[i]| == c
    ensures |Flatten(t)| == |t| * c
  {
    if t != [] {
      FlattenLength(t[1..], c);
      MulStep(|t|, c, 0);
    }
  }

  lemma {:induction false} FlattenAt(t: seq<seq<string>>, c: nat, i: nat, j: nat)
    requires forall k :: 0 <= k < |t| ==> |t[k]| == c
    requires i < |t| && j < c
    ensures i * c + j < |Flatten(t)| && Flatten(t)[i * c + j] == t[i][j]
  {
    FlattenLength(t, c);
    MulBound(i, |t|, c, j);
    if i > 0 {
      FlattenAt(t[1..], c, i - 1, j);
      MulStep(i, c, j);
    }
  }

  /** Read row after row, the cells of equally wide lines sit at `row * width + column`. */
  lemma FlattenIndex(t: seq<seq<string>>, c: nat)
    requires forall i :: 0 <= i < |t| ==> |t[i]| == c
    ensures |Flatten(t)| == |t| * c
    ensures RowMajor(Flatten(t), t, c)
  {
    FlattenLength(t, c);
    forall i, j | 0 <= i < |t| && 0 <= j < c && j < |t[i]| ensures i * c + j < |Flatten(t)| && Flatten(t)[i * c + j] == t[i][j] {
      FlattenAt(t, c, i, j);
    }
  }

  /** The grid of already split lines: none is an error, lines of different widths are an
      error, and otherwise the grid has one row per line. */
  function GridOf(t: seq<seq<string>>): (r: Result<Grid, GridError>)
    ensures r == Err(NoSuchElement) <==> t == []
    ensures r.Ok? <==> t != [] && Rectangular(t)
    ensures r.Ok? ==> r.value.rows == |t| && forall i :: 0 <= i < |t| ==> |t[i]| == r.value.columns
  {
    if t == [] then Err(NoSuchElement)
    else
      WidthsAgreeIffRectangular(t);
      if MaxWidth(t) != MinWidth(t) then Err(WrongFormatting)
      else Ok(Grid(|t|, MaxWidth(t), Flatten(t)))
  }

  /** `cells` holds the cells of `t`, `c` to a line, line after line. */
  predicate RowMajor(cells: seq<string>, t: seq<seq<string>>, c: nat) {
    forall i, j :: 0 <= i < |t| && 0 <= j < c && j < |t[i]| ==> i * c + j < |cells| && cells[i * c + j] == t[i][j]
  }

  /** A grid holds rows times columns cells, filled row after row. */
  lemma GridLayout(t: seq<seq<string>>)
    requires GridOf(t).Ok?
    ensures |GridOf(t).value.cells| == GridOf(t).value.rows * GridOf(t).value.columns
    ensures RowMajor(GridOf(t).value.cells, t, GridOf(t).value.columns)
  {
    var c := MaxWidth(t);
    assert GridOf(t).value == Grid(|t|, c, Flatten(t));
    FlattenIndex(t, c);
  }

  /** `createPanel`: the message split into lines and cells, laid out as a grid. */
  function ParseGrid(s: string): Result<Grid, GridError> {
    GridOf(CellTable(s))
  }
}
