/**
 * `format_table`: fixed-column text layout. Each column is as wide as the
 * longest of its header and its cells; fields are left-justified and
 * separated by " | ", and the divider row is dashes joined by "-+-".
 */
module Table {
  import opened PyText

  const Separator: string := " | "
  const DividerJoint: string := "-+-"

  /** `row.get(col, "")` */
  function Cell(row: map<string, string>, col: string): string {
    if col in row then row[col] else ""
  }

  /** `max((len(row.get(col, "")) for row in rows), default=0)` */
  function MaxCellLength(rows: seq<map<string, string>>, col: string): (m: nat)
    ensures forall i :: 0 <= i < |rows| ==> |Cell(rows[i], col)| <= m
    ensures m == 0 || exists i :: 0 <= i < |rows| && |Cell(rows[i], col)| == m
  {
    if rows == [] then 0
    else
      var rest := MaxCellLength(rows[1..], col);
      var here := |Cell(rows[0], col)|;
      assert forall i :: 1 <= i < |rows| ==> rows[i] == rows[1..][i - 1];
      if here >= rest then here else rest
  }

  /** The width of a column: the length of its header or of its longest cell, whichever is larger. */
  function Width(rows: seq<map<string, string>>, col: string): (w: nat)
    ensures |col| <= w
    ensures forall i :: 0 <= i < |rows| ==> |Cell(rows[i], col)| <= w
    ensures w == |col| || exists i :: 0 <= i < |rows| && |Cell(rows[i], col)| == w
  {
    var longest := MaxCellLength(rows, col);
    if |col| >= longest then |col| else longest
  }

  function Widths(rows: seq<map<string, string>>, columns: seq<string>): (ws: seq<nat>)
    ensures |ws| == |columns|
    ensures forall j :: 0 <= j < |columns| ==> ws[j] == Width(rows, columns[j])
  {
    seq(|columns|, j requires 0 <= j < |columns| => Width(rows, columns[j]))
  }

  function RowCells(row: map<string, string>, columns: seq<string>): (cells: seq<string>)
    ensures |cells| == |columns|
    ensures forall j :: 0 <= j < |columns| ==> cells[j] == Cell(row, columns[j])
  {
    seq(|columns|, j requires 0 <= j < |columns| => Cell(row, columns[j]))
  }

  function Padded(cells: seq<string>, ws: seq<nat>): (fields: seq<string>)
    requires |cells| == |ws|
    ensures |fields| == |ws|
    ensures forall j :: 0 <= j < |ws| ==> fields[j] == LJust(cells[j], ws[j])
  {
    seq(|ws|, j requires 0 <= j < |ws| => LJust(cells[j], ws[j]))
  }

  function Dashes(ws: seq<nat>): (fields: seq<string>)
    ensures |fields| == |ws|
    ensures forall j :: 0 <= j < |ws| ==> fields[j] == Repeat('-', ws[j])
  {
    seq(|ws|, j requires 0 <= j < |ws| => Repeat('-', ws[j]))
  }

  /** One body line: the row's cells, each padded to its column's width. */
  function RowLine(row: map<string, string>, columns: seq<string>, ws: seq<nat>): string
    requires |ws| == |columns|
  {
    Join(Padded(RowCells(row, columns), ws), Separator)
  }

  /** The header, the divider, then one line per row. */
  function TableLines(rows: seq<map<string, string>>, columns: seq<string>): (lines: seq<string>)
    ensures |lines| == |rows| + 2
  {
    var ws := Widths(rows, columns);
    [Join(Padded(columns, ws), Separator), Join(Dashes(ws), DividerJoint)] + BodyLines(rows, columns, ws)
  }

  function BodyLines(rows: seq<map<string, string>>, columns: seq<string>, ws: seq<nat>): (lines: seq<string>)
    requires |ws| == |columns|
    ensures |lines| == |rows|
    ensures forall i :: 0 <= i < |rows| ==> lines[i] == RowLine(rows[i], columns, ws)
  {
    seq(|rows|, i requires 0 <= i < |rows| => RowLine(rows[i], columns, ws))
  }

  lemma TableLineAt(rows: seq<map<string, string>>, columns: seq<string>, i: nat)
    requires i < |rows| + 2
    ensures i == 0 ==> TableLines(rows, columns)[i] == Join(Padded(columns, Widths(rows, columns)), Separator)
    ensures i == 1 ==> TableLines(rows, columns)[i] == Join(Dashes(Widths(rows, columns)), DividerJoint)
    ensures i >= 2 ==> TableLines(rows, columns)[i] == RowLine(rows[i - 2], columns, Widths(rows, columns))
  {
  }

  /** `format_table(rows, columns)` */
  function FormatTable(rows: seq<map<string, string>>, columns: seq<string>): string {
    Join(TableLines(rows, columns), "\n")
  }

  function Sum(ws: seq<nat>): nat {
    if ws == [] then 0 else ws[0] + Sum(ws[1..])
  }

  /** The length of a line of fields of widths `ws` with `k`-character separators. */
  function LineWidth(ws: seq<nat>, k: nat): nat {
    if ws == [] then 0 else Sum(ws) + k * (|ws| - 1)
  }

  /** Where field `j` starts in such a line. */
  function Offset(ws: seq<nat>, k: nat, j: nat): nat
    requires j <= |ws|
  {
    if j == 0 then 0 else ws[0] + k + Offset(ws[1..], k, j - 1)
  }

  /** `line` consists of `fields`, of widths `ws`, separated by `sep`. */
  ghost predicate LaidOut(line: string, fields: seq<string>, ws: seq<nat>, sep: string)
    requires |fields| == |ws|
  {
    && |line| == LineWidth(ws, |sep|)
    && forall j :: 0 <= j < |ws| ==>
         && Offset(ws, |sep|, j) + ws[j] <= |line|
         && line[Offset(ws, |sep|, j)..Offset(ws, |sep|, j) + ws[j]] == fields[j]
         && (j + 1 < |ws| ==>
               && Offset(ws, |sep|, j) + ws[j] + |sep| <= |line|
               && line[Offset(ws, |sep|, j) + ws[j]..Offset(ws, |sep|, j) + ws[j] + |sep|] == sep)
  }

  lemma {:induction false} TotalLengthIsSum(parts: seq<string>, ws: seq<nat>)
    requires |parts| == |ws| && forall i :: 0 <= i < |ws| ==> |parts[i]| == ws[i]
    ensures TotalLength(parts) == Sum(ws)
  {
    if ws != [] {
      TotalLengthIsSum(parts[1..], ws[1..]);
    }
  }

  lemma JoinLength(parts: seq<string>, sep: string, ws: seq<nat>)
    requires |parts| == |ws| && forall i :: 0 <= i < |ws| ==> |parts[i]| == ws[i]
    ensures |Join(parts, sep)| == LineWidth(ws, |sep|)
  {
    TotalLengthIsSum(parts, ws);
  }

  /** Field `j` and the separator after it end inside the line. */
  lemma {:induction false} OffsetBound(ws: seq<nat>, k: nat, j: nat)
    requires j < |ws|
    ensures Offset(ws, k, j) + ws[j] <= LineWidth(ws, k)
    ensures j + 1 < |ws| ==> Offset(ws, k, j) + ws[j] + k <= LineWidth(ws, k)
  {
    if |ws| == 1 {
      assert LineWidth(ws, k) == ws[0] + Sum(ws[1..]);
    } else {
      LineWidthCons(ws, k);
      if j > 0 {
        OffsetBound(ws[1..], k, j - 1);
        assert ws[1..][j - 1] == ws[j];
      }
    }
  }

  lemma LineWidthCons(ws: seq<nat>, k: nat)
    requires |ws| >= 2
    ensures LineWidth(ws, k) == ws[0] + k + LineWidth(ws[1..], k)
  {
    var n := |ws|;
    assert k * (n - 1) == k + k * (n - 2);
  }

  lemma SliceAfter(a: string, b: string, x: nat, y: nat)
    requires x <= y <= |b|
    ensures (a + b)[|a| + x..|a| + y] == b[x..y]
  {
  }

  /** Field `j` of a join of fixed-width parts starts at `Offset(ws, |sep|, j)`. */
  lemma {:induction false} JoinField(parts: seq<string>, sep: string, ws: seq<nat>, j: nat)
    requires |parts| == |ws| && forall i :: 0 <= i < |ws| ==> |parts[i]| == ws[i]
    requires j < |ws|
    ensures Offset(ws, |sep|, j) + ws[j] <= |Join(parts, sep)|
    ensures Join(parts, sep)[Offset(ws, |sep|, j)..Offset(ws, |sep|, j) + ws[j]] == parts[j]
  {
    JoinLength(parts, sep, ws);
    OffsetBound(ws, |sep|, j);
    if |parts| > 1 {
      var head := parts[0] + sep;
      var tail := Join(parts[1..], sep);
      assert Join(parts, sep) == head + tail;
      if j == 0 {
        assert (head + tail)[..ws[0]] == parts[0];
      } else {
        JoinField(parts[1..], sep, ws[1..], j - 1);
        var off := Offset(ws[1..], |sep|, j - 1);
        SliceAfter(head, tail, off, off + ws[j]);
      }
    }
  }

  /** The separator follows every field but the last. */
  lemma {:induction false} JoinSeparator(parts: seq<string>, sep: string, ws: seq<nat>, j: nat)
    requires |parts| == |ws| && forall i :: 0 <= i < |ws| ==> |parts[i]| == ws[i]
    requires j + 1 < |ws|
    ensures Offset(ws, |sep|, j) + ws[j] + |sep| <= |Join(parts, sep)|
    ensures Join(parts, sep)[Offset(ws, |sep|, j) + ws[j]..Offset(ws, |sep|, j) + ws[j] + |sep|] == sep
  {
    JoinLength(parts, sep, ws);
    OffsetBound(ws, |sep|, j);
    var head := parts[0] + sep;
    var tail := Join(parts[1..], sep);
    assert Join(parts, sep) == head + tail;
    if j == 0 {
      assert (head + tail)[ws[0]..ws[0] + |sep|] == sep;
    } else {
      JoinSeparator(parts[1..], sep, ws[1..], j - 1);
      var off := Offset(ws[1..], |sep|, j - 1);
      SliceAfter(head, tail, off + ws[j], off + ws[j] + |sep|);
    }
  }

  lemma JoinLaidOut(parts: seq<string>, sep: string, ws: seq<nat>)
    requires |parts| == |ws| && forall i :: 0 <= i < |ws| ==> |parts[i]| == ws[i]
    ensures LaidOut(Join(parts, sep), parts, ws, sep)
  {
    JoinLength(parts, sep, ws);
    forall j | 0 <= j < |ws|
      ensures Offset(ws, |sep|, j) + ws[j] <= |Join(parts, sep)|
      ensures Join(parts, sep)[Offset(ws, |sep|, j)..Offset(ws, |sep|, j) + ws[j]] == parts[j]
      ensures j + 1 < |ws| ==>
        && Offset(ws, |sep|, j) + ws[j] + |sep| <= |Join(parts, sep)|
        && Join(parts, sep)[Offset(ws, |sep|, j) + ws[j]..Offset(ws, |sep|, j) + ws[j] + |sep|] == sep
    {
      JoinField(parts, sep, ws, j);
      if j + 1 < |ws| {
        JoinSeparator(parts, sep, ws, j);
      }
    }
  }

  /** A row of cells each no wider than its column pads out to fields of exactly the column widths. */
  lemma PaddedLaidOut(cells: seq<string>, ws: seq<nat>)
    requires |cells| == |ws| && forall j :: 0 <= j < |ws| ==> |cells[j]| <= ws[j]
    ensures LaidOut(Join(Padded(cells, ws), Separator), Padded(cells, ws), ws, Separator)
  {
    JoinLaidOut(Padded(cells, ws), Separator, ws);
  }

  /** The layout of `format_table`: `len(rows) + 2` lines, each of length
      `sum(widths) + 3 * (ncols - 1)`, with each header, dash run and cell
      left-justified to its column's width at the column's offset. */
  lemma TableLayout(rows: seq<map<string, string>>, columns: seq<string>)
    ensures |TableLines(rows, columns)| == |rows| + 2
    ensures LaidOut(TableLines(rows, columns)[0], Padded(columns, Widths(rows, columns)), Widths(rows, columns), Separator)
    ensures LaidOut(TableLines(rows, columns)[1], Dashes(Widths(rows, columns)), Widths(rows, columns), DividerJoint)
    ensures forall i :: 2 <= i < |TableLines(rows, columns)| ==>
      LaidOut(TableLines(rows, columns)[i], Padded(RowCells(rows[i - 2], columns), Widths(rows, columns)), Widths(rows, columns), Separator)
  {
    var ws := Widths(rows, columns);
    PaddedLaidOut(columns, ws);
    TableLineAt(rows, columns, 0);
    JoinLaidOut(Dashes(ws), DividerJoint, ws);
    TableLineAt(rows, columns, 1);
    forall i | 2 <= i < |TableLines(rows, columns)|
      ensures LaidOut(TableLines(rows, columns)[i], Padded(RowCells(rows[i - 2], columns), ws), ws, Separator)
    {
      TableLineAt(rows, columns, i);
      PaddedLaidOut(RowCells(rows[i - 2], columns), ws);
    }
  }

  lemma LJustAvoids(s: string, width: int, c: char)
    requires c != ' ' && c !in s
    ensures c !in LJust(s, width)
  {
    var r := LJust(s, width);
    forall k | 0 <= k < |r|
      ensures r[k] != c
    {
      if k < |s| {
        assert r[k] == r[..|s|][k];
      }
    }
  }

  lemma PaddedAvoids(cells: seq<string>, ws: seq<nat>, sep: string, c: char)
    requires |cells| == |ws| && c != ' ' && c !in sep
    requires forall j :: 0 <= j < |ws| ==> c !in cells[j]
    ensures c !in Join(Padded(cells, ws), sep)
  {
    forall j | 0 <= j < |ws|
      ensures c !in Padded(cells, ws)[j]
    {
      LJustAvoids(cells[j], ws[j], c);
    }
    JoinAvoids(Padded(cells, ws), sep, c);
  }

  ghost predicate NoNewlines(rows: seq<map<string, string>>, columns: seq<string>) {
    && (forall j :: 0 <= j < |columns| ==> '\n' !in columns[j])
    && (forall i, j :: 0 <= i < |rows| && 0 <= j < |columns| ==> '\n' !in Cell(rows[i], columns[j]))
  }

  lemma DashesAvoid(ws: seq<nat>)
    ensures '\n' !in Join(Dashes(ws), DividerJoint)
  {
    forall j | 0 <= j < |ws|
      ensures '\n' !in Dashes(ws)[j]
    {
      var d := Dashes(ws)[j];
      assert forall k :: 0 <= k < |d| ==> d[k] == '-';
    }
    JoinAvoids(Dashes(ws), DividerJoint, '\n');
  }

  lemma LineAvoidsNewline(rows: seq<map<string, string>>, columns: seq<string>, i: nat)
    requires NoNewlines(rows, columns)
    requires i < |rows| + 2
    ensures '\n' !in TableLines(rows, columns)[i]
  {
    var ws := Widths(rows, columns);
    TableLineAt(rows, columns, i);
    if i == 0 {
      PaddedAvoids(columns, ws, Separator, '\n');
    } else if i == 1 {
      DashesAvoid(ws);
    } else {
      RowAvoids(rows[i - 2], columns, ws);
    }
  }

  lemma RowAvoids(row: map<string, string>, columns: seq<string>, ws: seq<nat>)
    requires |ws| == |columns|
    requires forall j :: 0 <= j < |columns| ==> '\n' !in Cell(row, columns[j])
    ensures '\n' !in RowLine(row, columns, ws)
  {
    PaddedAvoids(RowCells(row, columns), ws, Separator, '\n');
  }

  /** When no header or cell contains a newline, the output splits back into exactly those `len(rows) + 2` lines. */
  lemma TableLineCount(rows: seq<map<string, string>>, columns: seq<string>)
    requires NoNewlines(rows, columns)
    ensures Split(FormatTable(rows, columns), '\n') == TableLines(rows, columns)
    ensures |Split(FormatTable(rows, columns), '\n')| == |rows| + 2
  {
    var lines := TableLines(rows, columns);
    forall i | 0 <= i < |lines|
      ensures '\n' !in lines[i]
    {
      LineAvoidsNewline(rows, columns, i);
    }
    SplitJoin(lines, '\n');
  }
}
