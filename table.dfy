/** Table layout of `src/render.js` (`renderTable`): the column widths are negotiated in an
    array, every row is wrapped cell by cell and padded to a common height, and the rows are
    framed by rules of a border set. Cells come in as the text `renderInline` gives them. */
module Table {
  import opened Text
  import opened Cells
  import WrapJs

  /** The widest a column grows from its content. */
  const MaxCol: int := 40

  /** `Number.MAX_SAFE_INTEGER`, the wrapping width of a cell when wrapping is off. */
  const MaxSafeInteger: int := 9007199254740991

  /** The characters of a border set. */
  datatype BoxChars = BoxChars(
    topLeft: char, topRight: char, bottomLeft: char, bottomRight: char,
    hSep: char, vSep: char, tSep: char, mSep: char, bSep: char, mLeft: char, mRight: char)

  const UnicodeBox: BoxChars := BoxChars('┌', '┐', '└', '┘', '─', '│', '┬', '┼', '┴', '├', '┤')
  const AsciiBox: BoxChars := BoxChars('+', '+', '+', '+', '-', '|', '+', '+', '+', '+', '+')

  /** `TABLE_BOX[name] || TABLE_BOX.unicode`: any name but `ascii` draws with the unicode set. */
  function BoxFor(name: string): BoxChars {
    if name == "ascii" then AsciiBox else UnicodeBox
  }

  /** A table: the rendered text of the header cells and of each body row's cells, and the
      column alignments (`node.align || []`). */
  datatype TableNode = TableNode(header: seq<string>, rows: seq<seq<string>>, align: seq<Align>)

  /** The resolved options a table reads. */
  datatype TableOptions = TableOptions(
    wrap: bool, width: Option<int>, tablePadding: int, tableTruncate: bool, tableEllipsis: string,
    tableBorder: string, tableDense: bool)

  // ----- column widths -----

  /** The number of columns: the longest row's length. */
  function ColCount(cells: seq<seq<string>>): (n: nat)
    ensures forall r :: 0 <= r < |cells| ==> |cells[r]| <= n
    ensures n == 0 || exists r :: 0 <= r < |cells| && |cells[r]| == n
  {
    if cells == [] then 0
    else
      var m := ColCount(cells[1..]);
      assert forall r :: 1 <= r < |cells| ==> cells[r] == cells[1..][r - 1];
      if |cells[0]| >= m then |cells[0]| else m
  }

  /** What one cell asks of its column: its width, capped at `MaxCol`. */
  function Cap(cell: string): int {
    if |cell| < MaxCol then |cell| else MaxCol
  }

  /** The width the content gives column `idx`: 1, widened to the capped width of each cell
      in that column in turn. */
  function ColWidth(cells: seq<seq<string>>, idx: nat): int {
    if cells == [] then 1
    else
      var w := ColWidth(cells[..|cells| - 1], idx);
      var last := cells[|cells| - 1];
      if idx < |last| && Cap(last[idx]) > w then Cap(last[idx]) else w
  }

  /** A column is at least 1 and at most `MaxCol` wide, as wide as the capped width of each
      of its cells, and either 1 wide or exactly as wide as one of them. */
  lemma {:induction false} ColWidthBounds(cells: seq<seq<string>>, idx: nat)
    ensures var w := ColWidth(cells, idx);
      && 1 <= w <= MaxCol
      && (forall r :: 0 <= r < |cells| && idx < |cells[r]| ==> Cap(cells[r][idx]) <= w)
      && (w == 1 || exists r :: 0 <= r < |cells| && idx < |cells[r]| && Cap(cells[r][idx]) == w)
  {
    if cells != [] {
      var init := cells[..|cells| - 1];
      ColWidthBounds(init, idx);
      assert forall r :: 0 <= r < |init| ==> init[r] == cells[r];
    }
  }

  /** One more row can only widen a column, to that row's cell. */
  lemma ColWidthSnoc(cells: seq<seq<string>>, r: nat, idx: nat)
    requires r < |cells|
    ensures ColWidth(cells[..r + 1], idx)
      == if idx < |cells[r]| && Cap(cells[r][idx]) > ColWidth(cells[..r], idx) then Cap(cells[r][idx])
         else ColWidth(cells[..r], idx)
  {
    assert cells[..r + 1][..r] == cells[..r];
  }

  /** The widths the content gives the columns. */
  function ColWidths(cells: seq<seq<string>>): seq<int> {
    seq(ColCount(cells), idx requires 0 <= idx < ColCount(cells) => ColWidth(cells, idx))
  }

  /** The width negotiation's first half: an array of ones, widened row by row and cell by
      cell to the capped width of each cell. */
  method ColumnWidths(cells: seq<seq<string>>) returns (widths: array<int>)
    ensures fresh(widths)
    ensures widths[..] == ColWidths(cells)
  {
    var colCount := ColCount(cells);
    widths := new int[colCount](_ => 1);
    var r := 0;
    while r < |cells|
      invariant 0 <= r <= |cells| && widths.Length == colCount
      invariant forall idx :: 0 <= idx < colCount ==> widths[idx] == ColWidth(cells[..r], idx)
    {
      var row := cells[r];
      var c := 0;
      while c < |row|
        invariant 0 <= c <= |row| <= colCount
        invariant forall idx :: 0 <= idx < c ==> widths[idx] == ColWidth(cells[..r + 1], idx)
        invariant forall idx :: c <= idx < colCount ==> widths[idx] == ColWidth(cells[..r], idx)
      {
        ColWidthSnoc(cells, r, c);
        var cap := if MaxCol < |row[c]| then MaxCol else |row[c]|;
        widths[c] := if widths[c] >= cap then widths[c] else cap;
        c := c + 1;
      }
      forall idx | |row| <= idx < colCount
        ensures ColWidth(cells[..r + 1], idx) == ColWidth(cells[..r], idx)
      {
        ColWidthSnoc(cells, r, idx);
      }
      r := r + 1;
    }
    assert cells[..r] == cells;
  }

  // ----- shrinking to the terminal width -----

  function Sum(ws: seq<int>): int {
    if ws == [] then 0 else ws[0] + Sum(ws[1..])
  }

  /** Changing one width changes the sum by as much. */
  lemma {:induction false} SumUpdate(ws: seq<int>, i: nat, v: int)
    requires i < |ws|
    ensures Sum(ws[i := v]) == Sum(ws) - ws[i] + v
  {
    if i > 0 {
      assert ws[i := v][1..] == ws[1..][i - 1 := v];
      SumUpdate(ws[1..], i - 1, v);
    }
  }

  /** The table's full width: the columns, three characters of border and padding per column,
      and the closing border. */
  function Total(ws: seq<int>): int {
    Sum(ws) + 3 * |ws| + 1
  }

  /** `widths.indexOf(Math.max(...widths))`: the first widest column, or -1 when there is none. */
  function FirstMax(ws: seq<int>): (i: int)
    ensures -1 <= i < |ws|
    ensures i == -1 <==> ws == []
    ensures i >= 0 ==> (forall k :: 0 <= k < |ws| ==> ws[k] <= ws[i]) && (forall k :: 0 <= k < i ==> ws[k] < ws[i])
  {
    if ws == [] then -1 else BestFrom(ws, 1, 0)
  }

  /** The first widest column, given the first widest `b` among the first `k`. */
  function BestFrom(ws: seq<int>, k: nat, b: nat): (i: nat)
    requires b < k <= |ws|
    requires forall j :: 0 <= j < k ==> ws[j] <= ws[b]
    requires forall j :: 0 <= j < b ==> ws[j] < ws[b]
    ensures i < |ws|
    ensures forall j :: 0 <= j < |ws| ==> ws[j] <= ws[i]
    ensures forall j :: 0 <= j < i ==> ws[j] < ws[i]
    decreases |ws| - k
  {
    if k == |ws| then b
    else if ws[k] > ws[b] then BestFrom(ws, k + 1, k)
    else BestFrom(ws, k + 1, b)
  }

  /** What the shrink loop leaves of `ws` with `over` columns still to remove: one from the
      first widest column per step, until nothing is over or the widest column is down to 1.
      With no column at all, the steps change nothing. */
  function ShrinkSpec(ws: seq<int>, over: int): seq<int>
    decreases if over > 0 then over else 0
  {
    if over <= 0 then ws
    else
      var i := FirstMax(ws);
      if i == -1 then ShrinkSpec(ws, over - 1)
      else if ws[i] <= 1 then ws
      else ShrinkSpec(ws[i := ws[i] - 1], over - 1)
  }

  /** Shrinking keeps the number of columns, lowers no column below 1, and raises none. */
  lemma {:induction false} ShrinkBounds(ws: seq<int>, over: int)
    requires forall k :: 0 <= k < |ws| ==> ws[k] >= 1
    ensures |ShrinkSpec(ws, over)| == |ws|
    ensures forall k :: 0 <= k < |ws| ==> 1 <= ShrinkSpec(ws, over)[k] <= ws[k]
    decreases if over > 0 then over else 0
  {
    if over > 0 {
      var i := FirstMax(ws);
      if i == -1 {
        ShrinkBounds(ws, over - 1);
      } else if ws[i] > 1 {
        ShrinkBounds(ws[i := ws[i] - 1], over - 1);
      }
    }
  }

  /** Shrinking removes exactly `over` columns in all, unless it stops with every column at 1;
      it never removes more. */
  lemma {:induction false} ShrinkAmount(ws: seq<int>, over: int)
    requires forall k :: 0 <= k < |ws| ==> ws[k] >= 1
    requires over >= 0
    ensures |ShrinkSpec(ws, over)| == |ws|
    ensures Sum(ShrinkSpec(ws, over)) >= Sum(ws) - over
    ensures Sum(ShrinkSpec(ws, over)) == Sum(ws) - over
      || forall k :: 0 <= k < |ws| ==> ShrinkSpec(ws, over)[k] == 1
    decreases over
  {
    ShrinkBounds(ws, over);
    if over > 0 {
      var i := FirstMax(ws);
      if i == -1 {
        ShrinkAmount(ws, over - 1);
      } else if ws[i] > 1 {
        SumUpdate(ws, i, ws[i] - 1);
        ShrinkAmount(ws[i := ws[i] - 1], over - 1);
      } else {
        SumAtLeastCount(ws);
      }
    }
  }

  lemma {:induction false} SumAtLeastCount(ws: seq<int>)
    requires forall k :: 0 <= k < |ws| ==> ws[k] >= 1
    ensures Sum(ws) >= |ws|
  {
    if ws != [] {
      SumAtLeastCount(ws[1..]);
    }
  }

  /** A table wider than the terminal is shrunk to exactly the terminal's width, or as far as
      it goes with every column 1 wide. */
  lemma ShrinkFits(ws: seq<int>, width: int)
    requires forall k :: 0 <= k < |ws| ==> ws[k] >= 1
    requires Total(ws) > width
    ensures var r := ShrinkSpec(ws, Total(ws) - width);
      |r| == |ws| && Total(r) >= width
      && (Total(r) == width || forall k :: 0 <= k < |r| ==> r[k] == 1)
  {
    ShrinkBounds(ws, Total(ws) - width);
    ShrinkAmount(ws, Total(ws) - width);
  }

  /** The shrink `while` loop, on the array in place. */
  method Shrink(widths: array<int>, over0: int)
    modifies widths
    ensures widths[..] == ShrinkSpec(old(widths[..]), over0)
  {
    var over := over0;
    while over > 0
      invariant ShrinkSpec(widths[..], over) == ShrinkSpec(old(widths[..]), over0)
      decreases over
    {
      var i := FirstMax(widths[..]);
      if i >= 0 && widths[i] <= 1 {
        break;
      }
      if i >= 0 {
        widths[i] := widths[i] - 1;
      }
      over := over - 1;
    }
  }

  // ----- rows -----

  /** What a cell hands to the wrapper: truncated to the column's inner width, or padded with
      one space on each side. */
  function CellText(cell: string, target: int, o: TableOptions): string {
    if o.tableTruncate then TruncateCell(cell, target, o.tableEllipsis) else " " + cell + " "
  }

  /** Each wrapped line with a space on each side, padded to the column. */
  function PadLines(ls: seq<string>, w: int, a: Align): (r: seq<string>)
    ensures |r| == |ls|
    ensures forall j :: 0 <= j < |r| ==> |r[j]| >= w && |r[j]| >= |ls[j]| + 2
  {
    seq(|ls|, j requires 0 <= j < |ls| => PadCell(" " + ls[j] + " ", w, a))
  }

  /** The row's height: the most lines of any column, 0 for a row without cells. */
  function Height(cols: seq<seq<string>>): (h: nat)
    ensures forall k :: 0 <= k < |cols| ==> |cols[k]| <= h
    ensures h == 0 || exists k :: 0 <= k < |cols| && |cols[k]| == h
  {
    if cols == [] then 0
    else
      var m := Height(cols[1..]);
      assert forall k :: 1 <= k < |cols| ==> cols[k] == cols[1..][k - 1];
      if |cols[0]| >= m then |cols[0]| else m
  }

  /** Line `i` of column `idx`: its own line, or a blank cell as wide as the column below its
      last line. */
  function Part(cols: seq<seq<string>>, widths: seq<int>, aligns: seq<Align>, i: nat, idx: nat): string
    requires idx < |cols| && idx < |widths|
  {
    if i < |cols[idx]| then cols[idx][i] else PadCell("", widths[idx], AlignAt(aligns, idx))
  }

  /** `renderRow`: every cell wrapped and padded, then one line of parts per line of the
      tallest cell, a shorter cell continuing with blank parts. */
  method RenderRow(row: seq<string>, widths: seq<int>, aligns: seq<Align>, o: TableOptions)
    returns (linesPerCol: seq<seq<string>>, out: seq<seq<string>>, ghost wrapped: seq<seq<string>>)
    requires |row| <= |widths|
    // each column holds its cell's text, losslessly, in at least one padded line
    ensures |linesPerCol| == |row| && |wrapped| == |row|
    ensures forall idx :: 0 <= idx < |row| ==> ColumnOf(row, widths, aligns, o, idx, wrapped[idx], linesPerCol[idx])
    // as many lines as the tallest column, each with one part per column
    ensures |out| == Height(linesPerCol)
    ensures forall i :: 0 <= i < |out| ==> |out[i]| == |row|
    ensures forall i, idx :: 0 <= i < |out| && 0 <= idx < |row| ==>
      out[i][idx] == Part(linesPerCol, widths, aligns, i, idx)
  {
    linesPerCol, wrapped := WrapColumns(row, widths, aligns, o);
    out := StackLines(linesPerCol, widths, aligns);
  }

  /** Column `idx` holds its cell's text as `wrapText` breaks it at the column's inner width (no
      width at all when wrapping is off), losslessly, and the padded lines `ls` are those lines
      padded to the column. */
  predicate ColumnOf(row: seq<string>, widths: seq<int>, aligns: seq<Align>, o: TableOptions, idx: nat,
                     ws: seq<string>, ls: seq<string>)
    requires idx < |row| <= |widths|
  {
    var target := widths[idx] - o.tablePadding * 2;
    && ws == WrapJs.Wrapped(CellText(row[idx], target, o), if o.wrap then target else MaxSafeInteger, o.wrap)
    && Concat(ws) == CellText(row[idx], target, o)
    && ls == PadLines(ws, widths[idx], AlignAt(aligns, idx))
    && |ls| >= 1
  }

  /** A row as `renderRow` renders it: the wrapped lines of each cell, the padded lines of each
      column, and the row's lines of parts. */
  datatype RowRender = RowRender(wrapped: seq<seq<string>>, cols: seq<seq<string>>, lines: seq<seq<string>>)

  /** `rr` is `row` as `renderRow` lays it out: each column holds its cell's text, losslessly,
      in at least one padded line, and line `i` of the row holds line `i` of every column, or a
      blank part below a shorter column's last line. */
  ghost predicate RowLayout(row: seq<string>, widths: seq<int>, aligns: seq<Align>, o: TableOptions, rr: RowRender) {
    && |row| <= |widths|
    && |rr.cols| == |row| && |rr.wrapped| == |row|
    && (forall idx :: 0 <= idx < |row| ==> ColumnOf(row, widths, aligns, o, idx, rr.wrapped[idx], rr.cols[idx]))
    && |rr.lines| == Height(rr.cols)
    && (forall i :: 0 <= i < |rr.lines| ==> |rr.lines[i]| == |row|)
    && (forall i, idx :: 0 <= i < |rr.lines| && 0 <= idx < |row| ==>
          rr.lines[i][idx] == Part(rr.cols, widths, aligns, i, idx))
  }

  /** The lines of rendered rows, one row after the other. */
  function AllLines(rs: seq<RowRender>): seq<seq<string>> {
    if rs == [] then [] else rs[0].lines + AllLines(rs[1..])
  }

  lemma {:induction false} AllLinesSnoc(rs: seq<RowRender>, r: RowRender)
    ensures AllLines(rs + [r]) == AllLines(rs) + r.lines
  {
    if rs == [] {
      assert AllLines([r]) == r.lines + AllLines([]);
    } else {
      assert (rs + [r])[1..] == rs[1..] + [r];
      AllLinesSnoc(rs[1..], r);
    }
  }

  /** The first half of `renderRow`: each cell through `wrapText`, each line padded. */
  method WrapColumns(row: seq<string>, widths: seq<int>, aligns: seq<Align>, o: TableOptions)
    returns (linesPerCol: seq<seq<string>>, ghost wrapped: seq<seq<string>>)
    requires |row| <= |widths|
    ensures |linesPerCol| == |row| && |wrapped| == |row|
    ensures forall idx :: 0 <= idx < |row| ==> ColumnOf(row, widths, aligns, o, idx, wrapped[idx], linesPerCol[idx])
  {
    linesPerCol := [];
    wrapped := [];
    var idx := 0;
    while idx < |row|
      invariant idx <= |row| && |linesPerCol| == idx && |wrapped| == idx
      invariant forall k :: 0 <= k < idx ==> ColumnOf(row, widths, aligns, o, k, wrapped[k], linesPerCol[k])
    {
      var ls, padded := WrapCell(row, widths, aligns, o, idx);
      wrapped := wrapped + [ls];
      linesPerCol := linesPerCol + [padded];
      idx := idx + 1;
    }
  }

  method WrapCell(row: seq<string>, widths: seq<int>, aligns: seq<Align>, o: TableOptions, idx: nat)
    returns (ls: seq<string>, padded: seq<string>)
    requires idx < |row| <= |widths|
    ensures ColumnOf(row, widths, aligns, o, idx, ls, padded)
  {
    var target := widths[idx] - o.tablePadding * 2;
    ls := WrapJs.WrapText(CellText(row[idx], target, o), if o.wrap then target else MaxSafeInteger, o.wrap);
    padded := PadLines(ls, widths[idx], AlignAt(aligns, idx));
  }

  /** The second half of `renderRow`: the columns side by side, line by line. */
  method StackLines(linesPerCol: seq<seq<string>>, widths: seq<int>, aligns: seq<Align>)
    returns (out: seq<seq<string>>)
    requires |linesPerCol| <= |widths|
    ensures |out| == Height(linesPerCol)
    ensures forall i :: 0 <= i < |out| ==> |out[i]| == |linesPerCol|
    ensures forall i, idx :: 0 <= i < |out| && 0 <= idx < |linesPerCol| ==>
      out[i][idx] == Part(linesPerCol, widths, aligns, i, idx)
  {
    var height := Height(linesPerCol);
    out := [];
    var i := 0;
    while i < height
      invariant i <= height && |out| == i
      invariant forall j :: 0 <= j < i ==> |out[j]| == |linesPerCol|
      invariant forall j, k :: 0 <= j < i && 0 <= k < |linesPerCol| ==> out[j][k] == Part(linesPerCol, widths, aligns, j, k)
    {
      var parts := seq(|linesPerCol|, k requires 0 <= k < |linesPerCol| => Part(linesPerCol, widths, aligns, i, k));
      out := out + [parts];
      i := i + 1;
    }
  }

  // ----- borders -----

  /** `hLine(sepMid, sepLeft, sepRight)`: a rule with one run of `hSep` per column. */
  function HLine(ws: seq<int>, hSep: char, mid: char, left: char, right: char): (r: string)
    requires forall k :: 0 <= k < |ws| ==> ws[k] >= 0
    ensures ws != [] ==> |r| == Sum(ws) + |ws| + 2
    ensures |r| >= 3 && r[0] == left && r[|r| - 1] == '\n'
  {
    var runs := seq(|ws|, k requires 0 <= k < |ws| => Repeat(hSep, ws[k]));
    RunsLength(ws, runs, hSep, mid);
    [left] + Join(runs, [mid]) + [right] + "\n"
  }

  lemma {:induction false} RunsLength(ws: seq<int>, runs: seq<string>, hSep: char, mid: char)
    requires |runs| == |ws|
    requires forall k :: 0 <= k < |ws| ==> ws[k] >= 0 && runs[k] == Repeat(hSep, ws[k])
    ensures ws != [] ==> |Join(runs, [mid])| == Sum(ws) + |ws| - 1
  {
    if |ws| > 1 {
      RunsLength(ws[1..], runs[1..], hSep, mid);
    }
  }

  /** `renderFlat`: each row between vertical bars, its parts joined by them. */
  function Flat(rows: seq<seq<string>>, vSep: char): string {
    if rows == [] then [] else [vSep] + Join(rows[0], [vSep]) + [vSep] + "\n" + Flat(rows[1..], vSep)
  }

  /** The rows of a borderless table, parts joined by ` | `. */
  function Plain(rows: seq<seq<string>>): (r: seq<string>)
    ensures |r| == |rows|
    ensures forall k :: 0 <= k < |r| ==> r[k] == Join(rows[k], " | ")
  {
    seq(|rows|, k requires 0 <= k < |rows| => Join(rows[k], " | "))
  }

  // ----- the table -----

  /** The column widths once the table is shrunk to fit the terminal. */
  function FinalWidths(cells: seq<seq<string>>, o: TableOptions): seq<int> {
    var cw := ColWidths(cells);
    if o.wrap && o.width.Some? && o.width.value != 0 && Total(cw) > o.width.value
    then ShrinkSpec(cw, Total(cw) - o.width.value)
    else cw
  }

  /** Every final width is between 1 and `MaxCol`, and a table that had to shrink is exactly
      the terminal's width unless all its columns are down to 1. */
  lemma FinalWidthsBounds(cells: seq<seq<string>>, o: TableOptions)
    ensures var ws := FinalWidths(cells, o);
      && |ws| == ColCount(cells)
      && (forall k :: 0 <= k < |ws| ==> 1 <= ws[k] <= MaxCol)
      && (o.wrap && o.width.Some? && o.width.value != 0 && Total(ColWidths(cells)) > o.width.value ==>
            Total(ws) >= o.width.value
            && (Total(ws) == o.width.value || forall k :: 0 <= k < |ws| ==> ws[k] == 1))
  {
    var cw := ColWidths(cells);
    ColWidthsBounds(cells);
    if o.wrap && o.width.Some? && o.width.value != 0 && Total(cw) > o.width.value {
      ShrinkBounds(cw, Total(cw) - o.width.value);
      ShrinkFits(cw, o.width.value);
    }
  }

  /** The width negotiation: the widths the content gives, shrunk when a wrapping width is set
      and the table is wider. */
  method FitWidths(cells: seq<seq<string>>, o: TableOptions) returns (ws: seq<int>)
    ensures ws == FinalWidths(cells, o)
    ensures |ws| == ColCount(cells)
    ensures forall k :: 0 <= k < |ws| ==> 1 <= ws[k] <= MaxCol
  {
    FinalWidthsBounds(cells, o);
    var arr := ColumnWidths(cells);
    var total := Total(arr[..]);
    if o.wrap && o.width.Some? && o.width.value != 0 && total > o.width.value {
      Shrink(arr, total - o.width.value);
    }
    ws := arr[..];
  }

  /** The lines of the body rows: each row laid out by `renderRow`, the rows' lines one row
      after the other, in order. */
  method RenderBody(rows: seq<seq<string>>, ws: seq<int>, aligns: seq<Align>, o: TableOptions)
    returns (lines: seq<seq<string>>, ghost rendered: seq<RowRender>)
    requires forall r :: 0 <= r < |rows| ==> |rows[r]| <= |ws|
    ensures |rendered| == |rows|
    ensures forall r :: 0 <= r < |rows| ==> RowLayout(rows[r], ws, aligns, o, rendered[r])
    ensures lines == AllLines(rendered)
  {
    lines := [];
    rendered := [];
    var r := 0;
    while r < |rows|
      invariant r <= |rows| && |rendered| == r
      invariant forall k :: 0 <= k < r ==> RowLayout(rows[k], ws, aligns, o, rendered[k])
      invariant lines == AllLines(rendered)
    {
      var cols, rowLines, wrapped := RenderRow(rows[r], ws, aligns, o);
      ghost var rr := RowRender(wrapped, cols, rowLines);
      assert RowLayout(rows[r], ws, aligns, o, rr);
      AllLinesSnoc(rendered, rr);
      LaidOutSnoc(rows, ws, aligns, o, rendered, rr);
      lines := lines + rowLines;
      rendered := rendered + [rr];
      r := r + 1;
    }
  }

  lemma LaidOutSnoc(rows: seq<seq<string>>, ws: seq<int>, aligns: seq<Align>, o: TableOptions,
                    rendered: seq<RowRender>, rr: RowRender)
    requires |rendered| < |rows|
    requires forall k :: 0 <= k < |rendered| ==> RowLayout(rows[k], ws, aligns, o, rendered[k])
    requires RowLayout(rows[|rendered|], ws, aligns, o, rr)
    ensures forall k :: 0 <= k < |rendered| + 1 ==> RowLayout(rows[k], ws, aligns, o, (rendered + [rr])[k])
  {
  }

  /** The lines of the header row, laid out by `renderRow`: at least one when it has cells,
      each with one part per header cell. */
  method RenderHeader(header: seq<string>, ws: seq<int>, aligns: seq<Align>, o: TableOptions)
    returns (lines: seq<seq<string>>, ghost rendered: RowRender)
    requires |header| <= |ws|
    ensures RowLayout(header, ws, aligns, o, rendered) && lines == rendered.lines
    ensures header != [] ==> |lines| >= 1
    ensures forall i :: 0 <= i < |lines| ==> |lines[i]| == |header|
  {
    var cols, rowLines, wrapped := RenderRow(header, ws, aligns, o);
    if header != [] {
      assert |cols[0]| >= 1;
    }
    lines := rowLines;
    rendered := RowRender(wrapped, cols, rowLines);
  }

  lemma ColWidthsBounds(cells: seq<seq<string>>)
    ensures forall k :: 0 <= k < |ColWidths(cells)| ==> 1 <= ColWidths(cells)[k] <= MaxCol
  {
    forall k | 0 <= k < |ColWidths(cells)|
      ensures 1 <= ColWidths(cells)[k] <= MaxCol
    {
      ColWidthBounds(cells, k);
    }
  }

  /** `renderTable`: the widths negotiated over the header and the body rows, each row laid out
      by `renderRow` at those widths, and the rows' lines assembled. */
  method RenderTable(t: TableNode, o: TableOptions)
    returns (out: seq<string>, ghost widths: seq<int>, ghost header: RowRender, ghost body: seq<RowRender>)
    ensures widths == FinalWidths([t.header] + t.rows, o)
    ensures forall k :: 0 <= k < |widths| ==> 1 <= widths[k] <= MaxCol
    // the header's cells, then each body row's in order, laid out at the final widths
    ensures RowLayout(t.header, widths, t.align, o, header)
    ensures |body| == |t.rows| && forall r :: 0 <= r < |t.rows| ==> RowLayout(t.rows[r], widths, t.align, o, body[r])
    // a borderless table: the lines with parts joined by ` | `, then an empty line
    ensures o.tableBorder == "none" ==> out == [Join(Plain(header.lines + AllLines(body)), "\n") + "\n\n"]
    // a framed table: a top rule, the header, a middle rule unless dense, the body, a bottom
    // rule, and an empty line
    ensures o.tableBorder != "none" ==>
      var box := BoxFor(o.tableBorder);
      && |out| == 6
      && out[0] == HLine(widths, box.hSep, box.tSep, box.topLeft, box.topRight)
      && out[1] == Flat(header.lines, box.vSep)
      && out[2] == (if o.tableDense then "" else HLine(widths, box.hSep, box.mSep, box.mLeft, box.mRight))
      && out[3] == Flat(AllLines(body), box.vSep)
      && out[4] == HLine(widths, box.hSep, box.bSep, box.bottomLeft, box.bottomRight)
      && out[5] == "\n"
  {
    var ws := FitWidths([t.header] + t.rows, o);
    widths := ws;
    var headerRows, bodyRows;
    headerRows, bodyRows, header, body := RenderRows(t, ws, o);
    out := Assemble(headerRows, bodyRows, ws, o);
  }

  /** The header and the body rows of `t`, each laid out by `renderRow` at the widths `ws`. */
  method RenderRows(t: TableNode, ws: seq<int>, o: TableOptions)
    returns (headerRows: seq<seq<string>>, bodyRows: seq<seq<string>>, ghost header: RowRender, ghost body: seq<RowRender>)
    requires |ws| == ColCount([t.header] + t.rows)
    ensures RowLayout(t.header, ws, t.align, o, header) && headerRows == header.lines
    ensures |body| == |t.rows| && forall r :: 0 <= r < |t.rows| ==> RowLayout(t.rows[r], ws, t.align, o, body[r])
    ensures bodyRows == AllLines(body)
  {
    ghost var cells := [t.header] + t.rows;
    assert |t.header| <= |ws| by {
      assert t.header == cells[0];
    }
    assert forall r :: 0 <= r < |t.rows| ==> |t.rows[r]| <= |ws| by {
      assert forall r :: 0 <= r < |t.rows| ==> t.rows[r] == cells[r + 1];
    }
    headerRows, header := RenderHeader(t.header, ws, t.align, o);
    bodyRows, body := RenderBody(t.rows, ws, t.align, o);
  }

  /** The table's output from its rendered lines: joined by ` | ` without a border, otherwise
      framed by rules. */
  method Assemble(headerRows: seq<seq<string>>, bodyRows: seq<seq<string>>, ws: seq<int>, o: TableOptions)
    returns (out: seq<string>)
    requires forall k :: 0 <= k < |ws| ==> ws[k] >= 1
    ensures o.tableBorder == "none" ==> out == [Join(Plain(headerRows + bodyRows), "\n") + "\n\n"]
    ensures o.tableBorder != "none" ==>
      var box := BoxFor(o.tableBorder);
      && |out| == 6
      && out[0] == HLine(ws, box.hSep, box.tSep, box.topLeft, box.topRight)
      && out[1] == Flat(headerRows, box.vSep)
      && out[2] == (if o.tableDense then "" else HLine(ws, box.hSep, box.mSep, box.mLeft, box.mRight))
      && out[3] == Flat(bodyRows, box.vSep)
      && out[4] == HLine(ws, box.hSep, box.bSep, box.bottomLeft, box.bottomRight)
      && out[5] == "\n"
  {
    if o.tableBorder == "none" {
      out := [Join(Plain(headerRows + bodyRows), "\n") + "\n\n"];
      return;
    }
    var box := BoxFor(o.tableBorder);
    var top := HLine(ws, box.hSep, box.tSep, box.topLeft, box.topRight);
    var mid := HLine(ws, box.hSep, box.mSep, box.mLeft, box.mRight);
    var bottom := HLine(ws, box.hSep, box.bSep, box.bottomLeft, box.bottomRight);
    out := [top, Flat(headerRows, box.vSep), if o.tableDense then "" else mid, Flat(bodyRows, box.vSep), bottom, "\n"];
  }

  /** The three rules of a framed table have the same length, `sum(widths) + colCount + 2`
      with the newline, and an unknown border name draws with the unicode set. */
  lemma RulesAgree(widths: seq<int>, name: string)
    requires forall k :: 0 <= k < |widths| ==> widths[k] >= 1
    ensures var box := BoxFor(name);
      var top := HLine(widths, box.hSep, box.tSep, box.topLeft, box.topRight);
      var mid := HLine(widths, box.hSep, box.mSep, box.mLeft, box.mRight);
      var bottom := HLine(widths, box.hSep, box.bSep, box.bottomLeft, box.bottomRight);
      && |top| == |mid| == |bottom|
      && (widths != [] ==> |top| == Sum(widths) + |widths| + 2)
      && (name != "ascii" ==> top[0] == '┌' && bottom[0] == '└')
  {
    var box := BoxFor(name);
    var runs := seq(|widths|, k requires 0 <= k < |widths| => Repeat(box.hSep, widths[k]));
    if widths == [] {
      assert |HLine(widths, box.hSep, box.tSep, box.topLeft, box.topRight)| == 3;
      assert |HLine(widths, box.hSep, box.mSep, box.mLeft, box.mRight)| == 3;
      assert |HLine(widths, box.hSep, box.bSep, box.bottomLeft, box.bottomRight)| == 3;
    }
  }
}
