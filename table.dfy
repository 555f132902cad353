/** `convertMarkdownTableToHTML`: a pipe table becomes the inner markup of a
    `<table>` element. The first row of the trimmed block is the header, rows
    holding `---` are separators and emit nothing, and every later row is a
    body row. */
module Table {
  import opened Strings
  import opened Seqs
  import Markdown

  /** `row.includes('---')`: a separator row. */
  predicate IsSeparator(row: string) {
    Contains(row, "---")
  }

  /** A row that is not a separator. */
  predicate IsContentRow(row: string) {
    !IsSeparator(row)
  }

  /** The filter applied to the pieces of a row: a piece is kept when it is
      not blank or when `indexOf('|')` finds a `|` in the row. */
  predicate KeepPiece(row: string, piece: string) {
    !IsBlank(piece) || Contains(row, "|")
  }

  /** The pieces of `row` that survive the filter. */
  function KeptPieces(row: string): seq<string> {
    Filter(Split(row, '|'), piece => KeepPiece(row, piece))
  }

  /** A list of pieces without one leading empty piece and without one
      trailing empty piece, where there are such. */
  function DropEmptyEnds(pieces: seq<string>): seq<string> {
    var lo := if |pieces| > 0 && pieces[0] == "" then 1 else 0;
    var hi := if |pieces| > lo && pieces[|pieces| - 1] == "" then |pieces| - 1 else |pieces|;
    pieces[lo..hi]
  }

  /** `DropEmptyEnds` keeps a contiguous run of the pieces and drops at most
      one piece at each end: the first piece exactly when it is empty, and
      the last piece left after that exactly when it is empty. */
  lemma DropEmptyEndsIsInfix(pieces: seq<string>) returns (lo: nat)
    ensures lo <= 1 && lo + |DropEmptyEnds(pieces)| <= |pieces|
    ensures DropEmptyEnds(pieces) == pieces[lo..lo + |DropEmptyEnds(pieces)|]
    ensures lo == 1 <==> |pieces| > 0 && pieces[0] == ""
    ensures |pieces| - (lo + |DropEmptyEnds(pieces)|) <= 1
    ensures lo + |DropEmptyEnds(pieces)| < |pieces| ==> pieces[|pieces| - 1] == ""
    ensures |pieces| > lo && pieces[|pieces| - 1] == "" ==> lo + |DropEmptyEnds(pieces)| == |pieces| - 1
  {
    lo := if |pieces| > 0 && pieces[0] == "" then 1 else 0;
  }

  /** The cells of a row: the kept pieces without a leading and a trailing
      empty piece. */
  function CellsOf(row: string): (cells: seq<string>)
    ensures |cells| <= |Split(row, '|')|
  {
    DropEmptyEnds(KeptPieces(row))
  }

  /** The cell splitting of one row: split at `|`, filter, then `shift` a
      leading empty piece and `pop` a trailing one. */
  method SplitCells(row: string) returns (cells: seq<string>)
    ensures cells == CellsOf(row)
  {
    cells := KeptPieces(row);
    if |cells| > 0 && cells[0] == "" {
      cells := cells[1..];
    }
    if |cells| > 0 && cells[|cells| - 1] == "" {
      cells := cells[..|cells| - 1];
    }
  }

  /** When the row holds a `|`, the filter keeps every piece, so the cells
      are the pieces with at most one empty piece dropped at each end (see
      `DropEmptyEndsIsInfix`). */
  lemma CellsOfPipeRow(row: string)
    requires '|' in row
    ensures KeptPieces(row) == Split(row, '|')
    ensures CellsOf(row) == DropEmptyEnds(Split(row, '|'))
  {
    ContainsChar(row, '|');
    FilterKeepsAll(Split(row, '|'), piece => KeepPiece(row, piece));
  }

  /** A row without a `|` is one cell, or none when it is blank. */
  lemma CellsOfPlainRow(row: string)
    requires '|' !in row
    ensures CellsOf(row) == if IsBlank(row) then [] else [row]
  {
    SplitWithoutSeparator(row, '|');
    ContainsChar(row, '|');
    assert KeptPieces(row) == if IsBlank(row) then [] else [row];
    if !IsBlank(row) {
      assert row != "";
    }
  }

  /** One cell: trimmed, with its bold spans rewritten, inside `<tag>`. */
  function CellHtml(tag: string, cell: string): string {
    "<" + tag + ">" + Markdown.Bold(Trim(cell)) + "</" + tag + ">"
  }

  /** A cell `**x**`, with `x` on one line and free of `*`, renders as a
      strong span. */
  lemma BoldCell(tag: string, x: string)
    requires OneLine(x) && '*' !in x
    ensures CellHtml(tag, "**" + x + "**") == "<" + tag + ">" + "<strong>" + x + "</strong>" + "</" + tag + ">"
  {
    var c := "**" + x + "**";
    assert c[0] == '*' && c[|c| - 1] == '*';
    TrimKeeps(c);
    Markdown.BoldSpan(x);
    assert "<" + tag + ">" + ("<strong>" + x + "</strong>") + "</" + tag + ">"
      == "<" + tag + ">" + "<strong>" + x + "</strong>" + "</" + tag + ">";
  }

  /** The cells of a row rendered and joined with nothing between them. */
  function RowContent(tag: string, cells: seq<string>): string {
    Concat(Map(cells, cell => CellHtml(tag, cell)))
  }

  /** The markup of the header row, which also opens the body. */
  function HeaderRow(row: string): string {
    "<thead><tr>" + RowContent("th", CellsOf(row)) + "</tr></thead><tbody>"
  }

  /** The markup of a body row. */
  function BodyRow(row: string): string {
    "<tr>" + RowContent("td", CellsOf(row)) + "</tr>"
  }

  /** What the row at index `i` contributes. */
  function RowHtml(row: string, i: nat): string {
    if IsSeparator(row) then ""
    else if i == 0 then HeaderRow(row)
    else BodyRow(row)
  }

  /** What the rows contribute, in order, each at its own index. */
  function RowsHtml(rows: seq<string>): string {
    if |rows| == 0 then ""
    else RowsHtml(rows[..|rows| - 1]) + RowHtml(rows[|rows| - 1], |rows| - 1)
  }

  /** The rows of a table block: its trimmed text split at line feeds. */
  function TableRows(tableMd: string): (rows: seq<string>)
    ensures |rows| >= 1
  {
    Split(Trim(tableMd), '\n')
  }

  /** The markup produced for a table block. */
  function TableHtml(tableMd: string): string {
    RowsHtml(TableRows(tableMd)) + "</tbody>"
  }

  /** The conversion itself: walk the rows, append each row's markup, then
      close the body. */
  method ConvertTable(tableMd: string) returns (html: string)
    ensures html == TableHtml(tableMd)
  {
    var rows := Split(Trim(tableMd), '\n');
    html := "";
    var i := 0;
    while i < |rows|
      invariant 0 <= i <= |rows|
      invariant html == RowsHtml(rows[..i])
    {
      html := AppendRow(html, rows[i], i);
      RowsHtmlStep(rows, i);
      i := i + 1;
    }
    assert rows[..i] == rows;
    html := html + "</tbody>";
  }

  /** The body of the loop over the rows: a separator adds nothing, row 0
      adds the header and opens the body, any other row adds a body row. */
  method AppendRow(html: string, row: string, i: nat) returns (result: string)
    ensures result == html + RowHtml(row, i)
  {
    result := html;
    if IsSeparator(row) {
      return;
    }
    var cells := SplitCells(row);
    var tag := if i == 0 then "th" else "td";
    var rowContent := RowContent(tag, cells);
    if i == 0 {
      result := result + "<thead><tr>" + rowContent + "</tr></thead><tbody>";
      HeaderPiece(html, row, rowContent);
    } else {
      result := result + "<tr>" + rowContent + "</tr>";
      BodyPiece(html, row, i, rowContent);
    }
  }

  /** The markup the loop appends for a header row is that row's. */
  lemma HeaderPiece(prev: string, row: string, rowContent: string)
    requires !IsSeparator(row) && rowContent == RowContent("th", CellsOf(row))
    ensures prev + "<thead><tr>" + rowContent + "</tr></thead><tbody>" == prev + RowHtml(row, 0)
  {
    assert RowHtml(row, 0) == "<thead><tr>" + rowContent + "</tr></thead><tbody>";
  }

  /** The markup the loop appends for a body row is that row's. */
  lemma BodyPiece(prev: string, row: string, i: nat, rowContent: string)
    requires i > 0 && !IsSeparator(row) && rowContent == RowContent("td", CellsOf(row))
    ensures prev + "<tr>" + rowContent + "</tr>" == prev + RowHtml(row, i)
  {
    assert RowHtml(row, i) == "<tr>" + rowContent + "</tr>";
  }

  /** One more row: the markup so far followed by that row's. */
  lemma RowsHtmlStep(rows: seq<string>, i: nat)
    requires i < |rows|
    ensures RowsHtml(rows[..i + 1]) == RowsHtml(rows[..i]) + RowHtml(rows[i], i)
  {
    assert rows[..i + 1][..i] == rows[..i];
  }

  /** The layout of a table: the header when the first row is not a
      separator, then one body row for every later row that is not a
      separator, in order, then `</tbody>`. */
  lemma TableLayout(tableMd: string)
    ensures var rows := TableRows(tableMd);
      TableHtml(tableMd) ==
        (if IsSeparator(rows[0]) then "" else HeaderRow(rows[0]))
        + Concat(Map(Filter(rows[1..], IsContentRow), BodyRow))
        + "</tbody>"
  {
    var rows := TableRows(tableMd);
    RowsLayout(rows);
    assert RowHtml(rows[0], 0) == if IsSeparator(rows[0]) then "" else HeaderRow(rows[0]);
  }

  /** `TableLayout` for any non-empty list of rows, by induction on its
      length. */
  lemma {:induction false} RowsLayout(rows: seq<string>)
    requires |rows| >= 1
    ensures RowsHtml(rows) == RowHtml(rows[0], 0) + Concat(Map(Filter(rows[1..], IsContentRow), BodyRow))
    decreases |rows|
  {
    var n := |rows| - 1;
    RowsHtmlStep(rows, n);
    assert rows[..n + 1] == rows;
    if n == 0 {
      assert rows[..0] == [] && rows[1..] == [];
    } else {
      var init, last := rows[..n], rows[n];
      RowsLayout(init);
      TailSnoc(rows);
      ConcatMapFilterSnoc(init[1..], last, IsContentRow, BodyRow);
      assert RowHtml(last, n) == if IsContentRow(last) then BodyRow(last) else "";
      SnocGlue(RowHtml(rows[0], 0), Concat(Map(Filter(init[1..], IsContentRow), BodyRow)), RowHtml(last, n));
    }
  }

  /** Regrouping for the step of `RowsLayout`. */
  lemma SnocGlue(head: string, body: string, piece: string)
    ensures head + body + piece == head + (body + piece)
  {
  }

  /** The body rows are the markup of the rows after the first that are
      not separators, one for each, in their order. */
  lemma BodyRows(tableMd: string) returns (idx: seq<nat>)
    ensures var rows := TableRows(tableMd);
      var body := Map(Filter(rows[1..], IsContentRow), BodyRow);
      && |body| == |idx| && IncreasingIndices(idx, rows[1..])
      && (forall j :: 0 <= j < |idx| ==> body[j] == BodyRow(rows[1..][idx[j]]))
      && (forall i :: 0 <= i < |rows[1..]| ==> (IsContentRow(rows[1..][i]) <==> i in idx))
  {
    idx := MapFilterIndices(TableRows(tableMd)[1..], IsContentRow, BodyRow);
  }
}
