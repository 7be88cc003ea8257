/**
 * `make_table`: the HTML table of the selected scenes. The rows are sorted in
 * place by acquisition date, then appended to the table body one by one.
 */
module HtmlTable {
  import opened Wrappers
  import opened Records

  /** The table values of one scene (`get_table_values`), in the order its dict lists them. */
  datatype Row = Row(nativeId: string, acquisitionDate: string, size: string, thumbnail: string, visualization: string)

  function TableValues(g: Granule): Row
  {
    Row(g.id, g.date, g.size, g.thumb, g.vis)
  }

  /** The rows of the data frame, one per granule, in input order. */
  function TableRows(result: seq<Granule>): seq<Row>
  {
    seq(|result|, i requires 0 <= i < |result| => TableValues(result[i]))
  }

  /** `scene.values`: the row's cells in column order. */
  function Values(row: Row): seq<string>
  {
    [row.nativeId, row.acquisitionDate, row.size, row.thumbnail, row.visualization]
  }

  /** `scene.values[:-2]`: every column but the two URLs. */
  function DataCells(row: Row): (cells: seq<string>)
    ensures cells == [row.nativeId, row.acquisitionDate, row.size]
  {
    Values(row)[..|Values(row)| - 2]
  }

  /** `pd.DataFrame([])` has no `acquisition_date` column, so sorting it raises `KeyError`. */
  datatype TableError = MissingColumn(name: string)

  // ---------------------------------------------------------------- ordering

  /** Python's ordering of `str`: lexicographic by code point, a proper prefix first. */
  predicate LexLe(a: string, b: string)
  {
    if a == [] then true
    else if b == [] then false
    else if a[0] != b[0] then a[0] < b[0]
    else LexLe(a[1..], b[1..])
  }

  lemma {:induction false} LexLeTotal(a: string, b: string)
    ensures LexLe(a, b) || LexLe(b, a)
  {
    if a != [] && b != [] && a[0] == b[0] {
      LexLeTotal(a[1..], b[1..]);
    }
  }

  lemma {:induction false} LexLeTransitive(a: string, b: string, c: string)
    requires LexLe(a, b) && LexLe(b, c)
    ensures LexLe(a, c)
  {
    if a != [] && b != [] && c != [] && a[0] == b[0] == c[0] {
      LexLeTransitive(a[1..], b[1..], c[1..]);
    }
  }

  lemma {:induction false} LexLeAntisymmetric(a: string, b: string)
    requires LexLe(a, b) && LexLe(b, a)
    ensures a == b
  {
    if a != [] && b != [] {
      LexLeAntisymmetric(a[1..], b[1..]);
    }
  }

  predicate DateLe(x: Row, y: Row)
  {
    LexLe(x.acquisitionDate, y.acquisitionDate)
  }

  /** Rows in non-decreasing order of acquisition date. */
  predicate SortedByDate(rows: seq<Row>)
  {
    forall i, j :: 0 <= i < j < |rows| ==> DateLe(rows[i], rows[j])
  }

  method Swap(a: array<Row>, i: int, j: int)
    requires 0 <= i < a.Length && 0 <= j < a.Length
    modifies a
    ensures a[..] == old(a[..])[i := old(a[j])][j := old(a[i])]
    ensures multiset(a[..]) == old(multiset(a[..]))
  {
    a[i], a[j] := a[j], a[i];
  }

  /**
   * `all_scenes.sort_values("acquisition_date", inplace=True)`: the rows end
   * up in date order, and they are the same rows. pandas' default sort is not
   * stable, so nothing is promised about the order of rows with equal dates.
   */
  method SortByDate(a: array<Row>)
    modifies a
    ensures SortedByDate(a[..])
    ensures multiset(a[..]) == old(multiset(a[..]))
  {
    var i := 0;
    while i < a.Length
      invariant 0 <= i <= a.Length
      invariant SortedByDate(a[..i])
      invariant multiset(a[..]) == old(multiset(a[..]))
    {
      var j := i;
      while j > 0 && !DateLe(a[j - 1], a[j])
        invariant 0 <= j <= i
        invariant forall k, l :: 0 <= k < l <= i && l != j ==> DateLe(a[k], a[l])
        invariant forall l :: j < l <= i ==> DateLe(a[j], a[l])
        invariant multiset(a[..]) == old(multiset(a[..]))
      {
        LexLeTotal(a[j - 1].acquisitionDate, a[j].acquisitionDate);
        Swap(a, j - 1, j);
        j := j - 1;
      }
      forall k | 0 <= k < j - 1 ensures DateLe(a[k], a[j]) {
        LexLeTransitive(a[k].acquisitionDate, a[j - 1].acquisitionDate, a[j].acquisitionDate);
      }
      i := i + 1;
    }
  }

  // ---------------------------------------------------------------- markup

  /** The column titles of the header row. */
  const Columns: seq<string> := ["Native-ID", "Acquisition Date", "Size\nMB", "Thumbnail"]

  /** `sep.join(parts)`. */
  function Join(parts: seq<string>, sep: string): string
  {
    if parts == [] then ""
    else if |parts| == 1 then parts[0]
    else Join(parts[..|parts| - 1], sep) + sep + parts[|parts| - 1]
  }

  function TableHead(): string
  {
    "<thead>\n<tr><th>" + Join(Columns, "</th><th>") + "</th></tr>\n</thead>"
  }

  function ThumbnailCell(row: Row): string
  {
    "<img align=\"center\" src=\"" + row.thumbnail + "\" style=\"max-width: 500px; max-height: 375px;\" >"
  }

  function ThumbnailLink(row: Row): string
  {
    "<a href=" + row.visualization + " target=\"_blank\" rel=\"noopener noreferrer\">" + ThumbnailCell(row) + "</a>"
  }

  /** One body row: the data cells joined, then the thumbnail cell. */
  function RowHtml(row: Row): string
  {
    "<tr><td>" + Join(DataCells(row), "</td><td>") + "</td><td>" + ThumbnailLink(row) + "</td></tr>\n"
  }

  /** The concatenation of `render(x)` over `xs`, in order. */
  function Lines<T>(xs: seq<T>, render: T -> string): string
  {
    if xs == [] then "" else Lines(xs[..|xs| - 1], render) + render(xs[|xs| - 1])
  }

  /** The body rows, one per row in the given order. */
  function BodyRows(rows: seq<Row>): string
  {
    Lines(rows, RowHtml)
  }

  function TableBody(rows: seq<Row>): string
  {
    "\n<tbody>\n" + BodyRows(rows) + "</tbody>\n"
  }

  function Table(rows: seq<Row>): string
  {
    "<table>\n" + TableHead() + TableBody(rows) + "</table>"
  }

  // ---------------------------------------------------------------- cells

  function Td(s: string): string { "<td>" + s + "</td>" }

  function Th(s: string): string { "<th>" + s + "</th>" }

  lemma JoinThree(x: string, y: string, z: string, sep: string)
    ensures Join([x, y, z], sep) == x + sep + y + sep + z
  {
    var parts := [x, y, z];
    assert parts[..2] == [x, y];
    assert parts[..2][..1] == [x];
    assert Join([x], sep) == x;
    assert Join([x, y], sep) == x + sep + y;
  }

  lemma JoinFour(w: string, x: string, y: string, z: string, sep: string)
    ensures Join([w, x, y, z], sep) == w + sep + x + sep + y + sep + z
  {
    assert [w, x, y, z][..3] == [w, x, y];
    JoinThree(w, x, y, sep);
  }

  /** Splitting the separators at the cell boundary puts every part in a cell of its own. */
  lemma Regroup(row: string, open: string, close: string, end: string, w: string, x: string, y: string, z: string)
    ensures (row + open) + (w + (close + open) + x + (close + open) + y) + (close + open) + z + (close + end)
         == row + (open + w + close) + (open + x + close) + (open + y + close) + (open + z + close) + end
  {
  }

  /** Each body row is a `<tr>` holding id, date and size cells and then the thumbnail cell. */
  lemma RowCells(row: Row)
    ensures RowHtml(row)
         == "<tr>" + Td(row.nativeId) + Td(row.acquisitionDate) + Td(row.size) + Td(ThumbnailLink(row)) + "</tr>\n"
  {
    JoinThree(row.nativeId, row.acquisitionDate, row.size, "</td>" + "<td>");
    assert "<tr><td>" == "<tr>" + "<td>";
    assert "</td><td>" == "</td>" + "<td>";
    assert "</td></tr>\n" == "</td>" + "</tr>\n";
    Regroup("<tr>", "<td>", "</td>", "</tr>\n", row.nativeId, row.acquisitionDate, row.size, ThumbnailLink(row));
  }

  /** The header is one `<tr>` of exactly the four column titles. */
  lemma HeadCells()
    ensures TableHead()
         == "<thead>\n<tr>" + Th("Native-ID") + Th("Acquisition Date") + Th("Size\nMB") + Th("Thumbnail") + "</tr>\n</thead>"
  {
    JoinFour("Native-ID", "Acquisition Date", "Size\nMB", "Thumbnail", "</th>" + "<th>");
    assert "<thead>\n<tr><th>" == "<thead>\n<tr>" + "<th>";
    assert "</th><th>" == "</th>" + "<th>";
    assert "</th></tr>\n</thead>" == "</th>" + "</tr>\n</thead>";
    Regroup("<thead>\n<tr>", "<th>", "</th>", "</tr>\n</thead>", "Native-ID", "Acquisition Date", "Size\nMB", "Thumbnail");
  }

  lemma {:induction false} LinesAppend<T>(a: seq<T>, b: seq<T>, render: T -> string)
    ensures Lines(a + b, render) == Lines(a, render) + Lines(b, render)
  {
    if b == [] {
      assert a + b == a;
    } else {
      assert (a + b)[..|a + b| - 1] == a + b[..|b| - 1];
      LinesAppend(a, b[..|b| - 1], render);
    }
  }

  /** The `k`-th body row is the markup of the `k`-th row, between the rows before and after it. */
  lemma BodyRowAt(rows: seq<Row>, k: nat)
    requires k < |rows|
    ensures BodyRows(rows) == BodyRows(rows[..k]) + RowHtml(rows[k]) + BodyRows(rows[k + 1..])
  {
    var pre := rows[..k + 1];
    assert pre + rows[k + 1..] == rows;
    LinesAppend(pre, rows[k + 1..], RowHtml);
    assert pre[..|pre| - 1] == rows[..k];
  }

  lemma BodyRowsSnoc(rows: seq<Row>, i: nat)
    requires i < |rows|
    ensures BodyRows(rows[..i + 1]) == BodyRows(rows[..i]) + RowHtml(rows[i])
  {
    assert rows[..i + 1][..i] == rows[..i];
  }

  // ---------------------------------------------------------------- make_table

  /** The `for` loop over the sorted rows: the body grows by one row's markup at a time. */
  method RenderBody(allScenes: array<Row>) returns (tableBody: string)
    ensures tableBody == TableBody(allScenes[..])
  {
    tableBody := "\n<tbody>\n";
    var i := 0;
    while i < allScenes.Length
      invariant 0 <= i <= allScenes.Length
      invariant tableBody == "\n<tbody>\n" + BodyRows(allScenes[..i])
    {
      BodyRowsSnoc(allScenes[..], i);
      assert allScenes[..][..i] == allScenes[..i] && allScenes[..][..i + 1] == allScenes[..i + 1];
      tableBody := tableBody + RowHtml(allScenes[i]);
      i := i + 1;
    }
    assert allScenes[..i] == allScenes[..];
    tableBody := tableBody + "</tbody>\n";
  }

  /**
   * `make_table(result)`. It fails on an empty result. Otherwise it returns
   * the table of `sorted`, which is the table values of `result` in
   * non-decreasing date order.
   */
  method MakeTable(result: seq<Granule>) returns (r: Result<string, TableError>, ghost sorted: seq<Row>)
    ensures r.Failure? <==> result == []
    ensures r.Failure? ==> r.error == MissingColumn("acquisition_date")
    ensures r.Success? ==>
      && SortedByDate(sorted)
      && multiset(sorted) == multiset(TableRows(result))
      && r.value == Table(sorted)
  {
    if result == [] {
      return Failure(MissingColumn("acquisition_date")), [];
    }
    var allScenes := new Row[|result|](i requires 0 <= i < |result| => TableValues(result[i]));
    assert allScenes[..] == TableRows(result);
    SortByDate(allScenes);
    sorted := allScenes[..];

    var tableHead := TableHead();
    var tableBody := RenderBody(allScenes);
    r := Success("<table>\n" + tableHead + tableBody + "</table>");
  }
}
