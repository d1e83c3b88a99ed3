/**
 * `analyze_document`: scan every table cell (tables, rows, cells in
 * order) and then every body paragraph for placeholders, keep one record
 * per lower-cased id, and return the records ordered by their number.
 *
 * The order in which the nested loops meet the placeholders is spelled out
 * by the occurrence lists `TablesOccs` and `ParasOccs`; the dict the loops
 * fill is the table pass `AssignAll` (later occurrences overwrite) followed
 * by the paragraph pass `AssignAbsent` (only absent ids are added).
 */
module Analyzer {
  import opened Text
  import opened TagScanner
  import opened Docx
  import opened Registry
  import opened VarSort

  /**
   * `text.replace('\xa0', ' ')`: each no-break space becomes a space, so none
   * survives, every other character stays where it was, and no position
   * changes between whitespace and non-whitespace.
   */
  function ReplaceNbsp(s: string): (r: string)
    ensures |r| == |s|
    ensures '\U{A0}' !in r
    ensures forall i :: 0 <= i < |s| && s[i] == '\U{A0}' ==> r[i] == ' '
    ensures forall i :: 0 <= i < |s| && s[i] != '\U{A0}' ==> r[i] == s[i]
    ensures forall i :: 0 <= i < |s| ==> (IsSpace(r[i]) <==> IsSpace(s[i]))
  {
    seq(|s|, i requires 0 <= i < |s| => if s[i] == '\U{A0}' then ' ' else s[i])
  }

  /** `clean_text`. */
  function CleanText(s: string): string
  {
    Strip(ReplaceNbsp(s))
  }

  /** `[clean_text(cell.text) for cell in row.cells if cell.text.strip()]`. */
  function RowCells(row: seq<string>): seq<string>
    decreases |row|
  {
    if |row| == 0 then []
    else
      var last := row[|row| - 1];
      RowCells(row[..|row| - 1]) + (if Strip(last) != "" then [CleanText(last)] else [])
  }

  /** `full_row_context`: the row's non-blank cells, cleaned, joined by `" | "`. */
  function RowContext(row: seq<string>): string
  {
    Join(RowCells(row), " | ")
  }

  /** One record per capture of a text, all with the same context and kind. */
  function Records(caps: seq<string>, context: string, kind: SourceKind): (vs: seq<Variable>)
    ensures |vs| == |caps|
    ensures forall m :: 0 <= m < |caps| ==> vs[m] == Variable(Lower(caps[m]), caps[m], context, kind)
  {
    seq(|caps|, m requires 0 <= m < |caps| => Variable(Lower(caps[m]), caps[m], context, kind))
  }

  lemma RecordsSnoc(caps: seq<string>, m: nat, context: string, kind: SourceKind)
    requires m < |caps|
    ensures Records(caps[..m + 1], context, kind)
         == Records(caps[..m], context, kind) + [Variable(Lower(caps[m]), caps[m], context, kind)]
  {
    var a := Records(caps[..m + 1], context, kind);
    var b := Records(caps[..m], context, kind) + [Variable(Lower(caps[m]), caps[m], context, kind)];
    assert |a| == |b|;
    forall x | 0 <= x < |a| ensures a[x] == b[x] {
      assert caps[..m + 1][x] == caps[x];
      if x < m { assert caps[..m][x] == caps[x]; }
    }
  }

  /** The records one table cell contributes. */
  function CellRecords(cell: string, context: string): seq<Variable>
  {
    Records(Captures(CleanText(cell)), context, TableRow)
  }

  /** The records one paragraph contributes; its context is its own cleaned text. */
  function ParagraphRecords(para: string): seq<Variable>
  {
    Records(Captures(CleanText(para)), CleanText(para), Paragraph)
  }

  /** The occurrences in the cells of one row, cell by cell. */
  function CellsOccs(cells: seq<string>, context: string): seq<Variable>
    decreases |cells|
  {
    if |cells| == 0 then []
    else CellsOccs(cells[..|cells| - 1], context) + CellRecords(cells[|cells| - 1], context)
  }

  /** The occurrences in the rows of one table, row by row. */
  function RowsOccs(rows: seq<seq<string>>): seq<Variable>
    decreases |rows|
  {
    if |rows| == 0 then []
    else
      var last := rows[|rows| - 1];
      RowsOccs(rows[..|rows| - 1]) + CellsOccs(last, RowContext(last))
  }

  /** The occurrences in all tables: tables, then rows, then cells, then captures. */
  function TablesOccs(tables: seq<seq<seq<string>>>): seq<Variable>
    decreases |tables|
  {
    if |tables| == 0 then []
    else TablesOccs(tables[..|tables| - 1]) + RowsOccs(tables[|tables| - 1])
  }

  /** The occurrences in the body paragraphs, in document order. */
  function ParasOccs(paras: seq<string>): seq<Variable>
    decreases |paras|
  {
    if |paras| == 0 then []
    else ParasOccs(paras[..|paras| - 1]) + ParagraphRecords(paras[|paras| - 1])
  }

  /** The `variables` dict once both passes are done. */
  function BuildRegistry(doc: Document): (r: Registry)
    ensures Valid(r)
  {
    AssignAbsent(AssignAll(EmptyRegistry, TablesOccs(doc.tables)), ParasOccs(doc.paragraphs))
  }

  /** What `analyze_document` returns for a parsed document. */
  function Analyze(doc: Document): seq<Variable>
  {
    SortByVNum(Values(BuildRegistry(doc)))
  }

  /** The innermost table loop: every match of one cell is assigned, overwriting. */
  method AssignCellMatches(variables: Registry, matches: seq<string>, fullRowContext: string)
    returns (updated: Registry)
    requires Valid(variables)
    ensures updated == AssignAll(variables, Records(matches, fullRowContext, TableRow))
  {
    updated := variables;
    var m := 0;
    while m < |matches|
      invariant 0 <= m <= |matches|
      invariant updated == AssignAll(variables, Records(matches[..m], fullRowContext, TableRow))
    {
      var varRaw := matches[m];
      var varId := Lower(varRaw);
      updated := Assign(updated, Variable(varId, varRaw, fullRowContext, TableRow));
      RecordsSnoc(matches, m, fullRowContext, TableRow);
      m := m + 1;
    }
    assert matches[..m] == matches;
  }

  /** The cell loop over one row; every cell's records share the row's context. */
  method AssignRow(variables: Registry, row: seq<string>, fullRowContext: string) returns (updated: Registry)
    requires Valid(variables)
    ensures updated == AssignAll(variables, CellsOccs(row, fullRowContext))
  {
    updated := variables;
    var c := 0;
    while c < |row|
      invariant 0 <= c <= |row|
      invariant updated == AssignAll(variables, CellsOccs(row[..c], fullRowContext))
    {
      var text := CleanText(row[c]);
      var matches := Captures(text);
      updated := AssignCellMatches(updated, matches, fullRowContext);
      AssignAllAppend(variables, CellsOccs(row[..c], fullRowContext), CellRecords(row[c], fullRowContext));
      assert row[..c + 1][..c] == row[..c];
      c := c + 1;
    }
    assert row[..c] == row;
  }

  /** The row loop over one table. */
  method AssignTable(variables: Registry, table: seq<seq<string>>) returns (updated: Registry)
    requires Valid(variables)
    ensures updated == AssignAll(variables, RowsOccs(table))
  {
    updated := variables;
    var r := 0;
    while r < |table|
      invariant 0 <= r <= |table|
      invariant updated == AssignAll(variables, RowsOccs(table[..r]))
    {
      var row := table[r];
      var fullRowContext := RowContext(row);
      updated := AssignRow(updated, row, fullRowContext);
      AssignAllAppend(variables, RowsOccs(table[..r]), CellsOccs(row, fullRowContext));
      assert table[..r + 1][..r] == table[..r];
      r := r + 1;
    }
    assert table[..r] == table;
  }

  /** The loop over one paragraph's matches: an id is added only when absent. */
  method AssignParagraphMatches(variables: Registry, matches: seq<string>, text: string)
    returns (updated: Registry)
    requires Valid(variables)
    ensures updated == AssignAbsent(variables, Records(matches, text, Paragraph))
  {
    updated := variables;
    var m := 0;
    while m < |matches|
      invariant 0 <= m <= |matches|
      invariant updated == AssignAbsent(variables, Records(matches[..m], text, Paragraph))
    {
      var varRaw := matches[m];
      var varId := Lower(varRaw);
      if varId !in updated.entries {
        updated := Assign(updated, Variable(varId, varRaw, text, Paragraph));
      }
      RecordsSnoc(matches, m, text, Paragraph);
      m := m + 1;
    }
    assert matches[..m] == matches;
  }

  /** The table loop: every table in order, a later occurrence overwriting an earlier one. */
  method AssignTables(variables: Registry, tables: seq<seq<seq<string>>>) returns (updated: Registry)
    requires Valid(variables)
    ensures updated == AssignAll(variables, TablesOccs(tables))
  {
    updated := variables;
    var t := 0;
    while t < |tables|
      invariant 0 <= t <= |tables|
      invariant updated == AssignAll(variables, TablesOccs(tables[..t]))
    {
      ghost var done := TablesOccs(tables[..t]);
      updated := AssignTable(updated, tables[t]);
      AssignAllAppend(variables, done, RowsOccs(tables[t]));
      assert tables[..t + 1][..t] == tables[..t];
      t := t + 1;
    }
    assert tables[..t] == tables;
  }

  /** The paragraph loop: only ids not seen yet are added. */
  method AssignParagraphs(variables: Registry, paragraphs: seq<string>) returns (updated: Registry)
    requires Valid(variables)
    ensures updated == AssignAbsent(variables, ParasOccs(paragraphs))
  {
    updated := variables;
    var p := 0;
    while p < |paragraphs|
      invariant 0 <= p <= |paragraphs|
      invariant updated == AssignAbsent(variables, ParasOccs(paragraphs[..p]))
    {
      ghost var done := ParasOccs(paragraphs[..p]);
      var text := CleanText(paragraphs[p]);
      var matches := Captures(text);
      updated := AssignParagraphMatches(updated, matches, text);
      AssignAbsentAppend(variables, done, ParagraphRecords(paragraphs[p]));
      assert paragraphs[..p + 1][..p] == paragraphs[..p];
      p := p + 1;
    }
    assert paragraphs[..p] == paragraphs;
  }

  /** `analyze_document` after `Document(file_path)` has parsed the file. */
  method AnalyzeDocument(doc: Document) returns (sortedVars: seq<Variable>)
    ensures sortedVars == Analyze(doc)
  {
    // 1. Tables, the primary source: a later occurrence overwrites.
    var variables := AssignTables(EmptyRegistry, doc.tables);
    // 2. Paragraphs, the fallback: only ids not seen yet are added.
    variables := AssignParagraphs(variables, doc.paragraphs);
    // 3. Sort by number; Python's sort is stable.
    sortedVars := SortByVNum(Values(variables));
  }
}
