/**
 * What `analyze_document` promises about its result: every record is a
 * well-formed `v<digits>` placeholder, ids are unique, exactly the ids that
 * occur in the document are reported, a table occurrence beats any
 * paragraph occurrence (the last table occurrence wins), a paragraph-only
 * id carries its first paragraph occurrence, and the list is sorted by
 * number while keeping discovery order among equal numbers.
 */
module AnalyzerProperties {
  import opened Text
  import opened TagScanner
  import opened Docx
  import opened Registry
  import opened VarSort
  import opened Analyzer

  /** Some placeholder of `text`, once cleaned, normalises to id `k`. */
  predicate IdIn(text: string, k: string)
  {
    exists m :: 0 <= m < |Captures(CleanText(text))| && Lower(Captures(CleanText(text))[m]) == k
  }

  /** Id `k` occurs in one of the cells (defined by peeling the last cell, as the scans go). */
  predicate InCells(cells: seq<string>, k: string)
    decreases |cells|
  {
    |cells| > 0 && (InCells(cells[..|cells| - 1], k) || IdIn(cells[|cells| - 1], k))
  }

  /** Id `k` occurs in some cell of one of the rows. */
  predicate InRows(rows: seq<seq<string>>, k: string)
    decreases |rows|
  {
    |rows| > 0 && (InRows(rows[..|rows| - 1], k) || InCells(rows[|rows| - 1], k))
  }

  /** Id `k` occurs in some cell of some row of some table. */
  predicate InTables(tables: seq<seq<seq<string>>>, k: string)
    decreases |tables|
  {
    |tables| > 0 && (InTables(tables[..|tables| - 1], k) || InRows(tables[|tables| - 1], k))
  }

  /** Id `k` occurs in some body paragraph. */
  predicate InParagraphs(paras: seq<string>, k: string)
    decreases |paras|
  {
    |paras| > 0 && (InParagraphs(paras[..|paras| - 1], k) || IdIn(paras[|paras| - 1], k))
  }

  /** A record made from a placeholder in one of the cells of `row`. */
  predicate RowOccurrence(row: seq<string>, v: Variable)
  {
    && v.kind == TableRow
    && v.context == RowContext(row)
    && v.id == Lower(v.originalTag)
    && exists c :: 0 <= c < |row| && v.originalTag in Captures(CleanText(row[c]))
  }

  /** A record made from a placeholder in some table row. */
  predicate TableOccurrence(tables: seq<seq<seq<string>>>, v: Variable)
  {
    exists t, r :: 0 <= t < |tables| && 0 <= r < |tables[t]| && RowOccurrence(tables[t][r], v)
  }

  /** A record made from a placeholder in some paragraph, with that paragraph's cleaned text as context. */
  predicate ParagraphOccurrence(paras: seq<string>, v: Variable)
  {
    && v.kind == Paragraph
    && v.id == Lower(v.originalTag)
    && exists p :: 0 <= p < |paras| && v.context == CleanText(paras[p])
                   && v.originalTag in Captures(CleanText(paras[p]))
  }

  // ---------------------------------------------------------------------
  // Which ids the scan meets

  lemma HasIdAppend(a: seq<Variable>, b: seq<Variable>, k: string)
    ensures HasId(a + b, k) <==> HasId(a, k) || HasId(b, k)
  {
    if HasId(a + b, k) {
      var i :| 0 <= i < |a + b| && (a + b)[i].id == k;
      if i < |a| { assert a[i].id == k; } else { assert b[i - |a|].id == k; }
    }
    if HasId(a, k) {
      var i :| 0 <= i < |a| && a[i].id == k;
      assert (a + b)[i] == a[i];
    }
    if HasId(b, k) {
      var i :| 0 <= i < |b| && b[i].id == k;
      assert (a + b)[|a| + i] == b[i];
    }
  }

  lemma RecordsHasId(text: string, context: string, kind: SourceKind, k: string)
    ensures HasId(Records(Captures(CleanText(text)), context, kind), k) <==> IdIn(text, k)
  {
    var caps := Captures(CleanText(text));
    var rs := Records(caps, context, kind);
    if HasId(rs, k) {
      var m :| 0 <= m < |rs| && rs[m].id == k;
      assert Lower(caps[m]) == k;
    }
    if IdIn(text, k) {
      var m :| 0 <= m < |caps| && Lower(caps[m]) == k;
      assert rs[m].id == k;
    }
  }

  lemma ParagraphRecordsHasId(para: string, k: string)
    ensures HasId(ParagraphRecords(para), k) <==> IdIn(para, k)
  {
    RecordsHasId(para, CleanText(para), Paragraph, k);
  }

  lemma {:induction false} CellsOccsHasId(cells: seq<string>, context: string, k: string)
    ensures HasId(CellsOccs(cells, context), k) <==> InCells(cells, k)
    decreases |cells|
  {
    if |cells| > 0 {
      var n := |cells| - 1;
      CellsOccsHasId(cells[..n], context, k);
      HasIdAppend(CellsOccs(cells[..n], context), CellRecords(cells[n], context), k);
      RecordsHasId(cells[n], context, TableRow, k);
    }
  }

  lemma {:induction false} RowsOccsHasId(rows: seq<seq<string>>, k: string)
    ensures HasId(RowsOccs(rows), k) <==> InRows(rows, k)
    decreases |rows|
  {
    if |rows| > 0 {
      var n := |rows| - 1;
      RowsOccsHasId(rows[..n], k);
      HasIdAppend(RowsOccs(rows[..n]), CellsOccs(rows[n], RowContext(rows[n])), k);
      CellsOccsHasId(rows[n], RowContext(rows[n]), k);
    }
  }

  /** The table scan meets id `k` exactly when `k` occurs in some table cell. */
  lemma {:induction false} TablesOccsHasId(tables: seq<seq<seq<string>>>, k: string)
    ensures HasId(TablesOccs(tables), k) <==> InTables(tables, k)
    decreases |tables|
  {
    if |tables| > 0 {
      var n := |tables| - 1;
      TablesOccsHasId(tables[..n], k);
      HasIdAppend(TablesOccs(tables[..n]), RowsOccs(tables[n]), k);
      RowsOccsHasId(tables[n], k);
    }
  }

  lemma ParasOccsLastHasId(paras: seq<string>, k: string)
    requires |paras| > 0
    ensures HasId(ParasOccs(paras), k)
        <==> HasId(ParasOccs(paras[..|paras| - 1]), k) || IdIn(paras[|paras| - 1], k)
  {
    var n := |paras| - 1;
    HasIdAppend(ParasOccs(paras[..n]), ParagraphRecords(paras[n]), k);
    ParagraphRecordsHasId(paras[n], k);
  }

  /** The paragraph scan meets id `k` exactly when `k` occurs in some paragraph. */
  lemma {:induction false} ParasOccsHasId(paras: seq<string>, k: string)
    ensures HasId(ParasOccs(paras), k) <==> InParagraphs(paras, k)
    decreases |paras|
  {
    if |paras| > 0 {
      var n := |paras| - 1;
      var pre := paras[..n];
      ParasOccsHasId(pre, k);
      ParasOccsLastHasId(paras, k);
    }
  }

  // ---------------------------------------------------------------------
  // What the records the scan builds look like

  lemma RecordsMembers(caps: seq<string>, context: string, kind: SourceKind, v: Variable)
    requires v in Records(caps, context, kind)
    ensures v.kind == kind && v.context == context && v.id == Lower(v.originalTag) && v.originalTag in caps
  {
    var rs := Records(caps, context, kind);
    var m :| 0 <= m < |rs| && rs[m] == v;
    assert caps[m] == v.originalTag;
  }

  lemma {:induction false} CellsOccsMembers(cells: seq<string>, context: string, v: Variable)
    requires v in CellsOccs(cells, context)
    ensures v.kind == TableRow && v.context == context && v.id == Lower(v.originalTag)
    ensures exists c :: 0 <= c < |cells| && v.originalTag in Captures(CleanText(cells[c]))
    decreases |cells|
  {
    var n := |cells| - 1;
    var pre := cells[..n];
    if v in CellsOccs(pre, context) {
      CellsOccsMembers(pre, context, v);
      var c :| 0 <= c < |pre| && v.originalTag in Captures(CleanText(pre[c]));
      assert cells[c] == pre[c];
    } else {
      RecordsMembers(Captures(CleanText(cells[n])), context, TableRow, v);
    }
  }

  lemma {:induction false} RowsOccsMembers(rows: seq<seq<string>>, v: Variable)
    requires v in RowsOccs(rows)
    ensures exists r :: 0 <= r < |rows| && RowOccurrence(rows[r], v)
    decreases |rows|
  {
    var n := |rows| - 1;
    var pre := rows[..n];
    if v in RowsOccs(pre) {
      RowsOccsMembers(pre, v);
      var r :| 0 <= r < |pre| && RowOccurrence(pre[r], v);
      assert rows[r] == pre[r];
    } else {
      CellsOccsMembers(rows[n], RowContext(rows[n]), v);
      assert RowOccurrence(rows[n], v);
    }
  }

  /** Every record of the table scan comes from a placeholder in a table row and carries that row's context. */
  lemma {:induction false} TablesOccsMembers(tables: seq<seq<seq<string>>>, v: Variable)
    requires v in TablesOccs(tables)
    ensures TableOccurrence(tables, v)
    decreases |tables|
  {
    var n := |tables| - 1;
    var pre := tables[..n];
    if v in TablesOccs(pre) {
      TablesOccsMembers(pre, v);
      var t, r :| 0 <= t < |pre| && 0 <= r < |pre[t]| && RowOccurrence(pre[t][r], v);
      assert tables[t] == pre[t];
    } else {
      RowsOccsMembers(tables[n], v);
      var r :| 0 <= r < |tables[n]| && RowOccurrence(tables[n][r], v);
    }
  }

  /** Every record of the paragraph scan comes from a placeholder in a paragraph and carries its cleaned text. */
  lemma {:induction false} ParasOccsMembers(paras: seq<string>, v: Variable)
    requires v in ParasOccs(paras)
    ensures ParagraphOccurrence(paras, v)
    decreases |paras|
  {
    var n := |paras| - 1;
    var pre := paras[..n];
    if v in ParasOccs(pre) {
      ParasOccsMembers(pre, v);
      var p :| 0 <= p < |pre| && v.context == CleanText(pre[p]) && v.originalTag in Captures(CleanText(pre[p]));
      assert paras[p] == pre[p];
    } else {
      RecordsMembers(Captures(CleanText(paras[n])), CleanText(paras[n]), Paragraph, v);
    }
  }

  // ---------------------------------------------------------------------
  // The registry after both passes

  /** Every record in the result is the registry's record under its own id. */
  lemma AnalyzeRecord(doc: Document, v: Variable)
    requires v in Analyze(doc)
    ensures v.id in BuildRegistry(doc).entries && BuildRegistry(doc).entries[v.id] == v
  {
    SortByVNumMembers(Values(BuildRegistry(doc)), v);
    ValuesMembers(BuildRegistry(doc), v);
  }

  /** The registry's record under `k` is in the result. */
  lemma RegistryRecordReported(doc: Document, k: string)
    requires k in BuildRegistry(doc).entries
    ensures BuildRegistry(doc).entries[k] in Analyze(doc)
  {
    var reg := BuildRegistry(doc);
    ValuesMembers(reg, reg.entries[k]);
    SortByVNumMembers(Values(reg), reg.entries[k]);
  }

  lemma RegistryKeys(doc: Document, k: string)
    ensures k in BuildRegistry(doc).entries <==> InTables(doc.tables, k) || InParagraphs(doc.paragraphs, k)
  {
    var tableReg := AssignAll(EmptyRegistry, TablesOccs(doc.tables));
    AssignAbsentKeys(tableReg, ParasOccs(doc.paragraphs), k);
    AssignAllKeys(EmptyRegistry, TablesOccs(doc.tables), k);
    TablesOccsHasId(doc.tables, k);
    ParasOccsHasId(doc.paragraphs, k);
  }

  /** Completeness: an id is reported exactly when it occurs in a table cell or a paragraph. */
  lemma AnalyzeReportsOccurringIds(doc: Document, k: string)
    ensures (exists i :: 0 <= i < |Analyze(doc)| && Analyze(doc)[i].id == k)
        <==> InTables(doc.tables, k) || InParagraphs(doc.paragraphs, k)
  {
    var res := Analyze(doc);
    RegistryKeys(doc, k);
    if exists i :: 0 <= i < |res| && res[i].id == k {
      var i :| 0 <= i < |res| && res[i].id == k;
      AnalyzeRecord(doc, res[i]);
    }
    if k in BuildRegistry(doc).entries {
      RegistryRecordReported(doc, k);
      var v := BuildRegistry(doc).entries[k];
      var i :| 0 <= i < |res| && res[i] == v;
    }
  }

  /**
   * Tables take precedence and, among table occurrences, the last one
   * scanned wins: an id found in any table cell is reported once, as the
   * record of its last occurrence in the table scan, with a row context.
   */
  lemma AnalyzeTableRecord(doc: Document, k: string)
    requires InTables(doc.tables, k)
    ensures var occs := TablesOccs(doc.tables);
            var i := LastIdIndex(occs, k);
            && i >= 0
            && occs[i] in Analyze(doc)
            && (forall v :: v in Analyze(doc) && v.id == k ==> v == occs[i])
            && TableOccurrence(doc.tables, occs[i])
  {
    var occs := TablesOccs(doc.tables);
    var tableReg := AssignAll(EmptyRegistry, occs);
    TablesOccsHasId(doc.tables, k);
    AssignAllLast(EmptyRegistry, occs, k);
    AssignAbsentKeeps(tableReg, ParasOccs(doc.paragraphs), k);
    var i := LastIdIndex(occs, k);
    assert BuildRegistry(doc).entries[k] == occs[i];
    RegistryRecordReported(doc, k);
    forall v | v in Analyze(doc) && v.id == k ensures v == occs[i] {
      AnalyzeRecord(doc, v);
    }
    TablesOccsMembers(doc.tables, occs[i]);
  }

  /**
   * The paragraph fallback: an id found in no table cell but in some
   * paragraph is reported once, as the record of its first occurrence in
   * the paragraph scan, with that paragraph's cleaned text as context.
   */
  lemma AnalyzeParagraphRecord(doc: Document, k: string)
    requires !InTables(doc.tables, k) && InParagraphs(doc.paragraphs, k)
    ensures var occs := ParasOccs(doc.paragraphs);
            var i := FirstIdIndex(occs, k);
            && i >= 0
            && occs[i] in Analyze(doc)
            && (forall v :: v in Analyze(doc) && v.id == k ==> v == occs[i])
            && ParagraphOccurrence(doc.paragraphs, occs[i])
  {
    var occs := ParasOccs(doc.paragraphs);
    var tableReg := AssignAll(EmptyRegistry, TablesOccs(doc.tables));
    TablesOccsHasId(doc.tables, k);
    AssignAllKeys(EmptyRegistry, TablesOccs(doc.tables), k);
    ParasOccsHasId(doc.paragraphs, k);
    AssignAbsentFirst(tableReg, occs, k);
    var i := FirstIdIndex(occs, k);
    assert BuildRegistry(doc).entries[k] == occs[i];
    RegistryRecordReported(doc, k);
    forall v | v in Analyze(doc) && v.id == k ensures v == occs[i] {
      AnalyzeRecord(doc, v);
    }
    ParasOccsMembers(doc.paragraphs, occs[i]);
  }

  /** Every reported record was built from a placeholder in a table row or in a paragraph. */
  lemma AnalyzeRecordOrigin(doc: Document, v: Variable)
    requires v in Analyze(doc)
    ensures TableOccurrence(doc.tables, v) || ParagraphOccurrence(doc.paragraphs, v)
  {
    AnalyzeRecord(doc, v);
    RegistryKeys(doc, v.id);
    if InTables(doc.tables, v.id) {
      AnalyzeTableRecord(doc, v.id);
    } else {
      AnalyzeParagraphRecord(doc, v.id);
    }
  }

  /** A lower-cased `v<digits>` group starts with `v`, keeps its digits, and is keyed by their value (9999 past `int`'s digit limit). */
  lemma LoweredTagKey(v: Variable)
    requires IsVKey(v.originalTag) && v.id == Lower(v.originalTag)
    ensures v.id[0] == 'v' && v.id[1..] == v.originalTag[1..]
    ensures Key(v) == if |v.originalTag| - 1 <= MaxIntDigits then DecimalValue(v.originalTag[1..]) else Unparseable
  {
    var digits := v.originalTag[1..];
    assert v.id[1..] == digits;
    assert v.id == [v.id[0]] + digits;
    VNumOfId('v', digits);
  }

  /** Every reported original tag is a `v<digits>` group the pattern captured, and its id is that group lower-cased. */
  lemma AnalyzeTagShape(doc: Document, v: Variable)
    requires v in Analyze(doc)
    ensures IsVKey(v.originalTag) && v.id == Lower(v.originalTag)
  {
    AnalyzeRecordOrigin(doc, v);
    if TableOccurrence(doc.tables, v) {
      var t, r :| 0 <= t < |doc.tables| && 0 <= r < |doc.tables[t]| && RowOccurrence(doc.tables[t][r], v);
      var row := doc.tables[t][r];
      var c :| 0 <= c < |row| && v.originalTag in Captures(CleanText(row[c]));
      CapturesShape(CleanText(row[c]));
    } else {
      var p :| 0 <= p < |doc.paragraphs| && v.context == CleanText(doc.paragraphs[p])
               && v.originalTag in Captures(CleanText(doc.paragraphs[p]));
      CapturesShape(CleanText(doc.paragraphs[p]));
    }
  }

  /**
   * Every reported id is the lower-cased captured group: `v` followed by
   * digits, and its sort key is the number those digits spell, or 9999 when
   * there are more of them than `int` converts.
   */
  lemma AnalyzeRecordShape(doc: Document, v: Variable)
    requires v in Analyze(doc)
    ensures IsVKey(v.originalTag) && v.id == Lower(v.originalTag)
    ensures v.id[0] == 'v' && v.id[1..] == v.originalTag[1..]
    ensures Key(v) == if |v.originalTag| - 1 <= MaxIntDigits then DecimalValue(v.originalTag[1..]) else Unparseable
  {
    AnalyzeTagShape(doc, v);
    LoweredTagKey(v);
  }

  lemma CountTwo(s: seq<Variable>, i: nat, j: nat)
    requires i < j < |s| && s[i] == s[j]
    ensures multiset(s)[s[i]] >= 2
  {
    assert s == s[..j] + s[j..];
    assert s[..j][i] == s[i];
    assert s[j..][0] == s[j];
    assert multiset(s) == multiset(s[..j]) + multiset(s[j..]);
  }

  lemma {:induction false} CountDistinct(s: seq<Variable>, x: Variable)
    requires forall i, j :: 0 <= i < j < |s| ==> s[i] != s[j]
    ensures multiset(s)[x] <= 1
    decreases |s|
  {
    if |s| > 0 {
      var n := |s| - 1;
      assert s == s[..n] + [s[n]];
      CountDistinct(s[..n], x);
      if s[n] == x {
        assert x !in s[..n];
      }
    }
  }

  /** No two reported records share an id. */
  lemma AnalyzeIdsUnique(doc: Document)
    ensures forall i, j :: 0 <= i < j < |Analyze(doc)| ==> Analyze(doc)[i].id != Analyze(doc)[j].id
  {
    var res := Analyze(doc);
    var vals := Values(BuildRegistry(doc));
    SortByVNumSpec(vals);
    ValuesDistinct(BuildRegistry(doc));
    forall i, j | 0 <= i < j < |res| ensures res[i].id != res[j].id {
      if res[i].id == res[j].id {
        AnalyzeRecord(doc, res[i]);
        AnalyzeRecord(doc, res[j]);
        CountTwo(res, i, j);
        CountDistinct(vals, res[i]);
        assert false;
      }
    }
  }

  /**
   * `sorted(..., key=get_v_num)`: ordered by number, a permutation of the
   * registry's values, and among equal numbers the registry's insertion
   * order, which is the order in which the table scan and then the
   * paragraph scan first met each id.
   */
  lemma AnalyzeOrder(doc: Document)
    ensures SortedByKey(Analyze(doc))
    ensures multiset(Analyze(doc)) == multiset(Values(BuildRegistry(doc)))
    ensures forall n :: WithKey(Analyze(doc), n) == WithKey(Values(BuildRegistry(doc)), n)
    ensures Ids(Values(BuildRegistry(doc)))
         == ExtendOrder([], Ids(TablesOccs(doc.tables) + ParasOccs(doc.paragraphs)))
  {
    var reg := BuildRegistry(doc);
    SortByVNumSpec(Values(reg));
    RegistryOrder(doc);
  }

  lemma RegistryOrder(doc: Document)
    ensures Ids(Values(BuildRegistry(doc)))
         == ExtendOrder([], Ids(TablesOccs(doc.tables) + ParasOccs(doc.paragraphs)))
  {
    var reg := BuildRegistry(doc);
    var tOccs, pOccs := TablesOccs(doc.tables), ParasOccs(doc.paragraphs);
    var tableReg := AssignAll(EmptyRegistry, tOccs);
    assert reg.order == ExtendOrder(tableReg.order, Ids(pOccs)) by {
      AssignAbsentOrder(tableReg, pOccs);
    }
    assert tableReg.order == ExtendOrder([], Ids(tOccs)) by {
      AssignAllOrder(EmptyRegistry, tOccs);
    }
    assert ExtendOrder([], Ids(tOccs + pOccs)) == ExtendOrder(ExtendOrder([], Ids(tOccs)), Ids(pOccs)) by {
      IdsAppend(tOccs, pOccs);
      ExtendOrderAppend([], Ids(tOccs), Ids(pOccs));
    }
    ValuesIds(reg);
  }

  // ---------------------------------------------------------------------
  // The paragraph fallback, paragraph by paragraph

  /** The index of the first paragraph in which id `k` occurs, or -1 when there is none. */
  function FirstParagraphIndex(paras: seq<string>, k: string): (p: int)
    ensures -1 <= p < |paras|
    ensures p >= 0 <==> InParagraphs(paras, k)
    ensures p >= 0 ==> IdIn(paras[p], k)
    ensures forall q :: 0 <= q < |paras| && (p < 0 || q < p) ==> !IdIn(paras[q], k)
    decreases |paras|
  {
    if |paras| == 0 then -1
    else
      var pre := paras[..|paras| - 1];
      var f := FirstParagraphIndex(pre, k);
      assert forall q :: 0 <= q < |pre| ==> pre[q] == paras[q];
      if f >= 0 then f
      else if IdIn(paras[|paras| - 1], k) then |paras| - 1
      else -1
  }

  /** The record built from the first placeholder with id `k` in one paragraph. */
  function FirstRecordIn(para: string, k: string): Variable
    requires IdIn(para, k)
  {
    ParagraphRecordsHasId(para, k);
    FirstIdIndexFound(ParagraphRecords(para), k);
    ParagraphRecords(para)[FirstIdIndex(ParagraphRecords(para), k)]
  }

  /** The first occurrence in the paragraph scan is the first one within the first paragraph that has the id. */
  lemma {:induction false} ParasOccsFirst(paras: seq<string>, k: string)
    requires InParagraphs(paras, k)
    ensures FirstIdIndex(ParasOccs(paras), k) >= 0 && FirstParagraphIndex(paras, k) >= 0
    ensures ParasOccs(paras)[FirstIdIndex(ParasOccs(paras), k)]
         == FirstRecordIn(paras[FirstParagraphIndex(paras, k)], k)
    decreases |paras|
  {
    var n := |paras| - 1;
    var pre := paras[..n];
    var a, b := ParasOccs(pre), ParagraphRecords(paras[n]);
    assert ParasOccs(paras) == a + b;
    ParasOccsHasId(pre, k);
    ParagraphRecordsHasId(paras[n], k);
    FirstRecordAppend(a, b, k);
    if InParagraphs(pre, k) {
      ParasOccsFirst(pre, k);
    }
  }

  /**
   * An id found in no table cell is reported as the record of its first
   * placeholder in the first paragraph that contains it.
   */
  lemma AnalyzeFirstParagraph(doc: Document, k: string)
    requires !InTables(doc.tables, k) && InParagraphs(doc.paragraphs, k)
    ensures var p := FirstParagraphIndex(doc.paragraphs, k);
            && p >= 0
            && FirstRecordIn(doc.paragraphs[p], k) in Analyze(doc)
            && forall v :: v in Analyze(doc) && v.id == k ==> v == FirstRecordIn(doc.paragraphs[p], k)
  {
    AnalyzeParagraphRecord(doc, k);
    ParasOccsFirst(doc.paragraphs, k);
  }

  // ---------------------------------------------------------------------
  // Row context

  /** A cell is blank for the row filter exactly when its cleaned text is empty. */
  lemma CleanTextBlank(s: string)
    ensures CleanText(s) == "" <==> Strip(s) == ""
  {
    StripEmptyIff(s);
    StripEmptyIff(ReplaceNbsp(s));
    assert AllSpaces(ReplaceNbsp(s)) <==> AllSpaces(s) by {
      var t := ReplaceNbsp(s);
      assert forall i :: 0 <= i < |s| ==> (IsSpace(t[i]) <==> IsSpace(s[i]));
    }
  }

  /** A row contributes no context part exactly when all of its cells are blank. */
  lemma {:induction false} RowCellsEmpty(row: seq<string>)
    ensures RowCells(row) == [] <==> forall c :: 0 <= c < |row| ==> Strip(row[c]) == ""
    decreases |row|
  {
    if |row| > 0 {
      var n := |row| - 1;
      var pre := row[..n];
      RowCellsEmpty(pre);
      if forall c :: 0 <= c < |pre| ==> Strip(pre[c]) == "" {
        if Strip(row[n]) == "" {
          forall c | 0 <= c < |row| ensures Strip(row[c]) == "" {
            if c < n { assert row[c] == pre[c]; }
          }
        }
      } else {
        var c :| 0 <= c < |pre| && Strip(pre[c]) != "";
        assert row[c] == pre[c];
      }
    }
  }

  /** No part of a row context is empty. */
  lemma {:induction false} RowCellsNonEmpty(row: seq<string>)
    ensures forall x :: x in RowCells(row) ==> x != ""
    decreases |row|
  {
    if |row| > 0 {
      RowCellsNonEmpty(row[..|row| - 1]);
      CleanTextBlank(row[|row| - 1]);
    }
  }

  lemma JoinNonEmpty(parts: seq<string>, sep: string)
    requires |parts| > 0 && parts[|parts| - 1] != ""
    ensures Join(parts, sep) != ""
  {
  }

  /** A row's context is empty exactly when every one of its cells is blank. */
  lemma RowContextEmpty(row: seq<string>)
    ensures RowContext(row) == "" <==> forall c :: 0 <= c < |row| ==> Strip(row[c]) == ""
  {
    RowCellsNonEmpty(row);
    RowCellsEmpty(row);
    var parts := RowCells(row);
    if |parts| > 0 {
      assert parts[|parts| - 1] in parts;
      JoinNonEmpty(parts, " | ");
    }
  }
}
