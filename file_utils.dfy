/**
 * The knowledge-base readers: each turns one file into text or into an
 * `Error reading …` message, and `get_knowledge_base_content` walks a
 * directory tree and concatenates a headed section per readable file.
 *
 * What the libraries return (the parsed Word document, the PDF pages,
 * pandas' CSV text, a text file's contents, or the exception raised while
 * opening the file) is an input; so is the directory walk.
 */
module FileUtils {
  import opened Wrappers
  import opened Text
  import opened Paths
  import opened Docx

  /** The four readers the walk dispatches to. */
  datatype Reader = Excel | Pdf | Word | PlainText

  /** The word each reader uses in its error message. */
  function ReaderName(r: Reader): string
  {
    match r
    case Excel => "Excel"
    case Pdf => "PDF"
    case Word => "Word"
    case PlainText => "Text"
  }

  /** The string a reader returns when the exception `message` was raised while reading `filepath`. */
  function ReadError(r: Reader, filepath: string, message: string): (text: string)
    ensures |text| > |"Error reading "| && text[..|"Error reading "|] == "Error reading "
  {
    "Error reading " + ReaderName(r) + " " + filepath + ": " + message
  }

  // ---------------------------------------------------------------------
  // read_excel and read_text

  /** `read_excel`: pandas' CSV rendering of the sheet, or the error message. */
  function ReadExcel(filepath: string, csv: Result<string, string>): (text: string)
    ensures csv.Success? ==> text == csv.value
    ensures csv.Failure? ==> |text| > |"Error reading "| && text[..|"Error reading "|] == "Error reading "
  {
    match csv
    case Success(text) => text
    case Failure(e) => ReadError(Excel, filepath, e)
  }

  /** `read_text`: the file's UTF-8 contents, or the error message. */
  function ReadText(filepath: string, contents: Result<string, string>): (text: string)
    ensures contents.Success? ==> text == contents.value
    ensures contents.Failure? ==> |text| > |"Error reading "| && text[..|"Error reading "|] == "Error reading "
  {
    match contents
    case Success(text) => text
    case Failure(e) => ReadError(PlainText, filepath, e)
  }

  // ---------------------------------------------------------------------
  // read_pdf

  /** The extracted text of each page, each followed by a newline. */
  function PdfText(pages: seq<string>): string
    decreases |pages|
  {
    if |pages| == 0 then "" else PdfText(pages[..|pages| - 1]) + pages[|pages| - 1] + "\n"
  }

  /** What `read_pdf` returns for the pages `PdfReader` extracted, or for the error it raised. */
  function PdfOutput(filepath: string, pages: Result<seq<string>, string>): string
  {
    match pages
    case Success(ps) => PdfText(ps)
    case Failure(e) => ReadError(Pdf, filepath, e)
  }

  /** `read_pdf`. */
  method ReadPdf(filepath: string, pages: Result<seq<string>, string>) returns (text: string)
    ensures text == PdfOutput(filepath, pages)
  {
    if pages.Failure? {
      return ReadError(Pdf, filepath, pages.error);
    }
    var ps := pages.value;
    text := "";
    var i := 0;
    while i < |ps|
      invariant 0 <= i <= |ps|
      invariant text == PdfText(ps[..i])
    {
      text := text + ps[i] + "\n";
      assert ps[..i + 1][..i] == ps[..i];
      i := i + 1;
    }
    assert ps[..i] == ps;
  }

  /** Splitting a PDF's text at newlines gives back its pages and one empty tail, when no page holds a newline. */
  lemma PdfTextSplit(pages: seq<string>)
    requires forall i :: 0 <= i < |pages| ==> '\n' !in pages[i]
    ensures Split(PdfText(pages), '\n') == pages + [""]
  {
    PagesNoNewline(pages);
    PdfTextJoin(pages);
    SplitJoin(pages + [""], '\n');
  }

  lemma PagesNoNewline(pages: seq<string>)
    requires forall i :: 0 <= i < |pages| ==> '\n' !in pages[i]
    ensures forall i :: 0 <= i < |pages + [""]| ==> '\n' !in (pages + [""])[i]
  {
    var parts := pages + [""];
    forall i | 0 <= i < |parts| ensures '\n' !in parts[i] {
      if i < |pages| { assert parts[i] == pages[i]; }
    }
  }

  /** The page loop's text is the pages joined by newlines, with one newline after the last page. */
  lemma {:induction false} PdfTextJoin(pages: seq<string>)
    ensures PdfText(pages) == Join(pages + [""], "\n")
    decreases |pages|
  {
    if |pages| > 0 {
      var pre := pages[..|pages| - 1];
      var last := pages[|pages| - 1];
      PdfTextJoin(pre);
      JoinLast(pre + [""], last);
      assert (pre + [""])[..|pre|] + [last] == pages;
      assert (pages + [""])[..|pages|] == pages;
    }
  }

  /** Replacing an empty last part by `x` appends `x` after the separator. */
  lemma JoinLast(parts: seq<string>, x: string)
    requires |parts| >= 1 && parts[|parts| - 1] == ""
    ensures Join(parts[..|parts| - 1] + [x], "\n") == Join(parts, "\n") + x
  {
    var pre := parts[..|parts| - 1];
    if |pre| == 0 {
      assert pre + [x] == [x];
    } else {
      assert (pre + [x])[..|pre|] == pre;
    }
  }

  /** No pages, no text: every page adds at least its newline. */
  lemma {:induction false} PdfTextEmpty(pages: seq<string>)
    ensures PdfText(pages) == "" <==> |pages| == 0
    ensures |PdfText(pages)| >= |pages|
    decreases |pages|
  {
    if |pages| > 0 {
      PdfTextEmpty(pages[..|pages| - 1]);
    }
  }

  // ---------------------------------------------------------------------
  // read_word

  /** `[p for p in paragraphs if p.strip()]`: the non-blank paragraphs, unstripped, in order. */
  function NonBlankParagraphs(paras: seq<string>): seq<string>
    decreases |paras|
  {
    if |paras| == 0 then []
    else
      var last := paras[|paras| - 1];
      NonBlankParagraphs(paras[..|paras| - 1]) + (if Strip(last) != "" then [last] else [])
  }

  /** One line per row of one table: every cell text, empty ones included, joined by `" | "`. */
  function TableLines(rows: seq<seq<string>>): (lines: seq<string>)
    ensures |lines| == |rows|
    ensures forall r :: 0 <= r < |rows| ==> lines[r] == Join(rows[r], " | ")
  {
    seq(|rows|, r requires 0 <= r < |rows| => Join(rows[r], " | "))
  }

  /** The row lines of all tables, table after table. */
  function RowLines(tables: seq<seq<seq<string>>>): seq<string>
    decreases |tables|
  {
    if |tables| == 0 then [] else RowLines(tables[..|tables| - 1]) + TableLines(tables[|tables| - 1])
  }

  /** The `full_text` list `read_word` builds. */
  function WordLines(doc: Document): seq<string>
  {
    NonBlankParagraphs(doc.paragraphs) + RowLines(doc.tables)
  }

  /** What `read_word` returns for the document `Document(filepath)` parsed, or for the error it raised. */
  function WordOutput(filepath: string, parsed: Result<Document, string>): string
  {
    match parsed
    case Success(doc) => Join(WordLines(doc), "\n")
    case Failure(e) => ReadError(Word, filepath, e)
  }

  /** `read_word`. */
  method ReadWord(filepath: string, parsed: Result<Document, string>) returns (text: string)
    ensures text == WordOutput(filepath, parsed)
  {
    if parsed.Failure? {
      return ReadError(Word, filepath, parsed.error);
    }
    var doc := parsed.value;
    var fullText := AppendParagraphs(doc.paragraphs);
    ghost var paraLines := fullText;
    // Tables
    var t := 0;
    while t < |doc.tables|
      invariant 0 <= t <= |doc.tables|
      invariant fullText == paraLines + RowLines(doc.tables[..t])
    {
      ghost var before := RowLines(doc.tables[..t]);
      fullText := AppendTableRows(fullText, doc.tables[t]);
      assert doc.tables[..t + 1][..t] == doc.tables[..t];
      assert paraLines + before + TableLines(doc.tables[t]) == paraLines + (before + TableLines(doc.tables[t]));
      t := t + 1;
    }
    assert doc.tables[..t] == doc.tables;
    text := Join(fullText, "\n");
  }

  /** The paragraph loop of `read_word`: the non-blank paragraphs, in order. */
  method AppendParagraphs(paras: seq<string>) returns (fullText: seq<string>)
    ensures fullText == NonBlankParagraphs(paras)
  {
    fullText := [];
    var i := 0;
    while i < |paras|
      invariant 0 <= i <= |paras|
      invariant fullText == NonBlankParagraphs(paras[..i])
    {
      var para := paras[i];
      if Strip(para) != "" {
        fullText := fullText + [para];
      }
      assert paras[..i + 1][..i] == paras[..i];
      i := i + 1;
    }
    assert paras[..i] == paras;
  }

  /** The row loop of one table in `read_word`: one line per row, its cell texts joined by `" | "`. */
  method AppendTableRows(fullText: seq<string>, table: seq<seq<string>>) returns (updated: seq<string>)
    ensures updated == fullText + TableLines(table)
  {
    updated := fullText;
    var r := 0;
    while r < |table|
      invariant 0 <= r <= |table|
      invariant updated == fullText + TableLines(table[..r])
    {
      var rowText := table[r];
      updated := updated + [Join(rowText, " | ")];
      assert TableLines(table[..r + 1]) == TableLines(table[..r]) + [Join(rowText, " | ")];
      r := r + 1;
    }
    assert table[..r] == table;
  }

  /** The paragraph lines are exactly the non-blank paragraphs, unchanged. */
  lemma {:induction false} NonBlankParagraphsMember(paras: seq<string>, x: string)
    ensures x in NonBlankParagraphs(paras) <==> x in paras && Strip(x) != ""
    decreases |paras|
  {
    if |paras| > 0 {
      var pre := paras[..|paras| - 1];
      NonBlankParagraphsMember(pre, x);
      assert paras == pre + [paras[|paras| - 1]];
    }
  }

  /** A document whose paragraphs are all non-blank keeps every one of them, in order. */
  lemma {:induction false} NonBlankParagraphsKeepsAll(paras: seq<string>)
    requires forall i :: 0 <= i < |paras| ==> Strip(paras[i]) != ""
    ensures NonBlankParagraphs(paras) == paras
    decreases |paras|
  {
    if |paras| > 0 {
      NonBlankParagraphsKeepsAll(paras[..|paras| - 1]);
      assert paras[..|paras| - 1] + [paras[|paras| - 1]] == paras;
    }
  }

  /** The number of rows over all tables. */
  function RowCount(tables: seq<seq<seq<string>>>): nat
    decreases |tables|
  {
    if |tables| == 0 then 0 else RowCount(tables[..|tables| - 1]) + |tables[|tables| - 1]|
  }

  /** Exactly one line per table row: row `r` of table `t` is line `RowCount(tables[..t]) + r`. */
  lemma {:induction false} RowLinesIndex(tables: seq<seq<seq<string>>>, t: nat, r: nat)
    requires t < |tables| && r < |tables[t]|
    ensures |RowLines(tables)| == RowCount(tables)
    ensures RowCount(tables[..t]) + r < |RowLines(tables)|
    ensures RowLines(tables)[RowCount(tables[..t]) + r] == Join(tables[t][r], " | ")
    decreases |tables|
  {
    var n := |tables| - 1;
    var pre := tables[..n];
    RowLinesCount(pre);
    RowCountPrefix(tables, t);
    if t < n {
      RowLinesIndex(pre, t, r);
      assert pre[..t] == tables[..t];
      assert pre[t] == tables[t];
    } else {
      assert tables[..t] == pre;
    }
  }

  lemma {:induction false} RowLinesCount(tables: seq<seq<seq<string>>>)
    ensures |RowLines(tables)| == RowCount(tables)
    decreases |tables|
  {
    if |tables| > 0 {
      RowLinesCount(tables[..|tables| - 1]);
    }
  }

  /** The rows before table `t` plus the rows of `t` are at most all the rows. */
  lemma {:induction false} RowCountPrefix(tables: seq<seq<seq<string>>>, t: nat)
    requires t < |tables|
    ensures RowCount(tables[..t]) + |tables[t]| <= RowCount(tables)
    decreases |tables|
  {
    var n := |tables| - 1;
    if t < n {
      RowCountPrefix(tables[..n], t);
      assert tables[..n][..t] == tables[..t];
    } else {
      assert tables[..t] == tables[..n];
    }
  }

  /** Splitting `read_word`'s text at newlines gives back its lines, when no paragraph or cell holds a newline. */
  lemma WordTextSplit(doc: Document)
    requires |WordLines(doc)| >= 1
    requires forall i :: 0 <= i < |WordLines(doc)| ==> '\n' !in WordLines(doc)[i]
    ensures Split(Join(WordLines(doc), "\n"), '\n') == WordLines(doc)
  {
    SplitJoin(WordLines(doc), '\n');
  }

  // ---------------------------------------------------------------------
  // get_knowledge_base_content

  /** `file.split('.')[-1].lower()`: the lower-cased text after the last dot, or the whole name. */
  function Extension(file: string): string
  {
    Lower(file[LastIndexOf(file, '.') + 1..])
  }

  /**
   * The extension is the lower-cased longest dot-free tail of the name: it
   * is either the whole name or preceded by a dot.
   */
  lemma ExtensionSpec(file: string)
    ensures var e := Extension(file);
            && |e| <= |file|
            && e == Lower(file[|file| - |e|..])
            && '.' !in e
            && (|e| == |file| || file[|file| - |e| - 1] == '.')
  {
    var d := LastIndexOf(file, '.');
    var tail := file[d + 1..];
    assert |file| - |Extension(file)| == d + 1;
    forall j | 0 <= j < |tail| ensures Extension(file)[j] != '.' {
      assert tail[j] == file[d + 1 + j];
    }
  }

  /** The extensions the walk recognises, with the reader each is sent to. */
  const ReaderTable: seq<(string, Reader)> :=
    [("xlsx", Excel), ("xls", Excel), ("pdf", Pdf), ("docx", Word), ("doc", Word), ("txt", PlainText)]

  function Lookup(table: seq<(string, Reader)>, ext: string): Option<Reader>
    decreases |table|
  {
    if |table| == 0 then None
    else if table[0].0 == ext then Some(table[0].1)
    else Lookup(table[1..], ext)
  }

  /** The reader the extension is dispatched to; `None` contributes nothing. */
  function Dispatch(ext: string): Option<Reader>
  {
    Lookup(ReaderTable, ext)
  }

  /** The `if`/`elif` chain on the extension picks exactly the reader the table lists. */
  lemma DispatchRules(ext: string)
    ensures Dispatch(ext)
         == if ext == "xlsx" || ext == "xls" then Some(Excel)
            else if ext == "pdf" then Some(Pdf)
            else if ext == "docx" || ext == "doc" then Some(Word)
            else if ext == "txt" then Some(PlainText)
            else None
  {
    var t := ReaderTable;
    assert t[1..][1..][1..][1..][1..][1..] == [];
  }

  /** One step of `os.walk`: a directory and the names of the files directly in it. */
  datatype WalkStep = WalkStep(root: string, files: seq<string>)

  /** The content read for one file; `read` stands for the reader called on the joined path. */
  function FileContent(root: string, file: string, read: (Reader, string) -> string): string
  {
    match Dispatch(Extension(file))
    case None => ""
    case Some(r) => read(r, PathJoin(root, file))
  }

  /** The section appended for one file: a header with its name, then its content; nothing for empty content. */
  function Section(file: string, content: string): string
  {
    if content == "" then "" else "\n--- File: " + file + " ---\n" + content + "\n"
  }

  /** The sections of the files of one directory, one per file, in walk order. */
  function Sections(root: string, files: seq<string>, read: (Reader, string) -> string): (r: seq<string>)
    ensures |r| == |files|
    ensures forall j :: 0 <= j < |files| ==> r[j] == Section(files[j], FileContent(root, files[j], read))
  {
    seq(|files|, j requires 0 <= j < |files| => Section(files[j], FileContent(root, files[j], read)))
  }

  /** Taking the first files takes their sections. */
  lemma SectionsTake(root: string, files: seq<string>, j: nat, read: (Reader, string) -> string)
    requires j <= |files|
    ensures Sections(root, files[..j], read) == Sections(root, files, read)[..j]
  {
    var l, r := Sections(root, files[..j], read), Sections(root, files, read)[..j];
    forall k | 0 <= k < j ensures l[k] == r[k] {
      assert files[..j][k] == files[k];
    }
  }

  /** Dropping the first files drops their sections. */
  lemma SectionsDrop(root: string, files: seq<string>, j: nat, read: (Reader, string) -> string)
    requires j <= |files|
    ensures Sections(root, files[j..], read) == Sections(root, files, read)[j..]
  {
    var l, r := Sections(root, files[j..], read), Sections(root, files, read)[j..];
    forall k | 0 <= k < |files| - j ensures l[k] == r[k] {
      assert files[j..][k] == files[j + k];
    }
  }

  /** The concatenation of some strings, in order. */
  function Concat(parts: seq<string>): string
    decreases |parts|
  {
    if |parts| == 0 then "" else Concat(parts[..|parts| - 1]) + parts[|parts| - 1]
  }

  /** The text of the first `j` parts is a prefix of the text of all of them. */
  lemma {:induction false} ConcatPrefix(parts: seq<string>, j: nat)
    requires j <= |parts|
    ensures Concat(parts[..j]) <= Concat(parts)
    decreases |parts|
  {
    if j == |parts| {
      assert parts[..j] == parts;
    } else {
      var n := |parts| - 1;
      ConcatPrefix(parts[..n], j);
      assert parts[..n][..j] == parts[..j];
      PrefixExtend(Concat(parts[..j]), Concat(parts[..n]), parts[n]);
    }
  }

  lemma PrefixExtend(p: string, s: string, t: string)
    requires p <= s
    ensures p <= s + t
  {
    assert (s + t)[..|s|] == s;
  }

  /** `parts[j]` sits between the parts before it and the parts after it. */
  lemma {:induction false} ConcatAt(parts: seq<string>, j: nat)
    requires j < |parts|
    ensures Concat(parts) == Concat(parts[..j]) + parts[j] + Concat(parts[j + 1..])
    decreases |parts|
  {
    var n := |parts| - 1;
    if j == n {
      assert parts[j + 1..] == [];
    } else {
      var pre := parts[..n];
      ConcatAt(pre, j);
      assert pre[..j] == parts[..j] && pre[j] == parts[j];
      var tail := parts[j + 1..];
      assert tail[..|tail| - 1] == pre[j + 1..] && tail[|tail| - 1] == parts[n];
      ConcatStep(Concat(parts), Concat(pre), Concat(parts[..j]) + parts[j], Concat(pre[j + 1..]), Concat(tail), parts[n]);
    }
  }

  lemma ConcatStep(whole: string, init: string, x: string, y: string, right: string, last: string)
    requires whole == init + last && init == x + y && right == y + last
    ensures whole == x + right
  {
  }

  /** The concatenation is empty exactly when every part is. */
  lemma {:induction false} ConcatEmpty(parts: seq<string>)
    ensures Concat(parts) == "" <==> forall j :: 0 <= j < |parts| ==> parts[j] == ""
    decreases |parts|
  {
    if |parts| > 0 {
      var n := |parts| - 1;
      ConcatEmpty(parts[..n]);
      assert forall j :: 0 <= j < n ==> parts[..n][j] == parts[j];
    }
  }

  /** The text appended for the files of one directory. */
  function FilesText(root: string, files: seq<string>, read: (Reader, string) -> string): string
  {
    Concat(Sections(root, files, read))
  }

  lemma FilesTextSnoc(root: string, files: seq<string>, j: nat, read: (Reader, string) -> string)
    requires j < |files|
    ensures FilesText(root, files[..j + 1], read)
         == FilesText(root, files[..j], read) + Section(files[j], FileContent(root, files[j], read))
  {
    var parts := Sections(root, files[..j + 1], read);
    SectionsTake(root, files[..j + 1], j, read);
    assert files[..j + 1][..j] == files[..j];
    assert parts[j] == Section(files[..j + 1][j], FileContent(root, files[..j + 1][j], read));
  }

  /** One turn of the loop over files keeps `updated` equal to the text so far plus the sections so far. */
  lemma AppendSectionStep(contextText: string, updated: string, root: string, files: seq<string>, j: nat,
                          read: (Reader, string) -> string)
    requires j < |files| && updated == contextText + FilesText(root, files[..j], read)
    ensures var content := FileContent(root, files[j], read);
            (if content != "" then updated + ("\n--- File: " + files[j] + " ---\n" + content + "\n") else updated)
            == contextText + FilesText(root, files[..j + 1], read)
  {
    var content := FileContent(root, files[j], read);
    FilesTextSnoc(root, files, j, read);
    ConcatAssoc(contextText, FilesText(root, files[..j], read), Section(files[j], content));
    SectionAppend(updated, files[j], content);
  }

  lemma SectionAppend(before: string, file: string, content: string)
    ensures (if content != "" then before + ("\n--- File: " + file + " ---\n" + content + "\n") else before)
         == before + Section(file, content)
  {
    if content == "" {
      assert before + "" == before;
    }
  }

  lemma ConcatAssoc(a: string, b: string, c: string)
    ensures a + b + c == a + (b + c)
  {
  }

  /** The sections of all files, in walk order. */
  function WalkText(steps: seq<WalkStep>, read: (Reader, string) -> string): string
    decreases |steps|
  {
    if |steps| == 0 then ""
    else
      var step := steps[|steps| - 1];
      WalkText(steps[..|steps| - 1], read) + FilesText(step.root, step.files, read)
  }

  /** What `get_knowledge_base_content` returns; `None` is a base path that does not exist. */
  function KnowledgeBase(walk: Option<seq<WalkStep>>, read: (Reader, string) -> string): string
  {
    match walk
    case None => "No knowledge base found."
    case Some(steps) => WalkText(steps, read)
  }

  /**
   * Walk order: the text of a directory's files is the text of the files
   * before `files[j]`, then the section of `files[j]`, then the text of the
   * files after it.
   */
  lemma FileSectionAt(root: string, files: seq<string>, j: nat, read: (Reader, string) -> string)
    requires j < |files|
    ensures FilesText(root, files, read)
         == FilesText(root, files[..j], read) + Section(files[j], FileContent(root, files[j], read))
            + FilesText(root, files[j + 1..], read)
  {
    var parts := Sections(root, files, read);
    ConcatAt(parts, j);
    SectionsTake(root, files, j, read);
    SectionsDrop(root, files, j + 1, read);
  }

  /** The text of the first `j` files of a directory is a prefix of the text of all of them. */
  lemma FilesTextPrefix(root: string, files: seq<string>, j: nat, read: (Reader, string) -> string)
    requires j <= |files|
    ensures FilesText(root, files[..j], read) <= FilesText(root, files, read)
  {
    var parts := Sections(root, files, read);
    ConcatPrefix(parts, j);
    SectionsTake(root, files, j, read);
  }

  /** A file whose reader returned its error message keeps its section: errors are reported, not dropped. */
  lemma ReadErrorKept(file: string, r: Reader, filepath: string, message: string)
    ensures Section(file, ReadError(r, filepath, message))
         == "\n--- File: " + file + " ---\n" + ReadError(r, filepath, message) + "\n"
  {
    var e := ReadError(r, filepath, message);
    assert e != "" by {
      assert |e| > 0;
    }
  }

  /** The files of a directory contribute nothing exactly when every one of them reads to empty content. */
  lemma FilesTextEmpty(root: string, files: seq<string>, read: (Reader, string) -> string)
    ensures FilesText(root, files, read) == ""
        <==> forall j :: 0 <= j < |files| ==> FileContent(root, files[j], read) == ""
  {
    var parts := Sections(root, files, read);
    ConcatEmpty(parts);
    forall j | 0 <= j < |files| ensures parts[j] == "" <==> FileContent(root, files[j], read) == "" {
      SectionEmpty(files[j], FileContent(root, files[j], read));
    }
  }

  lemma SectionEmpty(file: string, content: string)
    ensures Section(file, content) == "" <==> content == ""
  {
    if content != "" {
      assert |Section(file, content)| > 0;
    }
  }

  /**
   * An existing base path whose walk finds no file with content, an empty
   * tree included, gives the empty string.
   */
  lemma {:induction false} WalkTextEmpty(steps: seq<WalkStep>, read: (Reader, string) -> string)
    ensures WalkText(steps, read) == ""
        <==> forall i :: 0 <= i < |steps| ==> FilesText(steps[i].root, steps[i].files, read) == ""
    decreases |steps|
  {
    if |steps| > 0 {
      var n := |steps| - 1;
      var pre := steps[..n];
      WalkTextEmpty(pre, read);
      if forall i :: 0 <= i < |steps| ==> FilesText(steps[i].root, steps[i].files, read) == "" {
        forall i | 0 <= i < |pre| ensures FilesText(pre[i].root, pre[i].files, read) == "" {
          assert pre[i] == steps[i];
        }
      }
      if forall i :: 0 <= i < |pre| ==> FilesText(pre[i].root, pre[i].files, read) == "" {
        if FilesText(steps[n].root, steps[n].files, read) == "" {
          forall i | 0 <= i < |steps| ensures FilesText(steps[i].root, steps[i].files, read) == "" {
            if i < n { assert steps[i] == pre[i]; } else { assert i == n; }
          }
        }
      }
    }
  }

  /** A name whose last dot is at `k` (`-1` for none) has the lower-cased text after it as extension. */
  lemma ExtensionAfter(file: string, k: int)
    requires -1 <= k < |file|
    requires k >= 0 ==> file[k] == '.'
    requires forall j :: k < j < |file| ==> file[j] != '.'
    ensures Extension(file) == Lower(file[k + 1..])
  {
    var r := LastIndexOf(file, '.');
    if r < k {
      assert false;
    }
  }

  /** Case is folded before dispatch. */
  lemma UpperCaseExtension()
    ensures Extension("Report.PDF") == "pdf" && Dispatch(Extension("Report.PDF")) == Some(Pdf)
  {
    var f := "Report.PDF";
    ExtensionAfter(f, 6);
    assert f[7..] == "PDF";
    DispatchRules("pdf");
  }

  /** Only the last dot counts: a `.tar.gz` archive has extension `gz` and is skipped. */
  lemma LastDotExtension()
    ensures Extension("data.tar.gz") == "gz" && Dispatch(Extension("data.tar.gz")) == None
  {
    var f := "data.tar.gz";
    ExtensionAfter(f, 8);
    assert f[9..] == "gz";
    DispatchRules("gz");
  }

  /** A dot-free name is its own extension. */
  lemma DotFreeExtension()
    ensures Extension("docx") == "docx" && Dispatch(Extension("docx")) == Some(Word)
  {
    var f := "docx";
    ExtensionAfter(f, -1);
    assert f[0..] == f;
    DispatchRules("docx");
  }

  /** The body of the loop over files: pick the reader by extension and call it on the joined path. */
  method ReadByExtension(root: string, file: string, read: (Reader, string) -> string) returns (content: string)
    ensures content == FileContent(root, file, read)
  {
    var filePath := PathJoin(root, file);
    var ext := Extension(file);
    content := "";
    if ext == "xlsx" || ext == "xls" {
      content := read(Excel, filePath);
    } else if ext == "pdf" {
      content := read(Pdf, filePath);
    } else if ext == "docx" || ext == "doc" {
      content := read(Word, filePath);
    } else if ext == "txt" {
      content := read(PlainText, filePath);
    }
    DispatchRules(ext);
  }

  /** The loop over the files of one walk step, appending a section per file with content. */
  method AppendSections(contextText: string, root: string, files: seq<string>, read: (Reader, string) -> string)
    returns (updated: string)
    ensures updated == contextText + FilesText(root, files, read)
  {
    updated := contextText;
    var j := 0;
    while j < |files|
      invariant 0 <= j <= |files|
      invariant updated == contextText + FilesText(root, files[..j], read)
    {
      updated := AppendFile(contextText, updated, root, files, j, read);
      j := j + 1;
    }
    assert files[..j] == files;
  }

  /** One turn of the loop over files: read `files[j]` and append its section when it has content. */
  method AppendFile(contextText: string, updated: string, root: string, files: seq<string>, j: nat,
                    read: (Reader, string) -> string)
    returns (next: string)
    requires j < |files| && updated == contextText + FilesText(root, files[..j], read)
    ensures next == contextText + FilesText(root, files[..j + 1], read)
  {
    var file := files[j];
    var content := ReadByExtension(root, file, read);
    AppendSectionStep(contextText, updated, root, files, j, read);
    next := updated;
    if content != "" {
      next := updated + ("\n--- File: " + file + " ---\n" + content + "\n");
    }
  }

  /** `get_knowledge_base_content`. */
  method KnowledgeBaseContent(walk: Option<seq<WalkStep>>, read: (Reader, string) -> string)
    returns (contextText: string)
    ensures contextText == KnowledgeBase(walk, read)
  {
    contextText := "";
    if walk.None? {
      return "No knowledge base found.";
    }
    var steps := walk.value;
    var s := 0;
    while s < |steps|
      invariant 0 <= s <= |steps|
      invariant contextText == WalkText(steps[..s], read)
    {
      contextText := AppendSections(contextText, steps[s].root, steps[s].files, read);
      assert steps[..s + 1][..s] == steps[..s];
      s := s + 1;
    }
    assert steps[..s] == steps;
  }
}
