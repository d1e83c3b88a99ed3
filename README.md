# Contract-template backend core in Dafny

This is a model of the three parts of the contract-template backend that
do real work:

- **Placeholder analysis.** `analyze_document` finds the `{{ vN }}`
  placeholders in a Word template and returns one record per
  lower-cased id. Each record holds the id, the tag as written, its
  context and its kind (table row or paragraph). The records are
  ordered by the number in the id.
- **Document generation.** `generate_document` builds the template and
  output paths and creates the output directory. It refuses a missing
  template. It expands every answer key `vN`/`VN` into six aliases, then
  renders and saves under a timestamped name.
- **Knowledge-base extraction.** The readers (`read_excel`, `read_pdf`,
  `read_word`, `read_text`) and `get_knowledge_base_content` walk a
  directory tree, dispatch each file on its lower-cased last-dot
  extension, and append a headed section for every file with content.

The modules follow the program's structure:

| module | file | models |
|---|---|---|
| `Wrappers` | `wrappers.dfy` | `Option` and `Result` |
| `Text` | `text.dfy` | `str.isspace`, `strip`, `lower`, `join`, `split`, `isdigit`, a base-10 value, zero padding, the last index of a character |
| `Paths` | `paths.dfy` | POSIX `os.path.join`, `os.path.splitext` |
| `Docx` | `docx.dfy` | the parsed Word document: paragraph texts, and tables as rows of cell texts |
| `TagScanner` | `tag_scanner.dfy` | the regular expression `\{\{\s*(v\d+)\s*\}\}` (case-insensitive) and `findall`, as a scanner |
| `Registry` | `registry.dfy` | the `variables` dict: records keyed by id, in insertion order |
| `VarSort` | `var_sort.dfy` | `get_v_num` and the stable `sorted(..., key=get_v_num)` |
| `Analyzer` | `analyzer.dfy` | `analyze_document`: the nested loops as methods, proved equal to a functional specification |
| `AnalyzerProperties` | `analyzer_properties.dfy` | what the result of `analyze_document` is, in terms of the document |
| `KeyExpansion` | `key_expansion.dfy` | the key-expansion loop of `generate_document` |
| `OutputName` | `output_name.dfy` | the `%Y%m%d_%H%M%S` timestamp and the output file name |
| `Generator` | `generator.dfy` | `generate_document`, with its effects on the outside world as a returned list |
| `FileUtils` | `file_utils.dfy` | the four readers and `get_knowledge_base_content` |

Each loop of the source is a `method` with a `while` loop and the
invariants it needs. Each method is proved equal to a specification
function, and the lemmas state the properties of those functions.

The libraries the code calls are replaced by inputs:

- python-docx: the `Document` value;
- pypdf: the list of page texts, or the exception message;
- pandas: the CSV text, or the exception message;
- `open`: the contents, or the exception message;
- `os.walk`: the sequence of `(root, files)` steps;
- `os.path.exists` in `generate_document`: a set of existing paths;
- `os.path.exists` in `get_knowledge_base_content`: the walk argument is an `Option`, and `None` stands for a missing base path;
- `datetime.now()`: a `DateTime` value;
- the template engine and `os.makedirs`: the effects `MakeDirs`, `LoadTemplate`, `Render` and `Save`, and for each of them an `Outcome` parameter saying whether it returns or raises.

Three behaviours of the code are worth stating plainly:

- **Tables.** A table id that occurs more than once takes the record of
  its *last* occurrence. Line 37 of `analyzer.py` assigns
  unconditionally, so later cells overwrite earlier ones.
- **Aliases.** Generated aliases overwrite caller-supplied keys of the
  same name (lines 42-47 of `generator.py` assign unconditionally). When
  several keys share a suffix, the last one in iteration order wins.
- **Key count.** The single answer `{"v7": ...}` expands to seven keys:
  the key itself plus six aliases.

## Model

| member | source | states |
|---|---|---|
| Text.Lower | backend/analyzer.py:34 | `str.lower` on ASCII: same length, each letter folded, digits and `.` unchanged |
| Text.StripSpec | backend/analyzer.py:19 | `strip()` returns a contiguous slice with only whitespace around it, and a non-empty result neither starts nor ends with whitespace |
| Text.StripEmptyIff | backend/file_utils.py:30 | `s.strip()` is empty exactly when every character of `s` is whitespace |
| Text.TrimEndSpec | backend/analyzer.py:19 | trimming the end leaves a prefix followed only by whitespace, and the prefix does not end in whitespace |
| Text.SplitJoin | backend/file_utils.py:38 | splitting a `"\n".join` of newline-free lines at `\n` gives the lines back |
| Text.PadValue | backend/generator.py:53 | a zero-padded field of width `w` reads back as the number written, when it fits in `w` digits |
| Text.LastIndexOf | backend/file_utils.py:59 | the index of the last occurrence of a character, or -1; no later index holds it |
| Paths.SplitextSpec | backend/generator.py:55 | `os.path.splitext`: root + extension is the name; the extension is non-empty exactly when the name has an extension dot, and it starts at that dot |
| TagScanner.MatchAtSound | backend/analyzer.py:15 | every match the scanner reports is a well-formed `{{ ws v<digits> ws }}` placeholder at that position, and the match ends after it |
| TagScanner.MatchAtComplete | backend/analyzer.py:15 | every well-formed placeholder at a position is matched there, with its captured group and its end |
| TagScanner.FindAllShape | backend/analyzer.py:31 | every group `findall` returns is `v` or `V` followed by one or more digits |
| TagScanner.FindAllEmptyIff | backend/analyzer.py:31 | `findall` from `i` returns nothing exactly when no position from `i` on starts a placeholder |
| TagScanner.NoTagNoCapture | backend/analyzer.py:31 | a text holding no placeholder yields no captures |
| TagScanner.FindAllLeftmost | backend/analyzer.py:31 | the leftmost placeholder is reported first, and the scan resumes right after it (non-overlapping matches) |
| TagScanner.SingleTag | backend/analyzer.py:15 | a text that is one placeholder `{{ V12 }}`-style yields exactly its captured group, case kept |
| Registry.Values | backend/analyzer.py:65 | `variables.values()` lists the records in insertion order, one per key |
| Registry.AssignAllKeys | backend/analyzer.py:37 | after the table assignments, an id is a key exactly when it was a key before or occurs in the table matches |
| Registry.AssignAllLast | backend/analyzer.py:37 | after unconditional assignment, an id maps to the record of its last occurrence |
| Registry.AssignAbsentKeys | backend/analyzer.py:50-51 | after the guarded paragraph assignments, an id is a key exactly when it was a key before or occurs in the paragraph matches |
| Registry.AssignAbsentKeeps | backend/analyzer.py:50 | the `not in` guard never replaces an existing record |
| Registry.AssignAbsentFirst | backend/analyzer.py:50-56 | a new id from the paragraphs maps to the record of its first occurrence |
| Registry.AssignAllOrder | backend/analyzer.py:37 | the key order after assignment is the old order extended by each new id at its first occurrence |
| Registry.AssignAbsentOrder | backend/analyzer.py:50-51 | the same for the guarded assignments |
| Registry.AssignAllAppend | backend/analyzer.py:22-42 | assigning two runs of records is the same as assigning their concatenation |
| Registry.AssignAbsentAppend | backend/analyzer.py:45-56 | the same for the guarded assignments |
| Registry.ValuesMembers | backend/analyzer.py:65 | a record is among the values exactly when it is the record stored under its own id |
| Registry.ValuesDistinct | backend/analyzer.py:65 | the values carry pairwise distinct ids |
| Registry.FirstIdIndexAppend | backend/analyzer.py:45-56 | the first occurrence of an id in a concatenation is in the first part if it is there, otherwise shifted from the second |
| VarSort.NextDigit | backend/analyzer.py:61 | `re.search(r'\d+')` starts at the first digit at or after `i`; nothing before it is a digit |
| VarSort.VNumOfId | backend/analyzer.py:59-63 | the sort key of `v` followed by digits is the value of those digits, or 9999 when there are more than 4300 of them and `int` raises |
| VarSort.VNumNoDigits | backend/analyzer.py:62-63 | an id with no digit has sort key 9999 |
| VarSort.SortByVNumSpec | backend/analyzer.py:65 | `sorted` returns the records non-decreasing by key, a permutation of its input, and stable: for every key the records with that key keep their input order |
| VarSort.SortByVNumMembers | backend/analyzer.py:65 | sorting neither adds nor drops a record |
| VarSort.InsertSorted | backend/analyzer.py:65 | inserting one record into a sorted list keeps it sorted |
| VarSort.InsertWithKey | backend/analyzer.py:65 | insertion places the new record before all old records with the same key, keeping their order |
| Analyzer.ReplaceNbsp | backend/analyzer.py:19 | after `replace('\xa0', ' ')` each no-break space has become a space and none is left, every other character is unchanged in place, and each position is whitespace exactly when it was before |
| Analyzer.AssignCellMatches | backend/analyzer.py:32-42 | the match loop of one cell assigns its records, later ones overwriting earlier ones |
| Analyzer.AssignRow | backend/analyzer.py:29-42 | the cell loop of one row assigns the records of every cell, in cell order, all with the row's context |
| Analyzer.AssignTable | backend/analyzer.py:23-42 | the row loop of one table assigns the records of every row, in row order |
| Analyzer.AssignTables | backend/analyzer.py:22-42 | the table pass assigns the records of every table, table by table |
| Analyzer.AssignParagraphMatches | backend/analyzer.py:48-56 | the match loop of one paragraph adds only ids not yet present |
| Analyzer.AssignParagraphs | backend/analyzer.py:45-56 | the paragraph pass adds the records of every paragraph, first occurrence first, and never replaces one |
| Analyzer.AnalyzeDocument | backend/analyzer.py:5-66 | `analyze_document` returns the table pass, then the paragraph pass, sorted by `get_v_num` |
| AnalyzerProperties.RecordsMembers | backend/analyzer.py:32-42 | every record built from a text's matches has the given kind and context, a tag that is one of the matches, and that tag lower-cased as its id |
| AnalyzerProperties.RecordsHasId | backend/analyzer.py:30-34 | a cell or paragraph yields a record with id `k` exactly when `k` is the lower-cased group of a placeholder in its cleaned text |
| AnalyzerProperties.CellsOccsHasId | backend/analyzer.py:29-34 | a row yields id `k` exactly when one of its cells does |
| AnalyzerProperties.RowsOccsHasId | backend/analyzer.py:23-34 | a table yields id `k` exactly when one of its rows does |
| AnalyzerProperties.TablesOccsHasId | backend/analyzer.py:22-34 | the tables yield id `k` exactly when one of them does |
| AnalyzerProperties.ParasOccsHasId | backend/analyzer.py:45-49 | the paragraphs yield id `k` exactly when one of them does |
| AnalyzerProperties.CellsOccsMembers | backend/analyzer.py:29-42 | every table record has kind `table_row`, the row's context, an id that is its lower-cased tag, and a tag found in a cell |
| AnalyzerProperties.RowsOccsMembers | backend/analyzer.py:23-42 | every table record comes from a row: its context is that row's context and its tag occurs in one of its cells |
| AnalyzerProperties.TablesOccsMembers | backend/analyzer.py:22-42 | every table record comes from a row of some table |
| AnalyzerProperties.ParasOccsMembers | backend/analyzer.py:45-56 | every paragraph record has kind `paragraph`, the cleaned paragraph text as context, and a tag found in that text |
| AnalyzerProperties.AnalyzeRecord | backend/analyzer.py:65 | every returned record is the dict's record for its id |
| AnalyzerProperties.RegistryRecordReported | backend/analyzer.py:65 | every record in the dict is returned |
| AnalyzerProperties.RegistryKeys | backend/analyzer.py:22-56 | the dict has key `k` exactly when `k` occurs in a table cell or in a paragraph |
| AnalyzerProperties.AnalyzeReportsOccurringIds | backend/analyzer.py:5-66 | an id is returned exactly when it occurs somewhere in the document |
| AnalyzerProperties.AnalyzeTableRecord | backend/analyzer.py:22-42 | an id occurring in a table is returned once, with the record of its last table occurrence |
| AnalyzerProperties.AnalyzeParagraphRecord | backend/analyzer.py:45-56 | an id occurring only in paragraphs is returned once, with the record of its first paragraph occurrence |
| AnalyzerProperties.AnalyzeFirstParagraph | backend/analyzer.py:50-56 | that record is the first match for the id in the first paragraph mentioning it |
| AnalyzerProperties.FirstParagraphIndex | backend/analyzer.py:45-50 | the first paragraph that mentions `k`, or -1 exactly when none does |
| AnalyzerProperties.ParasOccsFirst | backend/analyzer.py:45-56 | the first paragraph record for `k` comes from the first paragraph mentioning `k` |
| AnalyzerProperties.AnalyzeRecordOrigin | backend/analyzer.py:22-56 | every returned record comes from a table row or a paragraph of the document |
| AnalyzerProperties.AnalyzeRecordShape | backend/analyzer.py:34 | every returned id is `v` followed by the digits of its tag, and its sort key is their value, or 9999 past 4300 digits |
| AnalyzerProperties.AnalyzeTagShape | backend/analyzer.py:15 | every returned tag matches `[vV]\d+`, and its id is the tag lower-cased |
| AnalyzerProperties.LoweredTagKey | backend/analyzer.py:59-63 | the sort key of a lower-cased tag is the value of its digits, or 9999 past 4300 digits |
| AnalyzerProperties.AnalyzeIdsUnique | backend/analyzer.py:65 | no id is returned twice |
| AnalyzerProperties.AnalyzeOrder | backend/analyzer.py:65 | the result is sorted by key and a permutation of the dict's values; ties keep dict order; dict order is first occurrence over tables and then paragraphs |
| AnalyzerProperties.RegistryOrder | backend/analyzer.py:22-56 | the dict's key order is first occurrence over the table records and then the paragraph records |
| AnalyzerProperties.CleanTextBlank | backend/analyzer.py:18-19 | `clean_text` is empty exactly when `strip` is |
| AnalyzerProperties.RowCellsEmpty | backend/analyzer.py:25 | the list of non-blank cells is empty exactly when every cell is blank |
| AnalyzerProperties.RowCellsNonEmpty | backend/analyzer.py:25 | no entry of that list is empty |
| AnalyzerProperties.RowContextEmpty | backend/analyzer.py:25-26 | the row context is empty exactly when every cell of the row is blank |
| KeyExpansion.ExpandKeys | backend/generator.py:34-47 | the expansion loop builds the expanded context from a copy of the answers |
| KeyExpansion.AliasSplit | backend/generator.py:42-47 | each alias is its digit suffix with a non-digit, non-`v` prefix |
| KeyExpansion.AliasSuffixUnique | backend/generator.py:42-47 | one alias string belongs to only one suffix |
| KeyExpansion.ToMapKeys | backend/generator.py:34 | the copied dict has exactly the caller's keys |
| KeyExpansion.ToMapValue | backend/generator.py:34 | the copied dict maps every caller key to its value |
| KeyExpansion.ExpandedKeys | backend/generator.py:34-47 | a key is in the expanded context exactly when the caller gave it or it is an alias of an expandable key |
| KeyExpansion.ExpandFromKeys | backend/generator.py:36-47 | the keys after the loop: the starting keys plus the aliases of the expandable keys |
| KeyExpansion.ExpandFromAlias | backend/generator.py:36-47 | every alias of an expandable key is present with the value of the last key with that suffix |
| KeyExpansion.AliasTakesLastValue | backend/generator.py:38-47 | for an expandable key with suffix `N`, all six aliases `V`, `ref`, `Ref`, `REF`, `q`, `Q` + `N` are present and carry the value of the last key with suffix `N` in iteration order |
| KeyExpansion.ExpandFromKeeps | backend/generator.py:36-47 | a key that no expandable key generates keeps its starting value |
| KeyExpansion.CallerKeyKept | backend/generator.py:34-47 | a caller key that is not overwritten by an alias keeps its value |
| KeyExpansion.LowercaseVKeyKept | backend/generator.py:34-47 | a lower-case `v` key is never an alias, so its value always survives |
| KeyExpansion.SingleAnswerExample | backend/generator.py:34-47 | `{"v7": x}` expands to exactly the seven keys `v7`, `V7`, `ref7`, `Ref7`, `REF7`, `q7`, `Q7` |
| KeyExpansion.PlainKeyExample | backend/generator.py:38 | a key that is not `v`/`V` plus digits is passed through alone |
| OutputName.TimestampRoundTrip | backend/generator.py:53 | `%Y%m%d_%H%M%S` of a valid date and time is 15 characters of the documented shape, and parsing it gives the date and time back |
| OutputName.TimestampInjective | backend/generator.py:53 | distinct valid date-times give distinct timestamps |
| OutputName.OutputFilenameShape | backend/generator.py:53-56 | the output name is the template name without its extension, then `_Final_`, a parsable timestamp of `now`, and `.docx` |
| OutputName.OutputFilenameDistinct | backend/generator.py:53-56 | two different valid times give two different output names for the same template |
| Generator.GenerateDocument | backend/generator.py:5-64 | `Template not found at` plus the path is raised exactly when `os.makedirs` returned and the template path does not exist, after only the directory creation; otherwise the calls `os.makedirs`, `DocxTemplate`, `render` (with the expanded answers) and `save` are made in order up to the first that raises, whose exception propagates; the output path is returned exactly when the template exists and every call returns |
| Generator.OutputDirShape | backend/generator.py:19 | the output directory path is non-empty and does not end in `/`, so `os.path.join` puts exactly one `/` between it and a relative file name |
| Generator.OutputPathLocation | backend/generator.py:55-57 | for a relative template name the output path is the output directory, a `/`, and the output file name, which keeps any directory parts of the template name; an absolute template name makes `os.path.join` discard the output directory |
| FileUtils.ReadError | backend/file_utils.py:11-12 | a reader's error result is non-empty and starts with `Error reading ` |
| FileUtils.ReadExcel | backend/file_utils.py:7-12 | `read_excel` returns the CSV text, or an `Error reading ` message if reading raised |
| FileUtils.ReadText | backend/file_utils.py:42-47 | `read_text` returns the file's contents, or an `Error reading ` message if reading raised |
| FileUtils.ReadPdf | backend/file_utils.py:14-22 | the page loop returns each page's text followed by a newline, or the error message |
| FileUtils.PdfTextJoin | backend/file_utils.py:17-20 | for any pages, the PDF text is the pages joined by newlines with one more newline after the last page |
| FileUtils.PdfTextSplit | backend/file_utils.py:17-20 | only for pages with no newline of their own: splitting the PDF text at newlines gives the pages and one empty tail |
| FileUtils.PdfTextEmpty | backend/file_utils.py:17-20 | the PDF text is empty exactly when there are no pages, and has at least one character per page |
| FileUtils.ReadWord | backend/file_utils.py:24-40 | `read_word` returns the lines (non-blank paragraphs, then one per table row) joined by newlines, or the error message |
| FileUtils.AppendParagraphs | backend/file_utils.py:29-31 | the paragraph loop keeps exactly the non-blank paragraphs, unstripped, in order |
| FileUtils.AppendTableRows | backend/file_utils.py:34-36 | the row loop of one table appends one line per row: every cell text joined by a space, a bar and a space |
| FileUtils.NonBlankParagraphsMember | backend/file_utils.py:29-31 | a paragraph is emitted exactly when it is in the document and not blank |
| FileUtils.NonBlankParagraphsKeepsAll | backend/file_utils.py:29-31 | when no paragraph is blank, all of them are emitted, unchanged and in order |
| FileUtils.RowLinesIndex | backend/file_utils.py:33-36 | there is exactly one line per table row, in table order and then row order, at the index counted from the rows before it |
| FileUtils.RowLinesCount | backend/file_utils.py:33-36 | the number of row lines is the total number of rows |
| FileUtils.WordTextSplit | backend/file_utils.py:38 | only for lines with no newline of their own: the joined text splits back into the emitted lines |
| FileUtils.ExtensionSpec | backend/file_utils.py:59 | the extension is the lower-cased dot-free tail of the name, and it is either the whole name or preceded by a dot |
| FileUtils.ExtensionAfter | backend/file_utils.py:59 | the extension is the lower-cased text after the last dot, or the whole name when it has no dot |
| FileUtils.UpperCaseExtension | backend/file_utils.py:59-65 | `Report.PDF` has extension `pdf` and goes to the PDF reader |
| FileUtils.LastDotExtension | backend/file_utils.py:59-69 | `data.tar.gz` has extension `gz` and is read by no reader |
| FileUtils.DotFreeExtension | backend/file_utils.py:59-67 | the dot-free name `docx` is its own extension and goes to the Word reader |
| FileUtils.DispatchRules | backend/file_utils.py:62-69 | `xlsx`/`xls` go to Excel, `pdf` to PDF, `docx`/`doc` to Word, `txt` to text; anything else gets no reader |
| FileUtils.ReadByExtension | backend/file_utils.py:58-69 | the dispatch chain calls the reader the table lists for the extension on the joined path, or leaves the content empty |
| FileUtils.FilesTextSnoc | backend/file_utils.py:57-72 | each file adds its section after the sections of the files before it |
| FileUtils.FileSectionAt | backend/file_utils.py:57-72 | a directory's text is the sections of the files before `files[j]`, then its section, then the sections of the files after it |
| FileUtils.FilesTextPrefix | backend/file_utils.py:57-72 | the text of the first files is a prefix of the text of all of them |
| FileUtils.FilesTextEmpty | backend/file_utils.py:71-72 | a directory contributes nothing exactly when every file in it reads to empty content |
| FileUtils.WalkTextEmpty | backend/file_utils.py:51-74 | the walk gives `""` exactly when no directory in it contributes anything, so an empty tree gives `""` |
| FileUtils.ReadErrorKept | backend/file_utils.py:71-72 | a reader's error message is non-empty content, so its section is kept |
| FileUtils.AppendFile | backend/file_utils.py:58-72 | one turn of the file loop appends that file's section |
| FileUtils.AppendSections | backend/file_utils.py:57-72 | the file loop of one walk step appends the sections of its files, in order |
| FileUtils.KnowledgeBaseContent | backend/file_utils.py:49-74 | a missing base path gives exactly `No knowledge base found.`; otherwise the result is the sections of all walked files, in walk order |

## Left out

- `main.py` and the HTTP layer are not part of this model.
- Parsing Word and PDF files, reading spreadsheets and text files, rendering and saving templates, and `os.makedirs` are foreign libraries or I/O. The readers' results (a value or an exception message) are inputs. The generator's library calls are recorded as effects, and whether each returns or raises is an input.
- `os.walk` is an input: a sequence of `(root, files)` steps. Directory order, the `dirs` list and links are the caller's.
- `os.path.exists` is a set of existing paths for the template check and the `Option` walk argument for the knowledge base. Nothing models the file system changing between calls.
- `datetime.now()` is a `DateTime` parameter. The model needs seconds 0–59: leap seconds and time zones are left out.
- `base_dir`, which is `os.path.dirname(os.path.abspath(__file__))`, is the parameter `baseDir`.
- `Generator.GenerateDocument`: `%Y` is modelled as four zero-padded digits, as in Python's documentation. For years below 1000, glibc's `strftime` writes fewer digits.
- `Analyzer.AnalyzeDocument`: takes the document `Document(file_path)` has already parsed. A file python-docx cannot open or parse raises in the source before any analysis, and that exception is not modelled.
- `VarSort.VNum`: the 4300-digit limit is the default of CPython 3.11 and later; earlier versions convert any length, and a limit changed with `sys.set_int_max_str_digits` is not modelled.
- `Text.Lower`: only ASCII letters are folded, not all of Unicode `str.lower`.
- `Text.IsDigit` and `str.isdigit` (also `\d`) cover the ASCII digits only, not other Unicode decimal digits.
- `FileUtils.ReadPdf`: a page whose `extract_text()` returns `None` is not modelled. That case raises a `TypeError` in the source, which the handler turns into an error message; pages are always strings here.
- The `print` in `generate_document` is console output and does not affect the result.
- Concurrency is not modelled. Nothing in the core shares state between calls.
- `Analyzer.AssignTables`, `Analyzer.AssignParagraphs`, `FileUtils.AppendParagraphs`, `FileUtils.AppendTableRows` and `FileUtils.AppendFile`: each is a method for one nested loop or loop body of the source. They are not separate Python functions.
