/** The part of a parsed `.docx` (python-docx `Document`) the backend reads. */
module Docx {

  /**
   * The text of each body paragraph in document order, and each table as
   * its rows, each row as the text of its cells.
   */
  datatype Document = Document(paragraphs: seq<string>, tables: seq<seq<seq<string>>>)
}
