/** What the comparator receives from code outside it: the outcome of each
    HTTP fetch, the edit scripts of the text-diff library, and the foreign
    libraries it calls, which this model leaves uninterpreted. */
module Collaborators {
  import opened Wrappers

  newtype byte = b: int | 0 <= b < 256

  /** An HTTP response: its status line ("200 OK") and what draining its
      body stream yields, the bytes or the read error's message. */
  datatype Response = Response(status: string, body: Result<seq<byte>, string>)

  /** The outcome of one `http.Get`: a response, or the error's message. */
  datatype Fetch = Ok(resp: Response) | Err(msg: string)

  /** diffmatchpatch.Operation */
  datatype Operation = DiffDelete | DiffInsert | DiffEqual

  /** diffmatchpatch.Diff: one step of an edit script. */
  datatype Edit = Edit(kind: Operation, text: string)

  /** The foreign library calls, as functions of their arguments.  `Doc`
      stands for a parsed goquery document and `Delta` for a gojsondiff
      diff; the model never looks inside either. */
  datatype Libraries<!Doc, !Delta> = Libraries(
    /** DiffMatchPatch.DiffMain(a, b, checklines) */
    diffMain: (string, string, bool) -> seq<Edit>,
    /** DiffMatchPatch.DiffCleanupSemantic(edits) */
    cleanupSemantic: seq<Edit> -> seq<Edit>,
    /** gojsondiff Differ.Compare(aBody, bBody) */
    jsonCompare: (seq<byte>, seq<byte>) -> Result<Delta, string>,
    /** the ASCII formatter built from A's decoded body, applied to a diff */
    formatAscii: (seq<byte>, Delta) -> Result<string, string>,
    /** goquery.NewDocumentFromResponse(resp) */
    parseHtml: Response -> Result<Doc, string>,
    /** doc.Find(selector).Text() */
    findText: (Doc, string) -> string)
}
