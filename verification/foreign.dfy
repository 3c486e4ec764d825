/** Library routines the server calls but whose code is not part of this model. */
module Foreign {
  import opened Wrappers
  import opened Values

  datatype Routines = Routines(
    /** `url.QueryEscape`: a string made safe for a URL query component. */
    queryEscape: string -> string,
    /** `url.QueryUnescape`: the decoded text, or the message of the decoding error. */
    queryUnescape: string -> Result<string, string>,
    /** `fmt.Sprintf("%f", v)`: fixed-point text with six decimals. */
    formatFixed: Float64 -> string)

  /**
   * `url.QueryEscape` percent-encodes control characters, so its output never holds a
   * newline; the line counts of the text format rest on this.
   */
  ghost predicate EscapeKeepsLines(lib: Routines)
  {
    forall k :: '\n' !in lib.queryEscape(k)
  }

  /** `url.QueryEscape` writes `/` as `%2F`, so its output never holds a slash. */
  ghost predicate EscapeHasNoSlash(lib: Routines)
  {
    forall k :: '/' !in lib.queryEscape(k)
  }
}
