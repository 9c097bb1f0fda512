/** Small value wrappers shared by every module of the model. */
module Common {

  /** An optional value: `undefined`/`null` in the program becomes `None`. */
  datatype Option<+T> = None | Some(value: T)

  /**
   * The outcome of fetching and loading a page: either the loaded document
   * (abstracted to the data the program reads from it) or a failure, which
   * stands for every exception the HTTP client or the HTML loader can raise.
   */
  datatype Fetch<+T> = Failed | Page(doc: T)
}
