/** The files that the release script rewrites, and how a rewrite ends. */
module TextFiles {

  /** The exceptions the script raises. */
  datatype Failure = MissingKey(key: string) | ImbalancedTags(beginTag: string, endTag: string)

  datatype Outcome = Rewritten(content: string) | Failed(failure: Failure)

  class TextFile {
    var content: string

    constructor (content: string)
      ensures this.content == content
    {
      this.content := content;
    }
  }
}
