/** What the importer learns from one `gh` invocation. The process itself
    (scripts/gh-import-issues.py:49-63) is outside the model; its outcome is
    an input. */
module Gh {

  /** A `gh` call either prints a reply that decodes to the expected value,
      exits non-zero with `stderr`, or prints something the script cannot
      use (undecodable JSON, a missing member), which raises an exception
      whose text is `text`. */
  datatype Reply<T> =
    | Replied(value: T)
    | CommandFailed(stderr: string)
    | BadReply(text: string)
}
