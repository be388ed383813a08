/** Code outside the modelled core that the core calls. Each foreign function
    is a field of a record passed in by the caller, so the model promises
    nothing about it beyond what its type says. */
module Collaborators {

  /** Node's `path.join`, `minimatch` and the working directory `process.cwd()`. */
  datatype Platform = Platform(
    cwd: string,
    join: (string, string) -> string,
    globMatches: (string, string) -> bool)

  /** The inline-markdown helpers the tree renderer calls:
      `generateLinkFromMarkdownParagraphAndUrl(text, url)` and
      `removeStrongFromMarkdown(paragraph)`. */
  datatype InlineMarkdown = InlineMarkdown(
    link: (string, string) -> string,
    removeStrong: string -> string)
}
