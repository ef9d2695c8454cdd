/**
  Kythe names and tickets, as far as the file tree needs them.

  A ticket is the string form of a Kythe URI. The string encoding itself is
  not modelled: a ticket is held as the structured URI it encodes. The tree
  only compares tickets for equality, so this is exact under the assumption
  that the encoding is one-to-one.
 */
module KytheUri {

  /** A storage VName: the five fields that name a node. */
  datatype VName = VName(signature: string, corpus: string, root: string, path: string, language: string)

  /** A Kythe URI; its string form is the ticket stored in the tree. */
  datatype URI = URI(signature: string, corpus: string, root: string, path: string, language: string)

  /** `kytheuri.ToString(v)`: the ticket of a VName, carrying every field unchanged. */
  function FromVName(v: VName): (u: URI)
    ensures u.corpus == v.corpus && u.root == v.root && u.path == v.path
    ensures u.signature == v.signature && u.language == v.language
  {
    URI(v.signature, v.corpus, v.root, v.path, v.language)
  }

  /** The ticket `ensureDir` builds for a directory: only corpus, root and path are set. */
  function DirUri(corpus: string, root: string, path: string): (u: URI)
    ensures u.corpus == corpus && u.root == root && u.path == path
    ensures u.signature == "" && u.language == ""
  {
    URI("", corpus, root, path, "")
  }
}
