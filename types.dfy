/** Values shared by the MeSH tree model: the tree node record, the errors the
    tree raises and the wrappers that carry them. */
module MeshTypes {

  datatype Option<+T> = None | Some(value: T)

  /** The exceptions the tree's operations can raise. */
  datatype Error =
    | KeyError(key: string)                // a raw lookup in the backing dictionary failed
    | TermNotInTree(term: string)          // a term lookup through the tree failed
    | PositionNotInTree(position: string)  // a reverse lookup of a tree position failed
    | EmptyList                            // max() over an empty list of terms

  datatype Result<+T> = Ok(value: T) | Err(error: Error)

  /** The stored record of one MeSH term, seen only through the fields the
      tree uses: its dotted tree positions, the subtrees it belongs to, its
      qualifier and descriptor flags, its synonyms and its deepest depth. */
  datatype Node = Node(
    positions: seq<string>,
    trees: set<string>,
    isQualifier: bool,
    isDescriptor: bool,
    synonyms: seq<string>,
    depth: int)
}
