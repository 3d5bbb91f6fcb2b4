/** The values that flow through the tree normalizer: one entry of the
    recursive git-tree listing, and one node of the tree widget's model. */
module Model {

  datatype Option<T> = None | Some(value: T)

  /** One item of `tree` in the git-tree listing. `kind` is the item's
      `type` field ("blob", "tree", "commit", ...). */
  datatype Entry = Entry(path: string, kind: string, sha: string)

  /** The widget's node model. `parent == None` stands for the `undefined`
      that a failed dictionary lookup yields. */
  datatype Node = Node(id: string, parent: Option<string>, droppable: bool, text: string)

  /** A directory entry: its path becomes a possible parent. */
  predicate IsTree(e: Entry) {
    e.kind == "tree"
  }
}
