/** The schema side of the tree: one schema fragment with its position, fixed once built. */
module TreeRefs {
  import opened Wrappers
  import opened JsonValue

  /**
   * A schema fragment (`node`), the schema ref it was reached from (`parent`, none
   * at the schema root), the index it sits at there (`nodeindex`, none at the root)
   * and its display name (`nodename`).  A datatype value: nothing changes it.
   */
  datatype TreeRef = TreeRef(node: Json, parent: Option<TreeRef>, nodeindex: Option<Key>, nodename: Key)
}
