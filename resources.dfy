/** The entities held by the workspace: ASM class nodes and the file containers
    that the importer creates for every opened artifact. */
module Resources {

  /** A Java `byte`: signed, eight bits. */
  newtype byte = x: int | -128 <= x < 128

  /** An ASM `ClassNode` as the workspace sees it. `ClassNode` does not override
      `equals`, so lists compare nodes by reference; `id` stands for that
      reference and `name` is the internal class name (`a/b/C`). Two node values
      are equal exactly when they are the same object. */
  datatype ClassNode = ClassNode(id: nat, name: string)

  /** A `FileContainer`: one opened artifact, with its display name, the class
      nodes parsed from it in load order, and its other entries keyed by path. */
  datatype FileContainer = FileContainer(
    name: string,
    classes: seq<ClassNode>,
    files: map<string, seq<byte>>)
}
