# Bytecode Viewer workspace, in Dafny

Bytecode Viewer keeps every opened artifact (jar, zip, apk, dex or class file)
as a `FileContainer` in one process-wide list, `BytecodeViewer.files`. Each
container has a display name, the ASM `ClassNode`s parsed from it in load
order, and its other entries as a map from path to bytes. The static methods
of `BytecodeViewer` query and update that list. This project models those
workspace operations and proves what they promise:

- `hasResources`
- the global `getClassNode(name)` and the scoped `getClassNode(container, name)`
- `getFileContainer`
- `getFileContents`
- `updateNode`
- `getLoadedClasses`
- the returned value of `promptIfNoLoadedClasses`

Layout:

- `resources.dfy` (module `Resources`) defines the entities:
  - A Java `byte` is a signed 8-bit newtype.
  - A `ClassNode` is a value `(id, name)`. ASM's `ClassNode` does not override `equals`, so the lists compare nodes by reference. Here `id` stands for that reference. Node equality is reference equality only if each `id` carries one name; the model assumes so, though the datatype does not enforce it.
  - A `FileContainer` is a value holding `name`, `classes` and `files`.
- `lists.dfy` (module `Lists`) defines the `java.util.List` behaviour the workspace relies on:
  - `remove(Object)`, which removes the first occurrence only.
  - `IndexOf`, the position of the first occurrence of an element known to be present. It is not `List.indexOf`: it has no `-1` case. It serves to state the order of `Dedup` and of `RemoveFirst`. The `contains` test of `getLoadedClasses` is Dafny's `in`.
  - `Dedup`, the list built by appending each element not yet `contains`-ed.
  - `Dedup`'s characterisation: duplicate-free, the same elements as its input, in first-occurrence order, and the only list with those three properties.
- `bytecode_viewer.dfy` (module `BytecodeViewer`) holds the operations:
  - The read-only lookups are functions of the container list. Each one returns `None` where the Java code returns `null`.
  - The list itself is the field of a `Workspace` object. Its methods `UpdateNode` and `GetLoadedClasses` keep the source's loops. `PromptIfNoLoadedClasses` calls `GetLoadedClasses`, as the source does.
  - `UpdateNode` is proved against the function `UpdateAll`, and `GetLoadedClasses` against `Dedup` of the flattened class list.
- `workspace_properties.dfy` (module `WorkspaceProperties`) relates the operations to each other:
  - The global lookup is the first match in the flattened class list.
  - The global lookup agrees with a search of `getLoadedClasses()`.
  - `updateNode` keeps the resource entries, container lookups and unrelated classes.
  - `updateNode` makes a following lookup by name find the new node under three conditions. No container may hold two classes of one name, `oldNode` must be what the lookup returned, and `newNode` must have the same name. The source does not enforce unique names. `DuplicateNamesHideReplacement` shows that without them the lookup can return another old class.

The global `getClassNode(name)` is written in the source as a nested loop over
containers and then classes. The model scans the containers and, in each,
runs the scoped lookup. `GlobalLookupIsFirstInLoadOrder` proves this equals
the first match in the flattened class list, so the two readings agree.

## Model

Source paths are relative to the repository root.

| member | source | states |
|---|---|---|
| BytecodeViewer.HasResources | src/main/java/the/bytecode/club/bytecodeviewer/BytecodeViewer.java:306-309 | true exactly when at least one container is open; with none open there are no classes |
| BytecodeViewer.FirstNamed | src/main/java/the/bytecode/club/bytecodeviewer/BytecodeViewer.java:386-390 | `None` exactly when no class has the name; otherwise a class with that name at a position before which no class has it |
| BytecodeViewer.GetClassNodeIn | src/main/java/the/bytecode/club/bytecodeviewer/BytecodeViewer.java:384-391 | the scoped lookup reads only the given container: `None` exactly when the container declares no class of that name, otherwise its first class of that name |
| BytecodeViewer.GetClassNode | src/main/java/the/bytecode/club/bytecodeviewer/BytecodeViewer.java:352-360 | a returned class has the requested name; that it is the first match in container and load order is stated by `GetClassNodeNoneIff`, `GetClassNodeSomeIsFirst` and `WorkspaceProperties.GlobalLookupIsFirstInLoadOrder` |
| BytecodeViewer.GetClassNodeNoneIff | src/main/java/the/bytecode/club/bytecodeviewer/BytecodeViewer.java:352-360 | the global lookup returns nothing exactly when the lookup fails in every container |
| BytecodeViewer.GetClassNodeSomeIsFirst | src/main/java/the/bytecode/club/bytecodeviewer/BytecodeViewer.java:352-360 | a class the global lookup returns is the scoped answer of the first container that has a class of that name |
| BytecodeViewer.GetFileContainer | src/main/java/the/bytecode/club/bytecodeviewer/BytecodeViewer.java:365-372 | `None` exactly when no container has the name; otherwise the first container, in list order, that has it |
| BytecodeViewer.GetFileContents | src/main/java/the/bytecode/club/bytecodeviewer/BytecodeViewer.java:399-406 | `None` exactly when no container's entry map has the key; otherwise the bytes under that key in the first container that has it |
| BytecodeViewer.AllClasses | src/main/java/the/bytecode/club/bytecodeviewer/BytecodeViewer.java:438-439 | the nested iteration order over containers and classes; a node is in it exactly when some container holds it |
| BytecodeViewer.AllClassesSnoc | src/main/java/the/bytecode/club/bytecodeviewer/BytecodeViewer.java:438-439 | one more container in the outer loop appends exactly its classes |
| BytecodeViewer.LoadStep | src/main/java/the/bytecode/club/bytecodeviewer/BytecodeViewer.java:439-441 | one inner-loop step appends the class exactly when it is not yet collected |
| BytecodeViewer.LoadedClassesCover | src/main/java/the/bytecode/club/bytecodeviewer/BytecodeViewer.java:434-444 | every class of every container is in the deduplicated list |
| BytecodeViewer.UpdateContainer | src/main/java/the/bytecode/club/bytecodeviewer/BytecodeViewer.java:425-426 | name and entries unchanged; a container without `oldNode` is untouched; otherwise the same length, the first `oldNode` removed from the list, `newNode` last, and the multiset of nodes has `oldNode` swapped for `newNode` |
| BytecodeViewer.UpdateAll | src/main/java/the/bytecode/club/bytecodeviewer/BytecodeViewer.java:424-426 | the container list keeps its length and order, and each container is updated on its own |
| BytecodeViewer.UpdateAllStep | src/main/java/the/bytecode/club/bytecodeviewer/BytecodeViewer.java:424-426 | updating one more container of a partly updated list advances it by one container |
| BytecodeViewer.Workspace.constructor | src/main/java/the/bytecode/club/bytecodeviewer/BytecodeViewer.java:124 | the list starts empty |
| BytecodeViewer.Workspace.UpdateNode | src/main/java/the/bytecode/club/bytecodeviewer/BytecodeViewer.java:422-427 | the new list is `UpdateAll` of the old one: same containers in the same order, each holding `oldNode` with its first occurrence removed and `newNode` appended, the others unchanged |
| BytecodeViewer.Workspace.GetLoadedClasses | src/main/java/the/bytecode/club/bytecodeviewer/BytecodeViewer.java:434-444 | the result is `Dedup` of the flattened classes. It has no duplicate nodes, contains every class of every container and only those, lists nodes in first-occurrence order, and is no longer than the total class count |
| BytecodeViewer.Workspace.PromptIfNoLoadedClasses | src/main/java/the/bytecode/club/bytecodeviewer/BytecodeViewer.java:586-595 | true exactly when every container's class list is empty, that is, when no class is loaded |
| Lists.IndexOf | src/main/java/the/bytecode/club/bytecodeviewer/BytecodeViewer.java:440 | for an element known to be present, the position of its first occurrence: it holds the element and no earlier position does; the order promises of `getLoadedClasses` and `remove` are stated with it |
| Lists.RemoveFirst | src/main/java/the/bytecode/club/bytecodeviewer/BytecodeViewer.java:425 | `List.remove` leaves the list alone when the node is absent, and otherwise makes it one element shorter |
| Lists.RemoveFirstMultiset | src/main/java/the/bytecode/club/bytecodeviewer/BytecodeViewer.java:425 | exactly one occurrence of the node is taken away, if there is one |
| Lists.RemoveFirstAt | src/main/java/the/bytecode/club/bytecodeviewer/BytecodeViewer.java:425 | the elements before the removed one stay put and the later ones shift down by one, so the others keep their relative order |
| Lists.RemoveFirstKeepsOthers | src/main/java/the/bytecode/club/bytecodeviewer/BytecodeViewer.java:425 | any other node is in the list after the removal exactly when it was before |
| Lists.RemoveFirstFromDistinct | src/main/java/the/bytecode/club/bytecodeviewer/BytecodeViewer.java:425 | in a duplicate-free list the removed node is gone and the list stays duplicate-free |
| Lists.Dedup | src/main/java/the/bytecode/club/bytecodeviewer/BytecodeViewer.java:436-441 | the collected list has no duplicates, holds only input nodes and every input node, and is no longer than the input |
| Lists.DedupSnoc | src/main/java/the/bytecode/club/bytecodeviewer/BytecodeViewer.java:440-441 | a node seen next is appended exactly when it is not already collected |
| Lists.DedupKeepsFirstOccurrenceOrder | src/main/java/the/bytecode/club/bytecodeviewer/BytecodeViewer.java:436-441 | collected nodes are ordered by their first occurrence in the input |
| Lists.DedupUnique | src/main/java/the/bytecode/club/bytecodeviewer/BytecodeViewer.java:434-444 | any duplicate-free list with exactly the input's nodes in first-occurrence order is the collected list |
| WorkspaceProperties.FirstNamedAppend | src/main/java/the/bytecode/club/bytecodeviewer/BytecodeViewer.java:354-357 | searching two lists in a row finds a match in the first before looking at the second |
| WorkspaceProperties.GlobalLookupIsFirstInLoadOrder | src/main/java/the/bytecode/club/bytecodeviewer/BytecodeViewer.java:352-360 | the global lookup returns the first class of that name in the flattened list of all containers' classes |
| WorkspaceProperties.FirstNamedDedup | src/main/java/the/bytecode/club/bytecodeviewer/BytecodeViewer.java:434-444 | dropping later duplicates does not change which node a first-match search by name finds |
| WorkspaceProperties.GlobalLookupMatchesLoadedClasses | src/main/java/the/bytecode/club/bytecodeviewer/BytecodeViewer.java:352-360 | the global lookup finds the same node as a search of the list `getLoadedClasses()` returns |
| WorkspaceProperties.NoResourcesNothingFound | src/main/java/the/bytecode/club/bytecodeviewer/BytecodeViewer.java:306-309 | with no container open, the class, container and entry lookups find nothing and no class is loaded |
| WorkspaceProperties.UpdateNodeAbsentIsNoOp | src/main/java/the/bytecode/club/bytecodeviewer/BytecodeViewer.java:422-427 | when no container holds `oldNode`, the update changes nothing |
| WorkspaceProperties.UpdateAllTail | src/main/java/the/bytecode/club/bytecodeviewer/BytecodeViewer.java:424-426 | updating and then dropping the first container is the same as dropping it and then updating |
| WorkspaceProperties.UpdateNodeKeepsFileContents | src/main/java/the/bytecode/club/bytecodeviewer/BytecodeViewer.java:422-427 | every entry lookup answers the same after the update |
| WorkspaceProperties.UpdateNodeKeepsContainerLookup | src/main/java/the/bytecode/club/bytecodeviewer/BytecodeViewer.java:422-427 | a container lookup by name finds the same container, with the update applied to it |
| WorkspaceProperties.UpdateNodeKeepsOtherClasses | src/main/java/the/bytecode/club/bytecodeviewer/BytecodeViewer.java:422-427 | any node other than `oldNode` and `newNode` is loaded after the update exactly when it was before |
| WorkspaceProperties.UpdateNodeReplaces | src/main/java/the/bytecode/club/bytecodeviewer/BytecodeViewer.java:422-427 | when no container holds a node twice, `oldNode` is gone afterwards, and `newNode` is loaded whenever `oldNode` was |
| WorkspaceProperties.RemoveOnlyNamed | src/main/java/the/bytecode/club/bytecodeviewer/BytecodeViewer.java:425 | in a container without duplicate names, removing a node leaves no class of its name |
| WorkspaceProperties.UpdateContainerThenLookupFindsNew | src/main/java/the/bytecode/club/bytecodeviewer/BytecodeViewer.java:384-391 | replacing the node a scoped lookup found with a same-named node makes the scoped lookup find the new node |
| WorkspaceProperties.UpdateNodeThenFirstInLoadOrderIsNew | src/main/java/the/bytecode/club/bytecodeviewer/BytecodeViewer.java:422-427 | after the replacement, the first class of that name in load order is the new node |
| WorkspaceProperties.UpdateNodeThenLookupFindsNew | src/main/java/the/bytecode/club/bytecodeviewer/BytecodeViewer.java:352-360 | when no container has two classes of one name, replacing the node `getClassNode(name)` returned with a same-named node makes `getClassNode(name)` return the new node |
| WorkspaceProperties.DuplicateNamesHideReplacement | src/main/java/the/bytecode/club/bytecodeviewer/BytecodeViewer.java:422-427 | a container with two classes called "A": after `updateNode` replaces the first by a new "A", `getClassNode("A")` returns the second old class, so the unique-names condition above is needed |

## Left out

- `main` and `boot`: startup, look and feel, the security manager, threads, the shutdown hook and settings I/O. All of it is process and GUI glue.
- `getJavaCommand`: it runs a subprocess and loops on dialogs.
- `openFiles` and `startPlugin`: they start an import thread, check the filesystem and run an external plugin runtime.
- `compile` and `autoCompileSuccessful`: they drive the GUI panes' own `compile()` methods, which are not part of this model.
- The GUI helpers: `getActiveResource`, `hasActiveResource`, `isActiveResourceClass`, `getCurrentlyOpenedClassNode`, `showMessage`, `updateBusyStatus`, `clearBusyStatus`, `handleException`, `refreshAllTabTitles` and `resetWorkspace`.
- `cleanup` and `cleanupAsync`: filesystem deletion and a background thread.
- `getClassFileBytes`: a wrapper over a class-loader utility that is not part of this model.
- `exit`: a deliberate no-op.
- `getFiles`: it only returns the list, which here is the `files` field itself.
- BytecodeViewer.Workspace.PromptIfNoLoadedClasses: the message dialog shown before returning `true` is left out (it is GUI output); only the returned value is modelled.
- BytecodeViewer.Workspace.UpdateNode: containers are values, so the aliasing of the Java model is not captured. A `FileContainer` object reached through another reference does not see the in-place update of its `classes` list, and two list entries that are the same object are updated independently.
- The `FileContainer` class source is not part of this model: its `name`, `classes` and `files` fields are taken from their uses in `BytecodeViewer.java` (a list of class nodes and a map from path to bytes).
- `null` names, `null` nodes, `null` list entries and `null` map values are not modelled; every name, node and entry is a real value. In the source a key mapped to `null` makes `getFileContents` return `null` and stop scanning.
- Shared returned arrays: `getFileContents` returns the stored `byte[]` by reference, so a caller can change the stored entry. The model returns the bytes as a value.
- ASM `ClassNode` internals: a node is only its identity and its internal name.
- Concurrent access to the static list from the import and GUI threads is not modelled.
