/** The workspace of Bytecode Viewer: the process-wide list of opened file
    containers and the queries and updates over it.

    The read-only queries are functions of the container list, which callers
    pass in; the list itself lives in a `Workspace` object, whose methods are
    the operations that loop over it and update it in place. */
module BytecodeViewer {
  import opened Wrappers
  import opened Lists
  import opened Resources

  /** `container` holds a class node called `name`. */
  predicate Declares(container: FileContainer, name: string)
  {
    exists k :: 0 <= k < |container.classes| && container.classes[k].name == name
  }

  /** The first node called `name` in `classes`, by a front-to-back scan. */
  function FirstNamed(classes: seq<ClassNode>, name: string): (r: Option<ClassNode>)
    ensures r.None? <==> forall k :: 0 <= k < |classes| ==> classes[k].name != name
    ensures r.Some? ==>
              exists k :: 0 <= k < |classes| && classes[k] == r.value && r.value.name == name
                          && forall j :: 0 <= j < k ==> classes[j].name != name
  {
    if classes == [] then None
    else if classes[0].name == name then Some(classes[0])
    else
      var r := FirstNamed(classes[1..], name);
      assert forall k :: 1 <= k < |classes| ==> classes[k] == classes[1..][k - 1];
      r
  }

  /** `hasResources`: at least one container is open. */
  function HasResources(files: seq<FileContainer>): (r: bool)
    ensures r <==> files != []
    ensures !r ==> AllClasses(files) == []
  {
    |files| != 0
  }

  /** `getClassNode(container, name)`: the first class of `container` called
      `name`, or `None`. Only that container is consulted. */
  function GetClassNodeIn(container: FileContainer, name: string): (r: Option<ClassNode>)
    ensures r.None? <==> !Declares(container, name)
    ensures r.Some? ==>
              exists k :: 0 <= k < |container.classes| && container.classes[k] == r.value
                          && r.value.name == name
                          && forall j :: 0 <= j < k ==> container.classes[j].name != name
  {
    FirstNamed(container.classes, name)
  }

  /** `getClassNode(name)`: containers are scanned in the order they were
      opened and, within one, classes in load order; the first class called
      `name` wins. That the answer is the first match is stated by the lemmas
      below and by `GlobalLookupIsFirstInLoadOrder`. */
  function GetClassNode(files: seq<FileContainer>, name: string): (r: Option<ClassNode>)
    ensures r.Some? ==> r.value.name == name
  {
    if files == [] then None
    else
      match GetClassNodeIn(files[0], name)
      case Some(c) => Some(c)
      case None => GetClassNode(files[1..], name)
  }

  /** `getClassNode(name)` returns nothing exactly when the scoped lookup
      fails in every container. */
  lemma {:induction false} GetClassNodeNoneIff(files: seq<FileContainer>, name: string)
    ensures GetClassNode(files, name).None? <==>
              forall i :: 0 <= i < |files| ==> GetClassNodeIn(files[i], name).None?
  {
    if files != [] && GetClassNodeIn(files[0], name).None? {
      var rest := files[1..];
      GetClassNodeNoneIff(rest, name);
      assert forall i :: 1 <= i < |files| ==> files[i] == rest[i - 1];
    }
  }

  /** A class that `getClassNode(name)` returns is the scoped lookup's answer
      in the first container where that lookup succeeds. */
  lemma {:induction false} GetClassNodeSomeIsFirst(files: seq<FileContainer>, name: string)
    requires GetClassNode(files, name).Some?
    ensures exists i :: 0 <= i < |files| && GetClassNode(files, name) == GetClassNodeIn(files[i], name)
                        && forall j :: 0 <= j < i ==> GetClassNodeIn(files[j], name).None?
  {
    if GetClassNodeIn(files[0], name).None? {
      var rest := files[1..];
      GetClassNodeSomeIsFirst(rest, name);
      var i' :| 0 <= i' < |rest| && GetClassNode(rest, name) == GetClassNodeIn(rest[i'], name)
                && forall j :: 0 <= j < i' ==> GetClassNodeIn(rest[j], name).None?;
      var i := i' + 1;
      assert files[i] == rest[i'];
      forall j | 0 <= j < i
        ensures GetClassNodeIn(files[j], name).None?
      {
        if j > 0 {
          assert files[j] == rest[j - 1];
        }
      }
      assert GetClassNode(files, name) == GetClassNodeIn(files[i], name);
    } else {
      assert GetClassNode(files, name) == GetClassNodeIn(files[0], name);
    }
  }

  /** `getFileContainer(name)`: the first container whose name is `name`. */
  function GetFileContainer(files: seq<FileContainer>, name: string): (r: Option<FileContainer>)
    ensures r.None? <==> forall i :: 0 <= i < |files| ==> files[i].name != name
    ensures r.Some? ==>
              exists i :: 0 <= i < |files| && files[i] == r.value && r.value.name == name
                          && forall j :: 0 <= j < i ==> files[j].name != name
  {
    if files == [] then None
    else if files[0].name == name then Some(files[0])
    else
      var r := GetFileContainer(files[1..], name);
      assert forall i :: 1 <= i < |files| ==> files[i] == files[1..][i - 1];
      r
  }

  /** `getFileContents(name)`: the bytes stored under the entry path `name` in
      the first container that has such an entry. */
  function GetFileContents(files: seq<FileContainer>, name: string): (r: Option<seq<byte>>)
    ensures r.None? <==> forall i :: 0 <= i < |files| ==> name !in files[i].files
    ensures r.Some? ==>
              exists i :: 0 <= i < |files| && name in files[i].files && r.value == files[i].files[name]
                          && forall j :: 0 <= j < i ==> name !in files[j].files
  {
    if files == [] then None
    else if name in files[0].files then Some(files[0].files[name])
    else
      var r := GetFileContents(files[1..], name);
      assert forall i :: 1 <= i < |files| ==> files[i] == files[1..][i - 1];
      r
  }

  /** Every class node of every container, containers in order and each
      container's classes in load order; a node held twice appears twice. */
  function AllClasses(files: seq<FileContainer>): (r: seq<ClassNode>)
    ensures forall c :: c in r <==> exists i :: 0 <= i < |files| && c in files[i].classes
  {
    if files == [] then []
    else
      var r := files[0].classes + AllClasses(files[1..]);
      assert forall i :: 1 <= i < |files| ==> files[i] == files[1..][i - 1];
      r
  }

  /** Appending a container appends its classes to `AllClasses`. */
  lemma {:induction false} AllClassesSnoc(files: seq<FileContainer>, container: FileContainer)
    ensures AllClasses(files + [container]) == AllClasses(files) + container.classes
  {
    if files == [] {
      assert [container][1..] == [];
    } else {
      assert (files + [container])[1..] == files[1..] + [container];
      AllClassesSnoc(files[1..], container);
    }
  }

  /** One step of the inner loop of `getLoadedClasses`: the next class is
      appended exactly when it has not been collected yet. */
  lemma {:induction false} LoadStep(seen: seq<ClassNode>, classes: seq<ClassNode>, k: nat)
    requires k < |classes|
    ensures Dedup(seen + classes[..k + 1])
            == if classes[k] in Dedup(seen + classes[..k]) then Dedup(seen + classes[..k])
               else Dedup(seen + classes[..k]) + [classes[k]]
  {
    assert seen + classes[..k + 1] == (seen + classes[..k]) + [classes[k]];
    DedupSnoc(seen + classes[..k], classes[k]);
  }

  /** One step of the outer loop of `getLoadedClasses`: after a whole container
      the collected list covers one more container. */
  lemma {:induction false} LoadContainer(files: seq<FileContainer>, i: nat)
    requires i < |files|
    ensures Dedup(AllClasses(files[..i]) + files[i].classes[..|files[i].classes|])
            == Dedup(AllClasses(files[..i + 1]))
  {
    AllClassesSnoc(files[..i], files[i]);
    assert files[..i + 1] == files[..i] + [files[i]];
    assert files[i].classes[..|files[i].classes|] == files[i].classes;
  }

  /** Every class of every container survives deduplication. */
  lemma {:induction false} LoadedClassesCover(files: seq<FileContainer>)
    ensures forall i, k :: 0 <= i < |files| && 0 <= k < |files[i].classes| ==>
              files[i].classes[k] in Dedup(AllClasses(files))
  {
  }

  /** What `updateNode` does to one container: if it holds `oldNode`, the first
      occurrence is removed (`List.remove` returned true) and `newNode` is
      appended; otherwise the container is left alone. */
  function UpdateContainer(container: FileContainer, oldNode: ClassNode, newNode: ClassNode): (r: FileContainer)
    ensures r.name == container.name && r.files == container.files
    ensures oldNode !in container.classes ==> r == container
    ensures oldNode in container.classes ==>
              |r.classes| == |container.classes| && r.classes[|r.classes| - 1] == newNode
              && r.classes[..|r.classes| - 1] == RemoveFirst(container.classes, oldNode)
              && multiset(r.classes) == multiset(container.classes) - multiset{oldNode} + multiset{newNode}
  {
    if oldNode in container.classes then
      RemoveFirstMultiset(container.classes, oldNode);
      container.(classes := RemoveFirst(container.classes, oldNode) + [newNode])
    else
      container
  }

  /** What `updateNode` does to the whole container list. */
  function UpdateAll(files: seq<FileContainer>, oldNode: ClassNode, newNode: ClassNode): (r: seq<FileContainer>)
    ensures |r| == |files|
    ensures forall i :: 0 <= i < |files| ==> r[i] == UpdateContainer(files[i], oldNode, newNode)
  {
    seq(|files|, i requires 0 <= i < |files| => UpdateContainer(files[i], oldNode, newNode))
  }

  /** One more container through `UpdateAll`: position `i` of the partly
      updated list takes its updated value. */
  lemma {:induction false} UpdateAllStep(files: seq<FileContainer>, i: nat, oldNode: ClassNode, newNode: ClassNode)
    requires i < |files|
    ensures (UpdateAll(files[..i], oldNode, newNode) + files[i..])[i := UpdateContainer(files[i], oldNode, newNode)]
            == UpdateAll(files[..i + 1], oldNode, newNode) + files[i + 1..]
  {
  }

  /** The process-wide workspace: the static `files` list. */
  class Workspace {
    /** The opened containers, in the order they were opened. */
    var files: seq<FileContainer>

    /** The list starts empty. */
    constructor ()
      ensures files == []
    {
      files := [];
    }

    /** `updateNode(oldNode, newNode)`: in every container that holds
        `oldNode`, its first occurrence is removed and `newNode` appended; the
        list of containers keeps its length and order. */
    method UpdateNode(oldNode: ClassNode, newNode: ClassNode)
      modifies this
      ensures files == UpdateAll(old(files), oldNode, newNode)
    {
      ghost var before := files;
      var i := 0;
      while i < |files|
        invariant 0 <= i <= |files| == |before|
        invariant files == UpdateAll(before[..i], oldNode, newNode) + before[i..]
      {
        var container := files[i];
        if oldNode in container.classes {
          var classes := RemoveFirst(container.classes, oldNode);
          files := files[i := container.(classes := classes + [newNode])];
        }
        UpdateAllStep(before, i, oldNode, newNode);
        i := i + 1;
      }
      assert before[..i] == before;
    }

    /** `getLoadedClasses()`: every class node of every container, each node
        once, in the order it is first met. */
    method GetLoadedClasses() returns (loaded: seq<ClassNode>)
      ensures loaded == Dedup(AllClasses(files))
      ensures NoDuplicates(loaded)
      ensures forall i, k :: 0 <= i < |files| && 0 <= k < |files[i].classes| ==> files[i].classes[k] in loaded
      ensures forall c :: c in loaded ==> exists i :: 0 <= i < |files| && c in files[i].classes
      ensures forall a, b :: 0 <= a < b < |loaded| ==>
                IndexOf(AllClasses(files), loaded[a]) < IndexOf(AllClasses(files), loaded[b])
      ensures |loaded| <= |AllClasses(files)|
    {
      loaded := [];
      var i := 0;
      while i < |files|
        invariant 0 <= i <= |files|
        invariant loaded == Dedup(AllClasses(files[..i]))
      {
        ghost var seen := AllClasses(files[..i]);
        var classes := files[i].classes;
        var k := 0;
        assert seen + classes[..k] == seen;
        while k < |classes|
          invariant 0 <= k <= |classes|
          invariant loaded == Dedup(seen + classes[..k])
        {
          var c := classes[k];
          LoadStep(seen, classes, k);
          if c !in loaded {
            loaded := loaded + [c];
          }
          k := k + 1;
        }
        LoadContainer(files, i);
        i := i + 1;
      }
      assert files[..i] == files;
      LoadedClassesCover(files);
      DedupKeepsFirstOccurrenceOrder(AllClasses(files));
    }

    /** `promptIfNoLoadedClasses()`, without its message dialog: true exactly
        when no container holds a class. */
    method PromptIfNoLoadedClasses() returns (empty: bool)
      ensures empty <==> forall i :: 0 <= i < |files| ==> files[i].classes == []
      ensures empty <==> AllClasses(files) == []
    {
      var loaded := GetLoadedClasses();
      empty := |loaded| == 0;
      if !empty {
        assert loaded[0] in loaded;
      }
      forall i | 0 <= i < |files| && files[i].classes != []
        ensures !empty
      {
        assert files[i].classes[0] in loaded;
      }
      var all := AllClasses(files);
      if all != [] {
        assert all[0] in all;
      }
    }
  }
}
