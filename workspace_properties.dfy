/** Properties relating the workspace operations to each other: the global
    class lookup against the flattened and the deduplicated class lists, and
    what `updateNode` keeps and changes. */
module WorkspaceProperties {
  import opened Wrappers
  import opened Lists
  import opened Resources
  import opened BytecodeViewer

  /** Searching a concatenation finds a match in the first part before
      looking at the second. */
  lemma {:induction false} FirstNamedAppend(a: seq<ClassNode>, b: seq<ClassNode>, name: string)
    ensures FirstNamed(a + b, name) == if FirstNamed(a, name).Some? then FirstNamed(a, name) else FirstNamed(b, name)
  {
    if a != [] {
      assert (a + b)[0] == a[0];
      assert (a + b)[1..] == a[1..] + b;
      FirstNamedAppend(a[1..], b, name);
    } else {
      assert a + b == b;
    }
  }

  /** `getClassNode(name)` returns the first class called `name` in the
      flattened list of every container's classes, in container order. */
  lemma {:induction false} GlobalLookupIsFirstInLoadOrder(files: seq<FileContainer>, name: string)
    ensures GetClassNode(files, name) == FirstNamed(AllClasses(files), name)
  {
    if files != [] {
      GlobalLookupIsFirstInLoadOrder(files[1..], name);
      FirstNamedAppend(files[0].classes, AllClasses(files[1..]), name);
    }
  }

  /** Removing later duplicates does not change which node a first-match
      search by name finds. */
  lemma {:induction false} FirstNamedDedup(s: seq<ClassNode>, name: string)
    ensures FirstNamed(Dedup(s), name) == FirstNamed(s, name)
  {
    if s != [] {
      var n := |s| - 1;
      var p, x := s[..n], s[n];
      assert s == p + [x];
      FirstNamedDedup(p, name);
      DedupSnoc(p, x);
      FirstNamedAppend(p, [x], name);
      FirstNamedAppend(Dedup(p), [x], name);
      if x in Dedup(p) && FirstNamed(p, name).None? {
        assert x in p;
        assert p[IndexOf(p, x)].name != name;
      }
    }
  }

  /** `getClassNode(name)` agrees with searching the list that
      `getLoadedClasses()` returns: both find the same node. */
  lemma {:induction false} GlobalLookupMatchesLoadedClasses(files: seq<FileContainer>, name: string)
    ensures GetClassNode(files, name) == FirstNamed(Dedup(AllClasses(files)), name)
  {
    GlobalLookupIsFirstInLoadOrder(files, name);
    FirstNamedDedup(AllClasses(files), name);
  }

  /** With nothing open, every lookup comes back empty and no class is loaded. */
  lemma {:induction false} NoResourcesNothingFound(files: seq<FileContainer>, name: string)
    requires !HasResources(files)
    ensures GetClassNode(files, name).None?
    ensures GetFileContainer(files, name).None?
    ensures GetFileContents(files, name).None?
    ensures Dedup(AllClasses(files)) == []
  {
  }

  /** `updateNode` is a silent no-op when no container holds `oldNode`. */
  lemma {:induction false} UpdateNodeAbsentIsNoOp(files: seq<FileContainer>, oldNode: ClassNode, newNode: ClassNode)
    requires forall i :: 0 <= i < |files| ==> oldNode !in files[i].classes
    ensures UpdateAll(files, oldNode, newNode) == files
  {
  }

  /** Updating a list and dropping its first container commute. */
  lemma {:induction false} UpdateAllTail(files: seq<FileContainer>, oldNode: ClassNode, newNode: ClassNode)
    requires files != []
    ensures UpdateAll(files, oldNode, newNode)[1..] == UpdateAll(files[1..], oldNode, newNode)
  {
  }

  /** `updateNode` leaves every resource entry where it was. */
  lemma {:induction false} UpdateNodeKeepsFileContents(files: seq<FileContainer>, oldNode: ClassNode, newNode: ClassNode, name: string)
    ensures GetFileContents(UpdateAll(files, oldNode, newNode), name) == GetFileContents(files, name)
  {
    if files != [] {
      UpdateAllTail(files, oldNode, newNode);
      UpdateNodeKeepsFileContents(files[1..], oldNode, newNode, name);
    }
  }

  /** A container looked up by name after `updateNode` is the one found before,
      with the update applied to it. */
  lemma {:induction false} UpdateNodeKeepsContainerLookup(files: seq<FileContainer>, oldNode: ClassNode, newNode: ClassNode, name: string)
    ensures GetFileContainer(UpdateAll(files, oldNode, newNode), name)
            == match GetFileContainer(files, name)
               case None => None
               case Some(c) => Some(UpdateContainer(c, oldNode, newNode))
  {
  }

  /** Classes other than `oldNode` and `newNode` are loaded after `updateNode`
      exactly when they were loaded before. */
  lemma {:induction false} UpdateNodeKeepsOtherClasses(files: seq<FileContainer>, oldNode: ClassNode, newNode: ClassNode, c: ClassNode)
    requires c != oldNode && c != newNode
    ensures c in AllClasses(UpdateAll(files, oldNode, newNode)) <==> c in AllClasses(files)
  {
    var updated := UpdateAll(files, oldNode, newNode);
    forall i | 0 <= i < |files|
      ensures c in updated[i].classes <==> c in files[i].classes
    {
      var before := files[i].classes;
      if oldNode in before {
        RemoveFirstKeepsOthers(before, oldNode, c);
        assert updated[i].classes == RemoveFirst(before, oldNode) + [newNode];
      }
    }
  }

  /** When no container holds a node twice, `updateNode` with a different
      node leaves `oldNode` nowhere, and `newNode` is loaded whenever `oldNode`
      was. */
  lemma {:induction false} UpdateNodeReplaces(files: seq<FileContainer>, oldNode: ClassNode, newNode: ClassNode)
    requires oldNode != newNode
    requires forall i :: 0 <= i < |files| ==> NoDuplicates(files[i].classes)
    ensures oldNode !in AllClasses(UpdateAll(files, oldNode, newNode))
    ensures oldNode in AllClasses(files) ==> newNode in AllClasses(UpdateAll(files, oldNode, newNode))
  {
    var updated := UpdateAll(files, oldNode, newNode);
    forall i | 0 <= i < |files|
      ensures oldNode !in updated[i].classes
    {
      if oldNode in files[i].classes {
        RemoveFirstFromDistinct(files[i].classes, oldNode);
        assert updated[i].classes == RemoveFirst(files[i].classes, oldNode) + [newNode];
      }
    }
  }

  /** No two classes of `container` share a name. */
  predicate UniqueNames(container: FileContainer)
  {
    forall a, b :: 0 <= a < b < |container.classes| ==>
      container.classes[a].name != container.classes[b].name
  }

  /** In a container with unique names, once `oldNode` is removed no class
      called `oldNode.name` is left. */
  lemma {:induction false} RemoveOnlyNamed(container: FileContainer, oldNode: ClassNode)
    requires UniqueNames(container) && oldNode in container.classes
    ensures FirstNamed(RemoveFirst(container.classes, oldNode), oldNode.name).None?
  {
    var s := container.classes;
    var k := IndexOf(s, oldNode);
    var r := RemoveFirst(s, oldNode);
    forall j | 0 <= j < |r|
      ensures r[j].name != oldNode.name
    {
      RemoveFirstAt(s, oldNode, j);
    }
  }

  /** Within one container with unique names, replacing the class found by
      name with a node of the same name makes the scoped lookup find the new
      node. */
  lemma {:induction false} UpdateContainerThenLookupFindsNew(container: FileContainer, oldNode: ClassNode, newNode: ClassNode)
    requires UniqueNames(container)
    requires GetClassNodeIn(container, oldNode.name) == Some(oldNode)
    requires newNode.name == oldNode.name
    ensures GetClassNodeIn(UpdateContainer(container, oldNode, newNode), oldNode.name) == Some(newNode)
  {
    var classes := container.classes;
    assert oldNode in classes;
    RemoveOnlyNamed(container, oldNode);
    FirstNamedAppend(RemoveFirst(classes, oldNode), [newNode], oldNode.name);
  }

  /** The flattened form of the next lemma: the first class called `name` in
      load order is `newNode` after `updateNode` replaced `oldNode`. */
  lemma {:induction false} UpdateNodeThenFirstInLoadOrderIsNew(files: seq<FileContainer>, oldNode: ClassNode, newNode: ClassNode)
    requires forall i :: 0 <= i < |files| ==> UniqueNames(files[i])
    requires FirstNamed(AllClasses(files), oldNode.name) == Some(oldNode)
    requires newNode.name == oldNode.name
    ensures FirstNamed(AllClasses(UpdateAll(files, oldNode, newNode)), oldNode.name) == Some(newNode)
  {
    var name := oldNode.name;
    var updated := UpdateAll(files, oldNode, newNode);
    UpdateAllTail(files, oldNode, newNode);
    FirstNamedAppend(files[0].classes, AllClasses(files[1..]), name);
    FirstNamedAppend(updated[0].classes, AllClasses(updated[1..]), name);
    if FirstNamed(files[0].classes, name).Some? {
      UpdateContainerThenLookupFindsNew(files[0], oldNode, newNode);
    } else {
      assert oldNode !in files[0].classes;
      assert updated[0] == files[0];
      var rest := files[1..];
      forall i | 0 <= i < |rest|
        ensures UniqueNames(rest[i])
      {
        assert rest[i] == files[i + 1];
      }
      UpdateNodeThenFirstInLoadOrderIsNew(rest, oldNode, newNode);
      assert updated[1..] == UpdateAll(rest, oldNode, newNode);
    }
  }

  /** Replacing the node that `getClassNode(name)` returns by a node of the
      same name makes the global lookup return the new node, provided no
      container holds two classes of one name. */
  lemma {:induction false} UpdateNodeThenLookupFindsNew(files: seq<FileContainer>, oldNode: ClassNode, newNode: ClassNode)
    requires forall i :: 0 <= i < |files| ==> UniqueNames(files[i])
    requires GetClassNode(files, oldNode.name) == Some(oldNode)
    requires newNode.name == oldNode.name
    ensures GetClassNode(UpdateAll(files, oldNode, newNode), oldNode.name) == Some(newNode)
  {
    GlobalLookupIsFirstInLoadOrder(files, oldNode.name);
    GlobalLookupIsFirstInLoadOrder(UpdateAll(files, oldNode, newNode), oldNode.name);
    UpdateNodeThenFirstInLoadOrderIsNew(files, oldNode, newNode);
  }

  /** Why `UpdateNodeThenLookupFindsNew` needs unique names: the source does
      not enforce them. In a container holding two classes called "A",
      replacing the first by a new "A" moves the new node behind the second,
      so `getClassNode("A")` then returns the second old class. */
  lemma {:induction false} DuplicateNamesHideReplacement()
    ensures var a1, a2, n := ClassNode(1, "A"), ClassNode(2, "A"), ClassNode(3, "A");
            var files := [FileContainer("app.jar", [a1, a2], map[])];
            GetClassNode(files, "A") == Some(a1)
            && GetClassNode(UpdateAll(files, a1, n), "A") == Some(a2)
  {
    var a1, a2, n := ClassNode(1, "A"), ClassNode(2, "A"), ClassNode(3, "A");
    var files := [FileContainer("app.jar", [a1, a2], map[])];
    assert RemoveFirst([a1, a2], a1) == [a2];
    var updated := UpdateAll(files, a1, n);
    assert updated[0] == UpdateContainer(files[0], a1, n);
    assert updated[0].classes == [a2, n];
    assert GetClassNodeIn(updated[0], "A") == Some(a2);
  }
}
