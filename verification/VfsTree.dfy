// The kernel's file tree and the operations on it (kernel/src/fs.rs).
module VfsTree {
  import opened Wrappers
  import opened Bytes
  import opened FsImage
  import opened Vfs

  // What is wrong with a path in a tree, in the order of the checks: it is the root
  // itself, it has no components, or what it should lie in is no directory.
  ghost predicate PathFault(root: FsNode, path: seq<byte>, e: VfsError) {
    match e
    case IsRoot => path == [SLASH]
    case BadPath => path != [SLASH] && Split(path) == []
    case NoParent => Split(path) != [] && Lookup(root, Parent(Split(path))) != Some(Dir)
    case _ => false
  }

  // The path has a directory to lie in.
  ghost predicate HasParent(root: FsNode, path: seq<byte>) {
    Split(path) != [] && Lookup(root, Parent(Split(path))) == Some(Dir)
  }

  class FileTree {
    var root: FsNode

    // The root is a directory and siblings have different names.
    ghost predicate Valid()
      reads this
    {
      root.Directory? && Unique(root)
    }

    constructor ()
      ensures Valid() && root == Directory(ROOT, [])
    {
      root := Directory(ROOT, []);
    }

    // Collects the components of a path.
    method Components(path: seq<byte>) returns (parts: seq<Name>)
      ensures parts == Split(path)
      ensures forall p :: p in parts ==> Proper(p)
    {
      parts := [];
      var part: Name := [];
      SplitIsProper(path, []);
      assert path[0..] == path;
      for i := 0 to |path|
        invariant parts + SplitFrom(path[i..], part) == Split(path)
      {
        assert path[i..][0] == path[i] && path[i..][1..] == path[i + 1..];
        if path[i] == SLASH {
          Regroup(parts, Flush(part), SplitFrom(path[i + 1..], []));
          parts, part := parts + Flush(part), [];
        } else {
          part := part + [path[i]];
        }
      }
      parts := parts + Flush(part);
    }

    // The path of the directory above.
    method ParentPath(parts: seq<Name>) returns (path: seq<byte>)
      requires parts != []
      ensures path == if |parts| == 1 then [SLASH] else Join(Parent(parts))
    {
      if |parts| == 1 {
        return [SLASH];
      }
      path := [];
      for i := 0 to |parts| - 1
        invariant path == Join(parts[..i])
      {
        assert parts[..i + 1][..i] == parts[..i];
        path := path + [SLASH];
        path := path + parts[i];
      }
    }

    // Walks down directory by directory.
    method FindDir(path: seq<byte>) returns (children: Option<seq<FsNode>>)
      ensures children == ChildrenAt(root, if path == [SLASH] then [] else Split(path))
    {
      if path == [SLASH] {
        return if root.Directory? then Some(root.children) else None;
      }
      var parts := Components(path);
      var current := root;
      assert parts[0..] == parts;
      for i := 0 to |parts|
        invariant ChildrenAt(root, parts) == ChildrenAt(current, parts[i..])
      {
        assert parts[i..][0] == parts[i] && parts[i..][1..] == parts[i + 1..];
        if !current.Directory? {
          return None;
        }
        var next := FindChildDir(current.children, parts[i]);
        if next == |current.children| {
          return None;
        }
        current := current.children[next];
      }
      return if current.Directory? then Some(current.children) else None;
    }

    method FindChildDir(children: seq<FsNode>, name: Name) returns (i: nat)
      ensures i == FirstDir(children, name)
    {
      i := 0;
      while i < |children|
        invariant i <= |children|
        invariant forall k :: 0 <= k < i ==> !(children[k].name == name && children[k].Directory?)
      {
        if children[i].name == name && children[i].Directory? {
          break;
        }
        i := i + 1;
      }
    }

    method FindNamed(children: seq<FsNode>, name: Name) returns (i: nat)
      ensures i == FirstNamed(children, name)
    {
      i := 0;
      while i < |children|
        invariant i <= |children|
        invariant forall k :: 0 <= k < i ==> children[k].name != name
      {
        if children[i].name == name {
          break;
        }
        i := i + 1;
      }
    }

    // The children next to which the last component of a path belongs.
    method FindParent(parts: seq<Name>) returns (children: Option<seq<FsNode>>)
      requires Valid() && parts != [] && forall p :: p in parts ==> Proper(p)
      ensures children == ChildrenAt(root, Parent(parts))
      ensures children.Some? <==> Lookup(root, Parent(parts)) == Some(Dir)
      ensures children.None? ==> Lookup(root, parts).None?
      ensures children.Some? ==> AllUnique(children.value)
      ensures children.Some? ==>
                var i := FirstNamed(children.value, Last(parts));
                Lookup(root, parts) == if i < |children.value| then Some(EntryOf(children.value[i])) else None
    {
      hide Lookup, LookupIn, ChildrenAt, Unique;
      var path := ParentPath(parts);
      SplitOfJoin(Parent(parts));
      ParentPathIs(parts);
      children := FindDir(path);
      FoundIsDir(root, Parent(parts));
      if children.None? { NoParentNoEntry(root, parts); } else { LookupLast(root, parts); }
    }

    // Adds an empty directory where there was nothing, below a directory.
    method Mkdir(path: seq<byte>) returns (r: Result<(), VfsError>)
      requires Valid()
      modifies this
      ensures Valid()
      ensures r.Err? ==> root == old(root)
      ensures var p := Split(path);
              r.Ok? <==> p != [] && Lookup(old(root), Parent(p)) == Some(Dir) && Lookup(old(root), p).None?
      ensures forall e :: r == Err(e) <==>
        || PathFault(old(root), path, e)
        || (e == Exists && HasParent(old(root), path) && Lookup(old(root), Split(path)).Some?)
      ensures r.Ok? ==> OneKeySet(old(root), root, Split(path), Dir)
    {
      if path == [SLASH] { SlashIsEmpty(); return Err(IsRoot); }
      var parts := Components(path);
      if parts == [] { return Err(BadPath); }
      var found := FindParent(parts);
      if found.None? { return Err(NoParent); }
      var children := found.value;
      var i := FindNamed(children, Last(parts));
      if i < |children| { return Err(Exists); }
      hide Lookup, LookupIn, ChildrenAt, Unique, AllUnique, OneKeySet, WithChildren, Split;
      var c := Directory(Last(parts), []);
      AddsKey(root, parts, children, c);
      root := WithChildren(root, Parent(parts), children + [c]);
      return Ok(());
    }

    // Replaces a file's bytes or adds a file where there was nothing.
    method WriteFileBytes(path: seq<byte>, content: seq<byte>) returns (r: Result<(), VfsError>)
      requires Valid()
      modifies this
      ensures Valid()
      ensures r.Err? ==> root == old(root)
      ensures var p := Split(path);
              r.Ok? <==> p != [] && Lookup(old(root), Parent(p)) == Some(Dir)
                         && (Lookup(old(root), p).None? || Lookup(old(root), p).value.Bytes?)
      ensures forall e :: r == Err(e) <==>
        || PathFault(old(root), path, e)
        || (e == NotAFile && HasParent(old(root), path) && Lookup(old(root), Split(path)).Some?
            && !Lookup(old(root), Split(path)).value.Bytes?)
      ensures r.Ok? ==> OneKeySet(old(root), root, Split(path), Bytes(content))
    {
      if path == [SLASH] { SlashIsEmpty(); return Err(IsRoot); }
      var parts := Components(path);
      if parts == [] { return Err(BadPath); }
      var found := FindParent(parts);
      if found.None? { return Err(NoParent); }
      var children := found.value;
      var i := FindNamed(children, Last(parts));
      var c := File(Last(parts), content);
      hide Lookup, LookupIn, ChildrenAt, Unique, AllUnique, OneKeySet, WithChildren, Split;
      if i < |children| {
        if !children[i].File? { return Err(NotAFile); }
        ReplacesKey(root, parts, children, i, c);
        root := WithChildren(root, Parent(parts), children[i := c]);
        return Ok(());
      }
      AddsKey(root, parts, children, c);
      root := WithChildren(root, Parent(parts), children + [c]);
      return Ok(());
    }

    // Removes whatever is at the path, with all that is below it.
    method Remove(path: seq<byte>) returns (r: Result<(), VfsError>)
      requires Valid()
      modifies this
      ensures Valid()
      ensures r.Err? ==> root == old(root)
      ensures r.Ok? <==> Split(path) != [] && Lookup(old(root), Split(path)).Some?
      ensures forall e :: r == Err(e) <==>
        || PathFault(old(root), path, e)
        || (e == NotFound && HasParent(old(root), path) && Lookup(old(root), Split(path)).None?)
      ensures r.Ok? ==> SubtreeDropped(old(root), root, Split(path))
    {
      if path == [SLASH] { SlashIsEmpty(); return Err(IsRoot); }
      var parts := Components(path);
      if parts == [] { return Err(BadPath); }
      var found := FindParent(parts);
      if found.None? { return Err(NoParent); }
      var children := found.value;
      var i := FindNamed(children, Last(parts));
      if i == |children| { return Err(NotFound); }
      hide Lookup, LookupIn, ChildrenAt, Unique, AllUnique, SubtreeDropped, WithChildren, Split;
      KeyDropped(root, parts, i);
      root := WithChildren(root, Parent(parts), children[..i] + children[i + 1..]);
      StillDirectory(old(root), Parent(parts), children[..i] + children[i + 1..]);
      return Ok(());
    }

    // Returns the bytes of a file. Paths of the process file system are answered
    // by the kernel before the tree is consulted.
    method ReadFileBytes(path: seq<byte>, procfs: Option<seq<byte>>) returns (r: Result<seq<byte>, VfsError>)
      requires Valid()
      ensures path != [SLASH] && procfs.Some? ==> r == Ok(procfs.value)
      ensures path == [SLASH] || procfs.None? ==>
                (r.Ok? <==> Split(path) != [] && Lookup(root, Split(path)).Some?
                            && Lookup(root, Split(path)).value.Bytes?)
                && (r.Ok? ==> Lookup(root, Split(path)) == Some(Bytes(r.value)))
      ensures path == [SLASH] || procfs.None? ==> forall e :: r == Err(e) <==>
        || PathFault(root, path, e)
        || (e == NotFound && HasParent(root, path) && Lookup(root, Split(path)).None?)
        || (e == NotAFile && HasParent(root, path) && Lookup(root, Split(path)).Some?
            && !Lookup(root, Split(path)).value.Bytes?)
    {
      if path == [SLASH] { SlashIsEmpty(); return Err(IsRoot); }
      if procfs.Some? { return Ok(procfs.value); }
      var parts := Components(path);
      if parts == [] { return Err(BadPath); }
      var found := FindParent(parts);
      if found.None? { return Err(NoParent); }
      var children := found.value;
      var i := FindNamed(children, Last(parts));
      if i == |children| { return Err(NotFound); }
      return if children[i].File? then Ok(children[i].content) else Err(NotAFile);
    }
  }

  lemma SlashIsEmpty()
    ensures Split([SLASH]) == []
  {
    assert [SLASH][1..] == [];
    assert SplitFrom([SLASH], []) == Flush([]) + SplitFrom([], []);
  }

  lemma {:induction false} JoinLong(parts: seq<Name>)
    requires forall p :: p in parts ==> Proper(p)
    ensures parts != [] ==> |Join(parts)| >= 2
  {
    if parts != [] { assert parts[|parts| - 1] in parts; }
  }

  lemma ParentPathIs(parts: seq<Name>)
    requires parts != [] && forall p :: p in parts ==> Proper(p)
    ensures |parts| == 1 ==> Parent(parts) == []
    ensures |parts| > 1 ==> Join(Parent(parts)) != [SLASH]
  {
    JoinLong(Parent(parts));
  }

  lemma StillDirectory(root: FsNode, parts: seq<Name>, children: seq<FsNode>)
    requires ChildrenAt(root, parts).Some?
    ensures WithChildren(root, parts, children).Directory?
  {
  }

  lemma AddsKey(root: FsNode, parts: seq<Name>, children: seq<FsNode>, c: FsNode)
    requires Unique(root) && parts != [] && ChildrenAt(root, Parent(parts)) == Some(children) && AllUnique(children)
    requires c.name == Last(parts) && (c.Directory? ==> c.children == []) && FirstNamed(children, c.name) == |children|
    ensures var after := WithChildren(root, Parent(parts), children + [c]);
            after.Directory? && Unique(after) && OneKeySet(root, after, parts, EntryOf(c))
  {
    StillDirectory(root, Parent(parts), children + [c]);
    assert Unique(c);
    hide Lookup, LookupIn, ChildrenAt, Unique, AllUnique, WithChildren;
    AddedChild(children, c, [c.name]);
    forall q: seq<Name> | q != []
      ensures LookupIn(children + [c], q) == if q[0] == c.name then Lookup(c, q[1..]) else LookupIn(children, q)
    {
      AddedChild(children, c, q);
    }
    KeySet(root, parts, children + [c], c);
  }

  lemma ReplacesKey(root: FsNode, parts: seq<Name>, children: seq<FsNode>, i: nat, c: FsNode)
    requires Unique(root) && parts != [] && ChildrenAt(root, Parent(parts)) == Some(children) && AllUnique(children)
    requires c.File? && c.name == Last(parts)
    requires i < |children| && i == FirstNamed(children, c.name) && children[i].File?
    ensures var after := WithChildren(root, Parent(parts), children[i := c]);
            after.Directory? && Unique(after) && OneKeySet(root, after, parts, EntryOf(c))
  {
    StillDirectory(root, Parent(parts), children[i := c]);
    assert Unique(c);
    hide Lookup, LookupIn, ChildrenAt, Unique, AllUnique, WithChildren;
    ReplacedChild(children, i, c, [c.name]);
    forall q: seq<Name> | q != []
      ensures LookupIn(children[i := c], q) == if q[0] == c.name then Lookup(c, q[1..]) else LookupIn(children, q)
    {
      ReplacedChild(children, i, c, q);
    }
    KeySet(root, parts, children[i := c], c);
  }

  // A tree without twin siblings is still one after being stored and loaded.
  lemma {:induction false} StripKeepsUnique(node: FsNode)
    requires Unique(node)
    ensures Unique(Strip(node)) && Strip(node).name == node.name && Strip(node).Directory? == node.Directory?
    decreases node
  {
    if node.Directory? { StripAllKeepsUnique(node.name, node.children); }
  }

  lemma {:induction false} StripAllKeepsUnique(parent: Name, children: seq<FsNode>)
    requires AllUnique(children)
    ensures AllUnique(StripAll(parent, children))
    ensures forall c :: c in StripAll(parent, children) ==> Named(children, c.name)
    decreases children
  {
    if children != [] {
      StripAllKeepsUnique(parent, children[1..]);
      StripKeepsUnique(children[0]);
      var rest := StripAll(parent, children[1..]);
      forall c | c in rest
        ensures c.name != children[0].name && Named(children, c.name)
      {
        NamedLater(children, c.name);
      }
      assert Named(children, children[0].name);
      hide Named, Strip, Unique;
    }
  }

  predicate Named(children: seq<FsNode>, name: Name) {
    exists k :: 0 <= k < |children| && children[k].name == name
  }

  lemma NamedLater(children: seq<FsNode>, name: Name)
    requires children != [] && DistinctNames(children) && Named(children[1..], name)
    ensures name != children[0].name && Named(children, name)
  {
    var k :| 0 <= k < |children| - 1 && children[1..][k].name == name;
    assert children[k + 1].name == name;
  }

  // Whether the image keeps what these components lead to, below a node with
  // this name.
  predicate Stored(name: Name, q: seq<Name>)
    decreases |q|
  {
    q == [] || (!Synthetic(name) && !(name == ROOT && Synthetic(q[0])) && Stored(q[0], q[1..]))
  }

  // Storing and loading a tree keeps the map, less what lives only in memory.
  lemma {:induction false} StripLookup(node: FsNode, q: seq<Name>)
    ensures Lookup(Strip(node), q) == if Stored(node.name, q) then Lookup(node, q) else None
    decreases node, 1
  {
    if node.Directory? && q != [] {
      StripLookupIn(node.name, node.children, q);
    } else {
      NothingBelowLeaf(node, q);
    }
  }

  lemma NothingBelowLeaf(node: FsNode, q: seq<Name>)
    requires !node.Directory? || q == []
    ensures Lookup(Strip(node), q) == if Stored(node.name, q) then Lookup(node, q) else None
  {
  }

  lemma {:induction false} StripLookupIn(parent: Name, children: seq<FsNode>, q: seq<Name>)
    requires q != []
    ensures LookupIn(StripAll(parent, children), q) == if Stored(parent, q) then LookupIn(children, q) else None
    decreases children, 0
  {
    if children == [] {
      assert StripAll(parent, children) == [];
    } else {
      var first, rest := children[0], StripAll(parent, children[1..]);
      StripLookupIn(parent, children[1..], q);
      InCons(first, children[1..], q);
      AllUnfolds(parent, children);
      assert children == [first] + children[1..];
      hide LookupIn, Lookup, Strip, StripAll;
      if !Skipped(parent, first) {
        StripKeepsName(first);
        InCons(Strip(first), rest, q);
        if first.name == q[0] { StripLookup(first, q[1..]); }
      }
    }
  }

  lemma StripKeepsName(node: FsNode)
    ensures Strip(node).name == node.name
  {
  }

  lemma InCons(first: FsNode, rest: seq<FsNode>, q: seq<Name>)
    requires q != []
    ensures LookupIn([first] + rest, q) == if first.name == q[0] then Lookup(first, q[1..]) else LookupIn(rest, q)
  {
    assert ([first] + rest)[1..] == rest;
  }
}
