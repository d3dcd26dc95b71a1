// The file tree as a map from paths to directories and bytes (kernel/src/fs.rs).
module Vfs {
  import opened Wrappers
  import opened Bytes
  import opened FsImage

  const SLASH: byte := 47

  datatype VfsError = IsRoot | BadPath | NoParent | Exists | NotAFile | NotFound

  // -------------------------------------------------------------------- paths

  function Flush(part: Name): seq<Name> {
    if part == [] then [] else [part]
  }

  // The components between slashes; empty ones are dropped.
  function SplitFrom(path: seq<byte>, part: Name): seq<Name>
    decreases |path|
  {
    if path == [] then Flush(part)
    else if path[0] == SLASH then Flush(part) + SplitFrom(path[1..], [])
    else SplitFrom(path[1..], part + [path[0]])
  }

  function Split(path: seq<byte>): seq<Name> {
    SplitFrom(path, [])
  }

  function Join(parts: seq<Name>): seq<byte> {
    if parts == [] then [] else Join(parts[..|parts| - 1]) + [SLASH] + parts[|parts| - 1]
  }

  predicate Proper(part: Name) {
    part != [] && SLASH !in part
  }

  lemma {:induction false} SplitIsProper(path: seq<byte>, part: Name)
    requires SLASH !in part
    ensures forall p :: p in SplitFrom(path, part) ==> Proper(p)
    decreases |path|
  {
    if path != [] {
      if path[0] == SLASH { SplitIsProper(path[1..], []); } else { SplitIsProper(path[1..], part + [path[0]]); }
    }
  }

  lemma {:induction false} SplitPart(part: Name, rest: seq<byte>, begun: Name)
    requires SLASH !in part
    ensures SplitFrom(part + rest, begun) == SplitFrom(rest, begun + part)
  {
    if part == [] {
      assert part + rest == rest && begun + part == begun;
    } else {
      assert (part + rest)[1..] == part[1..] + rest;
      assert begun + [part[0]] + part[1..] == begun + part;
      SplitPart(part[1..], rest, begun + [part[0]]);
    }
  }

  lemma SplitOne(part: Name, rest: seq<byte>)
    requires Proper(part) && (rest == [] || rest[0] == SLASH)
    ensures Split([SLASH] + (part + rest)) == [part] + Split(rest)
  {
    var path := [SLASH] + (part + rest);
    assert path[1..] == part + rest;
    assert Split(path) == SplitFrom(part + rest, []);
    SplitPart(part, rest, []);
    assert [] + part == part;
    EndsPart(rest, part);
  }

  lemma {:induction false} SplitJoined(parts: seq<Name>, rest: seq<byte>)
    requires forall p :: p in parts ==> Proper(p)
    requires rest == [] || rest[0] == SLASH
    ensures Split(Join(parts) + rest) == parts + Split(rest)
    decreases parts
  {
    hide Split, Proper;
    if parts == [] {
      assert Join(parts) + rest == rest;
    } else {
      var init, last := parts[..|parts| - 1], parts[|parts| - 1];
      assert last in parts;
      JoinLast(parts, rest);
      SplitJoined(init, [SLASH] + (last + rest));
      SplitOne(last, rest);
      assert parts == init + [last];
    }
  }

  lemma JoinLast(parts: seq<Name>, rest: seq<byte>)
    requires parts != []
    ensures Join(parts) + rest == Join(parts[..|parts| - 1]) + ([SLASH] + (parts[|parts| - 1] + rest))
  {
    var init, last := parts[..|parts| - 1], parts[|parts| - 1];
    Regroup(Join(init) + [SLASH], last, rest);
    Regroup(Join(init), [SLASH], last + rest);
  }

  lemma EndsPart(rest: seq<byte>, part: Name)
    requires part != [] && (rest == [] || rest[0] == SLASH)
    ensures SplitFrom(rest, part) == [part] + Split(rest)
  {
  }

  lemma {:induction false} SplitFromSlash(path: seq<byte>, part: Name, rest: seq<byte>)
    ensures SplitFrom(path + [SLASH] + rest, part) == SplitFrom(path, part) + Split(rest)
    decreases |path|
  {
    var whole := path + [SLASH] + rest;
    if path == [] {
      assert whole[1..] == rest;
    } else {
      assert whole[1..] == path[1..] + [SLASH] + rest;
      SplitFromSlash(path[1..], if path[0] == SLASH then [] else part + [path[0]], rest);
    }
  }

  // Splitting is what these three laws say: nothing gives nothing, text without a
  // slash gives itself, and a slash divides.
  lemma SplitLaws(part: Name, path: seq<byte>, rest: seq<byte>)
    ensures Split([]) == []
    ensures Proper(part) ==> Split(part) == [part]
    ensures Split(path + [SLASH] + rest) == Split(path) + Split(rest)
  {
    SplitFromSlash(path, [], rest);
    if Proper(part) {
      SplitPart(part, [], []);
      assert part + [] == part && [] + part == part;
    }
  }

  // Splitting a joined path gives back its components.
  lemma SplitOfJoin(parts: seq<Name>)
    requires forall p :: p in parts ==> Proper(p)
    ensures Split(Join(parts)) == parts
  {
    SplitJoined(parts, []);
    assert Join(parts) + [] == Join(parts);
  }

  // --------------------------------------------------------------- the tree

  // The first child with this name, or past the end.
  function FirstNamed(children: seq<FsNode>, name: Name): (i: nat)
    ensures i <= |children|
    ensures i < |children| ==> children[i].name == name
    ensures forall k :: 0 <= k < i ==> children[k].name != name
  {
    if children == [] || children[0].name == name then 0 else 1 + FirstNamed(children[1..], name)
  }

  // The first directory with this name.
  function FirstDir(children: seq<FsNode>, name: Name): (i: nat)
    ensures i <= |children|
    ensures i < |children| ==> children[i].name == name && children[i].Directory?
    ensures forall k :: 0 <= k < i ==> !(children[k].name == name && children[k].Directory?)
  {
    if children == [] || (children[0].name == name && children[0].Directory?) then 0
    else 1 + FirstDir(children[1..], name)
  }

  // The children of the directory that find_dir finds.
  function ChildrenAt(node: FsNode, parts: seq<Name>): Option<seq<FsNode>>
    decreases parts
  {
    if !node.Directory? then None
    else if parts == [] then Some(node.children)
    else
      var i := FirstDir(node.children, parts[0]);
      if i < |node.children| then ChildrenAt(node.children[i], parts[1..]) else None
  }

  // The tree with other children in that directory.
  function WithChildren(node: FsNode, parts: seq<Name>, children: seq<FsNode>): FsNode
    requires ChildrenAt(node, parts).Some?
    decreases parts
  {
    if parts == [] then Directory(node.name, children)
    else
      var i := FirstDir(node.children, parts[0]);
      Directory(node.name, node.children[i := WithChildren(node.children[i], parts[1..], children)])
  }

  predicate DistinctNames(children: seq<FsNode>) {
    forall i, j :: 0 <= i < j < |children| ==> children[i].name != children[j].name
  }

  // No two siblings share a name.
  predicate Unique(node: FsNode) {
    node.Directory? ==> DistinctNames(node.children) && forall c :: c in node.children ==> Unique(c)
  }

  predicate AllUnique(children: seq<FsNode>) {
    DistinctNames(children) && forall c :: c in children ==> Unique(c)
  }

  // ---------------------------------------------------------------- the map

  datatype Entry = Dir | Bytes(content: seq<byte>) | Dev

  function EntryOf(node: FsNode): Entry {
    match node
    case File(_, content) => Bytes(content)
    case Directory(_, _) => Dir
    case Device(_) => Dev
  }

  // What a list of components leads to.
  function Lookup(node: FsNode, q: seq<Name>): Option<Entry>
    decreases |q|, 1
  {
    if q == [] then Some(EntryOf(node))
    else if node.Directory? then LookupIn(node.children, q)
    else None
  }

  function LookupIn(children: seq<FsNode>, q: seq<Name>): Option<Entry>
    requires q != []
    decreases |q|, 0
  {
    var i := FirstNamed(children, q[0]);
    if i < |children| then Lookup(children[i], q[1..]) else None
  }

  lemma NamedIs(children: seq<FsNode>, i: nat)
    requires DistinctNames(children) && i < |children|
    ensures FirstNamed(children, children[i].name) == i
    ensures children[i].Directory? ==> FirstDir(children, children[i].name) == i
  {
  }

  lemma NamedNone(children: seq<FsNode>, name: Name)
    requires forall c :: c in children ==> c.name != name
    ensures FirstNamed(children, name) == |children|
  {
  }

  // A directory is found where the map has one.
  lemma {:induction false} FoundIsDir(node: FsNode, parts: seq<Name>)
    requires Unique(node)
    ensures ChildrenAt(node, parts).Some? <==> Lookup(node, parts) == Some(Dir)
    ensures ChildrenAt(node, parts).Some? ==> AllUnique(ChildrenAt(node, parts).value)
    decreases parts
  {
    if parts != [] && node.Directory? {
      var i := FirstNamed(node.children, parts[0]);
      if i < |node.children| {
        NamedIs(node.children, i);
        if node.children[i].Directory? {
          FoundIsDir(node.children[i], parts[1..]);
        } else {
          var k := FirstDir(node.children, parts[0]);
          assert k == |node.children|;
          assert Lookup(node, parts) == Lookup(node.children[i], parts[1..]);
          assert parts[1..] != [] ==> Lookup(node.children[i], parts[1..]).None?;
        }
      } else {
        assert FirstDir(node.children, parts[0]) == |node.children|;
      }
    }
  }

  // Below a directory the map is given by its children.
  lemma {:induction false} LookupBelow(node: FsNode, parts: seq<Name>, q: seq<Name>)
    requires Unique(node) && ChildrenAt(node, parts).Some? && parts < q
    ensures q[|parts|..] != [] && Lookup(node, q) == LookupIn(ChildrenAt(node, parts).value, q[|parts|..])
    decreases parts
  {
    if parts != [] {
      var i := FirstDir(node.children, parts[0]);
      NamedIs(node.children, i);
      LookupBelow(node.children[i], parts[1..], q[1..]);
      assert q[1..][|parts| - 1..] == q[|parts|..];
    } else {
      assert q[0..] == q;
    }
  }

  // Other children in one directory change the map below that directory only.
  lemma {:induction false} WithChildrenLookup(node: FsNode, parts: seq<Name>, children: seq<FsNode>, q: seq<Name>)
    requires Unique(node) && ChildrenAt(node, parts).Some? && AllUnique(children)
    ensures WithChildren(node, parts, children).name == node.name && Unique(WithChildren(node, parts, children))
    ensures ChildrenAt(WithChildren(node, parts, children), parts) == Some(children)
    ensures !(parts < q) ==> Lookup(WithChildren(node, parts, children), q) == Lookup(node, q)
    decreases parts
  {
    if parts != [] {
      var i := FirstDir(node.children, parts[0]);
      var below := WithChildren(node.children[i], parts[1..], children);
      NamedIs(node.children, i);
      WithChildrenLookup(node.children[i], parts[1..], children, if q == [] then [] else q[1..]);
      var changed := node.children[i := below];
      assert DistinctNames(changed);
      NamedIs(changed, i);
      hide DistinctNames;
      if q != [] {
        var k := FirstNamed(node.children, q[0]);
        if k < |node.children| { NamedIs(changed, k); } else { NamedNone(changed, q[0]); }
      }
    }
  }

  // -------------------------------------------------- what the operations do

  // The new name in a directory without it.
  lemma AddedChild(children: seq<FsNode>, c: FsNode, q: seq<Name>)
    requires AllUnique(children) && Unique(c) && FirstNamed(children, c.name) == |children| && q != []
    ensures AllUnique(children + [c])
    ensures LookupIn(children + [c], q) == if q[0] == c.name then Lookup(c, q[1..]) else LookupIn(children, q)
  {
    var more := children + [c];
    assert DistinctNames(more);
    NamedIs(more, |children|);
    var k := FirstNamed(children, q[0]);
    if k < |children| {
      assert more[k] == children[k];
      NamedIs(more, k);
    } else if q[0] != c.name {
      NamedNone(more, q[0]);
    }
  }

  lemma ReplacedChild(children: seq<FsNode>, i: nat, c: FsNode, q: seq<Name>)
    requires AllUnique(children) && Unique(c) && i < |children| && c.name == children[i].name && q != []
    ensures AllUnique(children[i := c])
    ensures LookupIn(children[i := c], q) == if q[0] == c.name then Lookup(c, q[1..]) else LookupIn(children, q)
  {
    var more := children[i := c];
    assert DistinctNames(more);
    NamedIs(more, i);
    var k := FirstNamed(children, q[0]);
    if k < |children| { NamedIs(more, k); } else { NamedNone(more, q[0]); }
  }

  lemma RemovedChild(children: seq<FsNode>, i: nat, q: seq<Name>)
    requires AllUnique(children) && i < |children| && q != []
    ensures AllUnique(children[..i] + children[i + 1..])
    ensures LookupIn(children[..i] + children[i + 1..], q)
         == if q[0] == children[i].name then None else LookupIn(children, q)
  {
    var fewer := children[..i] + children[i + 1..];
    assert forall k :: 0 <= k < |fewer| ==> fewer[k] == children[if k < i then k else k + 1];
    assert DistinctNames(fewer);
    assert AllUnique(fewer);
    hide AllUnique, Unique, Lookup;
    RemovedLookup(children, i, q);
  }

  lemma RemovedLookup(children: seq<FsNode>, i: nat, q: seq<Name>)
    requires i < |children| && q != [] && DistinctNames(children) && DistinctNames(children[..i] + children[i + 1..])
    ensures LookupIn(children[..i] + children[i + 1..], q)
         == if q[0] == children[i].name then None else LookupIn(children, q)
  {
    hide Lookup, DistinctNames, FirstNamed;
    var fewer := children[..i] + children[i + 1..];
    if FirstNamed(children, q[0]) < |children| && children[i].name != q[0] {
      StillNamed(children, i, q[0]);
    } else {
      OthersDiffer(children, i, q[0]);
      NamedNone(fewer, q[0]);
    }
  }

  // Removing another child moves the one of this name by at most one place.
  lemma StillNamed(children: seq<FsNode>, i: nat, name: Name)
    requires i < |children| && FirstNamed(children, name) < |children| && children[i].name != name
    requires DistinctNames(children[..i] + children[i + 1..])
    ensures var fewer := children[..i] + children[i + 1..];
            && FirstNamed(fewer, name) < |fewer|
            && fewer[FirstNamed(fewer, name)] == children[FirstNamed(children, name)]
  {
    var fewer := children[..i] + children[i + 1..];
    var k := FirstNamed(children, name);
    hide DistinctNames;
    assert children[k].name == name;
    assert fewer[if k < i then k else k - 1] == children[k];
    NamedIs(fewer, if k < i then k else k - 1);
  }

  lemma OthersDiffer(children: seq<FsNode>, i: nat, name: Name)
    requires i < |children| && DistinctNames(children)
    requires FirstNamed(children, name) == |children| || children[i].name == name
    ensures var fewer := children[..i] + children[i + 1..];
            forall j :: 0 <= j < |fewer| ==> fewer[j].name != name
  {
    var fewer := children[..i] + children[i + 1..];
    assert forall k :: 0 <= k < |fewer| ==> fewer[k] == children[if k < i then k else k + 1];
  }

  // The map after one key has been set.
  ghost predicate OneKeySet(before: FsNode, after: FsNode, key: seq<Name>, entry: Entry) {
    forall q :: Lookup(after, q) == if q == key then Some(entry) else Lookup(before, q)
  }

  // The map after a subtree has been dropped.
  ghost predicate SubtreeDropped(before: FsNode, after: FsNode, key: seq<Name>) {
    forall q :: Lookup(after, q) == if key <= q then None else Lookup(before, q)
  }

  function Parent(parts: seq<Name>): seq<Name>
    requires parts != []
  {
    parts[..|parts| - 1]
  }

  function Last(parts: seq<Name>): Name
    requires parts != []
  {
    parts[|parts| - 1]
  }

  // A key in the map, seen from the directory above it.
  lemma LookupLast(root: FsNode, parts: seq<Name>)
    requires Unique(root) && parts != [] && ChildrenAt(root, Parent(parts)).Some?
    ensures var ch := ChildrenAt(root, Parent(parts)).value; var i := FirstNamed(ch, Last(parts));
            Lookup(root, parts) == if i < |ch| then Some(EntryOf(ch[i])) else None
  {
    LookupBelow(root, Parent(parts), parts);
    assert parts[|parts| - 1..] == [Last(parts)];
  }

  // Without a directory above there is nothing at the key.
  lemma {:induction false} NoParentNoEntry(node: FsNode, parts: seq<Name>)
    requires Unique(node) && parts != [] && ChildrenAt(node, Parent(parts)).None?
    ensures Lookup(node, parts).None?
    decreases parts
  {
    if node.Directory? && |parts| > 1 {
      var i := FirstNamed(node.children, parts[0]);
      if i < |node.children| {
        NamedIs(node.children, i);
        assert Parent(parts)[1..] == Parent(parts[1..]) && Parent(parts)[0] == parts[0];
        assert Lookup(node, parts) == Lookup(node.children[i], parts[1..]);
        if node.children[i].Directory? {
          NoParentNoEntry(node.children[i], parts[1..]);
        }
      }
    }
  }

  // Setting a leaf entry in a directory sets one key of the map.
  lemma KeySet(root: FsNode, parts: seq<Name>, children: seq<FsNode>, c: FsNode)
    requires Unique(root) && parts != [] && ChildrenAt(root, Parent(parts)).Some? && AllUnique(children)
    requires c.name == Last(parts) && (c.Directory? ==> c.children == [])
    requires var was := ChildrenAt(root, Parent(parts)).value;
             && (FirstNamed(was, c.name) < |was| ==> !was[FirstNamed(was, c.name)].Directory?)
             && forall q :: q != [] ==>
                  LookupIn(children, q) == if q[0] == c.name then Lookup(c, q[1..]) else LookupIn(was, q)
    ensures Unique(WithChildren(root, Parent(parts), children))
    ensures OneKeySet(root, WithChildren(root, Parent(parts), children), parts, EntryOf(c))
  {
    var up := Parent(parts);
    var was := ChildrenAt(root, up).value;
    var after := WithChildren(root, up, children);
    hide Lookup, LookupIn, Unique, AllUnique, ChildrenAt, WithChildren;
    forall q
      ensures Lookup(after, q) == if q == parts then Some(EntryOf(c)) else Lookup(root, q)
    {
      WithChildrenLookup(root, up, children, q);
      if up < q {
        KeySetAt(root, parts, children, c, q);
      }
    }
    WithChildrenLookup(root, up, children, []);
  }

  lemma KeySetAt(root: FsNode, parts: seq<Name>, children: seq<FsNode>, c: FsNode, q: seq<Name>)
    requires Unique(root) && parts != [] && ChildrenAt(root, Parent(parts)).Some? && AllUnique(children)
    requires Parent(parts) < q && c.name == Last(parts) && (c.Directory? ==> c.children == [])
    requires var was := ChildrenAt(root, Parent(parts)).value; var below := q[|parts| - 1..];
             && (FirstNamed(was, c.name) < |was| ==> !was[FirstNamed(was, c.name)].Directory?)
             && below != []
             && LookupIn(children, below) == if below[0] == c.name then Lookup(c, below[1..]) else LookupIn(was, below)
    ensures Lookup(WithChildren(root, Parent(parts), children), q)
         == if q == parts then Some(EntryOf(c)) else Lookup(root, q)
  {
    hide Lookup, LookupIn, Unique, AllUnique, ChildrenAt, WithChildren;
    var up := Parent(parts);
    WithChildrenLookup(root, up, children, q);
    LookupBelow(root, up, q);
    LookupBelow(WithChildren(root, up, children), up, q);
    KeySetBelow(ChildrenAt(root, up).value, children, c, q[|up|..]);
    assert q == up + q[|up|..] && parts == up + [c.name];
  }

  lemma KeySetBelow(was: seq<FsNode>, children: seq<FsNode>, c: FsNode, below: seq<Name>)
    requires below != [] && (c.Directory? ==> c.children == [])
    requires FirstNamed(was, c.name) < |was| ==> !was[FirstNamed(was, c.name)].Directory?
    requires LookupIn(children, below) == if below[0] == c.name then Lookup(c, below[1..]) else LookupIn(was, below)
    ensures LookupIn(children, below) == if below == [c.name] then Some(EntryOf(c)) else LookupIn(was, below)
  {
    if below[0] == c.name {
      assert below == [c.name] + below[1..];
      LeafBelow(c, was, below);
    }
  }

  // Below a leaf, and below what is not a directory, there is nothing.
  lemma LeafBelow(c: FsNode, was: seq<FsNode>, below: seq<Name>)
    requires (c.Directory? ==> c.children == []) && below != [] && below[0] == c.name
    requires FirstNamed(was, c.name) < |was| ==> !was[FirstNamed(was, c.name)].Directory?
    ensures below[1..] == [] ==> Lookup(c, below[1..]) == Some(EntryOf(c))
    ensures below[1..] != [] ==> Lookup(c, below[1..]).None? && LookupIn(was, below).None?
  {
  }

  lemma KeyDropped(root: FsNode, parts: seq<Name>, i: nat)
    requires Unique(root) && parts != [] && ChildrenAt(root, Parent(parts)).Some?
    requires var was := ChildrenAt(root, Parent(parts)).value; i < |was| && was[i].name == Last(parts)
    ensures var was := ChildrenAt(root, Parent(parts)).value;
            var after := WithChildren(root, Parent(parts), was[..i] + was[i + 1..]);
            Unique(after) && SubtreeDropped(root, after, parts)
  {
    var up := Parent(parts);
    FoundIsDir(root, up);
    var was := ChildrenAt(root, up).value;
    var fewer := was[..i] + was[i + 1..];
    hide Lookup, LookupIn, Unique, AllUnique, ChildrenAt, WithChildren;
    RemovedChild(was, i, [Last(parts)]);
    WithChildrenLookup(root, up, fewer, []);
    forall q
      ensures Lookup(WithChildren(root, up, fewer), q) == if parts <= q then None else Lookup(root, q)
    {
      WithChildrenLookup(root, up, fewer, q);
      if up < q {
        KeyDroppedAt(root, parts, i, q);
      }
    }
  }

  lemma KeyDroppedAt(root: FsNode, parts: seq<Name>, i: nat, q: seq<Name>)
    requires Unique(root) && parts != [] && ChildrenAt(root, Parent(parts)).Some? && Parent(parts) < q
    requires var was := ChildrenAt(root, Parent(parts)).value;
             AllUnique(was) && i < |was| && was[i].name == Last(parts) && AllUnique(was[..i] + was[i + 1..])
    ensures var was := ChildrenAt(root, Parent(parts)).value;
            Lookup(WithChildren(root, Parent(parts), was[..i] + was[i + 1..]), q)
            == if parts <= q then None else Lookup(root, q)
  {
    var up := Parent(parts);
    var was := ChildrenAt(root, up).value;
    var fewer := was[..i] + was[i + 1..];
    hide Lookup, LookupIn, Unique, AllUnique, ChildrenAt, WithChildren;
    WithChildrenLookup(root, up, fewer, q);
    LookupBelow(root, up, q);
    LookupBelow(WithChildren(root, up, fewer), up, q);
    RemovedChild(was, i, q[|up|..]);
    PrefixAt(parts, q);
  }

  lemma PrefixAt(parts: seq<Name>, q: seq<Name>)
    requires parts != [] && Parent(parts) < q
    ensures parts <= q <==> q[|parts| - 1] == Last(parts)
  {
    assert parts == Parent(parts) + [Last(parts)];
    assert q[..|parts| - 1] == Parent(parts);
  }
}
