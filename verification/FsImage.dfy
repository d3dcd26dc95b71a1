// The file tree's byte image (kernel/src/fs.rs).
module FsImage {
  import opened Wrappers
  import opened Bytes

  type Name = seq<byte>

  datatype FsNode =
    | File(name: Name, content: seq<byte>)
    | Directory(name: Name, children: seq<FsNode>)
    | Device(name: Name)

  const ROOT: Name := [47]
  const PROC: Name := [112, 114, 111, 99]
  const DEV: Name := [100, 101, 118]

  predicate Synthetic(name: Name) {
    name == PROC || name == DEV
  }

  // ------------------------------------------------------------------- UTF-8

  predicate Tail(b: byte) {
    0x80 <= b <= 0xBF
  }

  // The length of the well-formed character at the front, 0 if there is none
  // (section 4 of RFC 3629).
  function CharLen(s: seq<byte>): (n: nat)
    ensures n <= |s|
  {
    if s == [] then 0
    else if s[0] <= 0x7F then 1
    else if |s| < 2 then 0
    else if 0xC2 <= s[0] <= 0xDF then if Tail(s[1]) then 2 else 0
    else if |s| < 3 then 0
    else if 0xE0 <= s[0] <= 0xEF then
      if Tail(s[1]) && Tail(s[2]) && (s[0] == 0xE0 ==> s[1] >= 0xA0) && (s[0] == 0xED ==> s[1] <= 0x9F) then 3 else 0
    else if |s| < 4 then 0
    else if 0xF0 <= s[0] <= 0xF4 then
      if Tail(s[1]) && Tail(s[2]) && Tail(s[3]) && (s[0] == 0xF0 ==> s[1] >= 0x90) && (s[0] == 0xF4 ==> s[1] <= 0x8F)
      then 4 else 0
    else 0
  }

  predicate Utf8(s: seq<byte>) {
    s == [] || (CharLen(s) > 0 && Utf8(s[CharLen(s)..]))
  }

  // Names in the tree are Rust strings.
  predicate NamesOk(node: FsNode) {
    Utf8(node.name) && (node.Directory? ==> forall c :: c in node.children ==> NamesOk(c))
  }

  // --------------------------------------------------------------- serialize

  // A length as the image stores it.
  function Len(n: nat): (s: seq<byte>)
    ensures |s| == 4
  {
    ToLe(n % 0x1_0000_0000, 4)
  }

  // A length and the bytes it counts.
  function Field(bytes: seq<byte>): (s: seq<byte>)
    ensures |s| == 4 + |bytes|
  {
    Len(|bytes|) + bytes
  }

  // What exists only in memory: everything in the process and device file
  // systems, and their directories in the root.
  predicate Skipped(parent: Name, child: FsNode) {
    Synthetic(parent) || (parent == ROOT && Synthetic(child.name))
  }

  function CountKept(parent: Name, children: seq<FsNode>): (n: nat)
    ensures n <= |children|
  {
    if children == [] then 0
    else (if Skipped(parent, children[0]) then 0 else 1) + CountKept(parent, children[1..])
  }

  function Serialize(node: FsNode): (s: seq<byte>)
    ensures |s| >= 5 + |node.name|
    decreases node
  {
    match node
    case File(name, content) => [1] + (Field(name) + Field(content))
    case Directory(name, children) =>
      [2] + (Field(name) + (Len(CountKept(name, children)) + SerializeAll(name, children)))
    case Device(name) => [3] + Field(name)
  }

  function SerializeAll(parent: Name, children: seq<FsNode>): (s: seq<byte>)
    ensures |s| >= CountKept(parent, children)
    decreases children
  {
    if children == [] then []
    else (if Skipped(parent, children[0]) then [] else Serialize(children[0])) + SerializeAll(parent, children[1..])
  }

  // What the image keeps of a tree.
  function Strip(node: FsNode): FsNode
    decreases node
  {
    match node
    case Directory(name, children) => Directory(name, StripAll(name, children))
    case _ => node
  }

  function StripAll(parent: Name, children: seq<FsNode>): (kept: seq<FsNode>)
    ensures |kept| == CountKept(parent, children)
    decreases children
  {
    if children == [] then []
    else (if Skipped(parent, children[0]) then [] else [Strip(children[0])]) + StripAll(parent, children[1..])
  }

  // ------------------------------------------------------------- deserialize

  // A node, no node, or an index out of range; with the offset reached.
  datatype Parse = Parsed(node: FsNode, offset: nat) | NoNode(offset: nat) | OutOfRange

  datatype ParseAll = ParsedAll(nodes: seq<FsNode>, offset: nat) | OutOfRangeAll

  // A length and as many bytes after it.
  datatype Chunk = Chunk(bytes: seq<byte>, offset: nat) | ChunkOutOfRange

  function ChunkAt(data: seq<byte>, offset: nat): (c: Chunk)
    ensures c.Chunk? ==> offset + 4 <= c.offset <= |data|
  {
    if offset + 4 > |data| then ChunkOutOfRange
    else
      var end := offset + 4 + LeAt(data, offset, 4);
      if end > |data| then ChunkOutOfRange else Chunk(data[offset + 4..end], end)
  }

  function Deserialize(data: seq<byte>, offset: nat): (r: Parse)
    ensures r.Parsed? ==> offset < r.offset <= |data|
    ensures r.NoNode? ==> offset <= r.offset
    ensures r.NoNode? && offset < |data| ==> offset < r.offset <= |data|
    ensures r.NoNode? && offset >= |data| ==> r.offset == offset
    decreases |data| - offset, 0
  {
    if offset >= |data| then NoNode(offset)
    else
      var typ := data[offset];
      if typ != 1 && typ != 2 && typ != 3 then NoNode(offset + 1)
      else
        var name := ChunkAt(data, offset + 1);
        if name.ChunkOutOfRange? then OutOfRange
        else if !Utf8(name.bytes) then NoNode(offset + 5)
        else Body(data, typ, name.bytes, name.offset)
  }

  // What follows the name.
  function Body(data: seq<byte>, typ: byte, name: Name, offset: nat): (r: Parse)
    requires offset <= |data|
    ensures r.Parsed? ==> offset <= r.offset <= |data|
    ensures !r.NoNode?
    decreases |data| - offset, 0
  {
    if typ == 1 then
      var content := ChunkAt(data, offset);
      if content.ChunkOutOfRange? then OutOfRange else Parsed(File(name, content.bytes), content.offset)
    else if typ == 2 then
      if offset + 4 > |data| then OutOfRange
      else
        var all := DeserializeAll(data, offset + 4, LeAt(data, offset, 4));
        if all.OutOfRangeAll? then OutOfRange else Parsed(Directory(name, all.nodes), all.offset)
    else Parsed(Device(name), offset)
  }

  // Children that are not there are passed over.
  function DeserializeAll(data: seq<byte>, offset: nat, count: nat): (r: ParseAll)
    ensures r.ParsedAll? ==> offset <= r.offset && (offset <= |data| ==> r.offset <= |data|)
    decreases |data| - offset, count + 1
  {
    if count == 0 then ParsedAll([], offset)
    else
      match Deserialize(data, offset)
      case OutOfRange => OutOfRangeAll
      case NoNode(next) => DeserializeAll(data, next, count - 1)
      case Parsed(node, next) =>
        match DeserializeAll(data, next, count - 1)
        case OutOfRangeAll => OutOfRangeAll
        case ParsedAll(nodes, end) => ParsedAll([node] + nodes, end)
  }

  // -------------------------------------------------------------- round trip

  // The data has this piece at this place.
  predicate Has(data: seq<byte>, at: nat, piece: seq<byte>) {
    at + |piece| <= |data| && data[at..at + |piece|] == piece
  }

  lemma HasParts(data: seq<byte>, at: nat, a: seq<byte>, b: seq<byte>)
    requires Has(data, at, a + b)
    ensures Has(data, at, a) && Has(data, at + |a|, b)
  {
    assert (a + b)[..|a|] == a && (a + b)[|a|..] == b;
    SubSlice(data, at, at + |a| + |b|, 0, |a|);
    SubSlice(data, at, at + |a| + |b|, |a|, |a| + |b|);
  }

  lemma LenAt(data: seq<byte>, at: nat, n: nat)
    requires Has(data, at, Len(n)) && n < 0x1_0000_0000
    ensures LeAt(data, at, 4) == n
  {
    hide LeAt, ToLe, Limit;
    Limits();
    LeRoundTrip(n, 4);
    assert Len(n) == ToLe(n, 4);
    hide Len;
    assert Len(n)[0..4] == Len(n);
    LeAtShifted(data, at, Len(n), 0, 4);
  }

  lemma ChunkRoundTrip(data: seq<byte>, at: nat, piece: seq<byte>)
    requires Has(data, at, Field(piece)) && |piece| < 0x1_0000_0000
    ensures ChunkAt(data, at) == Chunk(piece, at + 4 + |piece|)
  {
    HasParts(data, at, Len(|piece|), piece);
    LenAt(data, at, |piece|);
  }

  lemma TypeByte(data: seq<byte>, at: nat, typ: byte)
    requires Has(data, at, [typ])
    ensures at < |data| && data[at] == typ
  {
    assert data[at] == data[at..at + 1][0];
  }

  // The type and the name are read back, and the body comes next.
  lemma Opens(data: seq<byte>, at: nat, typ: byte, name: Name, body: seq<byte>)
    requires 1 <= typ <= 3 && Utf8(name) && |name| < 0x1_0000_0000 && Has(data, at, [typ] + (Field(name) + body))
    ensures at + 5 + |name| + |body| <= |data| && Has(data, at + 5 + |name|, body)
    ensures Deserialize(data, at) == Body(data, typ, name, at + 5 + |name|)
  {
    hide Utf8, Field, LeAt, ChunkAt, Body;
    HasParts(data, at, [typ], Field(name) + body);
    TypeByte(data, at, typ);
    HasParts(data, at + 1, Field(name), body);
    ChunkRoundTrip(data, at + 1, name);
  }

  // Reading an image back gives the kept part of the tree and stops exactly at
  // the image's end, whatever surrounds it.
  lemma {:induction false} RoundTrip(data: seq<byte>, at: nat, node: FsNode)
    requires NamesOk(node) && Has(data, at, Serialize(node)) && |Serialize(node)| < 0x1_0000_0000
    ensures Deserialize(data, at) == Parsed(Strip(node), at + |Serialize(node)|)
    decreases node, 1
  {
    match node
    case File(name, content) => FileRoundTrip(data, at, name, content);
    case Device(name) => DeviceRoundTrip(data, at, name);
    case Directory(name, children) => OpenDirectory(data, at, name, children);
  }

  lemma FileRoundTrip(data: seq<byte>, at: nat, name: Name, content: seq<byte>)
    requires Utf8(name) && Has(data, at, Serialize(File(name, content)))
    requires |name| < 0x1_0000_0000 && |content| < 0x1_0000_0000
    ensures Deserialize(data, at) == Parsed(File(name, content), at + |Serialize(File(name, content))|)
  {
    FileImage(name, content);
    hide *;
    FileBody(data, name, content, at + 5 + |name|);
    Opens(data, at, 1, name, Field(content));
  }

  lemma FileBody(data: seq<byte>, name: Name, content: seq<byte>, at: nat)
    ensures Has(data, at, Field(content)) && |content| < 0x1_0000_0000 ==>
              at <= |data| && Body(data, 1, name, at) == Parsed(File(name, content), at + 4 + |content|)
  {
    if Has(data, at, Field(content)) && |content| < 0x1_0000_0000 {
      ChunkRoundTrip(data, at, content);
      HasFits(data, at, Field(content));
      hide Has, Field, ChunkAt, DeserializeAll, LeAt;
    }
  }

  lemma DeviceRoundTrip(data: seq<byte>, at: nat, name: Name)
    requires Utf8(name) && Has(data, at, Serialize(Device(name))) && |name| < 0x1_0000_0000
    ensures Deserialize(data, at) == Parsed(Device(name), at + |Serialize(Device(name))|)
  {
    NothingAfter(name);
    Opens(data, at, 3, name, []);
    hide Utf8, Field, Deserialize, Has, ChunkAt, DeserializeAll, LeAt;
  }

  lemma {:induction false} OpenDirectory(data: seq<byte>, at: nat, name: Name, children: seq<FsNode>)
    requires var node := Directory(name, children);
             NamesOk(node) && Has(data, at, Serialize(node)) && |Serialize(node)| < 0x1_0000_0000
    ensures var node := Directory(name, children);
            Deserialize(data, at) == Parsed(Strip(node), at + |Serialize(node)|)
    decreases Directory(name, children), 0
  {
    var count, rest := CountKept(name, children), SerializeAll(name, children);
    DirectoryImage(name, children);
    hide *;
    Opens(data, at, 2, name, Len(count) + rest);
    DirectoryRoundTrip(data, at + 5 + |name|, name, children);
  }

  lemma FileImage(name: Name, content: seq<byte>)
    ensures Serialize(File(name, content)) == [1] + (Field(name) + Field(content))
  {
    hide Field, CountKept, SerializeAll, Len;
  }

  lemma DirectoryImage(name: Name, children: seq<FsNode>)
    ensures Serialize(Directory(name, children))
         == [2] + (Field(name) + (Len(CountKept(name, children)) + SerializeAll(name, children)))
    ensures Strip(Directory(name, children)) == Directory(name, StripAll(name, children))
    ensures NamesOk(Directory(name, children)) ==> Utf8(name) && forall c :: c in children ==> NamesOk(c)
  {
    hide Field, CountKept, SerializeAll, Len, StripAll, Utf8;
  }

  lemma NothingAfter(name: Name)
    ensures Field(name) + [] == Field(name)
  {
  }

  lemma {:induction false} DirectoryRoundTrip(data: seq<byte>, at: nat, name: Name, children: seq<FsNode>)
    requires forall c :: c in children ==> NamesOk(c)
    requires Has(data, at, Len(CountKept(name, children)) + SerializeAll(name, children))
    requires |SerializeAll(name, children)| < 0x1_0000_0000
    ensures at <= |data|
    ensures Body(data, 2, name, at)
         == Parsed(Directory(name, StripAll(name, children)), at + 4 + |SerializeAll(name, children)|)
    decreases children, 1
  {
    var count, rest := CountKept(name, children), SerializeAll(name, children);
    HasFits(data, at, Len(count) + rest);
    hide Len, LeAt, SerializeAll, NamesOk, CountKept, StripAll, DeserializeAll, Has;
    HasParts(data, at, Len(count), rest);
    LenAt(data, at, count);
    AllRoundTrip(data, at + 4, name, children);
  }

  lemma HasFits(data: seq<byte>, at: nat, piece: seq<byte>)
    requires Has(data, at, piece)
    ensures at + |piece| <= |data|
  {
  }

  lemma {:induction false} AllRoundTrip(data: seq<byte>, at: nat, parent: Name, children: seq<FsNode>)
    requires forall c :: c in children ==> NamesOk(c)
    requires Has(data, at, SerializeAll(parent, children)) && |SerializeAll(parent, children)| < 0x1_0000_0000
    ensures DeserializeAll(data, at, CountKept(parent, children))
         == ParsedAll(StripAll(parent, children), at + |SerializeAll(parent, children)|)
    decreases children, 0
  {
    AllUnfolds(parent, children);
    hide Has, Serialize, SerializeAll, Deserialize, Strip, StripAll, CountKept, NamesOk, Skipped, Utf8, DeserializeAll;
    if children != [] {
      var rest := SerializeAll(parent, children[1..]);
      if Skipped(parent, children[0]) {
        AllRoundTrip(data, at, parent, children[1..]);
      } else {
        var first := Serialize(children[0]);
        HasParts(data, at, first, rest);
        RoundTrip(data, at, children[0]);
        AllRoundTrip(data, at + |first|, parent, children[1..]);
        ReadsOneMore(data, at, CountKept(parent, children), Strip(children[0]), at + |first|,
                     StripAll(parent, children[1..]), at + |first| + |rest|);
      }
    } else {
      ReadsNone(data, at);
    }
  }

  lemma ReadsNone(data: seq<byte>, at: nat)
    ensures DeserializeAll(data, at, 0) == ParsedAll([], at)
  {
  }

  // One child at a time: what is written, counted and kept.
  lemma AllUnfolds(parent: Name, children: seq<FsNode>)
    ensures children == [] ==>
              && SerializeAll(parent, children) == [] && CountKept(parent, children) == 0
              && StripAll(parent, children) == []
    ensures children != [] && Skipped(parent, children[0]) ==>
              && SerializeAll(parent, children) == SerializeAll(parent, children[1..])
              && CountKept(parent, children) == CountKept(parent, children[1..])
              && StripAll(parent, children) == StripAll(parent, children[1..])
    ensures children != [] && !Skipped(parent, children[0]) ==>
              && SerializeAll(parent, children) == Serialize(children[0]) + SerializeAll(parent, children[1..])
              && CountKept(parent, children) == 1 + CountKept(parent, children[1..])
              && StripAll(parent, children) == [Strip(children[0])] + StripAll(parent, children[1..])
  {
    hide *;
    SerializeUnfolds(parent, children);
    CountUnfolds(parent, children);
    StripUnfolds(parent, children);
  }

  lemma SerializeUnfolds(parent: Name, children: seq<FsNode>)
    ensures SerializeAll(parent, children) ==
              if children == [] then []
              else if Skipped(parent, children[0]) then SerializeAll(parent, children[1..])
              else Serialize(children[0]) + SerializeAll(parent, children[1..])
  {
    hide Serialize, CountKept, StripAll, Strip, Skipped;
  }

  lemma CountUnfolds(parent: Name, children: seq<FsNode>)
    ensures CountKept(parent, children) ==
              if children == [] then 0
              else if Skipped(parent, children[0]) then CountKept(parent, children[1..])
              else 1 + CountKept(parent, children[1..])
  {
    hide Serialize, SerializeAll, StripAll, Strip, Skipped;
  }

  lemma StripUnfolds(parent: Name, children: seq<FsNode>)
    ensures StripAll(parent, children) ==
              if children == [] then []
              else if Skipped(parent, children[0]) then StripAll(parent, children[1..])
              else [Strip(children[0])] + StripAll(parent, children[1..])
  {
    hide Serialize, SerializeAll, CountKept, Strip, Skipped;
  }

  lemma ReadsOneMore(data: seq<byte>, at: nat, count: nat, node: FsNode, next: nat, nodes: seq<FsNode>, end: nat)
    requires count > 0 && Deserialize(data, at) == Parsed(node, next)
    requires DeserializeAll(data, next, count - 1) == ParsedAll(nodes, end)
    ensures DeserializeAll(data, at, count) == ParsedAll([node] + nodes, end)
  {
    hide Deserialize;
  }

  // Storing what was loaded changes nothing.
  lemma {:induction false} StripTwice(node: FsNode)
    ensures Strip(Strip(node)) == Strip(node) && Serialize(Strip(node)) == Serialize(node)
    ensures NamesOk(node) ==> NamesOk(Strip(node))
    decreases node
  {
    if node.Directory? { StripAllTwice(node.name, node.children); }
  }

  lemma {:induction false} StripAllTwice(parent: Name, children: seq<FsNode>)
    ensures StripAll(parent, StripAll(parent, children)) == StripAll(parent, children)
    ensures SerializeAll(parent, StripAll(parent, children)) == SerializeAll(parent, children)
    ensures CountKept(parent, StripAll(parent, children)) == CountKept(parent, children)
    ensures (forall c :: c in children ==> NamesOk(c)) ==> forall c :: c in StripAll(parent, children) ==> NamesOk(c)
    decreases children
  {
    if children != [] {
      StripAllTwice(parent, children[1..]);
      if Skipped(parent, children[0]) {
        assert StripAll(parent, children) == StripAll(parent, children[1..]);
      } else {
        StripTwice(children[0]);
        assert StripAll(parent, children)[0] == Strip(children[0]);
        assert StripAll(parent, children)[1..] == StripAll(parent, children[1..]);
      }
    }
  }
}
