// The format of the file tree's image, described by where everything stands, and of
// the names in it (kernel/src/fs.rs).
module FsFormat {
  import opened Wrappers
  import opened Bytes
  import opened FsImage

  // ------------------------------------------------------------------- format

  // A text stands behind its 32-bit length.
  ghost predicate Text(s: seq<byte>, at: nat, t: seq<byte>, end: nat) {
    && |t| < 0x1_0000_0000 && end == at + 4 + |t| <= |s|
    && Digits(s, at, |t|, 4) && s[at + 4..end] == t
  }

  // The bytes from `at` to `end` are a node: its kind, its name, and then a file's
  // content or the number of a directory's children and the children themselves.
  ghost predicate Stands(s: seq<byte>, at: nat, node: FsNode, end: nat)
    decreases node, 1
  {
    && at < end <= |s|
    && match node
       case File(name, content) =>
         s[at] == 1 && Text(s, at + 1, name, at + 5 + |name|) && Text(s, at + 5 + |name|, content, end)
       case Directory(name, children) =>
         && s[at] == 2 && Text(s, at + 1, name, at + 5 + |name|)
         && |children| < 0x1_0000_0000 && Digits(s, at + 5 + |name|, |children|, 4)
         && AllStand(s, at + 9 + |name|, children, end)
       case Device(name) => s[at] == 3 && Text(s, at + 1, name, end)
  }

  ghost predicate AllStand(s: seq<byte>, at: nat, children: seq<FsNode>, end: nat)
    decreases children
  {
    && at <= end <= |s|
    && if children == [] then at == end
       else exists next :: Stands(s, at, children[0], next) && AllStand(s, next, children[1..], end)
  }

  // ------------------------------------------------------- the writer follows it

  lemma FieldIsText(s: seq<byte>, at: nat, t: seq<byte>)
    requires Has(s, at, Field(t)) && |t| < 0x1_0000_0000
    ensures Text(s, at, t, at + 4 + |t|)
  {
    HasParts(s, at, Len(|t|), t);
    LenIsDigits(s, at, |t|);
    hide Len, Digits;
  }

  lemma LenIsDigits(s: seq<byte>, at: nat, n: nat)
    requires Has(s, at, Len(n)) && n < 0x1_0000_0000
    ensures Digits(s, at, n, 4)
  {
    assert s[at..at + 4] == ToLe(n, 4);
    hide Len, ToLe, Digits;
    WrittenDigits(s, at, n, 4);
  }

  // The image of a tree is the part that is kept of it, in this format.
  lemma {:induction false} ImageStands(s: seq<byte>, at: nat, node: FsNode)
    requires Has(s, at, Serialize(node)) && |Serialize(node)| < 0x1_0000_0000
    ensures Stands(s, at, Strip(node), at + |Serialize(node)|)
    decreases node, 1
  {
    match node
    case File(name, content) => { hide Has, Serialize, Stands; FileStands(s, at, name, content); }
    case Device(name) => { hide Has, Serialize, Stands; DeviceStands(s, at, name); }
    case Directory(name, children) => { hide Has, Serialize, Stands; DirectoryStands(s, at, name, children); }
  }

  lemma FileStands(s: seq<byte>, at: nat, name: Name, content: seq<byte>)
    requires Has(s, at, Serialize(File(name, content))) && |Serialize(File(name, content))| < 0x1_0000_0000
    ensures Stands(s, at, File(name, content), at + |Serialize(File(name, content))|)
  {
    hide *;
    FileImage(name, content);
    HasParts(s, at, [1], Field(name) + Field(content));
    TypeByte(s, at, 1);
    HasParts(s, at + 1, Field(name), Field(content));
    FieldIsText(s, at + 1, name);
    FieldIsText(s, at + 5 + |name|, content);
    HasFitsHere(s, at + 5 + |name|, content);
    FileIs(s, at, name, content);
  }

  lemma FileIs(s: seq<byte>, at: nat, name: Name, content: seq<byte>)
    requires at < |s| && s[at] == 1 && Text(s, at + 1, name, at + 5 + |name|)
    requires Text(s, at + 5 + |name|, content, at + 9 + |name| + |content|) && at + 9 + |name| + |content| <= |s|
    ensures Stands(s, at, File(name, content), at + 9 + |name| + |content|)
  {
    hide Text;
  }

  lemma HasFitsHere(s: seq<byte>, at: nat, t: seq<byte>)
    requires Text(s, at, t, at + 4 + |t|)
    ensures at + 4 + |t| <= |s|
  {
  }

  lemma DeviceStands(s: seq<byte>, at: nat, name: Name)
    requires Has(s, at, Serialize(Device(name))) && |Serialize(Device(name))| < 0x1_0000_0000
    ensures Stands(s, at, Device(name), at + |Serialize(Device(name))|)
  {
    HasParts(s, at, [3], Field(name));
    TypeByte(s, at, 3);
    FieldIsText(s, at + 1, name);
    hide Field, Text, Has;
    HasFitsHere(s, at + 1, name);
  }

  lemma {:induction false} DirectoryStands(s: seq<byte>, at: nat, name: Name, children: seq<FsNode>)
    requires var node := Directory(name, children);
             Has(s, at, Serialize(node)) && |Serialize(node)| < 0x1_0000_0000
    ensures var node := Directory(name, children); Stands(s, at, Strip(node), at + |Serialize(node)|)
    decreases Directory(name, children), 0
  {
    var count, rest := CountKept(name, children), SerializeAll(name, children);
    DirectoryImage(name, children);
    hide Serialize, SerializeAll, CountKept, Strip, StripAll, Has, Text, Digits, Field, Len, AllStand;
    HasParts(s, at, [2], Field(name) + (Len(count) + rest));
    TypeByte(s, at, 2);
    HasParts(s, at + 1, Field(name), Len(count) + rest);
    HasParts(s, at + 5 + |name|, Len(count), rest);
    FieldIsText(s, at + 1, name);
    LenIsDigits(s, at + 5 + |name|, count);
    HasFits(s, at + 9 + |name|, rest);
    ChildrenStand(s, at + 9 + |name|, name, children);
  }

  lemma {:induction false} ChildrenStand(s: seq<byte>, at: nat, parent: Name, children: seq<FsNode>)
    requires Has(s, at, SerializeAll(parent, children)) && |SerializeAll(parent, children)| < 0x1_0000_0000
    ensures AllStand(s, at, StripAll(parent, children), at + |SerializeAll(parent, children)|)
    decreases children, 0
  {
    hide *;
    AllUnfolds(parent, children);
    HasFits(s, at, SerializeAll(parent, children));
    if children == [] {
      NoneStand(s, at);
    } else if Skipped(parent, children[0]) {
      ChildrenStand(s, at, parent, children[1..]);
    } else {
      var first, rest := Serialize(children[0]), SerializeAll(parent, children[1..]);
      HasParts(s, at, first, rest);
      ImageStands(s, at, children[0]);
      ChildrenStand(s, at + |first|, parent, children[1..]);
      OneMoreStands(s, at, Strip(children[0]), at + |first|, StripAll(parent, children[1..]),
                    at + |first| + |rest|);
    }
  }

  lemma NoneStand(s: seq<byte>, at: nat)
    requires at <= |s|
    ensures AllStand(s, at, [], at)
  {
  }

  lemma OneMoreStands(s: seq<byte>, at: nat, node: FsNode, next: nat, more: seq<FsNode>, end: nat)
    requires Stands(s, at, node, next) && AllStand(s, next, more, end)
    ensures AllStand(s, at, [node] + more, end)
  {
    assert at < next by { hide AllStand; }
    assert next <= end <= |s| by { hide Stands; }
    hide Stands;
    assert ([node] + more)[0] == node && ([node] + more)[1..] == more;
  }

  // ------------------------------------------------------- the reader follows it

  lemma TextReadsBack(s: seq<byte>, at: nat, t: seq<byte>, end: nat)
    requires Text(s, at, t, end)
    ensures ChunkAt(s, at) == Chunk(t, end)
  {
    DigitsReadBack(s, at, |t|, 4);
    hide LeAt, Digits;
  }

  // Whatever wrote it: where a tree stands whose names are text, it is read.
  lemma {:induction false} StandingIsRead(s: seq<byte>, at: nat, node: FsNode, end: nat)
    requires NamesOk(node) && Stands(s, at, node, end)
    ensures Deserialize(s, at) == Parsed(node, end)
    decreases node, 1
  {
    hide Utf8, Digits, DeserializeAll, ChunkAt, AllStand, LeAt;
    match node
    case File(name, content) =>
      TextReadsBack(s, at + 1, name, at + 5 + |name|);
      TextReadsBack(s, at + 5 + |name|, content, end);
    case Device(name) => TextReadsBack(s, at + 1, name, end);
    case Directory(name, children) =>
      TextReadsBack(s, at + 1, name, at + 5 + |name|);
      DirectoryIsRead(s, at + 5 + |name|, name, children, end);
  }

  lemma {:induction false} DirectoryIsRead(s: seq<byte>, at: nat, name: Name, children: seq<FsNode>, end: nat)
    requires forall c :: c in children ==> NamesOk(c)
    requires |children| < 0x1_0000_0000 && Digits(s, at, |children|, 4) && AllStand(s, at + 4, children, end)
    ensures at <= |s| && Body(s, 2, name, at) == Parsed(Directory(name, children), end)
    decreases children, 1
  {
    DigitsReadBack(s, at, |children|, 4);
    assert at + 4 <= |s|;
    hide NamesOk, Digits, AllStand, DeserializeAll, LeAt, ChunkAt;
    ChildrenAreRead(s, at + 4, children, end);
  }

  lemma {:induction false} ChildrenAreRead(s: seq<byte>, at: nat, children: seq<FsNode>, end: nat)
    requires AllStand(s, at, children, end) && forall c :: c in children ==> NamesOk(c)
    ensures DeserializeAll(s, at, |children|) == ParsedAll(children, end)
    decreases children, 0
  {
    hide NamesOk, Stands, Deserialize, DeserializeAll;
    if children == [] {
      ReadsNone(s, at);
    } else {
      var next :| Stands(s, at, children[0], next) && AllStand(s, next, children[1..], end);
      hide AllStand;
      StandingIsRead(s, at, children[0], next);
      ChildrenAreRead(s, next, children[1..], end);
      ReadsOneMore(s, at, |children|, children[0], next, children[1..], end);
      assert children == [children[0]] + children[1..];
    }
  }

  // -------------------------------------------------------------------- names

  // A Unicode scalar value: no surrogates.
  predicate Scalar(c: nat) {
    c < 0xD800 || 0xE000 <= c < 0x11_0000
  }

  // A continuation byte with these six bits.
  function Six(n: nat): byte { 0x80 + n % 64 }

  // The encoding of one character (section 3 of RFC 3629).
  function Encoded(c: nat): (s: seq<byte>)
    requires Scalar(c)
    ensures 1 <= |s| <= 4
  {
    if c < 0x80 then [c]
    else if c < 0x800 then [0xC0 + c / 64, Six(c)]
    else if c < 0x1_0000 then [0xE0 + c / 0x1000, Six(c / 64), Six(c)]
    else [0xF0 + c / 0x4_0000, Six(c / 0x1000), Six(c / 64), Six(c)]
  }

  function EncodedAll(cs: seq<nat>): seq<byte>
    requires forall c :: c in cs ==> Scalar(c)
  {
    if cs == [] then [] else Encoded(cs[0]) + EncodedAll(cs[1..])
  }

  // Sixty-fours: three digits below the first.
  function Joined(a: int, b: int, c: int, d: int): int { ((a * 64 + b) * 64 + c) * 64 + d }

  lemma JoinedDigits(a: nat, b: nat, c: nat, d: nat)
    requires b < 64 && c < 64 && d < 64
    ensures var n := Joined(a, b, c, d);
            n % 64 == d && n / 64 % 64 == c && n / 0x1000 % 64 == b && n / 0x4_0000 == a
  {
    var m := (a * 64 + b) * 64 + c;
    LastDigit(m, d);
    LastDigit(a * 64 + b, c);
    LastDigit(a, b);
    var n := Joined(a, b, c, d);
    assert n / 0x1000 == n / 64 / 64 && n / 0x4_0000 == n / 64 / 64 / 64;
  }

  lemma LastDigit(m: nat, d: nat)
    requires d < 64
    ensures (m * 64 + d) / 64 == m && (m * 64 + d) % 64 == d
  {
  }

  // The character at the front of a text.
  function Front(s: seq<byte>): int
    requires CharLen(s) > 0
  {
    if s[0] <= 0x7F then s[0]
    else if s[0] <= 0xDF then Joined(0, 0, s[0] - 0xC0, s[1] - 0x80)
    else if s[0] <= 0xEF then Joined(0, s[0] - 0xE0, s[1] - 0x80, s[2] - 0x80)
    else Joined(s[0] - 0xF0, s[1] - 0x80, s[2] - 0x80, s[3] - 0x80)
  }

  ghost predicate FrontIs(s: seq<byte>, c: int) {
    CharLen(s) > 0 && c >= 0 && Scalar(c) && s[..CharLen(s)] == Encoded(c)
  }

  lemma FrontOfTwo(s: seq<byte>)
    requires CharLen(s) > 0 && 0x80 <= s[0] <= 0xDF
    ensures FrontIs(s, Front(s))
  {
    JoinedDigits(0, 0, s[0] - 0xC0, s[1] - 0x80);
  }

  lemma FrontOfThree(s: seq<byte>)
    requires CharLen(s) > 0 && 0xE0 <= s[0] <= 0xEF
    ensures FrontIs(s, Front(s))
  {
    JoinedDigits(0, s[0] - 0xE0, s[1] - 0x80, s[2] - 0x80);
  }

  lemma FrontOfFour(s: seq<byte>)
    requires CharLen(s) > 0 && 0xF0 <= s[0]
    ensures FrontIs(s, Front(s))
  {
    JoinedDigits(s[0] - 0xF0, s[1] - 0x80, s[2] - 0x80, s[3] - 0x80);
  }

  // What is taken for one character is the encoding of one.
  lemma FrontIsEncoded(s: seq<byte>)
    requires CharLen(s) > 0
    ensures Front(s) >= 0 && Scalar(Front(s)) && s[..CharLen(s)] == Encoded(Front(s))
  {
    if s[0] <= 0x7F {
    } else {
      hide Front, Encoded, Scalar, CharLen;
      if s[0] <= 0xDF { FrontOfTwo(s); } else if s[0] <= 0xEF { FrontOfThree(s); } else { FrontOfFour(s); }
    }
  }

  // And every encoding is taken for one character.
  lemma EncodedIsFront(c: nat, rest: seq<byte>)
    requires Scalar(c)
    ensures CharLen(Encoded(c) + rest) == |Encoded(c)|
  {
    var s := Encoded(c) + rest;
    assert forall k :: 0 <= k < |Encoded(c)| ==> s[k] == Encoded(c)[k];
    if 0x800 <= c < 0x1_0000 { ThreeBytes(c, s); } else if c >= 0x1_0000 { FourBytes(c, s); }
  }

  lemma ThreeBytes(c: nat, s: seq<byte>)
    requires Scalar(c) && 0x800 <= c < 0x1_0000 && |s| >= 3
    requires s[0] == 0xE0 + c / 0x1000 && s[1] == Six(c / 64) && s[2] == Six(c)
    ensures CharLen(s) == 3
  {
  }

  lemma FourBytes(c: nat, s: seq<byte>)
    requires Scalar(c) && c >= 0x1_0000 && |s| >= 4
    requires s[0] == 0xF0 + c / 0x4_0000 && s[1] == Six(c / 0x1000) && s[2] == Six(c / 64) && s[3] == Six(c)
    ensures CharLen(s) == 4
  {
  }

  lemma {:induction false} Utf8IsEncoded(s: seq<byte>) returns (cs: seq<nat>)
    requires Utf8(s)
    ensures forall c :: c in cs ==> Scalar(c)
    ensures s == EncodedAll(cs)
    decreases |s|
  {
    hide CharLen, Encoded, Front, Scalar;
    if s == [] {
      cs := [];
    } else {
      var n := CharLen(s);
      FrontIsEncoded(s);
      var more := Utf8IsEncoded(s[n..]);
      cs := [Front(s)] + more;
      assert cs[1..] == more;
      assert s == s[..n] + s[n..];
    }
  }

  lemma {:induction false} EncodedIsUtf8(cs: seq<nat>)
    requires forall c :: c in cs ==> Scalar(c)
    ensures Utf8(EncodedAll(cs))
  {
    if cs != [] {
      EncodedIsUtf8(cs[1..]);
      EncodedIsFront(cs[0], EncodedAll(cs[1..]));
      assert EncodedAll(cs)[|Encoded(cs[0])|..] == EncodedAll(cs[1..]);
    }
  }

  // Exactly the encodings of texts are accepted as names.
  lemma Utf8IsExact(s: seq<byte>)
    ensures Utf8(s) <==> exists cs: seq<nat> :: IsEncoding(s, cs)
  {
    if Utf8(s) {
      var cs := Utf8IsEncoded(s);
      assert IsEncoding(s, cs);
    }
    if cs: seq<nat> :| IsEncoding(s, cs) { EncodedIsUtf8(cs); }
  }

  ghost predicate IsEncoding(s: seq<byte>, cs: seq<nat>) {
    (forall c :: c in cs ==> Scalar(c)) && s == EncodedAll(cs)
  }
}
