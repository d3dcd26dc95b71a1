// Internet checksums and the IPv4 and TCP headers that carry them
// (kernel/src/net.rs).
module Net {
  import opened Wrappers
  import opened Bytes

  type Ip = s: seq<byte> | |s| == 4 witness [0, 0, 0, 0]

  const MY_IP: Ip := [10, 0, 2, 15]

  // The sums of this many bytes stay within 32 bits.
  const MAX_SUMMED: nat := 131074

  // ---------------------------------------------------------------- checksum

  // The 16-bit word at an even position; an odd last byte is padded with zero.
  function Word(data: seq<byte>, i: nat): (w: nat)
    requires i < |data|
    ensures w <= 0xFFFF
  {
    if i + 1 < |data| then data[i] as int * 256 + data[i + 1] else data[i] as int * 256
  }

  // The sum of the words before position 2n.
  function WordSum(data: seq<byte>, n: nat): (s: nat)
    requires 2 * n <= |data| + 1
    ensures s <= n * 0xFFFF
  {
    if n == 0 then 0 else WordSum(data, n - 1) + Word(data, 2 * (n - 1))
  }

  function Words(data: seq<byte>): nat {
    (|data| + 1) / 2
  }

  function Sum(data: seq<byte>): nat {
    WordSum(data, Words(data))
  }

  // A sum folded to 16 bits in one's-complement arithmetic.
  function Folded(sum: nat): (r: nat)
    ensures r <= 0xFFFF && r % 0xFFFF == sum % 0xFFFF
    ensures r == 0 <==> sum == 0
  {
    if sum == 0 then 0 else (sum - 1) % 0xFFFF + 1
  }

  function Checksum(data: seq<byte>): (c: u16) {
    0xFFFF - Folded(Sum(data))
  }

  // The bytes read as one number, first byte highest.
  function Value(data: seq<byte>): nat {
    if data == [] then 0 else 256 * Value(data[..|data| - 1]) + data[|data| - 1]
  }

  // An odd last byte counts as if a zero followed it.
  function Padded(data: seq<byte>): (r: seq<byte>)
    ensures |r| % 2 == 0
  {
    if |data| % 2 == 0 then data else data + [0]
  }

  // The sum of the words and the number that the bytes are differ by a multiple of
  // 65535.
  lemma SumIsValue(data: seq<byte>)
    ensures Sum(data) % 0xFFFF == Value(Padded(data)) % 0xFFFF
  {
    EvenSumIsValue(Padded(data));
    if |data| % 2 == 1 { SumOfOdd(data); }
    hide WordSum, Value;
  }

  lemma {:induction false} EvenSumIsValue(data: seq<byte>)
    requires |data| % 2 == 0
    ensures Sum(data) % 0xFFFF == Value(data) % 0xFFFF
  {
    hide *;
    if |data| < 2 {
      NoWords(data);
    } else {
      var rest := data[..|data| - 2];
      EvenSumIsValue(rest);
      SumOfWord(data);
      ValueOfWord(data);
      AddWord(Value(rest), Sum(rest), Word(data, |data| - 2));
    }
  }

  lemma NoWords(data: seq<byte>)
    requires data == []
    ensures Sum(data) == 0 && Value(data) == 0
  {
  }

  lemma SumOfWord(data: seq<byte>)
    requires |data| >= 2 && |data| % 2 == 0
    ensures Sum(data) == Sum(data[..|data| - 2]) + Word(data, |data| - 2)
  {
    SumOfPrefix(data[..|data| - 2], data, (|data| - 2) / 2);
    hide Word;
  }

  lemma AddWord(v: nat, s: nat, w: nat)
    requires v % 0xFFFF == s % 0xFFFF
    ensures (0x1_0000 * v + w) % 0xFFFF == (s + w) % 0xFFFF
  {
    ModShift(0x1_0000 * v + w, v, v + w);
    SameMod(v, s, w);
  }

  lemma ValueOfWord(data: seq<byte>)
    requires |data| >= 2
    ensures Value(data) == 0x1_0000 * Value(data[..|data| - 2]) + Word(data, |data| - 2)
  {
    var n := |data| - 2;
    assert data[..n + 1][..n] == data[..n] && data[..|data| - 1] == data[..n + 1];
  }

  lemma SameMod(a: nat, b: nat, w: nat)
    requires a % 0xFFFF == b % 0xFFFF
    ensures (a + w) % 0xFFFF == (b + w) % 0xFFFF
  {
    var p, q, r := a / 0xFFFF, b / 0xFFFF, a % 0xFFFF;
    assert a + w == 0xFFFF * p + (r + w) && b + w == 0xFFFF * q + (r + w);
    ModShift(a + w, p, r + w);
    ModShift(b + w, q, r + w);
  }

  lemma {:induction false} SumOfPrefix(data: seq<byte>, more: seq<byte>, n: nat)
    requires 2 * n <= |data| <= |more| && more[..|data|] == data
    ensures WordSum(data, n) == WordSum(more, n)
  {
    if n > 0 {
      SumOfPrefix(data, more, n - 1);
      assert data[2 * (n - 1)] == more[..|data|][2 * (n - 1)] && data[2 * n - 1] == more[..|data|][2 * n - 1];
    }
  }

  // What a receiver computes is zero exactly if the bytes are a multiple of 65535
  // other than zero.
  lemma ChecksExactly(data: seq<byte>)
    ensures Checksum(data) == 0 <==> Value(Padded(data)) > 0 && Value(Padded(data)) % 0xFFFF == 0
  {
    hide *;
    SumIsValue(data);
    EvenChecks(data, Value(Padded(data)));
    NothingSummed(data);
    ZeroValue(Padded(data));
  }

  lemma EvenChecks(data: seq<byte>, v: nat)
    requires Sum(data) % 0xFFFF == v % 0xFFFF
    ensures Checksum(data) == 0 <==> Sum(data) > 0 && v % 0xFFFF == 0
  {
    FullFold(Sum(data));
    hide Folded, WordSum;
  }

  lemma NothingSummed(data: seq<byte>)
    ensures Sum(data) == 0 <==> forall k :: 0 <= k < |Padded(data)| ==> Padded(data)[k] == 0
  {
    if |data| % 2 == 1 { SumOfOdd(data); }
    ZeroSum(Padded(data), Words(Padded(data)));
    hide WordSum;
  }

  lemma SumOfOdd(data: seq<byte>)
    requires |data| % 2 == 1
    ensures Sum(data + [0]) == Sum(data)
  {
    SumOfPrefix(data, data + [0], Words(data) - 1);
  }

  // A sum of words is zero only if every byte is.
  lemma {:induction false} ZeroSum(data: seq<byte>, n: nat)
    requires 2 * n <= |data|
    ensures WordSum(data, n) == 0 <==> forall k :: 0 <= k < 2 * n ==> data[k] == 0
  {
    if n > 0 { ZeroSum(data, n - 1); }
  }

  lemma {:induction false} ZeroValue(data: seq<byte>)
    ensures Value(data) == 0 <==> forall k :: 0 <= k < |data| ==> data[k] == 0
  {
    if data != [] {
      ZeroValue(data[..|data| - 1]);
      assert forall k :: 0 <= k < |data| - 1 ==> data[..|data| - 1][k] == data[k];
    }
  }

  lemma FoldStep(sum: nat)
    requires sum >= 0x1_0000
    ensures sum % 0x1_0000 + sum / 0x1_0000 < sum
    ensures Folded(sum % 0x1_0000 + sum / 0x1_0000) == Folded(sum)
  {
    var low, high := sum % 0x1_0000, sum / 0x1_0000;
    assert sum == 0x1_0000 * high + low;
    ModShift(sum - 1, high, low + high - 1);
  }

  lemma ModShift(x: nat, q: nat, y: nat)
    requires x == 0xFFFF * q + y
    ensures x % 0xFFFF == y % 0xFFFF
  {
    var d, r := y / 0xFFFF, y % 0xFFFF;
    assert x == 0xFFFF * (q + d) + r;
  }

  lemma FoldDone(sum: nat)
    requires sum < 0x1_0000
    ensures Folded(sum) == sum
  {
  }

  lemma SumFits(data: seq<byte>, n: nat)
    requires |data| <= MAX_SUMMED && 2 * n < |data|
    ensures WordSum(data, n + 1) == WordSum(data, n) + Word(data, 2 * n) < 0x1_0000_0000
  {
    assert WordSum(data, n + 1) <= (n + 1) * 0xFFFF <= 65537 * 0xFFFF;
  }

  // Adds words and folds the carries back until none is left.
  method CalculateChecksum(data: seq<byte>) returns (c: u16)
    ensures |data| <= MAX_SUMMED ==> c == Checksum(data)
  {
    hide Folded, Word;
    var sum: u32 := 0;
    var i := 0;
    ghost var n := 0;
    while i < |data|
      invariant i == 2 * n && n <= Words(data)
      invariant |data| <= MAX_SUMMED ==> sum == WordSum(data, n)
    {
      if |data| <= MAX_SUMMED { SumFits(data, n); }
      sum := (sum + Word(data, i)) % 0x1_0000_0000;
      i := i + 2;
      n := n + 1;
    }
    ghost var total := sum;
    while sum / 0x1_0000 > 0
      invariant Folded(sum) == Folded(total)
      decreases sum
    {
      FoldStep(sum);
      sum := sum % 0x1_0000 + sum / 0x1_0000;
    }
    FoldDone(sum);
    return 0xFFFF - sum % 0x1_0000;
  }

  // Two bytes in network order.
  function Be16(v: u16): (s: seq<byte>)
    ensures |s| == 2
  {
    [v / 256, v % 256]
  }

  function Be32(v: u32): (s: seq<byte>)
    ensures |s| == 4
  {
    Be16(v / 0x1_0000) + Be16(v % 0x1_0000)
  }

  function Get16(s: seq<byte>, at: nat): u16
    requires at + 2 <= |s|
  {
    s[at] as int * 256 + s[at + 1]
  }

  function Get32(s: seq<byte>, at: nat): u32
    requires at + 4 <= |s|
  {
    Get16(s, at) * 0x1_0000 + Get16(s, at + 2)
  }

  // The data with a 16-bit field written over.
  function WithField(data: seq<byte>, at: nat, v: u16): (r: seq<byte>)
    requires at + 2 <= |data|
    ensures |r| == |data| && Get16(r, at) == v
    ensures forall k :: 0 <= k < |data| && k != at && k != at + 1 ==> r[k] == data[k]
  {
    data[at := v / 256][at + 1 := v % 256]
  }

  lemma {:induction false} SumWithField(data: seq<byte>, at: nat, v: u16, n: nat)
    requires at % 2 == 0 && at + 2 <= |data| && 2 * n <= |data| + 1
    ensures WordSum(WithField(data, at, v), n)
         == WordSum(data, n) + if 2 * n > at then v - Get16(data, at) else 0
  {
    if n > 0 { SumWithField(data, at, v, n - 1); }
  }

  // Data whose checksum field held zero checks to zero once the checksum has been
  // put there (section 1 of RFC 1071).
  lemma ChecksToZero(data: seq<byte>, at: nat)
    requires at % 2 == 0 && at + 2 <= |data| && Get16(data, at) == 0
    ensures Checksum(WithField(data, at, Checksum(data))) == 0
  {
    var c := Checksum(data);
    SumWithField(data, at, c, Words(data));
    var s := Sum(data);
    assert Sum(WithField(data, at, c)) == s + c;
    Completes(s);
  }

  lemma Completes(s: nat)
    ensures Folded(s + (0xFFFF - Folded(s))) == 0xFFFF
  {
    if s > 0 {
      var q, r := (s - 1) / 0xFFFF, (s - 1) % 0xFFFF;
      assert s + (0xFFFF - Folded(s)) == 0xFFFF * (q + 1);
      assert 0xFFFF * (q + 1) - 1 == 0xFFFF * q + 0xFFFE;
    }
  }

  // Data that checks to zero and has one word changed still checks to zero only
  // if zero and its other one's-complement form were exchanged.
  lemma OneWordError(data: seq<byte>, at: nat, v: u16)
    requires at % 2 == 0 && at + 2 <= |data| && Checksum(data) == 0
    ensures var was := Get16(data, at);
            Checksum(WithField(data, at, v)) == 0
            <==> v == was || (was == 0 && v == 0xFFFF) || (was == 0xFFFF && v == 0 && Sum(data) > 0xFFFF)
  {
    var was := Get16(data, at);
    SumWithField(data, at, v, Words(data));
    FullFold(Sum(data));
    FullFold(Sum(WithField(data, at, v)));
    SameResidue(Sum(data), was, v);
    hide Folded, WordSum;
  }

  lemma FullFold(s: nat)
    ensures Folded(s) == 0xFFFF <==> s > 0 && s % 0xFFFF == 0
  {
    if s > 0 && s % 0xFFFF == 0 {
      var q := s / 0xFFFF;
      assert s - 1 == 0xFFFF * (q - 1) + 0xFFFE;
    }
  }

  lemma SameResidue(s: nat, was: u16, v: u16)
    requires s % 0xFFFF == 0 && s - was + v >= 0
    ensures (s - was + v) % 0xFFFF == 0 <==> v == was || (was == 0 && v == 0xFFFF) || (was == 0xFFFF && v == 0)
  {
    var q := s / 0xFFFF;
    assert s == 0xFFFF * q;
  }

  // -------------------------------------------------------------------- IPv4

  datatype IpHeader = IpHeader(src: Ip, dst: Ip, protocol: byte, headerLen: nat)

  // The checks that the kernel makes on an IPv4 header; the checksum is computed
  // and not enforced.
  function ParseIpv4Header(packet: seq<byte>): Option<IpHeader> {
    if |packet| < 20 || packet[0] / 16 != 4 then None
    else
      var headerLen := packet[0] % 16 * 4;
      if |packet| < headerLen || |packet| < Get16(packet, 2) then None
      else Some(IpHeader(packet[12..16], packet[16..20], packet[9], headerLen))
  }

  // A header of twenty bytes in front of a payload is parsed by its fields.
  lemma ParsesBack(header: seq<byte>, payload: seq<byte>)
    requires |header| == 20 && header[0] == 0x45 && Get16(header, 2) <= 20 + |payload|
    ensures ParseIpv4Header(header + payload) == Some(IpHeader(header[12..16], header[16..20], header[9], 20))
    ensures Get16(header + payload, 2) == Get16(header, 2)
    ensures (header + payload)[..20] == header && (header + payload)[20..] == payload
  {
    var packet := header + payload;
    assert packet[..20] == header && packet[20..] == payload;
    assert packet[12..16] == header[12..16] && packet[16..20] == header[16..20];
    assert packet[0] == 0x45 && packet[2] == header[2] && packet[3] == header[3] && packet[9] == header[9];
  }

  // Where the fields of a header stand (section 3.1 of RFC 791).
  ghost predicate IpLayout(h: seq<byte>, dest: Ip, protocol: byte, length: nat) {
    && |h| >= 20 && h[0] == 0x45 && h[1] == 0
    && h[2] as int * 256 + h[3] == length % 0x1_0000
    && h[4] == 0x12 && h[5] == 0x34 && h[6] == 0 && h[7] == 0
    && h[8] == 64 && h[9] == protocol
    && h[12] == 10 && h[13] == 0 && h[14] == 2 && h[15] == 15
    && h[16] == dest[0] && h[17] == dest[1] && h[18] == dest[2] && h[19] == dest[3]
  }

  lemma BareLayout(dest: Ip, protocol: byte, length: nat)
    ensures IpLayout(BareHeader(dest, protocol, length), dest, protocol, length)
  {
  }

  // The header with an empty checksum field.
  function BareHeader(dest: Ip, protocol: byte, length: nat): (h: seq<byte>)
    ensures |h| == 20 && Get16(h, 10) == 0 && h[0] == 0x45 && h[9] == protocol
    ensures Get16(h, 2) == length % 0x1_0000 && h[12..16] == MY_IP && h[16..20] == dest
  {
    [0x45, 0x00] + Be16(length % 0x1_0000) + [0x12, 0x34, 0x00, 0x00, 64, protocol, 0x00, 0x00] + MY_IP + dest
  }

  // Builds the header with an empty checksum field, then fills the field in.
  method BuildIpv4Packet(dest: Ip, protocol: byte, payload: seq<byte>) returns (packet: seq<byte>)
    ensures |packet| == 20 + |payload| && packet[20..] == payload
    ensures Checksum(packet[..20]) == 0
    ensures ParseIpv4Header(packet) == Some(IpHeader(MY_IP, dest, protocol, 20))
    ensures IpLayout(packet, dest, protocol, |packet|)
    ensures |payload| <= 65515 ==> Get16(packet, 2) == |packet|
  {
    BareLayout(dest, protocol, 20 + |payload|);
    hide BareHeader, Checksum, ParseIpv4Header, Be16;
    var header := BareHeader(dest, protocol, 20 + |payload|);
    ChecksToZero(header, 10);
    assert header[0..20] == header;
    var checksum := CalculateChecksum(header[0..20]);
    ghost var empty := header;
    header := header[10 := checksum / 256];
    header := header[11 := checksum % 256];
    assert header == WithField(empty, 10, checksum);
    assert header[12..16] == empty[12..16] && header[16..20] == empty[16..20];
    assert Get16(header, 2) == Get16(empty, 2);
    ParsesBack(header, payload);
    packet := header + payload;
  }

  // --------------------------------------------------------------------- TCP

  datatype TcpHeader = TcpHeader(srcPort: u16, dstPort: u16, seqNo: u32, ackNo: u32, flags: byte, dataOffset: nat)

  function ParseTcpHeader(packet: seq<byte>, start: nat): Option<TcpHeader> {
    if |packet| < start + 20 then None
    else
      Some(TcpHeader(Get16(packet, start), Get16(packet, start + 2), Get32(packet, start + 4), Get32(packet, start + 8),
                     packet[start + 13], packet[start + 12] / 16 * 4))
  }

  // The pseudo header of section 3.1 of RFC 793: addresses, protocol, length.
  function PseudoHeader(dest: Ip, length: nat): (s: seq<byte>)
    ensures |s| == 12
  {
    MY_IP + dest + [0, 6] + Be16(length % 0x1_0000)
  }

  // The segment with an empty checksum field.
  function BareSegment(srcPort: u16, destPort: u16, seqNo: u32, ackNo: u32, flags: byte, payload: seq<byte>)
    : (tcp: seq<byte>)
    ensures |tcp| == 20 + |payload| && tcp[20..] == payload && Get16(tcp, 16) == 0
  {
    Be16(srcPort) + Be16(destPort) + Be32(seqNo) + Be32(ackNo) + [0x50] + [flags] + Be16(8192) + [0x00, 0x00]
      + [0x00, 0x00] + payload
  }

  // Where the fields of a segment stand (section 3.1 of RFC 793): twenty bytes of
  // header and a window of 8192 bytes.
  ghost predicate TcpLayout(t: seq<byte>, srcPort: u16, destPort: u16, seqNo: u32, ackNo: u32, flags: byte) {
    && |t| >= 20
    && t[0] as int * 256 + t[1] == srcPort && t[2] as int * 256 + t[3] == destPort
    && t[4] as int * 0x100_0000 + t[5] as int * 0x1_0000 + t[6] as int * 256 + t[7] == seqNo
    && t[8] as int * 0x100_0000 + t[9] as int * 0x1_0000 + t[10] as int * 256 + t[11] == ackNo
    && t[12] == 0x50 && t[13] == flags && t[14] as int * 256 + t[15] == 8192 && t[18] == 0 && t[19] == 0
  }

  lemma BareTcpLayout(srcPort: u16, destPort: u16, seqNo: u32, ackNo: u32, flags: byte, payload: seq<byte>)
    ensures TcpLayout(BareSegment(srcPort, destPort, seqNo, ackNo, flags, payload),
                      srcPort, destPort, seqNo, ackNo, flags)
  {
    assert seqNo / 0x1_0000 / 256 * 0x100_0000 + seqNo / 0x1_0000 % 256 * 0x1_0000 == seqNo / 0x1_0000 * 0x1_0000;
    assert ackNo / 0x1_0000 / 256 * 0x100_0000 + ackNo / 0x1_0000 % 256 * 0x1_0000 == ackNo / 0x1_0000 * 0x1_0000;
  }

  // Its fields are read back, whatever the checksum.
  lemma SegmentParses(srcPort: u16, destPort: u16, seqNo: u32, ackNo: u32, flags: byte, payload: seq<byte>,
      tcp: seq<byte>)
    requires |tcp| == 20 + |payload|
    requires tcp[..16] == BareSegment(srcPort, destPort, seqNo, ackNo, flags, payload)[..16]
    ensures ParseTcpHeader(tcp, 0) == Some(TcpHeader(srcPort, destPort, seqNo, ackNo, flags, 20))
  {
    var bare := BareSegment(srcPort, destPort, seqNo, ackNo, flags, payload);
    assert forall k :: 0 <= k < 16 ==> tcp[..16][k] == tcp[k] && bare[..16][k] == bare[k];
  }

  // Filling in the field of the segment fills it in behind the pseudo header.
  lemma FieldBehind(pseudo: seq<byte>, tcp: seq<byte>, v: u16)
    requires |pseudo| == 12 && |tcp| >= 20
    ensures pseudo + WithField(tcp, 16, v) == WithField(pseudo + tcp, 28, v)
    ensures Get16(pseudo + tcp, 28) == Get16(tcp, 16)
  {
  }

  // Builds the segment with an empty checksum field, sums it behind its pseudo
  // header, then fills the field in.
  method BuildTcpPacket(srcPort: u16, destPort: u16, dest: Ip, seqNo: u32, ackNo: u32, flags: byte, payload: seq<byte>)
    returns (tcp: seq<byte>)
    ensures |tcp| == 20 + |payload| && tcp[20..] == payload
    ensures |payload| <= 65515 ==> Checksum(PseudoHeader(dest, |tcp|) + tcp) == 0
    ensures ParseTcpHeader(tcp, 0) == Some(TcpHeader(srcPort, destPort, seqNo, ackNo, flags, 20))
    ensures TcpLayout(tcp, srcPort, destPort, seqNo, ackNo, flags)
  {
    BareTcpLayout(srcPort, destPort, seqNo, ackNo, flags, payload);
    hide Checksum, PseudoHeader, BareSegment, ParseTcpHeader;
    tcp := BareSegment(srcPort, destPort, seqNo, ackNo, flags, payload);
    ghost var empty := tcp;
    var pseudo := PseudoHeader(dest, |tcp|) + tcp;
    FieldBehind(PseudoHeader(dest, |tcp|), tcp, 0);
    ChecksToZero(pseudo, 28);
    var checksum := CalculateChecksum(pseudo);
    tcp := tcp[16 := checksum / 256];
    tcp := tcp[17 := checksum % 256];
    assert tcp == WithField(empty, 16, checksum);
    FieldBehind(PseudoHeader(dest, |tcp|), empty, checksum);
    SegmentParses(srcPort, destPort, seqNo, ackNo, flags, payload, tcp);
  }

  // What a receiver sums for a segment: the addresses and the protocol of the packet
  // it came in, the length of the segment, and the segment itself.
  function Received(packet: seq<byte>): (s: seq<byte>)
    requires |packet| >= 20
  {
    packet[12..20] + [0, packet[9], (|packet| - 20) / 256 % 256, (|packet| - 20) % 256] + packet[20..]
  }

  lemma PseudoIsReceived(dest: Ip, packet: seq<byte>)
    requires 20 <= |packet| <= 65535 && packet[12..16] == MY_IP && packet[16..20] == dest && packet[9] == 6
    ensures PseudoHeader(dest, |packet[20..]|) + packet[20..] == Received(packet)
  {
    var n := |packet| - 20;
    assert Be16(n % 0x1_0000) == [n / 256 % 256, n % 256];
    hide Be16;
    var tail: seq<byte> := [n / 256 % 256, n % 256];
    assert packet[12..20] == MY_IP + dest by { assert packet[12..20] == packet[12..16] + packet[16..20]; }
    assert [0, packet[9], tail[0], tail[1]] == [0, 6] + tail;
    Regroup(MY_IP + dest, [0, 6], tail);
  }

  // A segment sent in a packet: both headers read back what was put in, every field
  // stands where it belongs, and what the receiver sums checks to zero, for the
  // header of the packet and for the segment.
  method SendTcpSegment(srcPort: u16, destPort: u16, dest: Ip, seqNo: u32, ackNo: u32, flags: byte, payload: seq<byte>)
    returns (packet: seq<byte>)
    requires |payload| <= 65495
    ensures ParseIpv4Header(packet) == Some(IpHeader(MY_IP, dest, 6, 20)) && Get16(packet, 2) == |packet|
    ensures ParseTcpHeader(packet, 20) == Some(TcpHeader(srcPort, destPort, seqNo, ackNo, flags, 20))
    ensures IpLayout(packet, dest, 6, |packet|)
    ensures TcpLayout(packet[20..], srcPort, destPort, seqNo, ackNo, flags)
    ensures Checksum(packet[..20]) == 0 && Checksum(Received(packet)) == 0
    ensures Value(packet[..20]) % 0xFFFF == 0 && Value(Padded(Received(packet))) % 0xFFFF == 0
    ensures packet[40..] == payload
  {
    hide Checksum, PseudoHeader, Received, IpLayout, TcpLayout, Value;
    var tcp := BuildTcpPacket(srcPort, destPort, dest, seqNo, ackNo, flags, payload);
    packet := BuildIpv4Packet(dest, 6, tcp);
    ParseInside(packet, tcp);
    PseudoIsReceived(dest, packet);
    ChecksExactly(packet[..20]);
    ChecksExactly(Received(packet));
    SubSlice(packet, 20, |packet|, 20, |tcp|);
  }

  lemma ParseInside(packet: seq<byte>, tcp: seq<byte>)
    requires |packet| >= 20 && packet[20..] == tcp
    ensures ParseTcpHeader(packet, 20) == ParseTcpHeader(tcp, 0)
  {
    assert forall k :: 0 <= k < |tcp| ==> tcp[k] == packet[20 + k];
  }
}
