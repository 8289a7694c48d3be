/** The packets that carry the checksum: myping.c's echo request and ping6_ll.c's ICMPv6 pseudo-header. */
module IcmpPackets {
  import opened Bytes
  import opened InternetChecksum

  // ----- myping.c -----

  const PACKETSIZE := 64
  const ICMP_HEADER := 8
  const ICMP_ECHO: byte := 8

  /** The payload: consecutive characters from '0', and a zero at the end. */
  function Message(): (m: seq<byte>)
    ensures |m| == PACKETSIZE - ICMP_HEADER
  {
    seq(PACKETSIZE - ICMP_HEADER - 1, i requires 0 <= i < PACKETSIZE - ICMP_HEADER - 1 => (48 + i) as byte) + [0]
  }

  /** An echo request with the given checksum field: type, code, checksum, identifier, sequence number, payload. */
  function EchoRequest(little: bool, checksum: nat, id: nat, sequence: nat): (p: seq<byte>)
    requires checksum <= U16_MAX
    ensures |p| == PACKETSIZE
  {
    [ICMP_ECHO, 0] + Store(little, checksum)
    + (Store(little, id % 0x1_0000) + Store(little, sequence % 0x1_0000) + Message())
  }

  /** The fields of RFC 792's echo message at their octets, read in the host's order; the payload counts up from '0'. */
  ghost predicate EchoFields(little: bool, p: seq<byte>, checksum: nat, id: nat, sequence: nat) {
    && |p| == 64 && p[0] == 8 && p[1] == 0
    && Word(little, p[2], p[3]) == checksum
    && Word(little, p[4], p[5]) == id % 0x1_0000
    && Word(little, p[6], p[7]) == sequence % 0x1_0000
    && (forall i {:trigger p[i]} :: 8 <= i < 63 ==> p[i] == i - 8 + '0' as int)
    && p[63] == 0
  }

  lemma EchoRequestFields(little: bool, checksum: nat, id: nat, sequence: nat)
    requires checksum <= U16_MAX
    ensures EchoFields(little, EchoRequest(little, checksum, id, sequence), checksum, id, sequence)
  {
    var p, c := EchoRequest(little, checksum, id, sequence), Store(little, checksum);
    var i, s := Store(little, id % 0x1_0000), Store(little, sequence % 0x1_0000);
    assert p == [ICMP_ECHO, 0] + c + i + s + Message();
    assert p[2] == c[0] && p[3] == c[1] && p[4] == i[0] && p[5] == i[1] && p[6] == s[0] && p[7] == s[1];
    assert forall k {:trigger p[k]} :: 8 <= k < 64 ==> p[k] == Message()[k - 8];
  }

  /** The packet ping() fills in. The checksum field is still zero when the checksum is taken. */
  method FillEchoRequest(little: bool, pid: nat, cnt: nat, packet: array<byte>)
    requires packet.Length == PACKETSIZE
    modifies packet
    ensures packet[..] == EchoRequest(little, Checksum(little, EchoRequest(little, 0, pid, cnt)), pid, cnt)
    ensures EchoFields(little, packet[..], Checksum(little, EchoRequest(little, 0, pid, cnt)), pid, cnt)
    ensures Checksum(little, packet[..]) == 0
  {
    EchoRequestFields(little, Checksum(little, EchoRequest(little, 0, pid, cnt)), pid, cnt);
    FillFields(little, pid, cnt, packet);
    ghost var tail := Store(little, pid % 0x1_0000) + Store(little, cnt % 0x1_0000) + Message();
    assert packet[..PACKETSIZE] == packet[..];
    var c := ChecksumTwoFolds(little, packet, PACKETSIZE);
    SpliceGap([ICMP_ECHO, 0], [0, 0], tail, Store(little, c));
    StoreAt(little, packet, 2, c);
    InstalledChecksum(little, [ICMP_ECHO, 0], tail);
  }

  /** All but the checksum. */
  method FillFields(little: bool, pid: nat, cnt: nat, packet: array<byte>)
    requires packet.Length == PACKETSIZE
    modifies packet
    ensures packet[..] == EchoRequest(little, 0, pid, cnt)
    ensures Store(little, 0) == [0, 0]
  {
    forall i | 0 <= i < PACKETSIZE {
      packet[i] := 0;
    }
    packet[0] := ICMP_ECHO;
    ghost var front, id, number := [ICMP_ECHO, 0, 0, 0], Store(little, pid % 0x1_0000), Store(little, cnt % 0x1_0000);
    assert packet[..] == front + [0, 0] + Zeros(PACKETSIZE - 6);
    SpliceGap(front, [0, 0], Zeros(PACKETSIZE - 6), id);
    StoreAt(little, packet, 4, pid % 0x1_0000);
    assert packet[..ICMP_HEADER] == (front + id) + [0, 0];
    FillMessage(packet);
    SpliceGap(front + id, [0, 0], Message(), number);
    StoreAt(little, packet, 6, cnt % 0x1_0000);
    assert packet[..] == [ICMP_ECHO, 0] + [0, 0] + (id + number + Message());
  }

  method FillMessage(packet: array<byte>)
    requires packet.Length == PACKETSIZE
    modifies packet
    ensures packet[..] == old(packet[..ICMP_HEADER]) + Message()
  {
    var i := 0;
    while i < PACKETSIZE - ICMP_HEADER - 1
      invariant 0 <= i <= PACKETSIZE - ICMP_HEADER - 1
      invariant packet[..ICMP_HEADER] == old(packet[..ICMP_HEADER])
      invariant forall k :: 0 <= k < i ==> packet[ICMP_HEADER + k] == Message()[k]
    {
      packet[ICMP_HEADER + i] := 48 + i;
      i := i + 1;
    }
    packet[ICMP_HEADER + i] := 0;
    assert packet[ICMP_HEADER..] == Message();
  }

  /** Assigning an unsigned short field. */
  method StoreAt(little: bool, packet: array<byte>, at: nat, x: nat)
    requires at + 2 <= packet.Length && x <= U16_MAX
    modifies packet
    ensures packet[..] == Splice(old(packet[..]), at, Store(little, x))
  {
    var s := Store(little, x);
    packet[at] := s[0];
    packet[at + 1] := s[1];
  }

  // ----- ping6_ll.c -----

  const IP_MAXPACKET := 65535
  const ADDRESS := 16
  const PSEUDO_HEADER := 40

  /** The fields of the IPv6 header that the checksum covers. */
  datatype Ip6 = Ip6(src: seq<byte>, dst: seq<byte>, next: byte)

  /** An ICMPv6 echo header; identifier and sequence number as they lie in memory. */
  datatype Icmp6 = Icmp6(typ: byte, code: byte, id: seq<byte>, sequence: seq<byte>)

  predicate Sized(ip: Ip6, icmp: Icmp6) {
    |ip.src| == ADDRESS && |ip.dst| == ADDRESS && |icmp.id| == 2 && |icmp.sequence| == 2
  }

  /** The pseudo-header of section 8.1 of RFC 2460 for `n` octets of ICMPv6 message. */
  function PseudoHeader(ip: Ip6, n: nat): (h: seq<byte>)
    requires n <= U16_MAX
  {
    ip.src + ip.dst + [0, 0, n / 256, n % 256] + [0, 0, 0] + [ip.next]
  }

  /** The fields of the pseudo-header at their octets: addresses, a 32-bit length, 24 zero bits, the next header. */
  lemma PseudoHeaderFields(ip: Ip6, n: nat)
    requires |ip.src| == |ip.dst| == 16 && n <= U16_MAX
    ensures var h := PseudoHeader(ip, n);
            && |h| == 40 && h[..16] == ip.src && h[16..32] == ip.dst
            && U16(h, 32) * 0x1_0000 + U16(h, 34) == n
            && h[36] == h[37] == h[38] == 0 && h[39] == ip.next
  {
  }

  /** What section 2.3 of RFC 4443 sums: the pseudo-header and the message, padded to a whole word. */
  function Covered(ip: Ip6, icmp: Icmp6, field: seq<byte>, payload: seq<byte>): (p: seq<byte>)
    requires ICMP_HEADER + |payload| <= U16_MAX
  {
    PseudoHeader(ip, ICMP_HEADER + |payload|) + [icmp.typ, icmp.code]
    + field + (icmp.id + icmp.sequence + payload + Zeros(|payload| % 2))
  }

  /** The fields of what is summed, at their octets behind the pseudo-header. */
  lemma CoveredFields(ip: Ip6, icmp: Icmp6, field: seq<byte>, payload: seq<byte>)
    requires Sized(ip, icmp) && |field| == 2 && ICMP_HEADER + |payload| <= U16_MAX
    ensures var p, n := Covered(ip, icmp, field, payload), 48 + |payload|;
            && |p| == n + |payload| % 2
            && p[..40] == PseudoHeader(ip, 8 + |payload|)
            && p[40] == icmp.typ && p[41] == icmp.code
            && p[42..44] == field && p[44..46] == icmp.id && p[46..48] == icmp.sequence
            && p[48..n] == payload
            && (|payload| % 2 == 1 ==> p[n] == 0)
  {
    var h, two := PseudoHeader(ip, ICMP_HEADER + |payload|), [icmp.typ, icmp.code];
    PseudoHeaderFields(ip, ICMP_HEADER + |payload|);
    var p := Covered(ip, icmp, field, payload);
    assert p == h + two + field + icmp.id + icmp.sequence + payload + Zeros(|payload| % 2);
  }

  /** What icmp6_checksum sums: it leaves the checksum field to the end of the header. */
  function Assembled(ip: Ip6, icmp: Icmp6, payload: seq<byte>): (p: seq<byte>)
    requires ICMP_HEADER + |payload| <= U16_MAX
  {
    PseudoHeader(ip, ICMP_HEADER + |payload|) + [icmp.typ, icmp.code]
    + icmp.id + icmp.sequence + [0, 0] + payload + Zeros(|payload| % 2)
  }

  /** memcpy to the advancing pointer. */
  method Append(buf: array<byte>, at: nat, data: seq<byte>) returns (ptr: nat)
    requires at + |data| <= buf.Length
    modifies buf
    ensures ptr == at + |data|
    ensures buf[..ptr] == old(buf[..at]) + data
  {
    ptr := at;
    var i := 0;
    while i < |data|
      invariant 0 <= i <= |data| && ptr == at + i
      invariant buf[..ptr] == old(buf[..at]) + data[..i]
    {
      buf[ptr] := data[i];
      ptr := ptr + 1;
      i := i + 1;
    }
  }

  method AppendPseudoHeader(buf: array<byte>, ip: Ip6, length: nat) returns (ptr: nat)
    requires |ip.src| == |ip.dst| == ADDRESS && length <= U16_MAX && buf.Length >= PSEUDO_HEADER
    modifies buf
    ensures ptr == PSEUDO_HEADER && buf[..ptr] == PseudoHeader(ip, length)
  {
    ptr := Append(buf, 0, ip.src);
    ptr := Append(buf, ptr, ip.dst);
    ptr := Append(buf, ptr, [0, 0, length / 256, length % 256]);
    ptr := Append(buf, ptr, [0, 0, 0]);
    ptr := Append(buf, ptr, [ip.next]);
  }

  method AppendHeader(buf: array<byte>, at: nat, icmp: Icmp6) returns (ptr: nat)
    requires |icmp.id| == |icmp.sequence| == 2 && at + ICMP_HEADER <= buf.Length
    modifies buf
    ensures ptr == at + ICMP_HEADER
    ensures buf[..ptr] == old(buf[..at]) + [icmp.typ, icmp.code] + icmp.id + icmp.sequence + [0, 0]
  {
    ptr := Append(buf, at, [icmp.typ]);
    ptr := Append(buf, ptr, [icmp.code]);
    ptr := Append(buf, ptr, icmp.id);
    ptr := Append(buf, ptr, icmp.sequence);
    ptr := Append(buf, ptr, [0, 0]);
  }

  /** The buffer is filled front to back and summed on its full, even, length. */
  method Icmp6Checksum(little: bool, ip: Ip6, icmp: Icmp6, payload: seq<byte>)
      returns (answer: nat, chksumlen: nat)
    requires Sized(ip, icmp)
    requires PSEUDO_HEADER + ICMP_HEADER + |payload| + |payload| % 2 <= IP_MAXPACKET
    ensures chksumlen == PSEUDO_HEADER + ICMP_HEADER + |payload| + |payload| % 2
    ensures answer == Checksum(little, Covered(ip, icmp, [0, 0], payload))
  {
    var buf := new byte[IP_MAXPACKET];
    var ptr := AppendPseudoHeader(buf, ip, ICMP_HEADER + |payload|);
    ptr := AppendHeader(buf, ptr, icmp);
    ptr := Append(buf, ptr, payload);
    if |payload| % 2 == 1 {
      ptr := Append(buf, ptr, [0]);
    }
    chksumlen := ptr;
    assert buf[..ptr] == Assembled(ip, icmp, payload);
    answer := ChecksumLoop(little, buf, chksumlen);
    FieldOrder(little, ip, icmp, payload);
  }

  /** Leaving the checksum field to the end does not change the sum. */
  lemma FieldOrder(little: bool, ip: Ip6, icmp: Icmp6, payload: seq<byte>)
    requires Sized(ip, icmp) && ICMP_HEADER + |payload| <= U16_MAX
    ensures Checksum(little, Assembled(ip, icmp, payload)) == Checksum(little, Covered(ip, icmp, [0, 0], payload))
  {
    var head := PseudoHeader(ip, ICMP_HEADER + |payload|) + [icmp.typ, icmp.code];
    var middle, rest := icmp.id + icmp.sequence, payload + Zeros(|payload| % 2);
    assert Assembled(ip, icmp, payload) == (head + middle) + [0, 0] + rest;
    FieldSum(little, head + middle, [0, 0], rest);
    WordSumConcat(little, head, middle);
    assert Covered(ip, icmp, [0, 0], payload) == head + [0, 0] + (middle + rest);
    FieldSum(little, head, [0, 0], middle + rest);
    WordSumConcat(little, middle, rest);
  }

  /** Sending the result in the header's checksum field makes the checksum of all that is covered 0. */
  lemma ReceiverVerifies(little: bool, ip: Ip6, icmp: Icmp6, payload: seq<byte>)
    requires Sized(ip, icmp)
    requires PSEUDO_HEADER + ICMP_HEADER + |payload| + |payload| % 2 <= IP_MAXPACKET
    ensures var c := Checksum(little, Covered(ip, icmp, [0, 0], payload));
            Checksum(little, Covered(ip, icmp, Store(little, c), payload)) == 0
  {
    InstalledChecksum(little, PseudoHeader(ip, ICMP_HEADER + |payload|) + [icmp.typ, icmp.code],
                      icmp.id + icmp.sequence + payload + Zeros(|payload| % 2));
  }
}
