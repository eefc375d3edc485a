/**
 The checksum routines of pcap_sniffer/lib/core.c on a captured packet: the check field is cleared,
 the covered bytes are summed (behind a pseudo-header for TCP and UDP) and the field is overwritten in place.
 */
module PacketChecks {
  import opened Checksum

  /** Header sizes in bytes. */
  const ETHERNET_HEADER := 14
  const UDP_HEADER := 8
  const ICMP_HEADER := 8

  /** Offsets of the check fields (RFC 791, RFC 9293, RFC 768, RFC 792). */
  const IP_CHECK := 10
  const TCP_CHECK := 16
  const UDP_CHECK := 6
  const ICMP_CHECK := 2

  /** A 16-bit field in network order (`ntohs`). */
  function Net16(s: seq<byte>, at: nat): (n: nat)
    requires at + 2 <= |s|
  {
    Word(Big, s[at], s[at+1])
  }

  /** `ihl * 4`. */
  function IpHeaderLength(s: seq<byte>, ip: nat): (n: nat)
    requires ip < |s|
    ensures n <= 60
  {
    s[ip] % 16 * 4
  }

  /** Section 3.1 of RFC 9293, RFC 768: addresses, zero, protocol and transport length. */
  function PseudoHeader(s: seq<byte>, ip: nat, len: nat): (ph: seq<byte>)
    requires ip + 20 <= |s| && len < 65536
    ensures |ph| == 12
  {
    s[ip+12..ip+20] + [0, s[ip+9], len / 256, len % 256]
  }

  /** TCP length: total length less IP header length, in 16 bits. */
  function TcpLength(s: seq<byte>, ip: nat): (n: nat)
    requires ip + 20 <= |s|
    ensures n < 65536
  {
    (Net16(s, ip + 2) - IpHeaderLength(s, ip)) % 65536
  }

  /** The bytes lo..lo+len behind a prefix. */
  function Covered(prefix: seq<byte>, s: seq<byte>, lo: nat, len: nat): (c: seq<byte>)
    requires lo + len <= |s|
  {
    prefix + s[lo..lo+len]
  }

  /** `s` once the field holds the checksum of prefix and lo..lo+len, computed with the field cleared. */
  function Filled(o: Order, prefix: seq<byte>, s: seq<byte>, lo: nat, len: nat, field: nat): (t: seq<byte>)
    requires lo + len <= |s| && field + 2 <= |s|
    ensures |t| == |s|
  {
    WithWord(o, s, field, Sum16(o, Covered(prefix, Zeroed(s, field), lo, len)))
  }

  lemma {:induction false} CoveredPut(prefix: seq<byte>, s: seq<byte>, lo: nat, len: nat, field: nat, b0: byte, b1: byte)
    requires lo <= field && field + 2 <= lo + len <= |s|
    ensures Covered(prefix, Put(s, field, b0, b1), lo, len)
            == Put(Covered(prefix, s, lo, len), |prefix| + field - lo, b0, b1)
  {
  }

  /**
   After any of the routines filled its field, recomputing over the same bytes gives 0,
   for even and odd lengths alike.
   */
  lemma {:induction false} FillVerifies(o: Order, prefix: seq<byte>, s: seq<byte>, lo: nat, len: nat, field: nat)
    requires |prefix| % 2 == 0 && lo <= field && field + 2 <= lo + len <= |s| && (field - lo) % 2 == 0
    ensures ReceiverAccepts(o, Covered(prefix, Filled(o, prefix, s, lo, len, field), lo, len))
  {
    var c := Sum16(o, Covered(prefix, Zeroed(s, field), lo, len));
    CoveredPut(prefix, s, lo, len, field, 0, 0);
    CoveredPut(prefix, s, lo, len, field, Stored(o, c).0, Stored(o, c).1);
    FilledVerifies(o, Covered(prefix, s, lo, len), |prefix| + field - lo);
  }

  /** Filling is idempotent: a second pass computes the same field. */
  lemma {:induction false} FillTwice(o: Order, prefix: seq<byte>, s: seq<byte>, lo: nat, len: nat, field: nat)
    requires lo + len <= |s| && field + 2 <= |s|
    ensures Filled(o, prefix, Filled(o, prefix, s, lo, len, field), lo, len, field) == Filled(o, prefix, s, lo, len, field)
  {
    var t := Filled(o, prefix, s, lo, len, field);
    assert Zeroed(t, field) == Zeroed(s, field);
  }

  /** Hosts of either byte order leave the same bytes in the packet. */
  lemma {:induction false} FillOrderIndependent(prefix: seq<byte>, s: seq<byte>, lo: nat, len: nat, field: nat)
    requires lo + len <= |s| && field + 2 <= |s|
    ensures Filled(Big, prefix, s, lo, len, field) == Filled(Little, prefix, s, lo, len, field)
  {
    ByteOrderIndependent(Covered(prefix, Zeroed(s, field), lo, len));
  }

  // ---------------------------------------------------------------- what is covered, on the bytes

  /**
   TCP: behind addresses, zero and protocol stand the total length less 4 * ihl in two bytes, and as many bytes
   of the segment; a total length below the header length wraps.
   */
  lemma {:induction false} TcpCovers(s: seq<byte>, ip: nat, tcp: nat)
    requires ip + 20 <= |s| && tcp + TcpLength(s, ip) <= |s|
    ensures var header: int, total: int := 4 * (s[ip] % 16), 256 * (s[ip+2] as int) + s[ip+3];
            var len := if total >= header then total - header else total - header + 65536;
            && 0 <= len < 65536 && tcp + len <= |s|
            && Covered(PseudoHeader(s, ip, TcpLength(s, ip)), s, tcp, TcpLength(s, ip))
               == s[ip+12..ip+20] + [0, s[ip+9], len / 256, len % 256] + s[tcp..tcp+len]
  {
    var header: int, total: int := 4 * (s[ip] % 16), 256 * (s[ip+2] as int) + s[ip+3];
    var len := if total >= header then total - header else total - header + 65536;
    assert TcpLength(s, ip) == len;
  }

  /** UDP: the length field of the datagram stands in the pseudo-header and says how many bytes are covered. */
  lemma {:induction false} UdpCovers(s: seq<byte>, ip: nat, udp: nat)
    requires ip + 20 <= |s| && udp + 8 <= |s| && udp + Net16(s, udp + 4) <= |s|
    ensures var len: int := 256 * (s[udp+4] as int) + s[udp+5];
            Covered(PseudoHeader(s, ip, Net16(s, udp + 4)), s, udp, Net16(s, udp + 4))
            == s[ip+12..ip+20] + [0, s[ip+9], s[udp+4], s[udp+5]] + s[udp..udp+len]
  {
  }

  /** Only the two bytes of the field change. */
  lemma {:induction false} FilledKeeps(o: Order, prefix: seq<byte>, s: seq<byte>, lo: nat, len: nat, field: nat)
    requires lo + len <= |s| && field + 2 <= |s|
    ensures var t := Filled(o, prefix, s, lo, len, field);
            forall k :: 0 <= k < |s| && k != field && k != field + 1 ==> t[k] == s[k]
  {
  }

  /** The TCP fill on the bytes: addresses, 0, protocol, segment length and segment pass, all else is kept. */
  ghost predicate TcpFilled(o: Order, s: seq<byte>, t: seq<byte>, ip: nat, tcp: nat)
    requires ip + 20 <= |s| && tcp + 20 <= |s|
  {
    var len: int := 256 * (s[ip+2] as int) + s[ip+3] - 4 * (s[ip] % 16) as int;
    && |t| == |s| && (forall k :: 0 <= k < |s| && k != tcp + 16 && k != tcp + 17 ==> t[k] == s[k])
    && (len >= 18 ==>
          && tcp + len <= |s|
          && ReceiverAccepts(o, t[ip+12..ip+20] + [0, t[ip+9], len / 256, len % 256] + t[tcp..tcp+len]))
  }

  lemma {:induction false} TcpFillsBytes(o: Order, s: seq<byte>, ip: nat, tcp: nat)
    requires ip + 20 <= |s| && ip + 20 <= tcp && tcp + 20 <= |s| && tcp + TcpLength(s, ip) <= |s|
    ensures var len := TcpLength(s, ip);
            var t := Filled(o, PseudoHeader(s, ip, len), s, tcp, len, tcp + TCP_CHECK);
            && TcpFilled(o, s, t, ip, tcp)
            && (len >= 18 ==> ReceiverAccepts(o, Covered(PseudoHeader(t, ip, len), t, tcp, len)))
  {
    var len := TcpLength(s, ip);
    var ph := PseudoHeader(s, ip, len);
    var t := Filled(o, ph, s, tcp, len, tcp + TCP_CHECK);
    FilledKeeps(o, ph, s, tcp, len, tcp + TCP_CHECK);
    PseudoHeaderKept(s, t, ip, len);
    if len >= 18 {
      FillVerifies(o, ph, s, tcp, len, tcp + TCP_CHECK);
    }
    TcpFilledOnBytes(o, s, t, ip, tcp);
  }

  lemma {:induction false} PseudoHeaderKept(s: seq<byte>, t: seq<byte>, ip: nat, len: nat)
    requires ip + 20 <= |s| == |t| && len < 65536 && forall k :: ip <= k < ip + 20 ==> t[k] == s[k]
    ensures PseudoHeader(t, ip, len) == PseudoHeader(s, ip, len) && TcpLength(t, ip) == TcpLength(s, ip)
  {
    assert t[ip+12..ip+20] == s[ip+12..ip+20];
  }

  lemma {:induction false} TcpFilledOnBytes(o: Order, s: seq<byte>, t: seq<byte>, ip: nat, tcp: nat)
    requires ip + 20 <= |s| == |t| && ip + 20 <= tcp && tcp + 20 <= |s| && tcp + TcpLength(t, ip) <= |s|
    requires forall k :: 0 <= k < |s| && k != tcp + 16 && k != tcp + 17 ==> t[k] == s[k]
    requires var len := TcpLength(t, ip);
             len >= 18 ==> ReceiverAccepts(o, Covered(PseudoHeader(t, ip, len), t, tcp, len))
    ensures TcpFilled(o, s, t, ip, tcp)
  {
    TcpCovers(t, ip, tcp);
  }

  /** The UDP fill on the bytes, with the datagram's own length. */
  ghost predicate UdpFilled(o: Order, s: seq<byte>, t: seq<byte>, ip: nat, udp: nat)
    requires ip + 20 <= |s| && udp + 8 <= |s|
  {
    var len: int := 256 * (s[udp+4] as int) + s[udp+5];
    && |t| == |s| && (forall k :: 0 <= k < |s| && k != udp + 6 && k != udp + 7 ==> t[k] == s[k])
    && (len >= 8 ==>
          && udp + len <= |s|
          && ReceiverAccepts(o, t[ip+12..ip+20] + [0, t[ip+9], t[udp+4], t[udp+5]] + t[udp..udp+len]))
  }

  lemma {:induction false} UdpFillsBytes(o: Order, s: seq<byte>, ip: nat, udp: nat)
    requires ip + 20 <= |s| && ip + 20 <= udp && udp + 8 <= |s| && udp + Net16(s, udp + 4) <= |s|
    ensures var len := Net16(s, udp + 4);
            var t := Filled(o, PseudoHeader(s, ip, len), s, udp, len, udp + UDP_CHECK);
            && UdpFilled(o, s, t, ip, udp)
            && (len >= 8 ==> ReceiverAccepts(o, Covered(PseudoHeader(t, ip, len), t, udp, len)))
  {
    var len := Net16(s, udp + 4);
    var ph := PseudoHeader(s, ip, len);
    var t := Filled(o, ph, s, udp, len, udp + UDP_CHECK);
    FilledKeeps(o, ph, s, udp, len, udp + UDP_CHECK);
    PseudoHeaderKept(s, t, ip, len);
    if len >= 8 {
      FillVerifies(o, ph, s, udp, len, udp + UDP_CHECK);
    }
    UdpFilledOnBytes(o, s, t, ip, udp);
  }

  lemma {:induction false} UdpFilledOnBytes(o: Order, s: seq<byte>, t: seq<byte>, ip: nat, udp: nat)
    requires ip + 20 <= |s| == |t| && ip + 20 <= udp && udp + 8 <= |s| && udp + Net16(t, udp + 4) <= |s|
    requires forall k :: 0 <= k < |s| && k != udp + 6 && k != udp + 7 ==> t[k] == s[k]
    requires var len := Net16(t, udp + 4);
             len >= 8 ==> ReceiverAccepts(o, Covered(PseudoHeader(t, ip, len), t, udp, len))
    ensures UdpFilled(o, s, t, ip, udp)
  {
    UdpCovers(t, ip, udp);
  }

  // ---------------------------------------------------------------- the routines

  /** Writes the 16-bit word `w` at `at`, in host order. */
  method StoreWord(o: Order, pkt: array<byte>, at: nat, w: nat)
    requires at + 2 <= pkt.Length && w <= 65535
    modifies pkt
    ensures pkt[..] == WithWord(o, old(pkt[..]), at, w)
  {
    pkt[at] := Stored(o, w).0;
    pkt[at+1] := Stored(o, w).1;
  }

  method ClearWord(pkt: array<byte>, at: nat)
    requires at + 2 <= pkt.Length
    modifies pkt
    ensures pkt[..] == Zeroed(old(pkt[..]), at)
  {
    pkt[at] := 0;
    pkt[at+1] := 0;
  }

  /** Clears the field, sums prefix and packet bytes, stores the result. */
  method Refill(o: Order, pkt: array<byte>, prefix: seq<byte>, lo: nat, len: nat, field: nat, behind: byte)
    requires lo + len <= pkt.Length && field + 2 <= pkt.Length && |prefix| + len < 0x1_0000_0000
    modifies pkt
    ensures pkt[..] == Filled(o, prefix, old(pkt[..]), lo, len, field)
  {
    ghost var s := pkt[..];
    ClearWord(pkt, field);
    var c := ComputeChecksum(o, prefix + pkt[lo..lo+len], behind);
    assert pkt[lo..lo+len] == pkt[..][lo..lo+len];
    StoreWord(o, pkt, field, c);
    ClearThenStore(o, s, field, c);
  }

  lemma {:induction false} ClearThenStore(o: Order, s: seq<byte>, field: nat, c: nat)
    requires field + 2 <= |s| && c <= 65535
    ensures WithWord(o, Zeroed(s, field), field, c) == WithWord(o, s, field, c)
  {
  }

  /** `compute_ip_checksum`. */
  method ComputeIpChecksum(o: Order, pkt: array<byte>, ip: nat, behind: byte)
    requires ip + 20 <= pkt.Length && ip + IpHeaderLength(pkt[..], ip) <= pkt.Length
    modifies pkt
    ensures var s := old(pkt[..]);
            && pkt[..] == Filled(o, [], s, ip, IpHeaderLength(s, ip), ip + IP_CHECK)
            && (s[ip] % 16 >= 3 ==> ReceiverAccepts(o, pkt[ip..ip+4*(s[ip]%16)]))
    ensures forall k :: 0 <= k < pkt.Length && k != ip + 10 && k != ip + 11 ==> pkt[k] == old(pkt[k])
  {
    ghost var s := pkt[..];
    var len := pkt[ip] % 16 * 4;
    Refill(o, pkt, [], ip, len, ip + IP_CHECK, behind);
    FilledKeeps(o, [], s, ip, len, ip + IP_CHECK);
    assert forall k :: 0 <= k < pkt.Length ==> pkt[k] == pkt[..][k];
    if len >= 12 {
      FillVerifies(o, [], s, ip, len, ip + IP_CHECK);
      assert Covered([], pkt[..], ip, len) == pkt[ip..ip+len];
    }
  }

  /** `compute_tcp_checksum`; the segment starts at `tcp`. */
  method ComputeTcpChecksum(o: Order, pkt: array<byte>, ip: nat, tcp: nat, behind: byte)
    requires ip + 20 <= pkt.Length && ip + 20 <= tcp && tcp + 20 <= pkt.Length
    requires tcp + TcpLength(pkt[..], ip) <= pkt.Length
    modifies pkt
    ensures var s := old(pkt[..]);
            var len := TcpLength(s, ip);
            && pkt[..] == Filled(o, PseudoHeader(s, ip, len), s, tcp, len, tcp + TCP_CHECK)
            && (len >= 18 ==> ReceiverAccepts(o, Covered(PseudoHeader(pkt[..], ip, len), pkt[..], tcp, len)))
    ensures TcpFilled(o, old(pkt[..]), pkt[..], ip, tcp)
  {
    ghost var s := pkt[..];
    var len := TcpLength(pkt[..], ip);
    var ph: seq<byte> := pkt[ip+12..ip+20] + [0, pkt[ip+9], len / 256, len % 256];
    assert ph == PseudoHeader(s, ip, len);
    Refill(o, pkt, ph, tcp, len, tcp + TCP_CHECK, behind);
    TcpFillsBytes(o, s, ip, tcp);
  }

  /** `compute_udp_checksum`; the datagram starts at `udp` and its own length field is used. */
  method ComputeUdpChecksum(o: Order, pkt: array<byte>, ip: nat, udp: nat, behind: byte)
    requires ip + 20 <= pkt.Length && ip + 20 <= udp && udp + 8 <= pkt.Length
    requires udp + Net16(pkt[..], udp + 4) <= pkt.Length
    modifies pkt
    ensures var s := old(pkt[..]);
            var len := Net16(s, udp + 4);
            && pkt[..] == Filled(o, PseudoHeader(s, ip, len), s, udp, len, udp + UDP_CHECK)
            && (len >= 8 ==> ReceiverAccepts(o, Covered(PseudoHeader(pkt[..], ip, len), pkt[..], udp, len)))
    ensures UdpFilled(o, old(pkt[..]), pkt[..], ip, udp)
  {
    ghost var s := pkt[..];
    var len := Word(Big, pkt[udp+4], pkt[udp+5]);
    var ph: seq<byte> := pkt[ip+12..ip+20] + [0, pkt[ip+9], pkt[udp+4], pkt[udp+5]];
    assert ph == PseudoHeader(s, ip, len);
    Refill(o, pkt, ph, udp, len, udp + UDP_CHECK, behind);
    UdpFillsBytes(o, s, ip, udp);
  }

  /** `compute_icmp_checksum`: only the 8 header bytes are covered. */
  method ComputeIcmpChecksum(o: Order, pkt: array<byte>, icmp: nat, behind: byte)
    requires icmp + ICMP_HEADER <= pkt.Length
    modifies pkt
    ensures pkt[..] == Filled(o, [], old(pkt[..]), icmp, ICMP_HEADER, icmp + ICMP_CHECK)
    ensures ReceiverAccepts(o, pkt[icmp..icmp+8])
    ensures forall k :: 0 <= k < pkt.Length && k != icmp + 2 && k != icmp + 3 ==> pkt[k] == old(pkt[k])
  {
    ghost var s := pkt[..];
    Refill(o, pkt, [], icmp, ICMP_HEADER, icmp + ICMP_CHECK, behind);
    FilledKeeps(o, [], s, icmp, ICMP_HEADER, icmp + ICMP_CHECK);
    assert forall k :: 0 <= k < pkt.Length ==> pkt[k] == pkt[..][k];
    FillVerifies(o, [], s, icmp, ICMP_HEADER, icmp + ICMP_CHECK);
    assert Covered([], pkt[..], icmp, ICMP_HEADER) == pkt[icmp..icmp+ICMP_HEADER];
  }

  /**
   RFC 792 covers the whole ICMP message. A message whose header alone verifies is accepted
   exactly when its data words sum to a multiple of 65535.
   */
  lemma {:induction false} IcmpDataUncovered(o: Order, header: seq<byte>, data: seq<byte>)
    requires |header| == ICMP_HEADER && ReceiverAccepts(o, header)
    ensures ReceiverAccepts(o, header + data) <==> WordSum(o, data) % 65535 == 0
  {
    WordSumConcat(o, header, data);
    ModAdd(WordSum(o, header), 0, WordSum(o, data));
  }

  /** A well-formed echo request with one data byte that the routine leaves wrong for a receiver. */
  lemma IcmpDataCounterexample()
    ensures exists header: seq<byte>, data: seq<byte> ::
              |header| == ICMP_HEADER && ReceiverAccepts(Little, header) && !ReceiverAccepts(Little, header + data)
  {
    var zero: seq<byte> := [8, 0, 0, 0, 0, 1, 0, 1];
    var header := WithWord(Little, zero, 2, Sum16(Little, Zeroed(zero, 2)));
    FilledVerifies(Little, zero, 2);
    var data: seq<byte> := [1];
    IcmpDataUncovered(Little, header, data);
  }

  // ---------------------------------------------------------------- the printed verdicts

  /**
   Comparing the bytes of a field before and after the refill decides `PrintedValid` on the covered bytes; where
   it is stricter than the receiver test, it is by the two zeros of one's complement arithmetic.
   */
  lemma {:induction false} VerdictOnCovered(o: Order, prefix: seq<byte>, s: seq<byte>, lo: nat, len: nat, field: nat)
    requires |prefix| % 2 == 0 && lo <= field && field + 2 <= lo + len <= |s| && (field - lo) % 2 == 0
    ensures var covered, t := Covered(prefix, s, lo, len), Filled(o, prefix, s, lo, len, field);
            var valid := s[field] == t[field] && s[field+1] == t[field+1];
            var computed := Sum16(o, Covered(prefix, Zeroed(s, field), lo, len));
            && valid == PrintedValid(o, covered, |prefix| + field - lo)
            && (valid <==> Word(o, s[field], s[field+1]) == computed)
            && (valid ==> ReceiverAccepts(o, covered))
            && (ReceiverAccepts(o, covered) && !valid <==> s[field] == 255 && s[field+1] == 255 && computed == 0)
  {
    var at := |prefix| + field - lo;
    CoveredPut(prefix, s, lo, len, field, 0, 0);
    VerdictBytes(o, s[field], s[field+1], Sum16(o, Covered(prefix, Zeroed(s, field), lo, len)));
    VerdictVersusReceiver(o, Covered(prefix, s, lo, len), at);
  }

  /** Comparing a 16-bit field is comparing its two bytes. */
  lemma VerdictBytes(o: Order, b0: byte, b1: byte, w: nat)
    requires w <= 65535
    ensures Word(o, b0, b1) == w <==> (b0, b1) == Stored(o, w)
    ensures Word(o, b0, b1) == 0xFFFF <==> b0 == 255 && b1 == 255
    ensures Word(o, b0, b1) == 0 <==> b0 == 0 && b1 == 0
  {
  }

  /**
   The verdict of `print_ip_header`: remember the stored field, recompute it in place and compare.
   */
  method IpVerdict(o: Order, pkt: array<byte>, ip: nat, behind: byte) returns (valid: bool)
    requires ip + 20 <= pkt.Length && ip + IpHeaderLength(pkt[..], ip) <= pkt.Length
    modifies pkt
    ensures pkt[..] == Filled(o, [], old(pkt[..]), ip, IpHeaderLength(old(pkt[..]), ip), ip + IP_CHECK)
    ensures var s := old(pkt[..]);
            var header := s[ip..ip + IpHeaderLength(s, ip)];
            |header| >= 12 ==>
              && valid == PrintedValid(o, header, IP_CHECK)
              && (valid ==> ReceiverAccepts(o, header))
              && (ReceiverAccepts(o, header) && !valid
                  <==> s[ip+10] == 255 && s[ip+11] == 255 && Sum16(o, Zeroed(header, IP_CHECK)) == 0)
  {
    ghost var s := pkt[..];
    ghost var len := IpHeaderLength(s, ip);
    var back0, back1 := pkt[ip+10], pkt[ip+11];
    ComputeIpChecksum(o, pkt, ip, behind);
    valid := back0 == pkt[ip+10] && back1 == pkt[ip+11];
    if len >= 12 {
      VerdictOnHeader(o, s, ip, len);
    }
  }

  lemma {:induction false} VerdictOnHeader(o: Order, s: seq<byte>, ip: nat, len: nat)
    requires 12 <= len && ip + len <= |s|
    ensures var header, t := s[ip..ip+len], Filled(o, [], s, ip, len, ip + IP_CHECK);
            var valid := s[ip+10] == t[ip+10] && s[ip+11] == t[ip+11];
            && valid == PrintedValid(o, header, IP_CHECK)
            && (valid ==> ReceiverAccepts(o, header))
            && (ReceiverAccepts(o, header) && !valid
                <==> s[ip+10] == 255 && s[ip+11] == 255 && Sum16(o, Zeroed(header, IP_CHECK)) == 0)
  {
    assert Covered([], Zeroed(s, ip + IP_CHECK), ip, len) == Zeroed(s[ip..ip+len], IP_CHECK);
    assert Covered([], s, ip, len) == s[ip..ip+len];
    VerdictOnCovered(o, [], s, ip, len, ip + IP_CHECK);
  }

  /** The verdict of `print_tcp_packet`, with the same one exception as for IP. */
  method TcpVerdict(o: Order, pkt: array<byte>, ip: nat, tcp: nat, behind: byte) returns (valid: bool)
    requires ip + 20 <= pkt.Length && ip + 20 <= tcp && tcp + 20 <= pkt.Length
    requires tcp + TcpLength(pkt[..], ip) <= pkt.Length
    modifies pkt
    ensures var s := old(pkt[..]);
            var len, field := TcpLength(s, ip), tcp + TCP_CHECK;
            var ph := PseudoHeader(s, ip, len);
            && pkt[..] == Filled(o, ph, s, tcp, len, field)
            && (len >= 18 ==>
                  && (valid ==> ReceiverAccepts(o, Covered(ph, s, tcp, len)))
                  && (ReceiverAccepts(o, Covered(ph, s, tcp, len)) && !valid
                      <==> && s[field] == 255 && s[field+1] == 255
                           && Sum16(o, Covered(ph, Zeroed(s, field), tcp, len)) == 0))
  {
    ghost var s := pkt[..];
    ghost var len := TcpLength(s, ip);
    var back0, back1 := pkt[tcp+16], pkt[tcp+17];
    ComputeTcpChecksum(o, pkt, ip, tcp, behind);
    valid := back0 == pkt[tcp+16] && back1 == pkt[tcp+17];
    if len >= 18 {
      VerdictOnCovered(o, PseudoHeader(s, ip, len), s, tcp, len, tcp + TCP_CHECK);
    }
  }

  /** RFC 768: a field of 0 says that the sender computed no checksum; otherwise the receiver test decides. */
  predicate UdpAccepts(o: Order, prefix: seq<byte>, s: seq<byte>, udp: nat, len: nat)
    requires udp + len <= |s| && 8 <= len
  {
    (s[udp+6] == 0 && s[udp+7] == 0) || ReceiverAccepts(o, Covered(prefix, s, udp, len))
  }

  /**
   The verdict of `print_udp_packet`. Of the datagrams that RFC 768 accepts it calls exactly those invalid that
   carry no checksum though one could be computed other than 0, and those whose computed 0 was sent as all ones,
   as RFC 768 asks.
   */
  method UdpVerdict(o: Order, pkt: array<byte>, ip: nat, udp: nat, behind: byte) returns (valid: bool)
    requires ip + 20 <= pkt.Length && ip + 20 <= udp && udp + 8 <= pkt.Length
    requires udp + Net16(pkt[..], udp + 4) <= pkt.Length
    modifies pkt
    ensures var s := old(pkt[..]);
            var len, field := Net16(s, udp + 4), udp + UDP_CHECK;
            var ph := PseudoHeader(s, ip, len);
            && pkt[..] == Filled(o, ph, s, udp, len, field)
            && (len >= 8 ==>
                  var computed := Sum16(o, Covered(ph, Zeroed(s, field), udp, len));
                  && (valid ==> UdpAccepts(o, ph, s, udp, len))
                  && (UdpAccepts(o, ph, s, udp, len) && !valid
                      <==> || (s[field] == 0 && s[field+1] == 0 && computed != 0)
                           || (s[field] == 255 && s[field+1] == 255 && computed == 0)))
  {
    ghost var s := pkt[..];
    ghost var len := Net16(s, udp + 4);
    var back0, back1 := pkt[udp+6], pkt[udp+7];
    ComputeUdpChecksum(o, pkt, ip, udp, behind);
    valid := back0 == pkt[udp+6] && back1 == pkt[udp+7];
    if len >= 8 {
      UdpVerdictOn(o, PseudoHeader(s, ip, len), s, udp, len);
    }
  }

  lemma {:induction false} UdpVerdictOn(o: Order, ph: seq<byte>, s: seq<byte>, udp: nat, len: nat)
    requires |ph| == 12 && 8 <= len && udp + len <= |s|
    ensures var field := udp + UDP_CHECK;
            var computed := Sum16(o, Covered(ph, Zeroed(s, field), udp, len));
            var t := Filled(o, ph, s, udp, len, field);
            var valid := s[field] == t[field] && s[field+1] == t[field+1];
            && (valid ==> UdpAccepts(o, ph, s, udp, len))
            && (UdpAccepts(o, ph, s, udp, len) && !valid
                <==> || (s[field] == 0 && s[field+1] == 0 && computed != 0)
                     || (s[field] == 255 && s[field+1] == 255 && computed == 0))
  {
    var field := udp + UDP_CHECK;
    VerdictOnCovered(o, ph, s, udp, len, field);
    VerdictBytes(o, s[field], s[field+1], Sum16(o, Covered(ph, Zeroed(s, field), udp, len)));
  }

  /** An empty datagram without a checksum: RFC 768 accepts it and the sniffer calls it invalid. */
  lemma {:induction false} UdpVerdictCounterexample() returns (s: seq<byte>)
    ensures |s| == 28 && s[0] == 0x45 && s[9] == 17 && Net16(s, 24) == 8
    ensures UdpAccepts(Big, PseudoHeader(s, 0, 8), s, 20, 8)
    ensures Word(Big, s[26], s[27]) != Sum16(Big, Covered(PseudoHeader(s, 0, 8), Zeroed(s, 26), 20, 8))
  {
    var none: seq<byte> := seq(28, _ => 0);
    s := none[0 := 0x45][9 := 17][25 := 8];
    var ph, z := PseudoHeader(s, 0, 8), Zeroed(s, 26);
    assert forall k :: 0 <= k < 8 ==> ph[k] == s[12+k] == 0;
    assert ph[8] == 0 && ph[9] == 17 && ph[10] == 0 && ph[11] == 8;
    assert forall k :: 20 <= k < 28 ==> z[k] == if k == 25 then 8 else 0;
    var covered := Covered(ph, z, 20, 8);
    forall k | 0 <= k < 20
      ensures covered[k] == if k == 9 then 17 else if k == 11 || k == 17 then 8 else 0
    {
      assert covered[k] == if k < 12 then ph[k] else z[20+(k-12)];
    }
    EmptyDatagramSum(covered);
  }

  /** Protocol and two lengths are all that an empty datagram between zero addresses and ports sums up. */
  lemma {:induction false} EmptyDatagramSum(covered: seq<byte>)
    requires |covered| == 20
    requires forall k :: 0 <= k < 20 ==> covered[k] == if k == 9 then 17 else if k == 11 || k == 17 then 8 else 0
    ensures WordSum(Big, covered) == 33 && Sum16(Big, covered) != 0
  {
    var zero: seq<byte> := seq(20, _ => 0);
    WordSumZero(Big, zero);
    WordSumField(Big, zero, 8, 0, 17);
    var one := Put(zero, 8, 0, 17);
    WordSumField(Big, one, 10, 0, 8);
    var two := Put(one, 10, 0, 8);
    WordSumField(Big, two, 16, 0, 8);
    assert covered == Put(two, 16, 0, 8);
    ZeroChecksum(Big, covered);
  }

  /** Where `print_icmp_packet` looks for the ICMP header: it takes the frame for the IP header. */
  function IcmpLookup(frame: seq<byte>): nat
    requires frame != []
  {
    IpHeaderLength(frame, 0)
  }

  /** The verdict of `print_icmp_packet`, whose field is also overwritten at the place it looks at. */
  method IcmpVerdict(o: Order, frame: array<byte>, behind: byte) returns (valid: bool)
    requires frame.Length > 0 && IcmpLookup(frame[..]) + ICMP_HEADER <= frame.Length
    modifies frame
    ensures var s := old(frame[..]);
            var at := 4 * (s[0] % 16);
            && frame[..] == Filled(o, [], s, at, 8, at + 2)
            && valid == PrintedValid(o, s[at..at+8], 2)
  {
    ghost var s := frame[..];
    var at := IcmpLookup(frame[..]);
    var back0, back1 := frame[at+2], frame[at+3];
    ComputeIcmpChecksum(o, frame, at, behind);
    valid := back0 == frame[at+2] && back1 == frame[at+3];
    assert Covered([], s, at, ICMP_HEADER) == s[at..at+ICMP_HEADER];
    VerdictOnCovered(o, [], s, at, ICMP_HEADER, at + ICMP_CHECK);
  }

  /** In no frame at all is that the place of the ICMP header. */
  lemma IcmpLookupMisses(frame: seq<byte>)
    requires |frame| > ETHERNET_HEADER
    ensures IcmpLookup(frame) != ETHERNET_HEADER + IpHeaderLength(frame, ETHERNET_HEADER)
  {
  }

  /** A frame with a correct ICMP header that is called invalid, and one with a wrong one that is called valid. */
  lemma {:induction false} IcmpVerdictCounterexamples() returns (right: seq<byte>, wrong: seq<byte>)
    ensures |right| == |wrong| == 42 && right[14] == wrong[14] == 0x45
    ensures IcmpLookup(right) == IcmpLookup(wrong) == 0
    ensures ReceiverAccepts(Little, right[34..42])
            && !PrintedValid(Little, right[IcmpLookup(right)..IcmpLookup(right)+ICMP_HEADER], ICMP_CHECK)
    ensures !ReceiverAccepts(Little, wrong[34..42])
            && PrintedValid(Little, wrong[IcmpLookup(wrong)..IcmpLookup(wrong)+ICMP_HEADER], ICMP_CHECK)
  {
    var zero: seq<byte> := seq(8, _ => 0);
    var ones: seq<byte> := zero[2 := 255][3 := 255];
    var middle: seq<byte> := seq(26, i => if i == 6 then 0x45 else 0);
    WordSumZero(Little, zero);
    SumWithField(Little, ones, 2);
    assert Zeroed(ones, 2) == zero == Zeroed(zero, 2);
    right := zero + middle + ones;
    wrong := ones + middle + zero;
    assert right[0..8] == zero && right[34..42] == ones && wrong[0..8] == ones && wrong[34..42] == zero;
  }
}
