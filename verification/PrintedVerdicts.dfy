/**
 The verdicts printed for one captured frame (pcap_sniffer/lib/core.c). Each printing function refills check
 fields in the frame it reads, so a later verdict may be about bytes that an earlier one has changed.
 */
module PrintedVerdicts {
  import opened Checksum
  import opened PacketChecks

  /** A refill outside a range leaves the range alone. */
  lemma {:induction false} FilledOutside(o: Order, prefix: seq<byte>, s: seq<byte>, lo: nat, len: nat, field: nat,
                                         from: nat, to: nat)
    requires lo + len <= |s| && field + 2 <= |s| && from <= to <= |s| && (field + 2 <= from || to <= field)
    ensures Filled(o, prefix, s, lo, len, field)[from..to] == s[from..to]
  {
  }

  /** The IP header of a frame. */
  function IpHeader(s: seq<byte>): (h: seq<byte>)
    requires |s| > ETHERNET_HEADER && ETHERNET_HEADER + IpHeaderLength(s, ETHERNET_HEADER) <= |s|
  {
    s[ETHERNET_HEADER..ETHERNET_HEADER+IpHeaderLength(s, ETHERNET_HEADER)]
  }

  // ---------------------------------------------------------------- print_icmp_packet

  /** The frame once `print_icmp_packet` has refilled the field it takes for the ICMP checksum. */
  function AfterIcmp(o: Order, s: seq<byte>): (t: seq<byte>)
    requires s != [] && IcmpLookup(s) + ICMP_HEADER <= |s|
    ensures |t| == |s|
  {
    Filled(o, [], s, IcmpLookup(s), ICMP_HEADER, IcmpLookup(s) + ICMP_CHECK)
  }

  /** `print_icmp_packet`: refill, print the IP header with its verdict, then print the ICMP verdict. */
  method PrintIcmp(o: Order, frame: array<byte>, behind: byte) returns (icmpValid: bool, ipValid: bool)
    requires frame.Length >= ETHERNET_HEADER + 20 && IcmpLookup(frame[..]) + ICMP_HEADER <= frame.Length
    requires ETHERNET_HEADER + IpHeaderLength(AfterIcmp(o, frame[..]), ETHERNET_HEADER) <= frame.Length
    modifies frame
    ensures var s := old(frame[..]);
            var at, t := IcmpLookup(s), AfterIcmp(o, s);
            && icmpValid == PrintedValid(o, s[at..at+ICMP_HEADER], ICMP_CHECK)
            && (|IpHeader(t)| >= 12 ==> ipValid == PrintedValid(o, IpHeader(t), IP_CHECK))
            && frame[..] == Filled(o, [], t, ETHERNET_HEADER, |IpHeader(t)|, ETHERNET_HEADER + IP_CHECK)
  {
    ghost var s := frame[..];
    var at := IcmpLookup(frame[..]);
    icmpValid := IcmpVerdict(o, frame, behind);
    ipValid := IpVerdict(o, frame, ETHERNET_HEADER, behind);
  }

  /**
   The IP verdict is that of the captured header if the refilled field lies outside the header, or the refill
   leaves it as it was.
   */
  lemma {:induction false} IpVerdictKept(o: Order, s: seq<byte>)
    requires |s| > ETHERNET_HEADER && ETHERNET_HEADER + IpHeaderLength(s, ETHERNET_HEADER) <= |s|
    requires IcmpLookup(s) + ICMP_HEADER <= |s|
    requires var field, t, end := IcmpLookup(s) + ICMP_CHECK, AfterIcmp(o, s), ETHERNET_HEADER + |IpHeader(s)|;
             || field + 2 <= ETHERNET_HEADER || (end <= field && ETHERNET_HEADER < field)
             || (t[field] == s[field] && t[field+1] == s[field+1])
    ensures var t := AfterIcmp(o, s);
            IpHeaderLength(t, ETHERNET_HEADER) == IpHeaderLength(s, ETHERNET_HEADER) && IpHeader(t) == IpHeader(s)
  {
    var field, t, end := IcmpLookup(s) + ICMP_CHECK, AfterIcmp(o, s), ETHERNET_HEADER + |IpHeader(s)|;
    if t[field] == s[field] && t[field+1] == s[field+1] {
      assert t == s;
    } else {
      FilledOutside(o, [], s, IcmpLookup(s), ICMP_HEADER, field, ETHERNET_HEADER, end);
      assert t[ETHERNET_HEADER] == s[ETHERNET_HEADER];
    }
  }

  /**
   A valid header whose word at the refilled field is overwritten, behind version and header length, is still
   called valid exactly when the new word has the residue of the old one mod 65535.
   */
  lemma {:induction false} IpVerdictChangedIff(o: Order, s: seq<byte>)
    requires |s| > ETHERNET_HEADER && ETHERNET_HEADER + IpHeaderLength(s, ETHERNET_HEADER) <= |s|
    requires |IpHeader(s)| >= 20 && PrintedValid(o, IpHeader(s), IP_CHECK)
    requires IcmpLookup(s) + ICMP_HEADER <= |s|
    requires ETHERNET_HEADER < IcmpLookup(s) + ICMP_CHECK < ETHERNET_HEADER + |IpHeader(s)|
    ensures var field, t := IcmpLookup(s) + ICMP_CHECK, AfterIcmp(o, s);
            && |IpHeader(t)| == |IpHeader(s)|
            && (PrintedValid(o, IpHeader(t), IP_CHECK)
                <==> (Word(o, t[field], t[field+1]) - Word(o, s[field], s[field+1])) % 65535 == 0)
  {
    var field, t := IcmpLookup(s) + ICMP_CHECK, AfterIcmp(o, s);
    FieldInHeader(o, s);
    HeaderBytes(s, field - ETHERNET_HEADER);
    HeaderChangedIff(o, IpHeader(s), IpHeader(t), field - ETHERNET_HEADER, t[field], t[field+1]);
  }

  lemma {:induction false} HeaderBytes(s: seq<byte>, p: nat)
    requires |s| > ETHERNET_HEADER && ETHERNET_HEADER + IpHeaderLength(s, ETHERNET_HEADER) <= |s|
    requires |IpHeader(s)| >= 20 && p + 2 <= |IpHeader(s)|
    ensures IpHeader(s)[0] != 0
    ensures IpHeader(s)[p] == s[ETHERNET_HEADER+p] && IpHeader(s)[p+1] == s[ETHERNET_HEADER+p+1]
  {
    assert IpHeader(s)[0] == s[ETHERNET_HEADER];
  }

  lemma {:induction false} HeaderChangedIff(o: Order, h: seq<byte>, h': seq<byte>, p: nat, b0: byte, b1: byte)
    requires |h| >= 20 && h[0] != 0 && PrintedValid(o, h, IP_CHECK)
    requires p % 4 == 0 && 0 < p && p + 2 <= |h| && h' == Put(h, p, b0, b1)
    ensures PrintedValid(o, h', IP_CHECK) <==> (Word(o, b0, b1) - Word(o, h[p], h[p+1])) % 65535 == 0
  {
    NotAllZero(o, h, p);
    WordChangedIff(o, h, IP_CHECK, p, b0, b1);
  }

  lemma {:induction false} FieldInHeader(o: Order, s: seq<byte>)
    requires |s| > ETHERNET_HEADER && ETHERNET_HEADER + IpHeaderLength(s, ETHERNET_HEADER) <= |s|
    requires IcmpLookup(s) + ICMP_HEADER <= |s|
    requires ETHERNET_HEADER < IcmpLookup(s) + ICMP_CHECK < ETHERNET_HEADER + |IpHeader(s)|
    ensures var field, t := IcmpLookup(s) + ICMP_CHECK, AfterIcmp(o, s);
            var p := field - ETHERNET_HEADER;
            && p % 4 == 0 && 0 < p && p + 2 <= |IpHeader(s)| && |IpHeader(t)| == |IpHeader(s)|
            && IpHeader(t) == Put(IpHeader(s), p, t[field], t[field+1])
  {
    var field, t := IcmpLookup(s) + ICMP_CHECK, AfterIcmp(o, s);
    var p, n := field - ETHERNET_HEADER, IpHeaderLength(s, ETHERNET_HEADER);
    assert p == 4 * (s[0] % 16) - 12 && n == 4 * (s[ETHERNET_HEADER] % 16);
    assert t[ETHERNET_HEADER] == s[ETHERNET_HEADER];
    forall k | 0 <= k < n
      ensures IpHeader(t)[k] == Put(IpHeader(s), p, t[field], t[field+1])[k]
    {
    }
  }

  lemma {:induction false} NotAllZero(o: Order, h: seq<byte>, p: nat)
    requires |h| >= 20 && h[0] != 0 && 2 <= p && p + 2 <= |h|
    ensures WordSum(o, Zeroed(Zeroed(h, IP_CHECK), p)) > 0
  {
    var z := Zeroed(Zeroed(h, IP_CHECK), p);
    assert z[0] == h[0];
    WordSumZero(o, z);
  }

  /** A frame whose IP header is right and called invalid, because the ICMP refill went into it. */
  lemma {:induction false} IcmpSpoilsIp(o: Order) returns (s: seq<byte>)
    ensures |s| == 74 && s[0] == 4 && s[ETHERNET_HEADER] == 0x45
    ensures ReceiverAccepts(o, IpHeader(s)) && PrintedValid(o, IpHeader(s), IP_CHECK)
    ensures |IpHeader(AfterIcmp(o, s))| == 20 && !PrintedValid(o, IpHeader(AfterIcmp(o, s)), IP_CHECK)
  {
    var zero: seq<byte> := seq(74, _ => 0);
    var base := zero[0 := 4][14 := 0x45][22 := 64];
    s := Filled(o, [], base, 14, 20, 24);
    FilledIsValid(o, base);
    SpoiledHeader(o, s);
  }

  lemma {:induction false} SpoiledHeader(o: Order, s: seq<byte>)
    requires |s| == 74 && s[0] == 4 && s[14] == 0x45 && s[22] == 64
    requires forall k :: 16 <= k < 24 && k != 22 ==> s[k] == 0
    requires PrintedValid(o, IpHeader(s), IP_CHECK)
    ensures |IpHeader(AfterIcmp(o, s))| == 20 && !PrintedValid(o, IpHeader(AfterIcmp(o, s)), IP_CHECK)
  {
    SpoilingWord(o, s);
    IpVerdictChangedIff(o, s);
  }

  /** A refilled header is valid. */
  lemma {:induction false} FilledIsValid(o: Order, base: seq<byte>)
    requires |base| >= 34 && IpHeaderLength(base, ETHERNET_HEADER) == 20
    ensures var s := Filled(o, [], base, 14, 20, 24);
            |IpHeader(s)| == 20 && ReceiverAccepts(o, IpHeader(s)) && PrintedValid(o, IpHeader(s), IP_CHECK)
  {
    var s := Filled(o, [], base, 14, 20, 24);
    assert s[14] == base[14];
    FillVerifies(o, [], base, 14, 20, 24);
    FillTwice(o, [], base, 14, 20, 24);
    assert Covered([], s, 14, 20) == IpHeader(s);
    VerdictOnHeader(o, s, 14, 20);
  }

  /** With only the time to live set, the ICMP refill writes a word that is not 0 mod 65535 over a 0. */
  lemma {:induction false} SpoilingWord(o: Order, s: seq<byte>)
    requires |s| == 74 && s[0] == 4 && s[22] == 64
    requires forall k :: 16 <= k < 24 && k != 22 ==> s[k] == 0
    ensures var t := AfterIcmp(o, s);
            (Word(o, t[18], t[19]) - Word(o, s[18], s[19])) % 65535 != 0
  {
    var c: seq<byte> := seq(8, _ => 0);
    WordSumZero(o, c);
    WordSumField(o, c, 6, 64, 0);
    var d := Put(c, 6, 64, 0);
    var z := Zeroed(s, 18);
    assert Covered([], z, 16, 8) == d;
    StoredWord(o, Sum16(o, d));
  }

  // ---------------------------------------------------------------- print_udp_packet

  /** A UDP frame with a whole IP header, whose datagram lies in the frame. */
  predicate UdpFrame(s: seq<byte>) {
    && |s| >= 42 && 20 <= IpHeaderLength(s, ETHERNET_HEADER)
    && UdpOffset(s) + UDP_HEADER <= |s| && UdpOffset(s) + Net16(s, UdpOffset(s) + 4) <= |s|
  }

  function UdpOffset(s: seq<byte>): nat
    requires |s| > ETHERNET_HEADER
  {
    ETHERNET_HEADER + IpHeaderLength(s, ETHERNET_HEADER)
  }

  /** What the UDP checksum is computed over besides the datagram. */
  function UdpPrefix(s: seq<byte>): (ph: seq<byte>)
    requires UdpFrame(s)
    ensures |ph| == 12
  {
    PseudoHeader(s, ETHERNET_HEADER, Net16(s, UdpOffset(s) + 4))
  }

  function UdpRefilled(o: Order, s: seq<byte>): (t: seq<byte>)
    requires UdpFrame(s)
    ensures |t| == |s|
  {
    Filled(o, UdpPrefix(s), s, UdpOffset(s), Net16(s, UdpOffset(s) + 4), UdpOffset(s) + UDP_CHECK)
  }

  function IpRefilled(o: Order, s: seq<byte>): (t: seq<byte>)
    requires UdpFrame(s)
    ensures |t| == |s|
  {
    Filled(o, [], s, ETHERNET_HEADER, IpHeaderLength(s, ETHERNET_HEADER), ETHERNET_HEADER + IP_CHECK)
  }

  /** Only the two bytes at `field` may differ. */
  ghost predicate SameBut(s: seq<byte>, t: seq<byte>, field: nat) {
    |t| == |s| && forall k :: 0 <= k < |s| && k != field && k != field + 1 ==> t[k] == s[k]
  }

  /** Overwriting one of the two check fields leaves the layout alone. */
  lemma {:induction false} LayoutKept(s: seq<byte>, t: seq<byte>, field: nat)
    requires UdpFrame(s) && SameBut(s, t, field)
    requires field == ETHERNET_HEADER + IP_CHECK || field == UdpOffset(s) + UDP_CHECK
    ensures UdpFrame(t) && UdpOffset(t) == UdpOffset(s) && UdpPrefix(t) == UdpPrefix(s)
    ensures Net16(t, UdpOffset(t) + 4) == Net16(s, UdpOffset(s) + 4)
  {
    assert t[ETHERNET_HEADER] == s[ETHERNET_HEADER];
    assert t[26..34] == s[26..34] && t[23] == s[23];
  }

  lemma {:induction false} RefillsKeep(o: Order, s: seq<byte>)
    requires UdpFrame(s)
    ensures SameBut(s, UdpRefilled(o, s), UdpOffset(s) + UDP_CHECK)
    ensures SameBut(s, IpRefilled(o, s), ETHERNET_HEADER + IP_CHECK)
  {
  }

  /** The frame after `print_udp_packet`: UDP field, then IP field. */
  function AfterUdp(o: Order, s: seq<byte>): (t: seq<byte>)
    requires UdpFrame(s)
    ensures |t| == |s|
  {
    RefillsKeep(o, s);
    LayoutKept(s, UdpRefilled(o, s), UdpOffset(s) + UDP_CHECK);
    IpRefilled(o, UdpRefilled(o, s))
  }

  /** The two comparisons of `print_udp_packet` on frame `s`. */
  ghost predicate UdpCalledValid(o: Order, s: seq<byte>)
    requires UdpFrame(s)
  {
    var field, t := UdpOffset(s) + UDP_CHECK, UdpRefilled(o, s);
    s[field] == t[field] && s[field+1] == t[field+1]
  }

  ghost predicate IpCalledValid(o: Order, s: seq<byte>)
    requires UdpFrame(s)
  {
    var field, t := ETHERNET_HEADER + IP_CHECK, IpRefilled(o, s);
    s[field] == t[field] && s[field+1] == t[field+1]
  }

  /** `print_udp_packet`: refill, print the IP header with its verdict, then print the UDP verdict. */
  method PrintUdp(o: Order, frame: array<byte>, behind: byte) returns (udpValid: bool, ipValid: bool)
    requires UdpFrame(frame[..])
    modifies frame
    ensures frame[..] == AfterUdp(o, old(frame[..]))
    ensures udpValid == UdpCalledValid(o, old(frame[..]))
    ensures ipValid == PrintedValid(o, IpHeader(old(frame[..])), IP_CHECK)
  {
    ghost var s := frame[..];
    var udp := UdpOffset(frame[..]);
    RefillsKeep(o, s);
    LayoutKept(s, UdpRefilled(o, s), udp + UDP_CHECK);
    UdpRefillIsLocal(o, s);
    var back0, back1 := frame[udp+6], frame[udp+7];
    ComputeUdpChecksum(o, frame, ETHERNET_HEADER, udp, behind);
    assert frame[..] == UdpRefilled(o, s);
    ipValid := IpVerdict(o, frame, ETHERNET_HEADER, behind);
    udpValid := back0 == frame[udp+6] && back1 == frame[udp+7];
    RefillsKeep(o, UdpRefilled(o, s));
  }

  /** The UDP refill does not touch the IP header. */
  lemma {:induction false} UdpRefillIsLocal(o: Order, s: seq<byte>)
    requires UdpFrame(s)
    ensures IpHeader(UdpRefilled(o, s)) == IpHeader(s)
  {
    var u := UdpOffset(s);
    FilledOutside(o, UdpPrefix(s), s, u, Net16(s, u + 4), u + UDP_CHECK, ETHERNET_HEADER, u);
    assert UdpRefilled(o, s)[ETHERNET_HEADER] == s[ETHERNET_HEADER];
  }

  /** A filled field stays right when a field outside the covered bytes is overwritten. */
  lemma {:induction false} StillFilled(o: Order, prefix: seq<byte>, s: seq<byte>, t: seq<byte>, lo: nat, len: nat,
                                       field: nat, other: nat)
    requires lo + len <= |s| && field + 2 <= |s| && other + 2 <= lo && (other + 2 <= field || field + 2 <= other)
    requires SameBut(Filled(o, prefix, s, lo, len, field), t, other)
    ensures Filled(o, prefix, t, lo, len, field) == t
  {
    var f := Filled(o, prefix, s, lo, len, field);
    assert Covered(prefix, Zeroed(t, field), lo, len) == Covered(prefix, Zeroed(s, field), lo, len);
    assert t[field] == f[field] && t[field+1] == f[field+1];
  }

  /** A second print finds nothing to change. */
  lemma {:induction false} PrintedTwice(o: Order, s: seq<byte>)
    requires UdpFrame(s)
    ensures var t := AfterUdp(o, s);
            && UdpFrame(t) && UdpRefilled(o, t) == t && IpRefilled(o, t) == t
  {
    var u := UdpOffset(s);
    var t1, t := UdpRefilled(o, s), AfterUdp(o, s);
    RefillsKeep(o, s);
    LayoutKept(s, t1, u + UDP_CHECK);
    RefillsKeep(o, t1);
    LayoutKept(t1, t, ETHERNET_HEADER + IP_CHECK);
    UdpStillFilled(o, s, t);
    FillTwice(o, [], t1, ETHERNET_HEADER, u - ETHERNET_HEADER, ETHERNET_HEADER + IP_CHECK);
  }

  lemma {:induction false} UdpStillFilled(o: Order, s: seq<byte>, t: seq<byte>)
    requires UdpFrame(s) && SameBut(UdpRefilled(o, s), t, ETHERNET_HEADER + IP_CHECK)
    requires UdpFrame(t) && UdpOffset(t) == UdpOffset(s) && UdpPrefix(t) == UdpPrefix(s)
    requires Net16(t, UdpOffset(t) + 4) == Net16(s, UdpOffset(s) + 4)
    ensures UdpRefilled(o, t) == t
  {
    var u := UdpOffset(s);
    StillFilled(o, UdpPrefix(s), s, t, u, Net16(s, u + 4), u + UDP_CHECK, ETHERNET_HEADER + IP_CHECK);
  }

  /** ... so both verdicts of a second print are "valid", whatever was captured. */
  lemma {:induction false} SecondPrintValid(o: Order, s: seq<byte>)
    requires UdpFrame(s)
    ensures var t := AfterUdp(o, s);
            UdpFrame(t) && UdpCalledValid(o, t) && PrintedValid(o, IpHeader(t), IP_CHECK) && AfterUdp(o, t) == t
  {
    PrintedTwice(o, s);
    FixedFrame(o, AfterUdp(o, s));
  }

  lemma {:induction false} FixedFrame(o: Order, t: seq<byte>)
    requires UdpFrame(t) && UdpRefilled(o, t) == t && IpRefilled(o, t) == t
    ensures UdpCalledValid(o, t) && PrintedValid(o, IpHeader(t), IP_CHECK) && AfterUdp(o, t) == t
  {
    FixedIsValid(o, t, IpHeaderLength(t, ETHERNET_HEADER));
  }

  lemma {:induction false} FixedIsValid(o: Order, t: seq<byte>, n: nat)
    requires 12 <= n && ETHERNET_HEADER + n <= |t|
    requires Filled(o, [], t, ETHERNET_HEADER, n, ETHERNET_HEADER + IP_CHECK) == t
    ensures PrintedValid(o, t[ETHERNET_HEADER..ETHERNET_HEADER+n], IP_CHECK)
  {
    VerdictOnHeader(o, t, ETHERNET_HEADER, n);
  }

  /**
   The UDP branch of `pckt_hndl`: a packet that is selected (there is no search string, or it was found) is
   printed twice, another one once. The verdicts returned are those of the last print.
   */
  method HandleUdp(o: Order, frame: array<byte>, selected: bool, behind: byte) returns (udpValid: bool, ipValid: bool)
    requires UdpFrame(frame[..])
    modifies frame
    ensures frame[..] == AfterUdp(o, old(frame[..]))
    ensures selected ==> udpValid && ipValid
    ensures !selected ==> udpValid == UdpCalledValid(o, old(frame[..]))
                          && ipValid == PrintedValid(o, IpHeader(old(frame[..])), IP_CHECK)
  {
    if selected {
      SecondPrintValid(o, frame[..]);
      var _, _ := PrintUdp(o, frame, behind);
    }
    udpValid, ipValid := PrintUdp(o, frame, behind);
  }

  /** A frame with a wrong datagram and a wrong IP header, both of which the second print calls valid. */
  lemma {:induction false} WrongFrame() returns (s: seq<byte>)
    ensures UdpFrame(s) && |s| == 42 && Net16(s, UdpOffset(s) + 4) == 8
    ensures !UdpAccepts(Big, UdpPrefix(s), s, UdpOffset(s), 8) && !ReceiverAccepts(Big, IpHeader(s))
    ensures var t := AfterUdp(Big, s);
            UdpFrame(t) && UdpCalledValid(Big, t) && PrintedValid(Big, IpHeader(t), IP_CHECK)
  {
    var zero: seq<byte> := seq(42, _ => 0);
    s := zero[14 := 0x45][23 := 17][39 := 8][41 := 1];
    WrongSums(s);
    SecondPrintValid(Big, s);
  }

  lemma {:induction false} WrongSums(s: seq<byte>)
    requires UdpFrame(s) && |s| == 42 && s[14] == 0x45 && s[23] == 17
    requires forall k :: 15 <= k < 42 && k != 23 ==> s[k] == if k == 39 then 8 else if k == 41 then 1 else 0
    ensures Net16(s, UdpOffset(s) + 4) == 8
    ensures !UdpAccepts(Big, UdpPrefix(s), s, UdpOffset(s), 8) && !ReceiverAccepts(Big, IpHeader(s))
  {
    var zero: seq<byte> := seq(20, _ => 0);
    WordSumZero(Big, zero);
    WordSumField(Big, zero, 8, 0, 17);
    var a := Put(zero, 8, 0, 17);
    WordSumField(Big, a, 0, 0x45, 0);
    assert IpHeader(s) == Put(a, 0, 0x45, 0);
    ZeroChecksum(Big, IpHeader(s));
    WrongDatagramSum(a);
    WrongDatagram(s, Put(Put(Put(a, 10, 0, 8), 16, 0, 8), 18, 0, 1));
  }

  lemma {:induction false} WrongDatagramSum(a: seq<byte>)
    requires |a| == 20 && WordSum(Big, a) == 17 && forall k :: 10 <= k < 20 ==> a[k] == 0
    ensures !ReceiverAccepts(Big, Put(Put(Put(a, 10, 0, 8), 16, 0, 8), 18, 0, 1))
  {
    WordSumField(Big, a, 10, 0, 8);
    var b := Put(a, 10, 0, 8);
    WordSumField(Big, b, 16, 0, 8);
    var c := Put(b, 16, 0, 8);
    WordSumField(Big, c, 18, 0, 1);
    ZeroChecksum(Big, Put(c, 18, 0, 1));
  }

  lemma {:induction false} WrongDatagram(s: seq<byte>, d: seq<byte>)
    requires UdpFrame(s) && |s| == 42 && s[14] == 0x45 && s[23] == 17
    requires forall k :: 15 <= k < 42 && k != 23 ==> s[k] == if k == 39 then 8 else if k == 41 then 1 else 0
    requires |d| == 20
    requires forall k :: 0 <= k < 20 ==> d[k] == if k == 9 then 17 else if k == 11 || k == 17 then 8 else if k == 19 then 1 else 0
    ensures Net16(s, UdpOffset(s) + 4) == 8 && Covered(UdpPrefix(s), s, UdpOffset(s), 8) == d
  {
    var ph := UdpPrefix(s);
    assert forall k :: 0 <= k < 8 ==> ph[k] == s[26+k] == 0;
    assert ph[8] == 0 && ph[9] == 17 && ph[10] == 0 && ph[11] == 8;
    forall k | 0 <= k < 20
      ensures Covered(ph, s, 34, 8)[k] == d[k]
    {
      assert Covered(ph, s, 34, 8)[k] == if k < 12 then ph[k] else s[34+(k-12)];
    }
  }

  // ---------------------------------------------------------------- print_tcp_packet

  /** `print_tcp_packet`: the refill stays behind the IP header, so the IP verdict is that of the captured header. */
  method PrintTcp(o: Order, frame: array<byte>, behind: byte) returns (tcpValid: bool, ipValid: bool)
    requires frame.Length > ETHERNET_HEADER && 20 <= IpHeaderLength(frame[..], ETHERNET_HEADER)
    requires UdpOffset(frame[..]) + 20 <= frame.Length
    requires UdpOffset(frame[..]) + TcpLength(frame[..], ETHERNET_HEADER) <= frame.Length
    modifies frame
    ensures ipValid == PrintedValid(o, IpHeader(old(frame[..])), IP_CHECK)
    ensures var s := old(frame[..]);
            var tcp, len := UdpOffset(s), TcpLength(s, ETHERNET_HEADER);
            len >= 18 && tcpValid ==> ReceiverAccepts(o, Covered(PseudoHeader(s, ETHERNET_HEADER, len), s, tcp, len))
  {
    ghost var s := frame[..];
    var tcp := UdpOffset(frame[..]);
    tcpValid := TcpVerdict(o, frame, ETHERNET_HEADER, tcp, behind);
    ghost var len := TcpLength(s, ETHERNET_HEADER);
    FilledOutside(o, PseudoHeader(s, ETHERNET_HEADER, len), s, tcp, len, tcp + TCP_CHECK, ETHERNET_HEADER, tcp);
    assert frame[ETHERNET_HEADER] == s[ETHERNET_HEADER];
    assert IpHeader(frame[..]) == IpHeader(s);
    ipValid := IpVerdict(o, frame, ETHERNET_HEADER, behind);
  }
}
