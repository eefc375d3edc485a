/**
 The byte layout shared by `send_reply` and `dns_reply_hook` (dns_proxy_server/dns_proxy_mod.c,
 sections 4.1.1 to 4.1.4 of RFC 1035). A packet starts with its IPv4 header. The host is little-endian,
 as the compression pointer constant 0xcc0 and the order of the flag bits in the source require.
 */
module DnsPacket {
  import opened Checksum
  import opened PacketChecks
  import opened DnsTree

  const HOST: Order := Little

  const DNS_PORT := 53
  const DNS_HEADER := 12
  /** NUL terminator, query type and class behind the question name. */
  const QUESTION_TAIL := 5
  const RES_RECORD := 16

  // ---------------------------------------------------------------- C strings in packets

  /** There is a NUL at or behind `at`. */
  predicate Terminated(s: seq<byte>, at: nat)
    decreases |s| - at
  {
    at < |s| && (s[at] == 0 || Terminated(s, at + 1))
  }

  /** The C string at `at`. */
  function CString(s: seq<byte>, at: nat): (n: Name)
    requires Terminated(s, at)
    ensures at + |n| < |s| && s[at..at+|n|] == n && s[at+|n|] == 0
    decreases |s| - at
  {
    if s[at] == 0 then []
    else
      var rest := CString(s, at + 1);
      assert s[at..at+1+|rest|] == [s[at]] + rest;
      [s[at]] + rest
  }

  /** A C string is determined by its bytes and its terminator. */
  lemma {:induction false} CStringIs(s: seq<byte>, at: nat, n: Name)
    requires at + |n| < |s| && s[at..at+|n|] == n && s[at+|n|] == 0
    ensures Terminated(s, at) && CString(s, at) == n
    decreases |n|
  {
    if n != [] {
      assert s[at] == s[at..at+|n|][0];
      assert s[at+1..at+1+|n[1..]|] == n[1..];
      CStringIs(s, at + 1, n[1..]);
    }
  }

  // ---------------------------------------------------------------- layout

  /** Offset of the UDP header. */
  function UdpAt(s: seq<byte>): nat
    requires |s| >= 20
  {
    IpHeaderLength(s, 0)
  }

  /** Offset of the question name. */
  function QuestionAt(s: seq<byte>): nat
    requires |s| >= 20
  {
    UdpAt(s) + UDP_HEADER + DNS_HEADER
  }

  /** What the hooks check before they look at the DNS part; `port` is the offset of the UDP port tested. */
  predicate IsDns(s: seq<byte>, port: nat) {
    && |s| >= 20 && s[0] / 16 == 4 && s[9] == 17
    && UdpAt(s) + UDP_HEADER <= |s| && port <= 2
    && Net16(s, UdpAt(s) + port) == DNS_PORT
  }

  /** On the bytes: version 4, protocol 17, and port 53 at the tested place behind 4 * ihl bytes of header. */
  lemma {:induction false} IsDnsIff(s: seq<byte>, port: nat)
    requires |s| >= 68 && port <= 2
    ensures var u := 4 * (s[0] % 16);
            IsDns(s, port) <==> s[0] / 16 == 4 && s[9] == 17 && s[u+port] == 0 && s[u+port+1] == 53
  {
  }

  /** The headers and a terminated question name are inside the packet. */
  predicate HasQuestion(s: seq<byte>) {
    |s| >= 20 && Terminated(s, QuestionAt(s))
  }

  /** The question name. */
  function Question(s: seq<byte>): Name
    requires HasQuestion(s)
  {
    CString(s, QuestionAt(s))
  }

  /** Offset of the first answer record, computed from the question name. */
  function AnswerAt(s: seq<byte>): nat
    requires HasQuestion(s)
  {
    QuestionAt(s) + |Question(s)| + QUESTION_TAIL
  }

  /** A question that ends inside the packet is the same question in the memory from the packet on. */
  lemma {:induction false} QuestionInside(pkt: seq<byte>, behind: seq<byte>)
    requires HasQuestion(pkt + behind) && AnswerAt(pkt + behind) <= |pkt|
    ensures HasQuestion(pkt) && Question(pkt) == Question(pkt + behind) && AnswerAt(pkt) == AnswerAt(pkt + behind)
  {
    var s := pkt + behind;
    var q, n := QuestionAt(s), Question(s);
    assert pkt[q..q+|n|] == s[q..q+|n|] && pkt[q+|n|] == s[q+|n|];
    CStringIs(pkt, q, n);
  }

  predicate HasAnswer(s: seq<byte>) {
    HasQuestion(s) && AnswerAt(s) + RES_RECORD <= |s|
  }

  /** The record `dns_reply_hook` makes of a packet: question name, answer address and ttl. */
  function Parse(s: seq<byte>): Record
    requires HasAnswer(s)
  {
    var a := AnswerAt(s);
    Record(Question(s), s[a+12..a+16], s[a+6..a+10])
  }

  // ---------------------------------------------------------------- writing

  /** `s` with `bs` at `at`. */
  function Write(s: seq<byte>, at: nat, bs: seq<byte>): (t: seq<byte>)
    requires at + |bs| <= |s|
    ensures |t| == |s|
  {
    s[..at] + bs + s[at+|bs|..]
  }

  /** `htons`. */
  function Net(n: nat): seq<byte>
    requires n < 65536
  {
    [n / 256, n % 256]
  }

  /** `qr = 1; rd = 1` in the first flag byte: bits 7 and 0. */
  function AnswerFlags1(b: byte): byte {
    128 + b % 128 / 2 * 2 + 1
  }

  /** `ra = 1; ad = 0` in the second flag byte: bits 7 and 5. */
  function AnswerFlags2(b: byte): byte {
    128 + b % 128 / 64 * 64 + b % 32
  }

  /** The answer record: compression pointer to offset 12, type A, class IN, ttl, 4 bytes of address. */
  function AnswerBytes(r: Record): (a: seq<byte>)
    ensures |a| == RES_RECORD
    ensures a[6..10] == r.ttl && a[12..16] == r.addr
    ensures Net16(a, 0) == 0xC000 + DNS_HEADER && Net16(a, 2) == 1 && Net16(a, 4) == 1 && Net16(a, 10) == 4
  {
    [0xC0, 0x0C, 0, 1, 0, 1] + r.ttl + [0, 4] + r.addr
  }

  /** The IP header of the reply, checksum cleared: length grown, ttl 255, addresses exchanged. */
  function ReplyIp(s: seq<byte>): (t: seq<byte>)
    requires |s| >= 20
    ensures |t| == |s|
  {
    var t1 := Write(s, 2, Net((Net16(s, 2) + 16) % 65536));
    var t2 := Write(t1, 8, [255]);
    Write(t2, 10, [0, 0] + s[16..20] + s[12..16])
  }

  /** The UDP header of the reply: ports exchanged, length grown. */
  function ReplyUdp(s: seq<byte>, u: nat): (t: seq<byte>)
    requires u + 8 <= |s|
    ensures |t| == |s|
  {
    Write(s, u, s[u+2..u+4] + s[u..u+2] + Net((Net16(s, u + 4) + 16) % 65536))
  }

  /** The DNS header of the reply: flags and the four counts. */
  function ReplyDns(s: seq<byte>, d: nat): (t: seq<byte>)
    requires d + 12 <= |s|
    ensures |t| == |s|
  {
    Write(s, d + 2, [AnswerFlags1(s[d+2]), AnswerFlags2(s[d+3]), 0, 1, 0, 1, 0, 0, 0, 0])
  }

  /** The packet with all three headers of the reply; `u` is where the UDP header starts. */
  function Head(s: seq<byte>, u: nat): (t: seq<byte>)
    requires 20 <= u && u + UDP_HEADER + DNS_HEADER <= |s|
    ensures |t| == |s|
  {
    ReplyDns(ReplyUdp(Filled(HOST, [], ReplyIp(s), 0, u, IP_CHECK), u), u + UDP_HEADER)
  }

  /** A request `send_reply` can be called with: a whole question inside the packet, for the cached name. */
  predicate CanAnswer(req: seq<byte>, r: Record) {
    HasQuestion(req) && UdpAt(req) >= 20 && Question(req) == r.name && AnswerAt(req) <= |req|
  }

  /**
   The packet `send_reply` makes of the request `req` and the cached record `r`.
   `extra` is what the 16 appended bytes held before.
   */
  function Reply(req: seq<byte>, extra: seq<byte>, r: Record): (t: seq<byte>)
    requires CanAnswer(req, r) && |extra| == RES_RECORD
    ensures |t| == |req| + RES_RECORD
  {
    Write(Head(req + extra, UdpAt(req)), AnswerAt(req), AnswerBytes(r))
  }

  // ---------------------------------------------------------------- what the reply holds

  /** Bytes lo..hi are the same. */
  ghost predicate Same(s: seq<byte>, t: seq<byte>, lo: nat, hi: nat)
    requires hi <= |s| && hi <= |t|
  {
    forall k :: lo <= k < hi ==> t[k] == s[k]
  }

  /** Two, respectively four bytes of `t` at `to` are those of `s` at `from`. */
  ghost predicate Moved2(s: seq<byte>, from: nat, t: seq<byte>, to: nat)
    requires from + 2 <= |s| && to + 2 <= |t|
  {
    t[to] == s[from] && t[to+1] == s[from+1]
  }

  ghost predicate Moved4(s: seq<byte>, from: nat, t: seq<byte>, to: nat)
    requires from + 4 <= |s| && to + 4 <= |t|
  {
    Moved2(s, from, t, to) && Moved2(s, from + 2, t, to + 2)
  }

  /** A length field that grew by the 16 bytes of the answer record. */
  ghost predicate Grown(s: seq<byte>, t: seq<byte>, at: nat)
    requires at + 2 <= |s| && at + 2 <= |t|
  {
    Net16(t, at) == (Net16(s, at) + 16) % 65536
  }

  /** `t` is `s` with the IP fields of a reply. */
  ghost predicate IpStage(s: seq<byte>, t: seq<byte>) {
    && |s| == |t| >= 20
    && Same(s, t, 0, 2) && Grown(s, t, 2) && Same(s, t, 4, 8) && t[8] == 255 && t[9] == s[9]
    && Moved4(s, 16, t, 12) && Moved4(s, 12, t, 16)
    && Same(s, t, 20, |s|)
  }

  /** `t` is `s` up to the IP checksum field. */
  ghost predicate SumStage(s: seq<byte>, t: seq<byte>) {
    |s| == |t| >= 20 && Same(s, t, 0, 10) && Same(s, t, 12, |s|)
  }

  ghost predicate UdpStage(s: seq<byte>, t: seq<byte>, u: nat) {
    && |s| == |t| >= u + 8
    && Same(s, t, 0, u) && Moved2(s, u + 2, t, u) && Moved2(s, u, t, u + 2) && Grown(s, t, u + 4)
    && Same(s, t, u + 6, |s|)
  }

  ghost predicate DnsStage(s: seq<byte>, t: seq<byte>, d: nat) {
    && |s| == |t| >= d + 12
    && Same(s, t, 0, d + 2)
    && t[d+2] == AnswerFlags1(s[d+2]) && t[d+3] == AnswerFlags2(s[d+3])
    && Net16(t, d + 4) == 1 && Net16(t, d + 6) == 1 && Net16(t, d + 8) == 0 && Net16(t, d + 10) == 0
    && Same(s, t, d + 12, |s|)
  }

  /** All header changes together: lengths grown, both ends exchanged, id and everything behind kept. */
  ghost predicate HeadStage(s: seq<byte>, t: seq<byte>, u: nat) {
    && |s| == |t| && 20 <= u && u + 20 <= |s|
    && Same(s, t, 0, 2) && Grown(s, t, 2) && Same(s, t, 4, 8) && t[8] == 255 && t[9] == s[9]
    && Moved4(s, 16, t, 12) && Moved4(s, 12, t, 16) && Same(s, t, 20, u)
    && Moved2(s, u + 2, t, u) && Moved2(s, u, t, u + 2) && Grown(s, t, u + 4)
    && Same(s, t, u + 6, u + 10)
    && t[u+10] == AnswerFlags1(s[u+10]) && t[u+11] == AnswerFlags2(s[u+11])
    && Net16(t, u + 12) == 1 && Net16(t, u + 14) == 1 && Net16(t, u + 16) == 0 && Net16(t, u + 18) == 0
    && Same(s, t, u + 20, |s|)
  }

  lemma {:induction false} WriteBytes(s: seq<byte>, at: nat, bs: seq<byte>)
    requires at + |bs| <= |s|
    ensures forall k :: 0 <= k < |s| ==> Write(s, at, bs)[k] == if at <= k < at + |bs| then bs[k-at] else s[k]
  {
  }

  lemma {:induction false} IpHolds(s: seq<byte>)
    requires |s| >= 20
    ensures IpStage(s, ReplyIp(s))
  {
    var len, ends := Net((Net16(s, 2) + 16) % 65536), [0, 0] + s[16..20] + s[12..16];
    var t1 := Write(s, 2, len);
    var t2 := Write(t1, 8, [255]);
    WriteBytes(s, 2, len);
    WriteBytes(t1, 8, [255]);
    WriteBytes(t2, 10, ends);
    IpFields(s, t1, t2, Write(t2, 10, ends), len, ends);
  }

  lemma {:induction false} IpFields(s: seq<byte>, t1: seq<byte>, t2: seq<byte>, t: seq<byte>, len: seq<byte>, ends: seq<byte>)
    requires |s| == |t1| == |t2| == |t| >= 20 && |len| == 2 && |ends| == 10
    requires Word(Big, len[0], len[1]) == (Net16(s, 2) + 16) % 65536 && ends == [0, 0] + s[16..20] + s[12..16]
    requires forall k :: 0 <= k < |s| ==> t1[k] == if 2 <= k < 4 then len[k-2] else s[k]
    requires forall k :: 0 <= k < |s| ==> t2[k] == if k == 8 then 255 else t1[k]
    requires forall k :: 0 <= k < |s| ==> t[k] == if 10 <= k < 20 then ends[k-10] else t2[k]
    ensures IpStage(s, t)
  {
    assert t[2] == len[0] && t[3] == len[1];
    assert t[12] == ends[2] && t[13] == ends[3] && t[14] == ends[4] && t[15] == ends[5];
    assert t[16] == ends[6] && t[17] == ends[7] && t[18] == ends[8] && t[19] == ends[9];
    assert ends[2] == s[16] && ends[3] == s[17] && ends[4] == s[18] && ends[5] == s[19];
    assert ends[6] == s[12] && ends[7] == s[13] && ends[8] == s[14] && ends[9] == s[15];
  }

  lemma {:induction false} SumHolds(o: Order, s: seq<byte>, len: nat)
    requires len <= |s| && 20 <= |s|
    ensures SumStage(s, Filled(o, [], s, 0, len, IP_CHECK))
  {
  }

  lemma {:induction false} UdpHolds(s: seq<byte>, u: nat)
    requires u + 8 <= |s|
    ensures UdpStage(s, ReplyUdp(s, u), u)
  {
    var t := ReplyUdp(s, u);
    assert t[u] == s[u+2] && t[u+1] == s[u+3] && t[u+2] == s[u] && t[u+3] == s[u+1];
  }

  lemma {:induction false} DnsHolds(s: seq<byte>, d: nat)
    requires d + 12 <= |s|
    ensures DnsStage(s, ReplyDns(s, d), d)
  {
  }

  lemma {:induction false} StagesCompose(s: seq<byte>, t1: seq<byte>, t2: seq<byte>, t3: seq<byte>, t4: seq<byte>, u: nat)
    requires 20 <= u && u + 20 <= |s|
    requires IpStage(s, t1) && SumStage(t1, t2) && UdpStage(t2, t3, u) && DnsStage(t3, t4, u + 8)
    ensures HeadStage(s, t4, u) && Same(t2, t4, 0, u)
  {
  }

  lemma {:induction false} HeadHolds(s: seq<byte>, u: nat)
    requires 20 <= u && u + 20 <= |s|
    ensures HeadStage(s, Head(s, u), u)
    ensures Same(Filled(HOST, [], ReplyIp(s), 0, u, IP_CHECK), Head(s, u), 0, u)
  {
    var t1 := ReplyIp(s);
    var t2 := Filled(HOST, [], t1, 0, u, IP_CHECK);
    var t3 := ReplyUdp(t2, u);
    IpHolds(s);
    SumHolds(HOST, t1, u);
    UdpHolds(t2, u);
    DnsHolds(t3, u + 8);
    StagesCompose(s, t1, t2, t3, Head(s, u), u);
  }

  /** The IP header of the reply passes the receiver test on a receiver of either byte order. */
  lemma {:induction false} HeadVerifies(o: Order, s: seq<byte>, u: nat)
    requires 20 <= u && u + 20 <= |s|
    ensures ReceiverAccepts(o, Head(s, u)[..u])
  {
    var t1 := ReplyIp(s);
    FillVerifies(o, [], t1, 0, u, IP_CHECK);
    FillOrderIndependent([], t1, 0, u, IP_CHECK);
    HeadHolds(s, u);
    CoveredPrefix(Filled(HOST, [], t1, 0, u, IP_CHECK), Head(s, u), u);
  }

  lemma {:induction false} CoveredPrefix(t: seq<byte>, t': seq<byte>, u: nat)
    requires u <= |t| == |t'| && Same(t, t', 0, u)
    ensures Covered([], t, 0, u) == t'[..u]
  {
  }

  /** The flag writes set qr and rd and keep opcode, aa and tc. */
  lemma AnswerFlagBits1(b: byte)
    ensures var f := AnswerFlags1(b);
            f / 128 == 1 && f % 2 == 1 && f / 2 % 64 == b / 2 % 64
  {
    var m := b % 128 / 2;
    assert AnswerFlags1(b) == 128 + 2 * m + 1;
    assert b / 2 % 64 == m;
  }

  /** The flag writes set ra, clear ad and keep z, cd and rcode. */
  lemma AnswerFlagBits2(b: byte)
    ensures var f := AnswerFlags2(b);
            f / 128 == 1 && f / 32 % 2 == 0 && f / 64 % 2 == b / 64 % 2 && f % 32 == b % 32
  {
    var h, l := b % 128 / 64, b % 32;
    assert AnswerFlags2(b) == 128 + 64 * h + l;
    assert b / 64 % 2 == h;
  }

  /** Writing the answer behind everything else. */
  lemma {:induction false} AnswerStage(t: seq<byte>, t': seq<byte>, a: nat, bs: seq<byte>)
    requires a + |bs| <= |t| && t' == Write(t, a, bs)
    ensures |t'| == |t| && t'[a..a+|bs|] == bs && Same(t, t', 0, a)
  {
  }

  /**
   Build and parse round trip: what `dns_reply_hook` reads from the packet made by `send_reply`
   is the record it was made from.
   */
  lemma {:induction false} ReplyParses(req: seq<byte>, extra: seq<byte>, r: Record)
    requires CanAnswer(req, r) && |extra| == RES_RECORD
    ensures var t := Reply(req, extra, r);
            HasAnswer(t) && Parse(t) == r
  {
    ReplyKeeps(req, extra, r);
    ParsesBack(req, Reply(req, extra, r), r, QuestionAt(req), AnswerAt(req));
  }

  /** Header length and question are kept and the answer record stands behind them. */
  lemma {:induction false} ReplyKeeps(req: seq<byte>, extra: seq<byte>, r: Record)
    requires CanAnswer(req, r) && |extra| == RES_RECORD
    ensures var t, a := Reply(req, extra, r), AnswerAt(req);
            Same(req, t, 0, 1) && Same(req, t, QuestionAt(req), a) && t[a..a+RES_RECORD] == AnswerBytes(r)
  {
    var u, a, h := UdpAt(req), AnswerAt(req), Head(req + extra, UdpAt(req));
    HeadKeeps(req + extra, u);
    AnswerStage(h, Reply(req, extra, r), a, AnswerBytes(r));
  }

  lemma {:induction false} HeadKeeps(s: seq<byte>, u: nat)
    requires 20 <= u && u + 20 <= |s|
    ensures Same(s, Head(s, u), 0, 1) && Same(s, Head(s, u), u + 20, |s|)
  {
    HeadHolds(s, u);
  }

  lemma {:induction false} ParsesBack(req: seq<byte>, t: seq<byte>, r: Record, q: nat, a: nat)
    requires CanAnswer(req, r) && q == QuestionAt(req) && a == AnswerAt(req)
    requires |t| == |req| + RES_RECORD && Same(req, t, 0, 1) && Same(req, t, q, a)
    requires t[a..a+RES_RECORD] == AnswerBytes(r)
    ensures HasAnswer(t) && Parse(t) == r
  {
    var n := |r.name|;
    assert QuestionAt(t) == q;
    assert t[q..q+n] == r.name && t[q+n] == 0 by {
      assert t[q..q+n] == req[q..q+n];
    }
    CStringIs(t, q, r.name);
    SubSlices(t, a);
  }

  lemma {:induction false} SubSlices(t: seq<byte>, a: nat)
    requires a + 16 <= |t|
    ensures t[a+6..a+10] == t[a..a+16][6..10] && t[a+12..a+16] == t[a..a+16][12..16]
  {
    SubSlice(t, a, a + 16, 6, 10);
    SubSlice(t, a, a + 16, 12, 16);
  }

  lemma {:induction false} SubSlice(t: seq<byte>, lo: nat, hi: nat, i: nat, j: nat)
    requires lo <= hi <= |t| && i <= j <= hi - lo
    ensures t[lo+i..lo+j] == t[lo..hi][i..j]
  {
    forall k | 0 <= k < j - i
      ensures t[lo+i..lo+j][k] == t[lo..hi][i..j][k]
    {
    }
  }

  /** The answer record as a resolver reads it: its name points back at the question, type A, class IN, 4 bytes. */
  lemma {:induction false} ReplyAnswer(req: seq<byte>, extra: seq<byte>, r: Record)
    requires CanAnswer(req, r) && |extra| == RES_RECORD
    ensures var t, a := Reply(req, extra, r), AnswerAt(req);
            && Net16(t, a) >= 0xC000 && UdpAt(req) + UDP_HEADER + (Net16(t, a) - 0xC000) == QuestionAt(req)
            && Net16(t, a + 2) == 1 && Net16(t, a + 4) == 1 && Net16(t, a + 10) == 4
  {
    var t, a := Reply(req, extra, r), AnswerAt(req);
    AnswerStage(Head(req + extra, UdpAt(req)), t, a, AnswerBytes(r));
    forall k | 0 <= k < RES_RECORD
      ensures t[a+k] == AnswerBytes(r)[k]
    {
      assert t[a+k] == t[a..a+RES_RECORD][k];
    }
    assert t[a+0] == AnswerBytes(r)[0];
  }

  /** The headers of the reply: 16 bytes longer, sent back where the request came from, all else kept. */
  lemma {:induction false} ReplyHeaders(req: seq<byte>, extra: seq<byte>, r: Record)
    requires CanAnswer(req, r) && |extra| == RES_RECORD
    ensures var t, u := Reply(req, extra, r), UdpAt(req);
            && Grown(req, t, 2) && Grown(req, t, u + 4)
            && Moved4(req, 16, t, 12) && Moved4(req, 12, t, 16)
            && Moved2(req, u + 2, t, u) && Moved2(req, u, t, u + 2)
            && Same(req, t, 0, 2) && Same(req, t, 4, 8) && t[8] == 255 && t[9] == req[9]
            && Same(req, t, 20, u) && Same(req, t, u + 6, u + 10) && Same(req, t, u + 20, AnswerAt(req))
            && t[u+10] == AnswerFlags1(req[u+10]) && t[u+11] == AnswerFlags2(req[u+11])
            && Net16(t, u + 12) == 1 && Net16(t, u + 14) == 1 && Net16(t, u + 16) == 0 && Net16(t, u + 18) == 0
  {
    var u, a := UdpAt(req), AnswerAt(req);
    var s := req + extra;
    var t4, t := Head(s, u), Reply(req, extra, r);
    HeadHolds(s, u);
    AnswerStage(t4, t, a, AnswerBytes(r));
    HeadersBack(req, s, t4, t, u, a);
  }

  /** The reply to what the first hook takes for a query is what the second hook takes for an answer. */
  lemma {:induction false} ReplyIsAnswer(req: seq<byte>, extra: seq<byte>, r: Record)
    requires CanAnswer(req, r) && |extra| == RES_RECORD && IsDns(req, 2)
    ensures IsDns(Reply(req, extra, r), 0)
  {
    ReplyHeaders(req, extra, r);
    AnswersFromPort(req, Reply(req, extra, r), UdpAt(req));
  }

  lemma {:induction false} AnswersFromPort(req: seq<byte>, t: seq<byte>, u: nat)
    requires IsDns(req, 2) && u == UdpAt(req) && u + 8 <= |req| <= |t|
    requires t[0] == req[0] && t[9] == req[9] && Moved2(req, u + 2, t, u)
    ensures IsDns(t, 0)
  {
  }

  /** The IP header of the reply passes the receiver test. */
  lemma {:induction false} ReplyVerifies(o: Order, req: seq<byte>, extra: seq<byte>, r: Record)
    requires CanAnswer(req, r) && |extra| == RES_RECORD
    ensures ReceiverAccepts(o, Reply(req, extra, r)[..UdpAt(req)])
  {
    var u, h := UdpAt(req), Head(req + extra, UdpAt(req));
    HeadVerifies(o, req + extra, u);
    WriteKeepsPrefix(h, AnswerAt(req), AnswerBytes(r), u);
  }

  lemma {:induction false} WriteKeepsPrefix(s: seq<byte>, at: nat, bs: seq<byte>, n: nat)
    requires n <= at && at + |bs| <= |s|
    ensures Write(s, at, bs)[..n] == s[..n]
  {
  }

  lemma {:induction false} HeadersBack(req: seq<byte>, s: seq<byte>, t4: seq<byte>, t: seq<byte>, u: nat, a: nat)
    requires |req| <= |s| && Same(req, s, 0, |req|) && HeadStage(s, t4, u)
    requires u + 20 <= a <= |t4| == |t| && a <= |req| && Same(t4, t, 0, a)
    ensures Grown(req, t, 2) && Grown(req, t, u + 4)
    ensures Moved4(req, 16, t, 12) && Moved4(req, 12, t, 16)
    ensures Moved2(req, u + 2, t, u) && Moved2(req, u, t, u + 2)
    ensures Same(req, t, 0, 2) && Same(req, t, 4, 8) && t[8] == 255 && t[9] == req[9]
    ensures Same(req, t, 20, u) && Same(req, t, u + 6, u + 10) && Same(req, t, u + 20, a)
    ensures t[u+10] == AnswerFlags1(req[u+10]) && t[u+11] == AnswerFlags2(req[u+11])
    ensures Net16(t, u + 12) == 1 && Net16(t, u + 14) == 1 && Net16(t, u + 16) == 0 && Net16(t, u + 18) == 0
    ensures Same(t4, t, 0, u)
  {
  }

  // ---------------------------------------------------------------- the room the copy was expanded by

  lemma {:induction false} WriteAppend(s: seq<byte>, e: seq<byte>, at: nat, bs: seq<byte>)
    requires at + |bs| <= |s|
    ensures Write(s + e, at, bs) == Write(s, at, bs) + e
  {
    assert (s + e)[..at] == s[..at] && (s + e)[at+|bs|..] == s[at+|bs|..] + e;
  }

  lemma {:induction false} SliceAppend(s: seq<byte>, e: seq<byte>, lo: nat, hi: nat)
    requires lo <= hi <= |s|
    ensures (s + e)[lo..hi] == s[lo..hi]
  {
  }

  lemma {:induction false} IpAppend(s: seq<byte>, e: seq<byte>)
    requires |s| >= 20
    ensures ReplyIp(s + e) == ReplyIp(s) + e
  {
    var len := Net((Net16(s, 2) + 16) % 65536);
    var t1 := Write(s, 2, len);
    SliceAppend(s, e, 12, 16);
    SliceAppend(s, e, 16, 20);
    WriteAppend(s, e, 2, len);
    WriteAppend(t1, e, 8, [255]);
    WriteAppend(Write(t1, 8, [255]), e, 10, [0, 0] + s[16..20] + s[12..16]);
  }

  lemma {:induction false} PutAppend(s: seq<byte>, e: seq<byte>, at: nat, b0: byte, b1: byte)
    requires at + 2 <= |s|
    ensures Put(s + e, at, b0, b1) == Put(s, at, b0, b1) + e
  {
  }

  lemma {:induction false} FilledAppend(s: seq<byte>, e: seq<byte>, u: nat)
    requires 12 <= u <= |s|
    ensures Filled(HOST, [], s + e, 0, u, IP_CHECK) == Filled(HOST, [], s, 0, u, IP_CHECK) + e
  {
    var z := Zeroed(s, IP_CHECK);
    var c := Sum16(HOST, Covered([], z, 0, u));
    PutAppend(s, e, IP_CHECK, 0, 0);
    SliceAppend(z, e, 0, u);
    PutAppend(s, e, IP_CHECK, Stored(HOST, c).0, Stored(HOST, c).1);
  }

  lemma {:induction false} UdpAppend(s: seq<byte>, e: seq<byte>, u: nat)
    requires u + 8 <= |s|
    ensures ReplyUdp(s + e, u) == ReplyUdp(s, u) + e
  {
    SliceAppend(s, e, u, u + 2);
    SliceAppend(s, e, u + 2, u + 4);
    WriteAppend(s, e, u, s[u+2..u+4] + s[u..u+2] + Net((Net16(s, u + 4) + 16) % 65536));
  }

  lemma {:induction false} DnsAppend(s: seq<byte>, e: seq<byte>, d: nat)
    requires d + 12 <= |s|
    ensures ReplyDns(s + e, d) == ReplyDns(s, d) + e
  {
    WriteAppend(s, e, d + 2, [AnswerFlags1(s[d+2]), AnswerFlags2(s[d+3]), 0, 1, 0, 1, 0, 0, 0, 0]);
  }

  /** What lies behind the headers has no influence on them. */
  lemma {:induction false} HeadAppend(s: seq<byte>, e: seq<byte>, u: nat)
    requires 20 <= u && u + UDP_HEADER + DNS_HEADER <= |s|
    ensures Head(s + e, u) == Head(s, u) + e
  {
    IpAppend(s, e);
    FilledAppend(ReplyIp(s), e, u);
    TransportAppend(Filled(HOST, [], ReplyIp(s), 0, u, IP_CHECK), e, u);
  }

  lemma {:induction false} TransportAppend(s: seq<byte>, e: seq<byte>, u: nat)
    requires u + UDP_HEADER + DNS_HEADER <= |s|
    ensures ReplyDns(ReplyUdp(s + e, u), u + UDP_HEADER) == ReplyDns(ReplyUdp(s, u), u + UDP_HEADER) + e
  {
    UdpAppend(s, e, u);
    DnsAppend(ReplyUdp(s, u), e, u + UDP_HEADER);
  }

  /** The reply from the question on: question, answer, and what the answer does not cover. */
  function ReplyTail(req: seq<byte>, extra: seq<byte>, r: Record): (t: seq<byte>)
    requires CanAnswer(req, r) && |extra| == RES_RECORD
    ensures |t| == |req| + RES_RECORD - QuestionAt(req)
  {
    req[QuestionAt(req)..AnswerAt(req)] + AnswerBytes(r) + (req + extra)[AnswerAt(req)+RES_RECORD..]
  }

  /** The reply is made of the headers of the request, which do not depend on the room, and that tail. */
  lemma {:induction false} ReplyParts(req: seq<byte>, extra: seq<byte>, r: Record)
    requires CanAnswer(req, r) && |extra| == RES_RECORD
    ensures Reply(req, extra, r) == Head(req, UdpAt(req))[..QuestionAt(req)] + ReplyTail(req, extra, r)
  {
    var u := UdpAt(req);
    HeadAppend(req, extra, u);
    HeadKeeps(req, u);
    WriteParts(req, Head(req, u), extra, AnswerBytes(r), u + 20, AnswerAt(req));
  }

  lemma {:induction false} WriteParts(req: seq<byte>, h: seq<byte>, extra: seq<byte>, bs: seq<byte>, q: nat, a: nat)
    requires q <= a <= |req| == |h| && Same(req, h, q, |req|) && |extra| == |bs|
    ensures Write(h + extra, a, bs) == h[..q] + (req[q..a] + bs + (req + extra)[a+|bs|..])
  {
    assert h[..a] == h[..q] + req[q..a];
    assert (h + extra)[a+|bs|..] == (req + extra)[a+|bs|..];
  }

  /**
   What the room behind the copy held can be seen in the reply exactly when the request has something
   behind its question.
   */
  lemma {:induction false} RoomShowsIff(req: seq<byte>, r: Record)
    requires CanAnswer(req, r)
    ensures (forall e, f | |e| == RES_RECORD && |f| == RES_RECORD :: Reply(req, e, r) == Reply(req, f, r))
            <==> AnswerAt(req) == |req|
  {
    if AnswerAt(req) == |req| {
      forall e, f | |e| == RES_RECORD && |f| == RES_RECORD
        ensures Reply(req, e, r) == Reply(req, f, r)
      {
        ReplyWithoutRoom(req, e, r);
        ReplyWithoutRoom(req, f, r);
      }
    } else {
      var e: seq<byte> := seq(RES_RECORD, _ => 0);
      var f: seq<byte> := seq(RES_RECORD, _ => 1);
      LastByteOfRoom(req, e, r);
      LastByteOfRoom(req, f, r);
    }
  }

  lemma {:induction false} ReplyWithoutRoom(req: seq<byte>, extra: seq<byte>, r: Record)
    requires CanAnswer(req, r) && |extra| == RES_RECORD && AnswerAt(req) == |req|
    ensures Reply(req, extra, r)
            == Head(req, UdpAt(req))[..QuestionAt(req)] + (req[QuestionAt(req)..AnswerAt(req)] + AnswerBytes(r))
  {
    ReplyParts(req, extra, r);
    NothingBehind(req, extra, req[QuestionAt(req)..AnswerAt(req)] + AnswerBytes(r));
  }

  lemma {:induction false} NothingBehind(req: seq<byte>, extra: seq<byte>, t: seq<byte>)
    ensures t + (req + extra)[|req|+|extra|..] == t
  {
  }

  lemma {:induction false} LastByteOfRoom(req: seq<byte>, extra: seq<byte>, r: Record)
    requires CanAnswer(req, r) && |extra| == RES_RECORD && AnswerAt(req) < |req|
    ensures Reply(req, extra, r)[|req|+RES_RECORD-1] == extra[RES_RECORD-1]
  {
    ReplyParts(req, extra, r);
    var rest := (req + extra)[AnswerAt(req)+RES_RECORD..];
    assert rest[|rest|-1] == (req + extra)[|req|+RES_RECORD-1];
    assert ReplyTail(req, extra, r)[|req|+RES_RECORD-QuestionAt(req)-1] == rest[|rest|-1];
  }

  // ---------------------------------------------------------------- the writes

  /** Overwrites packet bytes in place. */
  method Poke(pkt: array<byte>, at: nat, bs: seq<byte>)
    requires at + |bs| <= pkt.Length
    modifies pkt
    ensures pkt[..] == Write(old(pkt[..]), at, bs)
  {
    forall k | 0 <= k < |bs| {
      pkt[at+k] := bs[k];
    }
  }

  /** A copy of the request with 16 more bytes of whatever the new room holds (`skb_copy_expand`). */
  method CopyExpand(req: seq<byte>, extra: seq<byte>) returns (pkt: array<byte>)
    ensures fresh(pkt) && pkt[..] == req + extra
  {
    var all := req + extra;
    pkt := new byte[|all|](i requires 0 <= i < |all| => all[i]);
    assert pkt[..] == all;
  }

  /** The IP part of `send_reply` before the checksum is computed. */
  method RewriteIpFields(pkt: array<byte>)
    requires pkt.Length >= 20
    modifies pkt
    ensures pkt[..] == ReplyIp(old(pkt[..]))
  {
    var src, dst := pkt[12..16], pkt[16..20];
    Poke(pkt, 2, Net((Word(Big, pkt[2], pkt[3]) + 16) % 65536));
    Poke(pkt, 8, [255]);
    Poke(pkt, 10, [0, 0] + dst + src);
  }

  /** The IP part of `send_reply`. */
  method RewriteIp(pkt: array<byte>, behind: byte)
    requires pkt.Length >= 20 && IpHeaderLength(pkt[..], 0) <= pkt.Length
    modifies pkt
    ensures var s := old(pkt[..]);
            pkt[..] == Filled(HOST, [], ReplyIp(s), 0, IpHeaderLength(s, 0), IP_CHECK)
  {
    var len := IpHeaderLength(pkt[..], 0);
    RewriteIpFields(pkt);
    Refill(HOST, pkt, [], 0, len, IP_CHECK, behind);
  }

  /** `send_reply` up to handing the packet to the network. */
  method SendReply(req: seq<byte>, extra: seq<byte>, r: Record, behind: byte) returns (pkt: array<byte>)
    requires CanAnswer(req, r) && |extra| == RES_RECORD
    ensures fresh(pkt) && pkt[..] == Reply(req, extra, r)
  {
    pkt := CopyExpand(req, extra);
    assert pkt[0] == req[0];
    WriteHead(pkt, IpHeaderLength(req, 0), behind);
    Poke(pkt, IpHeaderLength(req, 0) + UDP_HEADER + DNS_HEADER + |r.name| + QUESTION_TAIL, AnswerBytes(r));
  }

  /** The header part of `send_reply`. */
  method WriteHead(pkt: array<byte>, u: nat, behind: byte)
    requires pkt.Length >= u + 20 && 20 <= u == IpHeaderLength(pkt[..], 0)
    modifies pkt
    ensures pkt[..] == Head(old(pkt[..]), u)
  {
    RewriteIp(pkt, behind);
    RewriteUdp(pkt, u);
    var d := u + UDP_HEADER;
    Poke(pkt, d + 2, [AnswerFlags1(pkt[d+2]), AnswerFlags2(pkt[d+3]), 0, 1, 0, 1, 0, 0, 0, 0]);
  }

  /** The UDP part of `send_reply`. */
  method RewriteUdp(pkt: array<byte>, u: nat)
    requires pkt.Length >= u + 8
    modifies pkt
    ensures pkt[..] == ReplyUdp(old(pkt[..]), u)
  {
    var source, dest := pkt[u..u+2], pkt[u+2..u+4];
    Poke(pkt, u, dest + source + Net((Word(Big, pkt[u+4], pkt[u+5]) + 16) % 65536));
  }
}
