/**
 What `dns_reply_hook` (dns_proxy_server/dns_proxy_mod.c) stores against what a reader of section 4.1 of RFC 1035
 finds: the source takes the 16 bytes behind the question for an address record without looking at counts,
 names, type, class and data length.
 */
module DnsAnswers {
  import opened Collections
  import opened Checksum
  import opened PacketChecks
  import opened DnsTree
  import opened DnsPacket
  import opened DnsProxy

  /** Section 4.1.4 of RFC 1035: where a name ends, labels being closed by a zero byte or by a pointer. */
  function NameEnd(s: seq<byte>, at: nat): (e: Option<nat>)
    ensures e.Some? ==> at < e.value <= |s|
    decreases |s| - at
  {
    if at >= |s| then None
    else if s[at] == 0 then Some(at + 1)
    else if s[at] >= 192 then (if at + 1 < |s| then Some(at + 2) else None)
    else if s[at] >= 64 then None
    else NameEnd(s, at + 1 + s[at])
  }

  /** Type A, class IN and four bytes of data behind a name that ends at `f` (section 4.1.3). */
  predicate AddressRecord(s: seq<byte>, f: nat) {
    f + 14 <= |s| && Net16(s, f) == 1 && Net16(s, f + 2) == 1 && Net16(s, f + 8) == 4
  }

  /** Where the address of the first answer is, if a reply to one question starts its answers with an address. */
  function AddressAt(s: seq<byte>): Option<nat>
    requires |s| >= 20 && QuestionAt(s) <= |s|
  {
    var d := UdpAt(s) + UDP_HEADER;
    if Net16(s, d + 4) != 1 || Net16(s, d + 6) == 0 then None
    else
      var q := NameEnd(s, QuestionAt(s));
      if q.None? then None
      else
        var f := NameEnd(s, q.value + 4);
        if f.Some? && AddressRecord(s, f.value) then Some(f.value + 10) else None
  }

  /** A name ends two bytes on exactly if it is a pointer. */
  lemma {:induction false} PointerIff(s: seq<byte>, at: nat)
    requires at + 1 < |s|
    ensures NameEnd(s, at) == Some(at + 2) <==> s[at] >= 192
  {
    if 0 < s[at] < 64 {
      assert NameEnd(s, at) == NameEnd(s, at + 1 + s[at]);
    }
  }

  /**
   The stored address is the address of the reply's first answer exactly when the reply has one question and
   an answer, the record behind the question lies in the packet, its name is a pointer, and it is an address.
   The labels of the question are taken to hold no zero byte, so that both readings of the name agree.
   */
  lemma {:induction false} StoredIsFirstAnswerIff(pkt: seq<byte>, behind: seq<byte>)
    requires |pkt| >= 20 && QuestionAt(pkt) <= |pkt| && HasAnswer(pkt + behind)
    requires NameEnd(pkt, QuestionAt(pkt)) == Some(QuestionAt(pkt) + |Question(pkt + behind)| + 1)
    ensures var a, d := AnswerAt(pkt + behind), UdpAt(pkt) + UDP_HEADER;
            AddressAt(pkt) == Some(a + 12)
            <==> && Net16(pkt, d + 4) == 1 && Net16(pkt, d + 6) > 0
                 && a + RES_RECORD <= |pkt| && pkt[a] >= 192 && AddressRecord(pkt, a + 2)
  {
    var a := AnswerAt(pkt + behind);
    assert QuestionAt(pkt + behind) == QuestionAt(pkt);
    if a + 1 < |pkt| {
      PointerIff(pkt, a);
    }
  }

  /** ... and then it is stored byte for byte. */
  lemma {:induction false} StoredAddress(pkt: seq<byte>, behind: seq<byte>)
    requires |pkt| >= 20 && QuestionAt(pkt) <= |pkt| && HasAnswer(pkt + behind)
    requires AddressAt(pkt) == Some(AnswerAt(pkt + behind) + 12)
    ensures var a := AnswerAt(pkt + behind);
            a + 16 <= |pkt| && Parse(pkt + behind).addr == pkt[a+12..a+16]
  {
    var a := AnswerAt(pkt + behind);
    SliceAppend(pkt, behind, a + 12, a + 16);
  }

  /** A reply without answers is stored like any other. */
  lemma {:induction false} NoAnswerStored(e: Event, n: Name)
    requires Answers(e, n) && |e.pkt| >= 20 && QuestionAt(e.pkt) <= |e.pkt|
    requires Net16(e.pkt, UdpAt(e.pkt) + UDP_HEADER + 6) == 0
    ensures AddressAt(e.pkt) == None && FirstAnswer([e], n) == Some(Parse(Memory(e)))
  {
  }

  /** "No such name", with the zone's SOA record behind the question: a record is stored for the root name. */
  lemma {:induction false} NxDomainStored() returns (e: Event)
    ensures |e.pkt| == 70 && UdpAt(e.pkt) == 20
    ensures e.pkt[31] % 16 == 3 && Net16(e.pkt, 34) == 0 && Net16(e.pkt, 36) == 1 && Net16(e.pkt, 47) == 6
    ensures |e.behind| >= REACH && Answers(e, []) && AddressAt(e.pkt) == None
  {
    var zero: seq<byte> := seq(70, _ => 0);
    var head := zero[0 := 0x45][9 := 17][21 := 53];
    var pkt := head[30 := 0x81][31 := 0x83][33 := 1][37 := 1][45 := 0xC0][46 := 0x0C][48 := 6][50 := 1];
    var behind: seq<byte> := seq(REACH, _ => 0);
    e := Answer(true, pkt, behind, true);
    assert Memory(e)[40..40] == [];
    CStringIs(Memory(e), 40, []);
    NoAnswerStored(e, []);
  }

  // ---------------------------------------------------------------- the reply of the proxy, read by the standard

  lemma {:induction false} NameEndSame(s: seq<byte>, t: seq<byte>, at: nat, e: nat)
    requires NameEnd(s, at) == Some(e) && e <= |t| && Same(s, t, at, e)
    ensures NameEnd(t, at) == Some(e)
    decreases |s| - at
  {
    if 0 < s[at] < 64 {
      assert NameEnd(s, at + 1 + s[at]) == Some(e);
      NameEndSame(s, t, at + 1 + s[at], e);
    }
  }

  /**
   A reader of the standard finds the address and the time to live of `r` in the first answer of `t`, the address
   12 bytes behind `a` and the time to live 6 bytes before it.
   */
  ghost predicate ReadsRecord(t: seq<byte>, a: nat, r: Record) {
    && |t| >= 20 && QuestionAt(t) <= |t| && AddressAt(t) == Some(a + 12) && a + 16 <= |t|
    && t[a+12..a+16] == r.addr && t[a+6..a+10] == r.ttl
  }

  /** A reader of the standard finds the cached address in the reply that `send_reply` makes. */
  lemma {:induction false} ReplyIsRead(req: seq<byte>, extra: seq<byte>, r: Record)
    requires CanAnswer(req, r) && |extra| == RES_RECORD
    requires NameEnd(req, QuestionAt(req)) == Some(QuestionAt(req) + |r.name| + 1)
    ensures ReadsRecord(Reply(req, extra, r), AnswerAt(req), r)
  {
    ReplyIsBuilt(req, extra, r);
    BuiltIsRead(req, Reply(req, extra, r), QuestionAt(req), AnswerAt(req), r);
  }

  /** The question of `req` and behind it an address record, at `a`, with counts 1 and 1. */
  ghost predicate Built(req: seq<byte>, t: seq<byte>, q: nat, a: nat, r: Record) {
    && |t| >= 20 && QuestionAt(t) == q && q + 5 <= a && a + 16 <= |t|
    && a <= |req| && Same(req, t, q, a)
    && Net16(t, UdpAt(t) + 12) == 1 && Net16(t, UdpAt(t) + 14) == 1
    && Net16(t, a) >= 0xC000 && AddressRecord(t, a + 2)
    && t[a+12..a+16] == r.addr && t[a+6..a+10] == r.ttl
  }

  lemma {:induction false} ReplyIsBuilt(req: seq<byte>, extra: seq<byte>, r: Record)
    requires CanAnswer(req, r) && |extra| == RES_RECORD
    ensures Built(req, Reply(req, extra, r), QuestionAt(req), AnswerAt(req), r)
  {
    ReplyCounts(req, extra, r);
    ReplyRecord(req, extra, r);
    ReplyAddress(req, extra, r);
  }

  lemma {:induction false} BuiltIsRead(req: seq<byte>, t: seq<byte>, q: nat, a: nat, r: Record)
    requires Built(req, t, q, a, r) && NameEnd(req, q) == Some(a - 4)
    ensures ReadsRecord(t, a, r)
  {
    NameEndSame(req, t, q, a - 4);
    PointerIff(t, a);
  }

  lemma {:induction false} ReplyAddress(req: seq<byte>, extra: seq<byte>, r: Record)
    requires CanAnswer(req, r) && |extra| == RES_RECORD
    ensures var t, a := Reply(req, extra, r), AnswerAt(req);
            Same(req, t, QuestionAt(req), a) && t[a+12..a+16] == r.addr && t[a+6..a+10] == r.ttl
  {
    ReplyKeeps(req, extra, r);
    AnswerSlices(Reply(req, extra, r), AnswerAt(req), r);
  }

  lemma {:induction false} AnswerSlices(t: seq<byte>, a: nat, r: Record)
    requires a + 16 <= |t| && t[a..a+16] == AnswerBytes(r)
    ensures t[a+12..a+16] == r.addr && t[a+6..a+10] == r.ttl
  {
    SubSlices(t, a);
  }

  lemma {:induction false} ReplyRecord(req: seq<byte>, extra: seq<byte>, r: Record)
    requires CanAnswer(req, r) && |extra| == RES_RECORD
    ensures var t, a := Reply(req, extra, r), AnswerAt(req);
            Net16(t, a) >= 0xC000 && AddressRecord(t, a + 2)
  {
    ReplyAnswer(req, extra, r);
  }

  lemma {:induction false} ReplyCounts(req: seq<byte>, extra: seq<byte>, r: Record)
    requires CanAnswer(req, r) && |extra| == RES_RECORD
    ensures var t, u := Reply(req, extra, r), UdpAt(req);
            UdpAt(t) == u && Net16(t, u + 12) == 1 && Net16(t, u + 14) == 1
  {
    ReplyHeaders(req, extra, r);
  }

  /** The reply of one proxy, seen by the second hook of another, teaches it the same record. */
  lemma {:induction false} ReplyTeaches(req: seq<byte>, extra: seq<byte>, r: Record, behind: seq<byte>)
    requires CanAnswer(req, r) && |extra| == RES_RECORD && IsDns(req, 2)
    ensures var e := Answer(true, Reply(req, extra, r), behind, true);
            Answers(e, r.name) && FirstAnswer([e], r.name) == Some(r)
  {
    var t := Reply(req, extra, r);
    ReplyParses(req, extra, r);
    ReplyIsAnswer(req, extra, r);
    ParseAppend(t, behind);
  }

  /** What lies behind a packet that holds its answer makes no difference. */
  lemma {:induction false} ParseAppend(t: seq<byte>, behind: seq<byte>)
    requires HasAnswer(t)
    ensures HasAnswer(t + behind) && Parse(t + behind) == Parse(t)
    ensures IsDns(t, 0) ==> IsDns(t + behind, 0)
  {
    var s, q, n, a := t + behind, QuestionAt(t), Question(t), AnswerAt(t);
    SliceAppend(t, behind, q, q + |n|);
    CStringIs(s, q, n);
    SliceAppend(t, behind, a + 6, a + 10);
    SliceAppend(t, behind, a + 12, a + 16);
  }

  // ---------------------------------------------------------------- question type and class

  /** Query type and class, behind the question name. */
  function QueryType(s: seq<byte>): nat
    requires HasQuestion(s) && AnswerAt(s) <= |s|
  {
    Net16(s, AnswerAt(s) - 4)
  }

  function QueryClass(s: seq<byte>): nat
    requires HasQuestion(s) && AnswerAt(s) <= |s|
  {
    Net16(s, AnswerAt(s) - 2)
  }

  /** The record behind the question has the type and class that were asked for; 255 asks for any. */
  predicate FitsQuestion(s: seq<byte>)
    requires HasAnswer(s)
  {
    && QueryType(s) in {Net16(s, AnswerAt(s) + 2), 255}
    && QueryClass(s) in {Net16(s, AnswerAt(s) + 4), 255}
  }

  /** A known name is answered with an address of the Internet class: it fits exactly if that was asked for. */
  lemma {:induction false} AnswerFitsIff(req: seq<byte>, extra: seq<byte>, r: Record)
    requires CanAnswer(req, r) && |extra| == RES_RECORD
    ensures var t := Reply(req, extra, r);
            HasAnswer(t) && (FitsQuestion(t) <==> QueryType(req) in {1, 255} && QueryClass(req) in {1, 255})
  {
    ReplyQuery(req, extra, r);
    ReplyRecord(req, extra, r);
  }

  lemma {:induction false} ReplyQuery(req: seq<byte>, extra: seq<byte>, r: Record)
    requires CanAnswer(req, r) && |extra| == RES_RECORD
    ensures var t := Reply(req, extra, r);
            && HasAnswer(t) && AnswerAt(t) == AnswerAt(req)
            && QueryType(t) == QueryType(req) && QueryClass(t) == QueryClass(req)
  {
    ReplyKeeps(req, extra, r);
    ReplyParses(req, extra, r);
    ReplyCounts(req, extra, r);
    SameQuery(req, Reply(req, extra, r), AnswerAt(req));
  }

  lemma {:induction false} SameQuery(s: seq<byte>, t: seq<byte>, a: nat)
    requires 5 <= a <= |s| && a <= |t| && Same(s, t, a - 5, a)
    ensures Net16(t, a - 4) == Net16(s, a - 4) && Net16(t, a - 2) == Net16(s, a - 2)
  {
  }

  /** A question for the IPv6 address of a known name is answered with an IPv4 address. */
  lemma {:induction false} Ipv6QuestionMisfits(extra: seq<byte>) returns (req: seq<byte>, r: Record)
    requires |extra| == RES_RECORD
    ensures CanAnswer(req, r) && QueryType(req) == 28 && QueryClass(req) == 1
    ensures var t := Reply(req, extra, r);
            HasAnswer(t) && Parse(t) == r && !FitsQuestion(t)
  {
    var zero: seq<byte> := seq(45, _ => 0);
    req := zero[0 := 0x45][42 := 28][44 := 1];
    r := Record([], [0, 0, 0, 0], [0, 0, 0, 0]);
    assert req[40..40] == [];
    CStringIs(req, 40, []);
    AnswerFitsIff(req, extra, r);
    ReplyParses(req, extra, r);
  }
}
