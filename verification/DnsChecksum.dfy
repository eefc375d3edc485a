/**
 The UDP checksum of a DNS reply. `send_reply` (dns_proxy_server/dns_proxy_mod.c) rewrites the headers and
 appends the answer but keeps the checksum field of the request; this module says exactly when that is right.
 */
module DnsChecksum {
  import opened Checksum
  import opened PacketChecks
  import opened DnsTree
  import opened DnsPacket

  /** The UDP length field covers the DNS header and stays inside the packet. */
  predicate Datagram(s: seq<byte>) {
    && |s| >= 20 && UdpAt(s) + UDP_HEADER <= |s|
    && UDP_HEADER + DNS_HEADER <= Net16(s, UdpAt(s) + 4) && UdpAt(s) + Net16(s, UdpAt(s) + 4) <= |s|
  }

  /** What the UDP checksum covers: pseudo-header and datagram (RFC 768). */
  function UdpCovered(s: seq<byte>): seq<byte>
    requires Datagram(s)
  {
    var len := Net16(s, UdpAt(s) + 4);
    Covered(PseudoHeader(s, 0, len), s, UdpAt(s), len)
  }

  // ---------------------------------------------------------------- word sums of the parts

  /** Behind an odd number of bytes every byte changes its place inside the words. */
  lemma {:induction false} WordSumOdd(o: Order, a: seq<byte>, b: seq<byte>)
    requires |a| % 2 == 1
    ensures WordSum(o, a + b) == WordSum(o, a) + WordSum(o, [0] + b)
  {
    var n := |a| - 1;
    assert a + b == a[..n] + ([a[n]] + b);
    WordSumConcat(o, a[..n], [a[n]] + b);
    WordSumPrefix(o, a, n);
    assert a[n..] == [a[n]];
    if b != [] {
      assert ([a[n]] + b)[2..] == ([0] + b)[2..];
    }
  }

  /** The sum of `n` words in network order. */
  function Words(s: seq<byte>, at: nat, n: nat): nat
    requires at + 2 * n <= |s|
    decreases n
  {
    if n == 0 then 0 else Net16(s, at) + Words(s, at + 2, n - 1)
  }

  lemma {:induction false} WordsFirst(s: seq<byte>, at: nat, n: nat, e: nat)
    requires at + 2 * n <= e <= |s|
    ensures WordSum(Big, s[at..e]) == Words(s, at, n) + WordSum(Big, s[at+2*n..e])
    decreases n
  {
    if n > 0 {
      assert s[at..e][2..] == s[at+2..e];
      WordsFirst(s, at + 2, n - 1, e);
      assert at + 2 + 2 * (n - 1) == at + 2 * n;
    }
  }

  lemma {:induction false} WordsSplit(s: seq<byte>, at: nat, n: nat, m: nat)
    requires at + 2 * (n + m) <= |s|
    ensures Words(s, at, n + m) == Words(s, at, n) + Words(s, at + 2 * n, m)
    decreases n
  {
    if n > 0 {
      WordsSplit(s, at + 2, n - 1, m);
      assert at + 2 + 2 * (n - 1) == at + 2 * n;
    }
  }

  lemma {:induction false} TwoWords(s: seq<byte>, at: nat)
    requires at + 4 <= |s|
    ensures Words(s, at, 2) == Net16(s, at) + Net16(s, at + 2)
  {
    assert Words(s, at + 2, 1) == Net16(s, at + 2) + Words(s, at + 4, 0);
  }

  /** The six words of addresses, protocol and UDP length. */
  lemma {:induction false} PseudoSum(s: seq<byte>, len: nat)
    requires |s| >= 20 && len < 65536
    ensures WordSum(Big, PseudoHeader(s, 0, len)) == Words(s, 12, 4) + s[9] + len
  {
    var end: seq<byte> := [0, s[9], len / 256, len % 256];
    WordSumConcat(Big, s[12..20], end);
    WordsFirst(s, 12, 4, 20);
    assert s[20..20] == [] && end[2..][2..] == [];
  }

  /** The two flag bytes and the four counts. */
  function FlagsAndCounts(s: seq<byte>, u: nat): nat
    requires u + 20 <= |s|
  {
    Words(s, u + 10, 5)
  }

  /** Addresses, protocol, ports, checksum field and id: the words a reply only moves around. */
  function Moving(s: seq<byte>, u: nat): nat
    requires 20 <= |s| && u + 20 <= |s|
  {
    Words(s, 12, 4) + s[9] + Words(s, u, 2) + Words(s, u + 6, 2)
  }

  lemma {:induction false} HeaderSum(s: seq<byte>, u: nat, e: nat)
    requires u + 20 <= e <= |s|
    ensures WordSum(Big, s[u..e])
            == Words(s, u, 2) + Net16(s, u + 4) + Words(s, u + 6, 2) + FlagsAndCounts(s, u) + WordSum(Big, s[u+20..e])
  {
    WordsFirst(s, u, 10, e);
    WordsSplit(s, u, 2, 8);
    WordsSplit(s, u + 6, 2, 5);
    assert Words(s, u + 4, 8) == Net16(s, u + 4) + Words(s, u + 6, 7);
  }

  /** The words under the UDP checksum, field by field. */
  lemma {:induction false} CoveredSum(s: seq<byte>, u: nat, len: nat)
    requires Datagram(s) && u == UdpAt(s) && len == Net16(s, u + 4)
    ensures WordSum(Big, UdpCovered(s))
            == Moving(s, u) + 2 * len + FlagsAndCounts(s, u) + WordSum(Big, s[u+20..u+len])
  {
    PseudoSum(s, len);
    PrefixedSum(PseudoHeader(s, 0, len), s, u, len, UdpCovered(s));
  }

  lemma {:induction false} PrefixedSum(ph: seq<byte>, s: seq<byte>, u: nat, len: nat, covered: seq<byte>)
    requires |ph| == 12 && u + 20 <= u + len <= |s| && covered == ph + s[u..u+len]
    requires WordSum(Big, ph) == Words(s, 12, 4) + s[9] + len && len == Net16(s, u + 4)
    ensures WordSum(Big, covered) == Moving(s, u) + 2 * len + FlagsAndCounts(s, u) + WordSum(Big, s[u+20..u+len])
  {
    WordSumConcat(Big, ph, s[u..u+len]);
    HeaderSum(s, u, u + len);
  }

  // ---------------------------------------------------------------- the reply

  /** Flags and counts of an answer to `req`. */
  function AnswerWords(req: seq<byte>, u: nat): nat
    requires u + 20 <= |req|
  {
    Word(Big, AnswerFlags1(req[u+10]), AnswerFlags2(req[u+11])) + 2
  }

  /** What the headers of the reply add to the words of the request: two lengths, flags and counts. */
  function HeaderDrift(req: seq<byte>, u: nat): int
    requires u + 20 <= |req|
  {
    32 + AnswerWords(req, u) - FlagsAndCounts(req, u)
  }

  /** What the part behind the headers adds: `len` - 4 bytes of `tail` against those of the request. */
  function TailDrift(req: seq<byte>, u: nat, len: nat, tail: seq<byte>): int
    requires 20 <= len && u + len <= |req| && len - 4 <= |tail|
  {
    WordSum(Big, tail[..len-4]) - WordSum(Big, req[u+20..u+len])
  }

  /** How far the words of the reply are from those of the request. */
  function Drift(req: seq<byte>, extra: seq<byte>, r: Record): int
    requires CanAnswer(req, r) && |extra| == RES_RECORD && Datagram(req)
  {
    HeaderDrift(req, UdpAt(req)) + TailDrift(req, UdpAt(req), Net16(req, UdpAt(req) + 4), ReplyTail(req, extra, r))
  }

  /** `t` has the headers of an answer to `req`. */
  ghost predicate Answered(req: seq<byte>, t: seq<byte>, u: nat)
    requires 20 <= u && u + 20 <= |req| && |req| <= |t|
  {
    && Same(req, t, 0, 1) && t[9] == req[9] && Moved4(req, 16, t, 12) && Moved4(req, 12, t, 16)
    && Moved2(req, u + 2, t, u) && Moved2(req, u, t, u + 2) && Grown(req, t, u + 4) && Same(req, t, u + 6, u + 10)
    && t[u+10] == AnswerFlags1(req[u+10]) && t[u+11] == AnswerFlags2(req[u+11])
    && Net16(t, u + 12) == 1 && Net16(t, u + 14) == 1 && Net16(t, u + 16) == 0 && Net16(t, u + 18) == 0
  }

  lemma {:induction false} ReplyAnswered(req: seq<byte>, extra: seq<byte>, r: Record)
    requires CanAnswer(req, r) && |extra| == RES_RECORD
    ensures Answered(req, Reply(req, extra, r), UdpAt(req))
  {
    ReplyHeaders(req, extra, r);
  }

  lemma {:induction false} AnsweredMoving(req: seq<byte>, t: seq<byte>, u: nat)
    requires 20 <= u && u + 20 <= |req| <= |t| && Answered(req, t, u)
    ensures Moving(t, u) == Moving(req, u)
  {
    WordsSplit(req, 12, 2, 2);
    WordsSplit(t, 12, 2, 2);
    TwoWordsKept(req, 16, t, 12);
    TwoWordsKept(req, 12, t, 16);
    TwoWordsKept(req, u + 6, t, u + 6);
    TwoWords(req, u);
    TwoWords(t, u);
  }

  lemma {:induction false} TwoWordsKept(s: seq<byte>, from: nat, t: seq<byte>, to: nat)
    requires from + 4 <= |s| && to + 4 <= |t|
    requires t[to] == s[from] && t[to+1] == s[from+1] && t[to+2] == s[from+2] && t[to+3] == s[from+3]
    ensures Words(t, to, 2) == Words(s, from, 2)
  {
    TwoWords(s, from);
    TwoWords(t, to);
  }

  lemma {:induction false} AnsweredFlags(req: seq<byte>, t: seq<byte>, u: nat)
    requires 20 <= u && u + 20 <= |req| <= |t| && Answered(req, t, u)
    ensures FlagsAndCounts(t, u) == AnswerWords(req, u)
  {
    WordsSplit(t, u + 10, 1, 4);
    WordsSplit(t, u + 12, 2, 2);
    TwoWords(t, u + 12);
    TwoWords(t, u + 16);
    assert Words(t, u + 12, 0) == 0;
  }

  lemma {:induction false} AnsweredDatagram(req: seq<byte>, t: seq<byte>, u: nat)
    requires 20 <= u && u + 20 <= |req| <= 0xFFFF && |t| == |req| + 16 && Answered(req, t, u)
    requires Datagram(req) && u == UdpAt(req)
    ensures Datagram(t) && UdpAt(t) == u && Net16(t, u + 4) == Net16(req, u + 4) + 16
  {
    assert t[0] == req[0];
    LengthFits(Net16(req, u + 4), Net16(t, u + 4));
  }

  lemma LengthFits(len: nat, grown: nat)
    requires len <= 0xFFFF - 20 && grown == (len + 16) % 65536
    ensures grown == len + 16
  {
  }

  /** `t` is an answer to `req` with the given bytes behind the headers. */
  ghost predicate AnsweredWith(req: seq<byte>, t: seq<byte>, u: nat, tail: seq<byte>)
    requires 20 <= u && u + 20 <= |req|
  {
    |t| == |req| + 16 && Answered(req, t, u) && t[u+20..] == tail
  }

  lemma {:induction false} ReplyAnsweredWith(req: seq<byte>, extra: seq<byte>, r: Record)
    requires CanAnswer(req, r) && |extra| == RES_RECORD
    ensures AnsweredWith(req, Reply(req, extra, r), UdpAt(req), ReplyTail(req, extra, r))
  {
    ReplyAnswered(req, extra, r);
    ReplyParts(req, extra, r);
    SliceBehind(Head(req, UdpAt(req))[..QuestionAt(req)], ReplyTail(req, extra, r));
  }

  lemma {:induction false} SliceBehind(a: seq<byte>, b: seq<byte>)
    ensures (a + b)[|a|..] == b
  {
  }

  lemma {:induction false} AnsweredSum(req: seq<byte>, t: seq<byte>, u: nat, len: nat, tail: seq<byte>)
    requires 20 <= u && u + 20 <= |req| <= 0xFFFF && AnsweredWith(req, t, u, tail)
    requires Datagram(req) && u == UdpAt(req) && len == Net16(req, u + 4)
    ensures Datagram(t)
    ensures WordSum(Big, UdpCovered(t))
            == Moving(req, u) + 2 * (len + 16) + AnswerWords(req, u) + WordSum(Big, tail[..len-4])
  {
    AnsweredDatagram(req, t, u);
    AnsweredMoving(req, t, u);
    AnsweredFlags(req, t, u);
    SumFrom(t, u, len, tail);
  }

  lemma {:induction false} SumFrom(t: seq<byte>, u: nat, len: nat, tail: seq<byte>)
    requires Datagram(t) && u == UdpAt(t) && len >= 20 && len + 16 == Net16(t, u + 4) && t[u+20..] == tail
    ensures WordSum(Big, UdpCovered(t))
            == Moving(t, u) + 2 * (len + 16) + FlagsAndCounts(t, u) + WordSum(Big, tail[..len-4])
  {
    SliceOfRest(t, u + 20, len - 4, tail);
    CoveredSum(t, u, len + 16);
  }

  lemma {:induction false} SliceOfRest(t: seq<byte>, q: nat, n: nat, tail: seq<byte>)
    requires q + n <= |t| && t[q..] == tail
    ensures t[q..q+n] == tail[..n]
  {
  }

  lemma {:induction false} AnsweredDrifts(req: seq<byte>, t: seq<byte>, u: nat, len: nat, tail: seq<byte>)
    requires 20 <= u && u + 20 <= |req| <= 0xFFFF && AnsweredWith(req, t, u, tail)
    requires Datagram(req) && u == UdpAt(req) && len == Net16(req, u + 4)
    ensures Datagram(t)
    ensures 0 < WordSum(Big, UdpCovered(t))
            == WordSum(Big, UdpCovered(req)) + (HeaderDrift(req, u) + TailDrift(req, u, len, tail))
  {
    AnsweredSum(req, t, u, len, tail);
    DriftFrom(req, u, len, tail, WordSum(Big, UdpCovered(t)));
  }

  lemma {:induction false} DriftFrom(req: seq<byte>, u: nat, len: nat, tail: seq<byte>, after: nat)
    requires Datagram(req) && u == UdpAt(req) && len == Net16(req, u + 4) && len - 4 <= |tail|
    requires after == Moving(req, u) + 2 * (len + 16) + AnswerWords(req, u) + WordSum(Big, tail[..len-4])
    ensures 0 < after == WordSum(Big, UdpCovered(req)) + (HeaderDrift(req, u) + TailDrift(req, u, len, tail))
  {
    CoveredSum(req, u, len);
    AddUp(Moving(req, u), len, FlagsAndCounts(req, u), WordSum(Big, req[u+20..u+len]), AnswerWords(req, u),
          WordSum(Big, tail[..len-4]), WordSum(Big, UdpCovered(req)), after);
  }

  lemma AddUp(m: nat, len: nat, f: nat, w: nat, f': nat, w': nat, before: nat, after: nat)
    requires before == m + 2 * len + f + w && after == m + 2 * (len + 16) + f' + w'
    ensures 0 < after == before + ((32 + f' - f) + (w' - w))
  {
  }

  /**
   The covered words of the reply sum to those of the request plus the drift, whatever stands behind
   the question. A packet has at most 65535 bytes (section 3.1 of RFC 791).
   */
  lemma {:induction false} ReplyDrifts(req: seq<byte>, extra: seq<byte>, r: Record)
    requires CanAnswer(req, r) && |extra| == RES_RECORD && Datagram(req) && |req| <= 0xFFFF
    ensures var t := Reply(req, extra, r);
            Datagram(t) && 0 < WordSum(Big, UdpCovered(t)) == WordSum(Big, UdpCovered(req)) + Drift(req, extra, r)
  {
    ReplyAnsweredWith(req, extra, r);
    AnsweredDrifts(req, Reply(req, extra, r), UdpAt(req), Net16(req, UdpAt(req) + 4), ReplyTail(req, extra, r));
  }

  lemma {:induction false} OrderOfReceiver(o: Order, s: seq<byte>)
    ensures ReceiverAccepts(o, s) <==> WordSum(Big, s) > 0 && WordSum(Big, s) % 65535 == 0
  {
    ByteOrderIndependent(s);
    ZeroChecksum(Big, s);
  }

  /** The sum over the reply is all ones again exactly when the drift is a multiple of 65535. */
  lemma {:induction false} KeptSumIff(o: Order, req: seq<byte>, extra: seq<byte>, r: Record)
    requires CanAnswer(req, r) && |extra| == RES_RECORD && Datagram(req) && |req| <= 0xFFFF
    requires ReceiverAccepts(o, UdpCovered(req))
    ensures var t := Reply(req, extra, r);
            && Datagram(t)
            && (ReceiverAccepts(o, UdpCovered(t)) <==> Drift(req, extra, r) % 65535 == 0)
  {
    ReplyDrifts(req, extra, r);
    DriftDecides(o, UdpCovered(req), UdpCovered(Reply(req, extra, r)), Drift(req, extra, r));
  }

  /** The checksum field is 0: the sender computed none (RFC 768). */
  predicate NoChecksum(s: seq<byte>)
    requires |s| >= 20 && UdpAt(s) + UDP_HEADER <= |s|
  {
    s[UdpAt(s)+6] == 0 && s[UdpAt(s)+7] == 0
  }

  /** A receiver that follows RFC 768 takes the datagram. */
  predicate Accepted(o: Order, s: seq<byte>)
    requires Datagram(s)
  {
    var len := Net16(s, UdpAt(s) + 4);
    UdpAccepts(o, PseudoHeader(s, 0, len), s, UdpAt(s), len)
  }

  lemma {:induction false} AcceptedMeans(o: Order, s: seq<byte>)
    requires Datagram(s)
    ensures Accepted(o, s) <==> NoChecksum(s) || ReceiverAccepts(o, UdpCovered(s))
  {
  }

  lemma {:induction false} FieldKept(req: seq<byte>, extra: seq<byte>, r: Record)
    requires CanAnswer(req, r) && |extra| == RES_RECORD
    ensures var t := Reply(req, extra, r);
            UdpAt(t) == UdpAt(req) && (NoChecksum(t) <==> NoChecksum(req))
  {
    ReplyHeaders(req, extra, r);
  }

  /**
   For a request that a receiver takes, the reply with the kept checksum is taken exactly when there is no
   checksum or the drift is a multiple of 65535: something that flags, counts, ttl, address and the bytes behind
   the question decide, and that the source does not look at.
   */
  lemma {:induction false} KeptChecksumIff(o: Order, req: seq<byte>, extra: seq<byte>, r: Record)
    requires CanAnswer(req, r) && |extra| == RES_RECORD && Datagram(req) && |req| <= 0xFFFF && Accepted(o, req)
    ensures var t := Reply(req, extra, r);
            && Datagram(t)
            && (Accepted(o, t) <==> NoChecksum(req) || Drift(req, extra, r) % 65535 == 0)
  {
    ReplyDrifts(req, extra, r);
    FieldKept(req, extra, r);
    AcceptedMeans(o, req);
    AcceptedMeans(o, Reply(req, extra, r));
    if !NoChecksum(req) {
      KeptSumIff(o, req, extra, r);
    }
  }

  lemma {:induction false} DriftDecides(o: Order, before: seq<byte>, after: seq<byte>, d: int)
    requires ReceiverAccepts(o, before) && WordSum(Big, after) == WordSum(Big, before) + d
    requires WordSum(Big, after) > 0
    ensures ReceiverAccepts(o, after) <==> d % 65535 == 0
  {
    OrderOfReceiver(o, before);
    OrderOfReceiver(o, after);
    DriftArithmetic(WordSum(Big, before), d);
  }

  lemma DriftArithmetic(n: nat, d: int)
    requires n % 65535 == 0
    ensures (n + d) % 65535 == 0 <==> d % 65535 == 0
  {
    ModShift(d, n / 65535);
  }

  // ---------------------------------------------------------------- requests that end with their question

  predicate Plain(req: seq<byte>)
    requires HasQuestion(req)
  {
    AnswerAt(req) == |req| <= 0xFFFF && Datagram(req) && UdpAt(req) + Net16(req, UdpAt(req) + 4) == |req|
  }

  /** The answer record as it falls into the words behind the question. */
  function AnswerSum(r: Record): nat {
    if (|r.name| + QUESTION_TAIL) % 2 == 0 then WordSum(Big, AnswerBytes(r)) else WordSum(Big, [0] + AnswerBytes(r))
  }

  /** For a plain request the drift is that of the headers plus the answer record. */
  lemma {:induction false} PlainDrift(req: seq<byte>, extra: seq<byte>, r: Record)
    requires CanAnswer(req, r) && Plain(req) && |extra| == RES_RECORD
    ensures Drift(req, extra, r) == HeaderDrift(req, UdpAt(req)) + AnswerSum(r)
  {
    var q, len := QuestionAt(req), Net16(req, UdpAt(req) + 4);
    NothingBehind(req, extra, req[q..|req|] + AnswerBytes(r));
    assert ReplyTail(req, extra, r) == req[q..|req|] + AnswerBytes(r);
    assert ReplyTail(req, extra, r)[..len-4] == ReplyTail(req, extra, r);
    AppendedSum(req[q..|req|], r);
  }

  lemma {:induction false} AppendedSum(q: seq<byte>, r: Record)
    requires |q| == |r.name| + QUESTION_TAIL
    ensures WordSum(Big, q + AnswerBytes(r)) == WordSum(Big, q) + AnswerSum(r)
  {
    if |q| % 2 == 0 {
      WordSumConcat(Big, q, AnswerBytes(r));
    } else {
      WordSumOdd(Big, q, AnswerBytes(r));
    }
  }

  // ---------------------------------------------------------------- replies with a wrong checksum

  /** An ordinary recursive query for the root name: 20 bytes of IP, 8 of UDP, 12 of DNS and 5 of question. */
  predicate RootQuery(s: seq<byte>) {
    && |s| == 45 && s[0] == 0x45 && Net16(s, 24) == 25
    && s[30] == 1 && s[31] == 0 && Net16(s, 32) == 1 && Net16(s, 34) == 0 && Net16(s, 36) == 0 && Net16(s, 38) == 0
    && s[40] == 0
  }

  /** The cached record: the root name with address and ttl zero. */
  const ANSWER: Record := Record([], [0, 0, 0, 0], [0, 0, 0, 0])

  lemma {:induction false} RootQueryIsPlain(s: seq<byte>)
    requires RootQuery(s)
    ensures CanAnswer(s, ANSWER) && Plain(s) && UdpAt(s) == 20 && HeaderDrift(s, 20) == 32929
  {
    assert s[40..40] == [];
    CStringIs(s, 40, []);
  }

  lemma {:induction false} RootAnswerSum()
    ensures AnswerSum(ANSWER) == 4800
  {
    RootAnswerBytes([0] + AnswerBytes(ANSWER));
    SumOfSeventeen([0] + AnswerBytes(ANSWER));
  }

  /** The answer bytes behind one byte of question: 00 C0, 0C 00, 01 00, 01, ttl, 00 04, address. */
  ghost predicate RootAnswer(a: seq<byte>) {
    && |a| == 17
    && a[0] == 0 && a[1] == 0xC0 && a[2] == 0x0C && a[3] == 0 && a[4] == 1 && a[5] == 0 && a[6] == 1 && a[11] == 0
    && a[7] == 0 && a[8] == 0 && a[9] == 0 && a[10] == 0 && a[12] == 4
    && a[13] == 0 && a[14] == 0 && a[15] == 0 && a[16] == 0
  }

  lemma {:induction false} RootAnswerBytes(a: seq<byte>)
    requires a == [0] + AnswerBytes(ANSWER)
    ensures RootAnswer(a)
  {
  }

  lemma {:induction false} SumOfSeventeen(a: seq<byte>)
    requires RootAnswer(a)
    ensures WordSum(Big, a) == 4800
  {
    WordsFirst(a, 0, 8, 17);
    assert a[0..17] == a && a[16..17] == [0];
    WordsSplit(a, 0, 4, 4);
    WordsSplit(a, 0, 2, 2);
    WordsSplit(a, 8, 2, 2);
    TwoWords(a, 0);
    TwoWords(a, 4);
    TwoWords(a, 8);
    TwoWords(a, 12);
  }

  /** Every ordinary root query with a checksum, and a correct one, gets a reply that RFC 768 has receivers drop. */
  lemma {:induction false} KeptChecksumWrong(o: Order, s: seq<byte>, extra: seq<byte>)
    requires RootQuery(s) && |extra| == RES_RECORD && Datagram(s) && !NoChecksum(s) && Accepted(o, s)
    ensures CanAnswer(s, ANSWER)
    ensures var t := Reply(s, extra, ANSWER);
            Datagram(t) && !Accepted(o, t)
  {
    RootQueryIsPlain(s);
    RootAnswerSum();
    PlainDrift(s, extra, ANSWER);
    KeptChecksumIff(o, s, extra, ANSWER);
  }

  /** There is such a query: clear the checksum field and fill it as section 1 of RFC 1071 asks. */
  lemma {:induction false} RootQueryExists(o: Order) returns (s: seq<byte>)
    ensures RootQuery(s) && Datagram(s) && !NoChecksum(s) && Accepted(o, s)
  {
    var zero: seq<byte> := seq(45, i => 0);
    var q := zero[0 := 0x45][25 := 25][30 := 1][33 := 1];
    var ph := PseudoHeader(q, 0, 25);
    var c := Sum16(o, Covered(ph, Zeroed(q, 26), 20, 25));
    s := Filled(o, ph, q, 20, 25, 26);
    FillVerifies(o, ph, q, 20, 25, 26);
    RootQuerySum(o, q, ph);
    VerdictBytes(o, s[26], s[27], c);
    assert PseudoHeader(s, 0, 25) == ph;
    AcceptedMeans(o, s);
  }

  /** The words of that query before its checksum is filled: two lengths, flags and the question count. */
  lemma {:induction false} RootQuerySum(o: Order, q: seq<byte>, ph: seq<byte>)
    requires |q| == 45 && ph == PseudoHeader(q, 0, 25) && q[9] == 0
    requires forall k :: 12 <= k < 45 ==> q[k] == if k == 25 then 25 else if k == 30 || k == 33 then 1 else 0
    ensures Sum16(o, Covered(ph, Zeroed(q, 26), 20, 25)) != 0
  {
    var zero: seq<byte> := seq(37, i => 0);
    WordSumZero(o, zero);
    WordSumField(o, zero, 10, 0, 25);
    var a := Put(zero, 10, 0, 25);
    WordSumField(o, a, 16, 0, 25);
    var b := Put(a, 16, 0, 25);
    WordSumField(o, b, 22, 1, 0);
    var c := Put(b, 22, 1, 0);
    WordSumField(o, c, 24, 0, 1);
    var d, z := Put(c, 24, 0, 1), Zeroed(q, 26);
    assert forall k :: 20 <= k < 45 ==> z[k] == if k == 25 then 25 else if k == 30 || k == 33 then 1 else 0;
    assert forall k :: 0 <= k < 12 ==> ph[k] == if k == 11 then 25 else 0;
    forall k | 0 <= k < 37
      ensures Covered(ph, z, 20, 25)[k] == d[k]
    {
      assert Covered(ph, z, 20, 25)[k] == if k < 12 then ph[k] else z[20+(k-12)];
    }
    assert Covered(ph, z, 20, 25) == d;
    ZeroChecksum(o, d);
  }
}
