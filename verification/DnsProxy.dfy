/**
 The two netfilter hooks of dns_proxy_server/dns_proxy_mod.c as a state machine over the name tree.
 */
module DnsProxy {
  import opened Collections
  import opened Checksum
  import opened PacketChecks
  import opened DnsTree
  import opened DnsPacket

  const MAX_HOSTNAME_SIZE := 256

  /** Offsets of the ports inside the UDP header. */
  const SOURCE_PORT := 0
  const DEST_PORT := 2

  /** Memory the hooks may read from the start of a packet: headers, a name within the limit, an answer record. */
  const REACH := 60 + UDP_HEADER + DNS_HEADER + MAX_HOSTNAME_SIZE + QUESTION_TAIL + RES_RECORD

  /** `Overrun`: the answer record would be written behind the copy that `send_reply` made. */
  datatype Verdict = Accept | Drop | NoMemory | Overrun

  /**
   A call of a hook: `ip` says the frame carries IP, `behind` is the memory behind the packet, which the hooks
   read when the packet is shorter than they take it to be, and `room` that `kmalloc` succeeds.
   */
  datatype Event =
    | Request(ip: bool, pkt: seq<byte>, behind: seq<byte>, room: bool)
    | Answer(ip: bool, pkt: seq<byte>, behind: seq<byte>, room: bool)

  /** What a hook can read. */
  function Memory(e: Event): seq<byte> {
    e.pkt + e.behind
  }

  // ---------------------------------------------------------------- the reference: a finite map

  /** The event is a reply from the DNS port whose question is `n`, and there is room to store it. */
  predicate Answers(e: Event, n: Name) {
    e.Answer? && e.ip && e.room && IsDns(Memory(e), SOURCE_PORT) && HasAnswer(Memory(e)) && Question(Memory(e)) == n
  }

  /** The record of the first answer seen for `n`. */
  function FirstAnswer(es: seq<Event>, n: Name): (r: Option<Record>)
    ensures r.Some? ==> r.value.name == n
  {
    if es == [] then None
    else if Answers(es[0], n) then Some(Parse(Memory(es[0])))
    else FirstAnswer(es[1..], n)
  }

  /** A later event matters only for names that no earlier event answered. */
  lemma {:induction false} FirstAnswerAppend(es: seq<Event>, e: Event, n: Name)
    ensures FirstAnswer(es + [e], n) ==
            if FirstAnswer(es, n).Some? then FirstAnswer(es, n)
            else if Answers(e, n) then Some(Parse(Memory(e))) else None
  {
    if es == [] {
      assert es + [e] == [e];
    } else {
      assert (es + [e])[1..] == es[1..] + [e];
      FirstAnswerAppend(es[1..], e, n);
    }
  }

  /** The first answer seen for a name is kept for ever. */
  lemma {:induction false} FirstAnswerKept(es: seq<Event>, later: seq<Event>, n: Name)
    requires FirstAnswer(es, n).Some?
    ensures FirstAnswer(es + later, n) == FirstAnswer(es, n)
  {
    assert (es + later)[0] == es[0] && (es + later)[1..] == es[1..] + later;
    if !Answers(es[0], n) {
      FirstAnswerKept(es[1..], later, n);
    }
  }

  /** The number of the first answer for `n`, or the length of the history. */
  function FirstIndex(es: seq<Event>, n: Name): (i: nat)
    ensures i <= |es| && (i < |es| ==> Answers(es[i], n))
    ensures forall j :: 0 <= j < i ==> !Answers(es[j], n)
  {
    if es == [] then 0 else if Answers(es[0], n) then 0 else 1 + FirstIndex(es[1..], n)
  }

  lemma {:induction false} FirstAnswerAt(es: seq<Event>, n: Name)
    ensures var i := FirstIndex(es, n);
            FirstAnswer(es, n) == if i < |es| then Some(Parse(Memory(es[i]))) else None
  {
    if es != [] && !Answers(es[0], n) {
      FirstAnswerAt(es[1..], n);
      var i := FirstIndex(es[1..], n);
      assert i < |es[1..]| ==> es[1..][i] == es[i+1];
    }
  }

  /** What is held for a name was in some answer for that name, and no earlier one. */
  lemma {:induction false} FirstAnswerIsFirst(es: seq<Event>, n: Name)
    ensures FirstAnswer(es, n).None? <==> forall i :: 0 <= i < |es| ==> !Answers(es[i], n)
    ensures FirstAnswer(es, n).Some? ==>
              exists i :: 0 <= i < |es| && Answers(es[i], n) && FirstAnswer(es, n) == Some(Parse(Memory(es[i])))
                          && forall j :: 0 <= j < i ==> !Answers(es[j], n)
  {
    FirstAnswerAt(es, n);
    var i := FirstIndex(es, n);
    assert i < |es| ==> Answers(es[i], n);
  }

  // ---------------------------------------------------------------- the hooks

  class Proxy {
    /** `dr_tree`. */
    var tree: Tree
    /** The hook calls so far. */
    ghost var history: seq<Event>

    /** The tree is ordered and holds, for every name, the first answer seen. */
    ghost predicate Valid()
      reads this
    {
      Ordered(tree) && forall n: Name :: Held(tree, n) == FirstAnswer(history, n)
    }

    /** The module is loaded with an empty tree. */
    constructor ()
      ensures Valid() && history == []
    {
      tree, history := Leaf, [];
    }

    /** Nothing but the history grows when an event stores nothing. */
    ghost method Note(e: Event)
      requires Valid() && forall n: Name :: !Answers(e, n) || FirstAnswer(history, n).Some?
      modifies this`history
      ensures Valid() && history == old(history) + [e]
    {
      forall n: Name
        ensures FirstAnswer(history + [e], n) == FirstAnswer(history, n)
      {
        FirstAnswerAppend(history, e, n);
      }
      history := history + [e];
    }

    /**
     `dns_request_hook`: answered and dropped exactly when the name was answered before and the reply fits. The
     bytes of the reply are given for header length fields of at least 5 (section 3.1 of RFC 791).
     */
    method RequestHook(ip: bool, skb: seq<byte>, behind: seq<byte>, room: bool, extra: seq<byte>)
      returns (verdict: Verdict, reply: Option<seq<byte>>)
      requires Valid() && |behind| >= REACH && |extra| == RES_RECORD
      requires var s := skb + behind;
               ip && IsDns(s, DEST_PORT) ==> HasQuestion(s)
      modifies this`history
      ensures Valid() && history == old(history) + [Request(ip, skb, behind, room)]
      ensures var s := skb + behind;
              if !ip || !IsDns(s, DEST_PORT) then verdict == Accept
              else if !room then verdict == NoMemory
              else if FirstAnswer(history, Question(s)).None? then verdict == Accept
              else verdict == if AnswerAt(s) <= |skb| then Drop else Overrun
      ensures var s := skb + behind;
              var u := 4 * (s[0] % 16);
              && (!ip || s[0] / 16 != 4 || s[9] != 17 || s[u+2] != 0 || s[u+3] != 53 ==> verdict == Accept)
              && (ip && s[0] / 16 == 4 && s[9] == 17 && s[u+2] == 0 && s[u+3] == 53 ==>
                    (verdict == Drop <==>
                       room && FirstAnswer(history, Question(s)).Some? && AnswerAt(s) <= |skb|))
      ensures reply.Some? <==> verdict == Drop && UdpAt(skb + behind) >= 20
      ensures reply.Some? ==>
                && CanAnswer(skb, FirstAnswer(history, Question(skb + behind)).value)
                && reply.value == Reply(skb, extra, FirstAnswer(history, Question(skb)).value)
                && HasAnswer(reply.value) && Parse(reply.value) == FirstAnswer(history, Question(skb)).value
    {
      IsDnsIff(skb + behind, DEST_PORT);
      Note(Request(ip, skb, behind, room));
      if !ip || !IsDns(skb + behind, DEST_PORT) {
        return Accept, None;
      }
      if !room {
        return NoMemory, None;
      }
      var name := Question(skb + behind);
      var found := Search(tree, name);
      if found.None? {
        return Accept, None;
      }
      if AnswerAt(skb + behind) > |skb| {
        return Overrun, None;
      }
      QuestionInside(skb, behind);
      if UdpAt(skb + behind) < 20 {
        return Drop, None;
      }
      var bytes := Respond(skb, extra, found.value, behind[0]);
      return Drop, Some(bytes);
    }

    /** `send_reply` for a request that holds its question. */
    method Respond(skb: seq<byte>, extra: seq<byte>, r: Record, behind: byte) returns (bytes: seq<byte>)
      requires CanAnswer(skb, r) && |extra| == RES_RECORD
      ensures bytes == Reply(skb, extra, r) && HasAnswer(bytes) && Parse(bytes) == r
    {
      var pkt := SendReply(skb, extra, r, behind);
      ReplyParses(skb, extra, r);
      return pkt[..];
    }

    /** `dns_reply_hook`; `rots` is what the rebalancing of the tree does. */
    method ReplyHook(ip: bool, skb: seq<byte>, behind: seq<byte>, room: bool, rots: seq<Rotation>)
      returns (verdict: Verdict)
      requires Valid() && |behind| >= REACH
      requires var s := skb + behind;
               ip && IsDns(s, SOURCE_PORT) ==> HasQuestion(s) && |Question(s)| < 256
      modifies this
      ensures Valid() && history == old(history) + [Answer(ip, skb, behind, room)]
      ensures var s := skb + behind;
              verdict == if ip && IsDns(s, SOURCE_PORT) && !room && FirstAnswer(old(history), Question(s)).None?
                         then NoMemory else Accept
      ensures var s := skb + behind;
              var u := 4 * (s[0] % 16);
              && (!ip || s[0] / 16 != 4 || s[9] != 17 || s[u] != 0 || s[u+1] != 53 ==>
                    tree == old(tree) && forall n: Name :: FirstAnswer(history, n) == FirstAnswer(old(history), n))
              && (ip && s[0] / 16 == 4 && s[9] == 17 && s[u] == 0 && s[u+1] == 53 && room ==>
                    && FirstAnswer(history, Question(s)).Some?
                    && (FirstAnswer(old(history), Question(s)).None? ==>
                          FirstAnswer(history, Question(s)) == Some(Parse(s))))
    {
      IsDnsIff(skb + behind, SOURCE_PORT);
      ghost var e := Answer(ip, skb, behind, room);
      if !ip || !IsDns(skb + behind, SOURCE_PORT) {
        Note(e);
        return Accept;
      }
      assert AnswerAt(skb + behind) + RES_RECORD <= REACH;
      var name := Question(skb + behind);
      var known := Search(tree, name);
      if known.Some? {
        Note(e);
        return Accept;
      }
      if !room {
        Note(e);
        return NoMemory;
      }
      var record := Parse(skb + behind);
      FirstAnswerAppend(history, e, name);
      Store(record, rots, e);
      return Accept;
    }

    /** `insert_dr` of the first record for a name. */
    method Store(record: Record, rots: seq<Rotation>, ghost e: Event)
      requires Valid() && FirstAnswer(history, record.name).None?
      requires forall n: Name :: Answers(e, n) <==> n == record.name
      requires Answers(e, record.name) && Parse(Memory(e)) == record
      modifies this
      ensures Valid() && history == old(history) + [e]
    {
      var t, added := Insert(tree, record, rots);
      forall n: Name
        ensures Held(t, n) == FirstAnswer(history + [e], n)
      {
        FirstAnswerAppend(history, e, n);
      }
      tree := t;
      history := history + [e];
    }
  }
}
