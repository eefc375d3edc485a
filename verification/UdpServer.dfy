/**
 The dispatcher and the worker pool of udp_highload_server/lib/server_core.c, joined by one message
 queue with typed receive, in every interleaving and for any number of workers.
 */
module UdpServer {
  import opened Collections

  /** `msg_type`: request or reply. */
  datatype Kind = Reqs | Repl

  /** A request and the client it came from. */
  datatype Job = Job(client: nat, request: string)

  /** A message in the queue; the text of the reply is the time of day, chosen by the worker. */
  datatype Message = Message(kind: Kind, job: Job, reply: string)

  /** The two halves of the dispatcher loop. */
  datatype DispatcherPc = Receiving | Replying | Stopped

  /** What was sent to a client. */
  datatype Sent = Sent(client: nat, text: string)

  datatype State = State(
    queue: seq<Message>, workers: seq<Option<Job>>, pc: DispatcherPc,
    accepted: seq<Job>, answered: seq<Job>, made: seq<Sent>, sent: seq<Sent>)

  datatype Step =
    | Datagram(job: Job)                  // recvfrom succeeds
    | NoDatagram                          // EAGAIN
    | SendReply                           // msgrcv(REPL_MSG_TYPE, IPC_NOWAIT) and sendto
    | TakeRequest(w: nat)                 // msgrcv(REQS_MSG_TYPE)
    | PutReply(w: nat, text: string)      // msgsnd

  const EXIT := "exit"

  /** Index of the first message of a kind, or the length of the queue: what a typed `msgrcv` takes. */
  function FirstOf(q: seq<Message>, k: Kind): (i: nat)
    ensures i <= |q|
    ensures i < |q| ==> q[i].kind == k
    ensures forall j :: 0 <= j < i ==> q[j].kind != k
  {
    if q == [] then 0 else if q[0].kind == k then 0 else 1 + FirstOf(q[1..], k)
  }

  ghost predicate Enabled(s: State, step: Step) {
    match step
    case Datagram(_) => s.pc == Receiving
    case NoDatagram => s.pc == Receiving
    case SendReply => s.pc == Replying
    case TakeRequest(w) =>
      s.pc != Stopped && w < |s.workers| && s.workers[w].None? && FirstOf(s.queue, Reqs) < |s.queue|
    case PutReply(w, _) => s.pc != Stopped && w < |s.workers| && s.workers[w].Some?
  }

  ghost function Apply(s: State, step: Step): (s': State)
    requires Enabled(s, step)
  {
    match step
    case Datagram(job) =>
      if job.request == EXIT then s.(pc := Stopped)
      else s.(pc := Replying, queue := s.queue + [Message(Reqs, job, "")], accepted := s.accepted + [job])
    case NoDatagram => s.(pc := Replying)
    case SendReply =>
      var i := FirstOf(s.queue, Repl);
      if i == |s.queue| then s.(pc := Receiving)
      else
        var m := s.queue[i];
        s.(pc := Receiving, queue := RemoveAt(s.queue, i), answered := s.answered + [m.job],
           sent := s.sent + [Sent(m.job.client, m.reply)])
    case TakeRequest(w) =>
      var i := FirstOf(s.queue, Reqs);
      s.(queue := RemoveAt(s.queue, i), workers := s.workers[w := Some(s.queue[i].job)])
    case PutReply(w, text) =>
      var job := s.workers[w].value;
      s.(queue := s.queue + [Message(Repl, job, text)], workers := s.workers[w := None],
         made := s.made + [Sent(job.client, text)])
  }

  /**
   The queue outlives the process: a server may start with messages that an earlier one left. Their requests
   count as accepted and their replies as made before the first step.
   */
  ghost predicate Init(s: State) {
    && s.accepted == Jobs(s.queue, Repl) + Jobs(s.queue, Reqs) && s.made == Replies(s.queue)
    && s.answered == [] && s.sent == [] && s.pc == Receiving
    && forall w :: 0 <= w < |s.workers| ==> s.workers[w] == None
  }

  ghost predicate RunStep(s: State, step: Step, s': State) {
    Enabled(s, step) && s' == Apply(s, step)
  }

  ghost predicate Run(ss: seq<State>, steps: seq<Step>) {
    && |ss| == |steps| + 1 && Init(ss[0])
    && forall i :: 0 <= i < |steps| ==> RunStep(ss[i], steps[i], ss[i+1])
  }

  // ---------------------------------------------------------------- one typed queue is two queues

  /** The jobs of one kind, in queue order. */
  function Jobs(q: seq<Message>, k: Kind): seq<Job> {
    if q == [] then [] else if q[0].kind == k then [q[0].job] + Jobs(q[1..], k) else Jobs(q[1..], k)
  }

  lemma {:induction false} JobsAppend(q: seq<Message>, m: Message, k: Kind)
    ensures Jobs(q + [m], k) == if m.kind == k then Jobs(q, k) + [m.job] else Jobs(q, k)
  {
    if q == [] {
      assert q + [m] == [m];
    } else {
      assert (q + [m])[1..] == q[1..] + [m];
      JobsAppend(q[1..], m, k);
    }
  }

  /** Taking the first message of a kind takes the head of that kind and leaves the other kind alone. */
  lemma {:induction false} JobsWithout(q: seq<Message>, k: Kind)
    requires FirstOf(q, k) < |q|
    ensures var i := FirstOf(q, k);
            && Jobs(q, k) == [q[i].job] + Jobs(RemoveAt(q, i), k)
            && forall k' :: k' != k ==> Jobs(RemoveAt(q, i), k') == Jobs(q, k')
  {
    var i := FirstOf(q, k);
    if i == 0 {
      assert RemoveAt(q, 0) == q[1..];
    } else {
      JobsWithout(q[1..], k);
      var r := RemoveAt(q, i);
      assert FirstOf(q[1..], k) == i - 1;
      assert r[0] == q[0] && r[1..] == RemoveAt(q[1..], i - 1);
    }
  }

  lemma {:induction false} JobsEmpty(q: seq<Message>, k: Kind)
    ensures FirstOf(q, k) == |q| <==> Jobs(q, k) == []
  {
    if q != [] && q[0].kind != k {
      JobsEmpty(q[1..], k);
    }
  }

  // ---------------------------------------------------------------- conservation

  /** The jobs workers hold. */
  function Held(ws: seq<Option<Job>>): multiset<Job> {
    if ws == [] then multiset{}
    else (if ws[0].Some? then multiset{ws[0].value} else multiset{}) + Held(ws[1..])
  }

  lemma {:induction false} HeldTake(ws: seq<Option<Job>>, w: nat, j: Job)
    requires w < |ws| && ws[w].None?
    ensures Held(ws[w := Some(j)]) == Held(ws) + multiset{j}
  {
    var ws' := ws[w := Some(j)];
    if w == 0 {
      assert ws'[1..] == ws[1..];
    } else {
      assert ws'[1..] == ws[1..][w-1 := Some(j)];
      HeldTake(ws[1..], w - 1, j);
    }
  }

  lemma {:induction false} HeldPut(ws: seq<Option<Job>>, w: nat)
    requires w < |ws| && ws[w].Some?
    ensures Held(ws) == Held(ws[w := None]) + multiset{ws[w].value}
  {
    HeldTake(ws[w := None], w, ws[w].value);
    assert ws[w := None][w := Some(ws[w].value)] == ws;
  }

  /** Every accepted job is in exactly one place: queued, held, queued as a reply, or answered. */
  ghost predicate Conserved(s: State) {
    multiset(s.accepted) == multiset(Jobs(s.queue, Reqs)) + Held(s.workers) + multiset(Jobs(s.queue, Repl))
                            + multiset(s.answered)
  }

  lemma {:induction false} HeadTail(a: seq<Job>, x: Job, b: seq<Job>)
    requires a == [x] + b
    ensures multiset(a) == multiset{x} + multiset(b)
  {
  }

  /** Moving one job between the four places. */
  lemma MoveJob(acc: multiset<Job>, r: multiset<Job>, h: multiset<Job>, p: multiset<Job>, d: multiset<Job>, x: Job)
    ensures acc == r + h + p + d ==> acc + multiset{x} == (r + multiset{x}) + h + p + d
    ensures acc == (multiset{x} + r) + h + p + d ==> acc == r + (h + multiset{x}) + p + d
    ensures acc == r + (h + multiset{x}) + p + d ==> acc == r + h + (p + multiset{x}) + d
    ensures acc == r + h + (multiset{x} + p) + d ==> acc == r + h + p + (d + multiset{x})
  {
  }

  lemma {:induction false} DatagramConserves(s: State, job: Job)
    requires Conserved(s) && Enabled(s, Datagram(job))
    ensures Conserved(Apply(s, Datagram(job)))
  {
    var m := Message(Reqs, job, "");
    JobsAppend(s.queue, m, Reqs);
    JobsAppend(s.queue, m, Repl);
    MoveJob(multiset(s.accepted), multiset(Jobs(s.queue, Reqs)), Held(s.workers), multiset(Jobs(s.queue, Repl)),
            multiset(s.answered), job);
  }

  lemma {:induction false} ReplyConserves(s: State)
    requires Conserved(s) && Enabled(s, SendReply)
    ensures Conserved(Apply(s, SendReply))
  {
    var i := FirstOf(s.queue, Repl);
    if i < |s.queue| {
      var x, q' := s.queue[i].job, RemoveAt(s.queue, i);
      JobsWithout(s.queue, Repl);
      HeadTail(Jobs(s.queue, Repl), x, Jobs(q', Repl));
      MoveJob(multiset(s.accepted), multiset(Jobs(q', Reqs)), Held(s.workers), multiset(Jobs(q', Repl)),
              multiset(s.answered), x);
    }
  }

  lemma {:induction false} TakeConserves(s: State, w: nat)
    requires Conserved(s) && Enabled(s, TakeRequest(w))
    ensures Conserved(Apply(s, TakeRequest(w)))
  {
    var i := FirstOf(s.queue, Reqs);
    var x, q' := s.queue[i].job, RemoveAt(s.queue, i);
    JobsWithout(s.queue, Reqs);
    HeadTail(Jobs(s.queue, Reqs), x, Jobs(q', Reqs));
    HeldTake(s.workers, w, x);
    MoveJob(multiset(s.accepted), multiset(Jobs(q', Reqs)), Held(s.workers), multiset(Jobs(q', Repl)),
            multiset(s.answered), x);
  }

  lemma {:induction false} PutConserves(s: State, w: nat, text: string)
    requires Conserved(s) && Enabled(s, PutReply(w, text))
    ensures Conserved(Apply(s, PutReply(w, text)))
  {
    var x := s.workers[w].value;
    var m := Message(Repl, x, text);
    JobsAppend(s.queue, m, Reqs);
    JobsAppend(s.queue, m, Repl);
    HeldPut(s.workers, w);
    MoveJob(multiset(s.accepted), multiset(Jobs(s.queue, Reqs)), Held(s.workers[w := None]),
            multiset(Jobs(s.queue, Repl)), multiset(s.answered), x);
  }

  lemma {:induction false} StepConserves(s: State, step: Step)
    requires Conserved(s) && Enabled(s, step)
    ensures Conserved(Apply(s, step))
  {
    match step
    case Datagram(job) => DatagramConserves(s, job);
    case NoDatagram =>
    case SendReply => ReplyConserves(s);
    case TakeRequest(w) => TakeConserves(s, w);
    case PutReply(w, text) => PutConserves(s, w, text);
  }

  lemma {:induction false} HeldNone(ws: seq<Option<Job>>)
    requires forall w :: 0 <= w < |ws| ==> ws[w] == None
    ensures Held(ws) == multiset{}
  {
    if ws != [] {
      HeldNone(ws[1..]);
    }
  }

  /** Conservation over every run. */
  lemma {:induction false} RunConserves(ss: seq<State>, steps: seq<Step>, i: nat)
    requires Run(ss, steps) && i < |ss|
    ensures Conserved(ss[i])
  {
    if i == 0 {
      HeldNone(ss[0].workers);
    } else {
      RunConserves(ss, steps, i - 1);
      assert RunStep(ss[i-1], steps[i-1], ss[i]);
      StepConserves(ss[i-1], steps[i-1]);
    }
  }

  // ---------------------------------------------------------------- replies per client

  /** Requests of one client. */
  function CountJobs(js: seq<Job>, client: nat): nat {
    if js == [] then 0 else (if js[0].client == client then 1 else 0) + CountJobs(js[1..], client)
  }

  /** Replies sent to one client. */
  function CountSent(xs: seq<Sent>, client: nat): nat {
    if xs == [] then 0 else (if xs[0].client == client then 1 else 0) + CountSent(xs[1..], client)
  }

  lemma {:induction false} CountConcat(a: seq<Job>, b: seq<Job>, client: nat)
    ensures CountJobs(a + b, client) == CountJobs(a, client) + CountJobs(b, client)
  {
    if a == [] {
      assert a + b == b;
    } else {
      assert (a + b)[1..] == a[1..] + b;
      CountConcat(a[1..], b, client);
    }
  }

  /** Counting respects inclusion of multisets. */
  lemma {:induction false} CountSub(a: seq<Job>, b: seq<Job>, client: nat)
    requires multiset(a) <= multiset(b)
    ensures CountJobs(a, client) <= CountJobs(b, client)
  {
    if a != [] {
      var x := a[0];
      assert x in multiset(a);
      var i :| 0 <= i < |b| && b[i] == x;
      SplitAt(b, i, client);
      assert a == [x] + a[1..];
      HeadTail(a, x, a[1..]);
      CancelJob(multiset(a[1..]), multiset(RemoveAt(b, i)), x);
      CountSub(a[1..], RemoveAt(b, i), client);
    }
  }

  lemma CancelJob(a: multiset<Job>, b: multiset<Job>, x: Job)
    requires multiset{x} + a <= multiset{x} + b
    ensures a <= b
  {
    forall y
      ensures a[y] <= b[y]
    {
      assert (multiset{x} + a)[y] <= (multiset{x} + b)[y];
    }
  }

  /** Taking out one element. */
  lemma {:induction false} SplitAt(b: seq<Job>, i: nat, client: nat)
    requires i < |b|
    ensures multiset(b) == multiset{b[i]} + multiset(RemoveAt(b, i))
    ensures CountJobs(b, client) == CountJobs(RemoveAt(b, i), client) + if b[i].client == client then 1 else 0
  {
    assert b == b[..i] + ([b[i]] + b[i+1..]);
    CountConcat(b[..i], [b[i]] + b[i+1..], client);
    CountConcat([b[i]], b[i+1..], client);
    CountConcat(b[..i], b[i+1..], client);
  }

  ghost predicate SentMatches(s: State) {
    |s.sent| == |s.answered| && forall i :: 0 <= i < |s.sent| ==> s.sent[i].client == s.answered[i].client
  }

  lemma {:induction false} SentCount(xs: seq<Sent>, js: seq<Job>, client: nat)
    requires |xs| == |js| && forall i :: 0 <= i < |xs| ==> xs[i].client == js[i].client
    ensures CountSent(xs, client) == CountJobs(js, client)
  {
    if xs != [] {
      SentCount(xs[1..], js[1..], client);
    }
  }

  lemma {:induction false} RunSentMatches(ss: seq<State>, steps: seq<Step>, i: nat)
    requires Run(ss, steps) && i < |ss|
    ensures SentMatches(ss[i])
  {
    if i > 0 {
      RunSentMatches(ss, steps, i - 1);
      assert RunStep(ss[i-1], steps[i-1], ss[i]);
      StepSentMatches(ss[i-1], steps[i-1]);
    }
  }

  lemma {:induction false} StepSentMatches(s: State, step: Step)
    requires SentMatches(s) && Enabled(s, step)
    ensures SentMatches(Apply(s, step))
  {
  }

  /** In every interleaving no client is sent more replies than it made requests, leftovers included. */
  lemma {:induction false} RepliesBounded(ss: seq<State>, steps: seq<Step>, i: nat, client: nat)
    requires Run(ss, steps) && i < |ss|
    ensures CountSent(ss[i].sent, client) <= CountJobs(ss[i].accepted, client)
  {
    RunConserves(ss, steps, i);
    RunSentMatches(ss, steps, i);
    SentCount(ss[i].sent, ss[i].answered, client);
    CountSub(ss[i].answered, ss[i].accepted, client);
  }

  /** Nothing is queued and nobody holds a request. */
  ghost predicate Idle(s: State) {
    s.queue == [] && forall w :: 0 <= w < |s.workers| ==> s.workers[w] == None
  }

  lemma {:induction false} IdleMeansAnswered(s: State, client: nat)
    requires Idle(s) && Conserved(s) && SentMatches(s)
    ensures CountSent(s.sent, client) == CountJobs(s.accepted, client)
  {
    HeldNone(s.workers);
    SentCount(s.sent, s.answered, client);
    CountSub(s.answered, s.accepted, client);
    CountSub(s.accepted, s.answered, client);
  }

  /** When nothing is under way, every client has got exactly as many replies as it made requests. */
  lemma {:induction false} RepliesExactWhenIdle(ss: seq<State>, steps: seq<Step>, i: nat, client: nat)
    requires Run(ss, steps) && i < |ss| && Idle(ss[i])
    ensures CountSent(ss[i].sent, client) == CountJobs(ss[i].accepted, client)
  {
    RunConserves(ss, steps, i);
    RunSentMatches(ss, steps, i);
    IdleMeansAnswered(ss[i], client);
  }

  // ---------------------------------------------------------------- replies leave as they were made

  /** The replies waiting in the queue, in order. */
  function Replies(q: seq<Message>): seq<Sent> {
    if q == [] then []
    else if q[0].kind == Repl then [Sent(q[0].job.client, q[0].reply)] + Replies(q[1..])
    else Replies(q[1..])
  }

  lemma {:induction false} RepliesAppend(q: seq<Message>, m: Message)
    ensures Replies(q + [m]) == if m.kind == Repl then Replies(q) + [Sent(m.job.client, m.reply)] else Replies(q)
  {
    if q == [] {
      assert q + [m] == [m];
    } else {
      assert (q + [m])[1..] == q[1..] + [m];
      RepliesAppend(q[1..], m);
    }
  }

  lemma {:induction false} RepliesWithout(q: seq<Message>, k: Kind)
    requires FirstOf(q, k) < |q|
    ensures var i := FirstOf(q, k);
            Replies(q) == if k == Repl then [Sent(q[i].job.client, q[i].reply)] + Replies(RemoveAt(q, i))
                          else Replies(RemoveAt(q, i))
  {
    var i := FirstOf(q, k);
    if i == 0 {
      assert RemoveAt(q, 0) == q[1..];
    } else {
      RepliesWithout(q[1..], k);
      var r := RemoveAt(q, i);
      assert FirstOf(q[1..], k) == i - 1;
      assert r[0] == q[0] && r[1..] == RemoveAt(q[1..], i - 1);
    }
  }

  /** What was sent, followed by the replies still queued, is what the workers made. */
  ghost predicate SentInOrder(s: State) {
    s.made == s.sent + Replies(s.queue)
  }

  lemma {:induction false} SentNext(a: seq<Sent>, x: Sent, b: seq<Sent>)
    ensures a + ([x] + b) == (a + [x]) + b
    ensures a + (b + [x]) == (a + b) + [x]
  {
  }

  /** However many workers there are, replies leave whole, to their client, in the order they were made. */
  lemma {:induction false} RunSentInOrder(ss: seq<State>, steps: seq<Step>, i: nat)
    requires Run(ss, steps) && i < |ss|
    ensures SentInOrder(ss[i])
  {
    if i > 0 {
      RunSentInOrder(ss, steps, i - 1);
      var s, step := ss[i-1], steps[i-1];
      assert RunStep(s, step, ss[i]);
      match step
      case Datagram(job) => RepliesAppend(s.queue, Message(Reqs, job, ""));
      case NoDatagram =>
      case SendReply =>
        var j := FirstOf(s.queue, Repl);
        if j < |s.queue| {
          RepliesWithout(s.queue, Repl);
          SentNext(s.sent, Sent(s.queue[j].job.client, s.queue[j].reply), Replies(RemoveAt(s.queue, j)));
        }
      case TakeRequest(w) => RepliesWithout(s.queue, Reqs);
      case PutReply(w, text) =>
        RepliesAppend(s.queue, Message(Repl, s.workers[w].value, text));
        SentNext(s.sent, Sent(s.workers[w].value.client, text), Replies(s.queue));
    }
  }

  // ---------------------------------------------------------------- when replies keep the order of arrival

  function HeldBy(ws: seq<Option<Job>>): seq<Job>
    requires |ws| <= 1
  {
    if |ws| == 1 && ws[0].Some? then [ws[0].value] else []
  }

  /** With at most one worker the order of arrival is the order answered, replying, held, waiting. */
  ghost predicate InOrder(s: State) {
    && |s.workers| <= 1
    && s.accepted == s.answered + Jobs(s.queue, Repl) + HeldBy(s.workers) + Jobs(s.queue, Reqs)
  }

  lemma {:induction false} Regroup(a: seq<Job>, x: Job, b: seq<Job>, h: seq<Job>, c: seq<Job>)
    ensures a + ([x] + b) + h + c == (a + [x]) + b + h + c
    ensures a + b + [] + ([x] + c) == a + b + [x] + c
    ensures a + b + [x] + c == a + (b + [x]) + [] + c
    ensures (a + b + h + c) + [x] == a + b + h + (c + [x])
  {
  }

  lemma {:induction false} StepInOrder(s: State, step: Step)
    requires InOrder(s) && Enabled(s, step)
    ensures InOrder(Apply(s, step))
  {
    var a, b, h, c := s.answered, Jobs(s.queue, Repl), HeldBy(s.workers), Jobs(s.queue, Reqs);
    match step
    case Datagram(job) =>
      var m := Message(Reqs, job, "");
      JobsAppend(s.queue, m, Reqs);
      JobsAppend(s.queue, m, Repl);
      Regroup(a, job, b, h, c);
    case NoDatagram =>
    case SendReply =>
      var i := FirstOf(s.queue, Repl);
      if i < |s.queue| {
        JobsWithout(s.queue, Repl);
        Regroup(a, s.queue[i].job, Jobs(RemoveAt(s.queue, i), Repl), h, c);
      }
    case TakeRequest(w) =>
      var i := FirstOf(s.queue, Reqs);
      JobsWithout(s.queue, Reqs);
      Regroup(a, s.queue[i].job, b, h, Jobs(RemoveAt(s.queue, i), Reqs));
    case PutReply(w, text) =>
      var m := Message(Repl, s.workers[w].value, text);
      JobsAppend(s.queue, m, Reqs);
      JobsAppend(s.queue, m, Repl);
      Regroup(a, s.workers[w].value, b, h, c);
  }

  /** With at most one worker, replies leave in the order in which requests arrived. */
  lemma {:induction false} SingleWorkerFifo(ss: seq<State>, steps: seq<Step>, i: nat)
    requires Run(ss, steps) && i < |ss| && |ss[0].workers| <= 1
    ensures InOrder(ss[i]) && ss[i].answered <= ss[i].accepted
  {
    if i > 0 {
      SingleWorkerFifo(ss, steps, i - 1);
      assert RunStep(ss[i-1], steps[i-1], ss[i]);
      StepInOrder(ss[i-1], steps[i-1]);
    }
  }

  const JOB1 := Job(1, "a")
  const JOB2 := Job(2, "b")
  const ASK1 := Message(Reqs, JOB1, "")
  const ASK2 := Message(Reqs, JOB2, "")

  /** A pool of `n` workers of which the first two hold `first` and `second`. */
  function Pool(n: nat, first: Option<Job>, second: Option<Job>): (ws: seq<Option<Job>>)
    requires n >= 2
    ensures |ws| == n && ws[0] == first && ws[1] == second
    ensures forall w :: 2 <= w < n ==> ws[w] == None
  {
    [first, second] + seq(n - 2, _ => None)
  }

  /** A run of `n` workers in which the second request is answered first. */
  function OvertakingState(n: nat, i: nat): State
    requires n >= 2 && i <= 7
  {
    var idle, one, both := Pool(n, None, None), Pool(n, Some(JOB1), None), Pool(n, Some(JOB1), Some(JOB2));
    var reply := Sent(2, "t");
    if i == 0 then State([], idle, Receiving, [], [], [], [])
    else if i == 1 then State([ASK1], idle, Replying, [JOB1], [], [], [])
    else if i == 2 then State([ASK1], idle, Receiving, [JOB1], [], [], [])
    else if i == 3 then State([ASK1, ASK2], idle, Replying, [JOB1, JOB2], [], [], [])
    else if i == 4 then State([ASK2], one, Replying, [JOB1, JOB2], [], [], [])
    else if i == 5 then State([], both, Replying, [JOB1, JOB2], [], [], [])
    else if i == 6 then State([Message(Repl, JOB2, "t")], one, Replying, [JOB1, JOB2], [], [reply], [])
    else State([], one, Receiving, [JOB1, JOB2], [JOB2], [reply], [reply])
  }

  function OvertakingStep(i: nat): Step
    requires i < 7
  {
    if i == 0 then Datagram(JOB1) else if i == 1 then SendReply else if i == 2 then Datagram(JOB2)
    else if i == 3 then TakeRequest(0) else if i == 4 then TakeRequest(1) else if i == 5 then PutReply(1, "t")
    else SendReply
  }

  lemma OvertakingStarts(n: nat, i: nat)
    requires n >= 2 && i < 3
    ensures RunStep(OvertakingState(n, i), OvertakingStep(i), OvertakingState(n, i + 1))
  {
    assert FirstOf([ASK1], Repl) == 1;
  }

  lemma OvertakingTakes(n: nat, i: nat)
    requires n >= 2 && 3 <= i < 5
    ensures RunStep(OvertakingState(n, i), OvertakingStep(i), OvertakingState(n, i + 1))
  {
    if i == 3 {
      assert RemoveAt([ASK1, ASK2], 0) == [ASK2];
      assert Pool(n, None, None)[0 := Some(JOB1)] == Pool(n, Some(JOB1), None);
    } else {
      assert RemoveAt([ASK2], 0) == [];
      assert Pool(n, Some(JOB1), None)[1 := Some(JOB2)] == Pool(n, Some(JOB1), Some(JOB2));
    }
  }

  lemma OvertakingReplies(n: nat, i: nat)
    requires n >= 2 && 5 <= i < 7
    ensures RunStep(OvertakingState(n, i), OvertakingStep(i), OvertakingState(n, i + 1))
  {
    if i == 5 {
      assert Pool(n, Some(JOB1), Some(JOB2))[1 := None] == Pool(n, Some(JOB1), None);
    } else {
      assert RemoveAt([Message(Repl, JOB2, "t")], 0) == [];
    }
  }

  /** With two or more workers replies need not leave in order of arrival. */
  lemma WorkersReorder(n: nat) returns (ss: seq<State>, steps: seq<Step>)
    requires n >= 2
    ensures Run(ss, steps) && |ss[0].workers| == n
    ensures var s := ss[|ss|-1];
            |s.accepted| == 2 && |s.answered| == 1 && s.answered[0] == s.accepted[1] != s.accepted[0]
  {
    ss := seq(8, i requires 0 <= i < 8 => OvertakingState(n, i));
    steps := seq(7, i requires 0 <= i < 7 => OvertakingStep(i));
    forall i | 0 <= i < 7
      ensures RunStep(ss[i], steps[i], ss[i+1])
    {
      if i < 3 {
        OvertakingStarts(n, i);
      } else if i < 5 {
        OvertakingTakes(n, i);
      } else {
        OvertakingReplies(n, i);
      }
    }
  }

  /** In every state of every run of `n` workers the requests answered are the first ones that arrived. */
  ghost predicate KeepsOrder(n: nat) {
    forall ss: seq<State>, steps: seq<Step>, i: int ::
      Run(ss, steps) && |ss[0].workers| == n && 0 <= i < |ss| ==> ss[i].answered <= ss[i].accepted
  }

  /** Replies leave in order of arrival exactly with pools of at most one worker. */
  lemma {:induction false} OrderKeptIff(n: nat)
    ensures KeepsOrder(n) <==> n <= 1
  {
    if n <= 1 {
      forall ss: seq<State>, steps: seq<Step>, i: int | Run(ss, steps) && |ss[0].workers| == n && 0 <= i < |ss|
        ensures ss[i].answered <= ss[i].accepted
      {
        SingleWorkerFifo(ss, steps, i);
      }
    } else {
      var ss, steps := WorkersReorder(n);
      assert !(ss[|ss|-1].answered <= ss[|ss|-1].accepted);
    }
  }
}
