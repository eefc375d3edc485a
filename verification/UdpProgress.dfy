/**
 Progress of the server of udp_highload_server/lib/server_core.c: without any new datagram, every request that
 was accepted can still be answered, and the two halves of the dispatcher take turns.
 */
module UdpProgress {
  import opened Collections
  import opened UdpServer

  // ---------------------------------------------------------------- the dispatcher

  /** Receive attempts, successful or not, among the first `i` steps. */
  function Receives(steps: seq<Step>, i: nat): nat
    requires i <= |steps|
  {
    if i == 0 then 0 else Receives(steps, i - 1) + if steps[i-1].Datagram? || steps[i-1].NoDatagram? then 1 else 0
  }

  /** Reply attempts, successful or not, among the first `i` steps. */
  function ReplyAttempts(steps: seq<Step>, i: nat): nat
    requires i <= |steps|
  {
    if i == 0 then 0 else ReplyAttempts(steps, i - 1) + if steps[i-1].SendReply? then 1 else 0
  }

  /** A datagram with the text "exit". */
  predicate SaysExit(step: Step) {
    step.Datagram? && step.job.request == "exit"
  }

  /** The server has stopped exactly if "exit" was received. */
  lemma {:induction false} StoppedIff(ss: seq<State>, steps: seq<Step>, i: nat)
    requires Run(ss, steps) && i < |ss|
    ensures ss[i].pc == Stopped <==> exists k :: 0 <= k < i && SaysExit(steps[k])
  {
    if i > 0 {
      StoppedIff(ss, steps, i - 1);
      assert RunStep(ss[i-1], steps[i-1], ss[i]);
      if ss[i].pc == Stopped && ss[i-1].pc != Stopped {
        assert SaysExit(steps[i-1]);
      }
    }
  }

  /** While the server runs, each receive attempt is followed by one reply attempt before the next. */
  lemma {:induction false} DispatcherAlternates(ss: seq<State>, steps: seq<Step>, i: nat)
    requires Run(ss, steps) && i < |ss| && ss[i].pc != Stopped
    ensures Receives(steps, i) == ReplyAttempts(steps, i) + if ss[i].pc == Replying then 1 else 0
  {
    if i > 0 {
      assert RunStep(ss[i-1], steps[i-1], ss[i]);
      DispatcherAlternates(ss, steps, i - 1);
    }
  }

  // ---------------------------------------------------------------- draining the queue

  /** `steps` lead from `s` to `s'`, and no datagram arrives. */
  ghost predicate Quietly(s: State, steps: seq<Step>, s': State)
    decreases |steps|
  {
    if steps == [] then s' == s
    else !steps[0].Datagram? && Enabled(s, steps[0]) && Quietly(Apply(s, steps[0]), steps[1..], s')
  }

  lemma {:induction false} QuietlyFrom(s: State, step: Step, rest: seq<Step>, s': State)
    requires !step.Datagram? && Enabled(s, step) && Quietly(Apply(s, step), rest, s')
    ensures Quietly(s, [step] + rest, s')
  {
    assert ([step] + rest)[1..] == rest;
  }

  /** How many workers hold a job. */
  function Busy(ws: seq<Option<Job>>): nat {
    if ws == [] then 0 else (if ws[0].Some? then 1 else 0) + Busy(ws[1..])
  }

  lemma {:induction false} BusyUpdate(ws: seq<Option<Job>>, w: nat, x: Option<Job>)
    requires w < |ws|
    ensures Busy(ws[w := x]) == Busy(ws) - (if ws[w].Some? then 1 else 0) + if x.Some? then 1 else 0
  {
    if w == 0 {
      assert ws[w := x][1..] == ws[1..];
    } else {
      assert ws[w := x][1..] == ws[1..][w-1 := x];
      BusyUpdate(ws[1..], w - 1, x);
    }
  }

  lemma {:induction false} BusyWorker(ws: seq<Option<Job>>) returns (w: nat)
    requires Busy(ws) > 0
    ensures w < |ws| && ws[w].Some?
  {
    if ws[0].Some? {
      w := 0;
    } else {
      var v := BusyWorker(ws[1..]);
      w := v + 1;
    }
  }

  lemma {:induction false} NobodyBusy(ws: seq<Option<Job>>)
    requires Busy(ws) == 0
    ensures forall w :: 0 <= w < |ws| ==> ws[w] == None
  {
    if ws != [] {
      NobodyBusy(ws[1..]);
      assert forall w :: 1 <= w < |ws| ==> ws[w] == ws[1..][w-1];
    }
  }

  lemma {:induction false} QueueOfTwoKinds(q: seq<Message>)
    ensures |q| == |Jobs(q, Reqs)| + |Jobs(q, Repl)|
  {
    if q != [] {
      QueueOfTwoKinds(q[1..]);
    }
  }

  /** Work left: a request has to be taken, answered and sent. */
  ghost function Work(s: State): nat {
    6 * |Jobs(s.queue, Reqs)| + 4 * Busy(s.workers) + 2 * |Jobs(s.queue, Repl)| + if s.pc == Receiving then 1 else 0
  }

  /** Some worker is free to take the first request. */
  lemma {:induction false} TakeHelps(s: State)
    requires s.pc != Stopped && |s.workers| > 0 && s.workers[0].None? && Jobs(s.queue, Reqs) != []
    ensures Enabled(s, TakeRequest(0)) && Work(Apply(s, TakeRequest(0))) < Work(s)
  {
    JobsEmpty(s.queue, Reqs);
    JobsWithout(s.queue, Reqs);
    BusyUpdate(s.workers, 0, Some(s.queue[FirstOf(s.queue, Reqs)].job));
  }

  lemma {:induction false} PutHelps(s: State, w: nat)
    requires s.pc != Stopped && w < |s.workers| && s.workers[w].Some?
    ensures Enabled(s, PutReply(w, "t")) && Work(Apply(s, PutReply(w, "t"))) < Work(s)
  {
    JobsAppend(s.queue, Message(Repl, s.workers[w].value, "t"), Reqs);
    JobsAppend(s.queue, Message(Repl, s.workers[w].value, "t"), Repl);
    BusyUpdate(s.workers, w, None);
  }

  lemma {:induction false} SendHelps(s: State)
    requires s.pc == Replying && Jobs(s.queue, Repl) != []
    ensures Work(Apply(s, SendReply)) < Work(s)
  {
    JobsEmpty(s.queue, Repl);
    JobsWithout(s.queue, Repl);
  }

  /** One step that gets some of the work done, if there is any. */
  lemma {:induction false} WorkStep(s: State) returns (step: Step)
    requires s.pc != Stopped && |s.workers| > 0 && !Idle(s)
    ensures !step.Datagram? && Enabled(s, step)
    ensures var s' := Apply(s, step);
            && Work(s') < Work(s) && s'.pc != Stopped && |s'.workers| == |s.workers| && s'.accepted == s.accepted
  {
    QueueOfTwoKinds(s.queue);
    if Busy(s.workers) > 0 {
      var w := BusyWorker(s.workers);
      PutHelps(s, w);
      step := PutReply(w, "t");
    } else {
      NobodyBusy(s.workers);
      if Jobs(s.queue, Reqs) != [] {
        TakeHelps(s);
        step := TakeRequest(0);
      } else if s.pc == Receiving {
        step := NoDatagram;
      } else {
        SendHelps(s);
        step := SendReply;
      }
    }
  }

  /** The queue can be drained, and what was accepted stays accounted for. */
  lemma {:induction false} Drain(s: State) returns (more: seq<Step>, s': State)
    requires s.pc != Stopped && |s.workers| > 0 && Conserved(s) && SentMatches(s)
    ensures Quietly(s, more, s') && Idle(s') && s'.accepted == s.accepted && Conserved(s') && SentMatches(s')
    decreases Work(s)
  {
    if Idle(s) {
      more, s' := [], s;
    } else {
      var step := WorkStep(s);
      StepConserves(s, step);
      StepSentMatches(s, step);
      var rest;
      rest, s' := Drain(Apply(s, step));
      QuietlyFrom(s, step, rest, s');
      more := [step] + rest;
    }
  }

  /**
   From every state of every run, as long as the server has not stopped and there is a worker, some
   continuation without any further datagram leaves every client with exactly its replies.
   */
  lemma {:induction false} EveryoneIsAnswered(ss: seq<State>, steps: seq<Step>, i: nat) returns (more: seq<Step>, s': State)
    requires Run(ss, steps) && i < |ss| && ss[i].pc != Stopped && |ss[i].workers| > 0
    ensures Quietly(ss[i], more, s') && Idle(s')
    ensures forall client :: CountSent(s'.sent, client) == CountJobs(ss[i].accepted, client)
  {
    RunConserves(ss, steps, i);
    RunSentMatches(ss, steps, i);
    more, s' := Drain(ss[i]);
    forall client
      ensures CountSent(s'.sent, client) == CountJobs(ss[i].accepted, client)
    {
      IdleMeansAnswered(s', client);
    }
  }
}
