/**
 The two-stream file transfer of sctp/lib/client_core.c and sctp/lib/server_core.c. The file thread and
 the message thread of the client interleave freely; each stream delivers in order (section 6.6 of
 RFC 4960), the two streams in any relative order.
 */
module SctpTransfer {
  import opened Checksum

  const MAX_MSG_SIZE := 256

  /** The bytes of "exit" with its terminator. */
  const EXIT_NUL: seq<byte> := [101, 120, 105, 116, 0]

  /** The client's file thread: about to read, holding a chunk to send, or gone. */
  datatype FilePc = Reading | Sending(chunk: seq<byte>) | FileDone

  /** The server's handler thread. */
  datatype ServerPc = Serving | Exited | WriteFailed

  datatype State = State(
    file: seq<byte>, pos: nat, filePc: FilePc,
    typing: bool, said: seq<seq<byte>>,
    fileStream: seq<seq<byte>>, msgStream: seq<seq<byte>>,
    pc: ServerPc, buffer: seq<byte>, output: seq<byte>, heard: seq<seq<byte>>)

  datatype Step =
    | ReadFile(n: nat)          // read() returns n bytes, 0 at the end of the file
    | FileThreadFails           // read() or sctp_sendmsg() fails: the thread ends
    | SendChunk                 // sctp_sendmsg() on FILE_STREAM
    | Say(text: seq<byte>)      // fgets() and sctp_sendmsg() on MSG_STREAM
    | MsgThreadFails            // fgets() or sctp_sendmsg() fails
    | ReceiveChunk(w: nat)      // sctp_recvmsg() of a file chunk, write() of which w bytes succeed
    | ReceiveMsg                // sctp_recvmsg() of a message

  /** The receive buffer: zeroed, then filled from the front; one byte more than a message. */
  function Received(data: seq<byte>): (b: seq<byte>)
    requires |data| <= MAX_MSG_SIZE
    ensures |b| == MAX_MSG_SIZE + 1 && b[..|data|] == data
    ensures forall k :: |data| <= k < |b| ==> b[k] == 0
  {
    data + seq(MAX_MSG_SIZE + 1 - |data|, _ => 0)
  }

  /** `!strcmp(msg, "exit")`. */
  predicate SaysExit(b: seq<byte>)
    requires |b| >= 5
  {
    b[..5] == EXIT_NUL
  }

  /** A line typed by the user: no NUL, and short enough for the buffer. */
  predicate Line(text: seq<byte>) {
    |text| < MAX_MSG_SIZE && forall k :: 0 <= k < |text| ==> text[k] != 0
  }

  /** "exit". */
  const EXIT: seq<byte> := [101, 120, 105, 116]

  /** On the receive buffer the comparison recognises exactly the line "exit". */
  lemma ExitRecognised(text: seq<byte>)
    requires Line(text)
    ensures SaysExit(Received(text)) <==> text == EXIT
    ensures text == EXIT <==> |text| == 4 && text[0] as char == 'e' && text[1] as char == 'x'
                              && text[2] as char == 'i' && text[3] as char == 't'
  {
    var b := Received(text);
    if text == EXIT {
      assert b[..5] == EXIT_NUL;
    }
    if SaysExit(b) {
      assert b[..5][4] == b[4] == 0;
      assert |text| <= 4;
      assert b[..5][0] == b[0] && b[..5][1] == b[1] && b[..5][2] == b[2] && b[..5][3] == b[3];
      assert |text| == 4;
      assert text == b[..4];
    }
  }

  ghost predicate Init(s: State) {
    && s.pos == 0 && s.filePc == Reading && s.typing && s.said == []
    && s.fileStream == [] && s.msgStream == []
    && s.pc == Serving && s.output == [] && s.heard == []
  }

  ghost predicate Enabled(s: State, step: Step) {
    match step
    case ReadFile(n) =>
      && s.filePc == Reading && s.pos + n <= |s.file| && n <= MAX_MSG_SIZE && (n == 0 ==> s.pos == |s.file|)
    case FileThreadFails => s.filePc != FileDone
    case SendChunk => s.filePc.Sending?
    case Say(text) => s.typing && Line(text)
    case MsgThreadFails => s.typing
    case ReceiveChunk(w) =>
      s.pc == Serving && s.fileStream != [] && |s.fileStream[0]| <= MAX_MSG_SIZE && w <= |s.fileStream[0]|
    case ReceiveMsg => s.pc == Serving && s.msgStream != [] && |s.msgStream[0]| <= MAX_MSG_SIZE
  }

  ghost function Apply(s: State, step: Step): (s': State)
    requires Enabled(s, step)
  {
    match step
    case ReadFile(n) =>
      if n == 0 then s.(filePc := FileDone)
      else s.(filePc := Sending(s.file[s.pos..s.pos+n]), pos := s.pos + n)
    case FileThreadFails => s.(filePc := FileDone)
    case SendChunk => s.(filePc := Reading, fileStream := s.fileStream + [s.filePc.chunk])
    case Say(text) => s.(typing := text != EXIT, said := s.said + [text], msgStream := s.msgStream + [text])
    case MsgThreadFails => s.(typing := false)
    case ReceiveChunk(w) =>
      var bts, b := |s.fileStream[0]|, Received(s.fileStream[0]);
      s.(fileStream := s.fileStream[1..], buffer := b, output := s.output + b[..w],
         pc := if w == bts then Serving else WriteFailed)
    case ReceiveMsg =>
      var b := Received(s.msgStream[0]);
      s.(msgStream := s.msgStream[1..], buffer := b, heard := s.heard + [s.msgStream[0]],
         pc := if SaysExit(b) then Exited else Serving)
  }

  ghost predicate RunStep(s: State, step: Step, s': State) {
    Enabled(s, step) && s' == Apply(s, step)
  }

  ghost predicate Run(ss: seq<State>, steps: seq<Step>) {
    && |ss| == |steps| + 1 && Init(ss[0])
    && forall i :: 0 <= i < |steps| ==> RunStep(ss[i], steps[i], ss[i+1])
  }

  // ---------------------------------------------------------------- the file stream

  function Concat(cs: seq<seq<byte>>): seq<byte> {
    if cs == [] then [] else cs[0] + Concat(cs[1..])
  }

  lemma {:induction false} ConcatAppend(cs: seq<seq<byte>>, c: seq<byte>)
    ensures Concat(cs + [c]) == Concat(cs) + c
  {
    if cs == [] {
      assert cs + [c] == [c];
      assert Concat([c]) == c + Concat([]);
    } else {
      assert (cs + [c])[1..] == cs[1..] + [c];
      ConcatAppend(cs[1..], c);
      assert cs[0] + (Concat(cs[1..]) + c) == cs[0] + Concat(cs[1..]) + c;
    }
  }

  /** The chunk the file thread holds. */
  function HeldChunk(s: State): seq<byte> {
    if s.filePc.Sending? then s.filePc.chunk else []
  }

  /** Bytes the client has read that the server has not written. */
  function Undelivered(s: State): seq<byte> {
    Concat(s.fileStream) + HeldChunk(s)
  }

  /**
   While the server writes whole chunks, its file followed by what is under way is what the client has read;
   chunks are never empty and fit the buffer.
   */
  ghost predicate Inv(s: State) {
    && s.pos <= |s.file|
    && (forall k :: 0 <= k < |s.fileStream| ==> 0 < |s.fileStream[k]| <= MAX_MSG_SIZE)
    && (s.filePc.Sending? ==> 0 < |s.filePc.chunk| <= MAX_MSG_SIZE)
    && s.output <= s.file
    && (s.pc != WriteFailed ==> s.output + Concat(s.fileStream) <= s.file[..s.pos])
    && (s.pc != WriteFailed && s.filePc != FileDone ==> s.output + Undelivered(s) == s.file[..s.pos])
  }

  lemma {:induction false} ReadKeeps(s: State, n: nat)
    requires Inv(s) && Enabled(s, ReadFile(n))
    ensures Inv(Apply(s, ReadFile(n)))
  {
    if n > 0 {
      var s' := Apply(s, ReadFile(n));
      var cat, chunk := Concat(s.fileStream), s.file[s.pos..s.pos+n];
      assert Undelivered(s') == cat + chunk && HeldChunk(s) == [];
      if s.pc != WriteFailed {
        ReadMore(s.output, cat, s.file, s.pos, n);
      }
    }
  }

  lemma {:induction false} ReadMore(out: seq<byte>, cat: seq<byte>, f: seq<byte>, pos: nat, n: nat)
    requires pos + n <= |f| && out + (cat + []) == f[..pos]
    ensures out + cat <= f[..pos+n] && out + (cat + f[pos..pos+n]) == f[..pos+n]
  {
    assert cat + [] == cat;
    assert f[..pos+n] == f[..pos] + f[pos..pos+n];
    assert out + (cat + f[pos..pos+n]) == (out + cat) + f[pos..pos+n];
  }

  lemma {:induction false} Regroup(a: seq<byte>, b: seq<byte>, c: seq<byte>)
    ensures a + (b + c) == (a + b) + c
    ensures a + b <= a + b + c
  {
  }

  lemma {:induction false} SendKeeps(s: State)
    requires Inv(s) && Enabled(s, SendChunk)
    ensures Inv(Apply(s, SendChunk))
  {
    ConcatAppend(s.fileStream, s.filePc.chunk);
    Regroup(s.output, Concat(s.fileStream), s.filePc.chunk);
  }

  lemma {:induction false} ReceiveKeeps(s: State, w: nat)
    requires Inv(s) && Enabled(s, ReceiveChunk(w))
    ensures Inv(Apply(s, ReceiveChunk(w)))
  {
    var c, rest := s.fileStream[0], s.fileStream[1..];
    var b := Received(c);
    assert Concat(s.fileStream) == c + Concat(rest);
    Regroup(s.output, c, Concat(rest));
    Regroup(s.output + c, Concat(rest), HeldChunk(s));
    Regroup(s.output, c + Concat(rest), HeldChunk(s));
    assert b[..w] == c[..w];
    PrefixOfPrefix(s.output, c, w, Concat(rest), s.file, s.pos);
    if w == |c| {
      assert c[..w] == c;
    }
  }

  lemma {:induction false} PrefixOfPrefix(a: seq<byte>, c: seq<byte>, w: nat, r: seq<byte>, f: seq<byte>, pos: nat)
    requires w <= |c| && pos <= |f| && a + (c + r) <= f[..pos]
    ensures a + c[..w] <= f
  {
    var all := a + (c + r);
    assert a + c[..w] == all[..|a|+w];
    assert all == f[..|all|];
  }

  lemma {:induction false} StepKeeps(s: State, step: Step)
    requires Inv(s) && Enabled(s, step)
    ensures Inv(Apply(s, step))
  {
    match step
    case ReadFile(n) => ReadKeeps(s, n);
    case FileThreadFails =>
      Regroup(s.output, Concat(s.fileStream), HeldChunk(s));
    case SendChunk => SendKeeps(s);
    case Say(text) =>
    case MsgThreadFails =>
    case ReceiveChunk(w) => ReceiveKeeps(s, w);
    case ReceiveMsg =>
  }

  lemma {:induction false} RunInv(ss: seq<State>, steps: seq<Step>, i: nat)
    requires Run(ss, steps) && i < |ss|
    ensures Inv(ss[i]) && ss[i].file == ss[0].file
  {
    if i == 0 {
      assert ss[0].output + Undelivered(ss[0]) == [];
    } else {
      RunInv(ss, steps, i - 1);
      assert RunStep(ss[i-1], steps[i-1], ss[i]);
      StepKeeps(ss[i-1], steps[i-1]);
    }
  }

  /** In every interleaving the server's file is a prefix of the client's file, at every moment. */
  lemma {:induction false} AlwaysPrefix(ss: seq<State>, steps: seq<Step>, i: nat)
    requires Run(ss, steps) && i < |ss|
    ensures ss[i].output <= ss[0].file
  {
    RunInv(ss, steps, i);
  }

  // ---------------------------------------------------------------- completeness

  /** The file thread has read to the end and not failed before. */
  ghost predicate ReadAll(s: State) {
    s.pos == |s.file|
  }

  lemma {:induction false} ConcatEmpty(cs: seq<seq<byte>>)
    requires forall k :: 0 <= k < |cs| ==> |cs[k]| > 0
    ensures Concat(cs) == [] <==> cs == []
  {
    if cs != [] {
      assert |Concat(cs)| >= |cs[0]|;
    }
  }

  /** No thread failure so far: the books of the file stream are exact even after the file thread has gone. */
  ghost predicate Exact(s: State) {
    s.pos <= |s.file| && s.output + Undelivered(s) == s.file[..s.pos]
  }

  /** Up to state `i` the file thread did not fail and every chunk was written whole. */
  ghost predicate NoFailure(steps: seq<Step>, ss: seq<State>, i: nat)
    requires |ss| == |steps| + 1 && i < |ss|
  {
    forall k :: 0 <= k < i ==> steps[k] != FileThreadFails && ss[k+1].pc != WriteFailed
  }

  lemma {:induction false} RunExact(ss: seq<State>, steps: seq<Step>, i: nat)
    requires Run(ss, steps) && i < |ss| && NoFailure(steps, ss, i)
    ensures Exact(ss[i]) && (ss[i].filePc == FileDone ==> ReadAll(ss[i]))
  {
    RunInv(ss, steps, i);
    if i == 0 {
      assert Exact(ss[0]);
    } else {
      RunExact(ss, steps, i - 1);
      RunInv(ss, steps, i - 1);
      var s, step := ss[i-1], steps[i-1];
      assert RunStep(s, step, ss[i]);
      assert step != FileThreadFails && ss[i].pc != WriteFailed;
      if step.ReceiveChunk? {
        ExactReceive(s, step.w);
      }
    }
  }

  lemma {:induction false} ExactReceive(s: State, w: nat)
    requires Inv(s) && Exact(s) && Enabled(s, ReceiveChunk(w)) && Apply(s, ReceiveChunk(w)).pc != WriteFailed
    ensures Exact(Apply(s, ReceiveChunk(w)))
  {
    var c, rest := s.fileStream[0], s.fileStream[1..];
    assert Concat(s.fileStream) == c + Concat(rest);
    assert Received(c)[..w] == c;
    assert s.output + ((c + Concat(rest)) + HeldChunk(s)) == (s.output + c) + (Concat(rest) + HeldChunk(s));
  }

  /**
   Without failures, the server has the whole file exactly when the client has read it all
   and every chunk has been received.
   */
  lemma {:induction false} CompleteIff(ss: seq<State>, steps: seq<Step>, i: nat)
    requires Run(ss, steps) && i < |ss| && NoFailure(steps, ss, i)
    ensures ss[i].output == ss[0].file <==> ReadAll(ss[i]) && ss[i].fileStream == [] && !ss[i].filePc.Sending?
  {
    RunInv(ss, steps, i);
    RunExact(ss, steps, i);
    var s := ss[i];
    ConcatEmpty(s.fileStream);
    assert |s.output| + |Concat(s.fileStream)| + |HeldChunk(s)| == s.pos;
    if ReadAll(s) && s.fileStream == [] && !s.filePc.Sending? {
      assert s.file[..s.pos] == s.file;
      assert s.output + Undelivered(s) == s.output;
    }
    if s.output == s.file {
      assert |Concat(s.fileStream)| == 0 && |HeldChunk(s)| == 0;
    }
  }

  /** Once the server has stopped, its file never changes. */
  lemma {:induction false} StoppedFrozen(ss: seq<State>, steps: seq<Step>, i: nat, j: nat)
    requires Run(ss, steps) && i <= j < |ss| && ss[i].pc != Serving
    ensures ss[j].output == ss[i].output && ss[j].pc == ss[i].pc
  {
    if i < j {
      StoppedFrozen(ss, steps, i, j - 1);
      assert RunStep(ss[j-1], steps[j-1], ss[j]);
    }
  }

  /**
   The file left on the server when "exit" has been received at state i is the whole file exactly when all
   of it had been read and received before; later steps, failing sends included, do not change that.
   */
  lemma {:induction false} FinalFile(ss: seq<State>, steps: seq<Step>, i: nat, j: nat)
    requires Run(ss, steps) && i <= j < |ss| && NoFailure(steps, ss, i) && ss[i].pc == Exited
    ensures ss[j].output == ss[0].file <==> ReadAll(ss[i]) && ss[i].fileStream == [] && !ss[i].filePc.Sending?
  {
    StoppedFrozen(ss, steps, i, j);
    CompleteIff(ss, steps, i);
  }

  /** "exit" may overtake the only chunk of a one-byte file: the server is left with an empty file. */
  lemma {:induction false} ExitOvertakes() returns (ss: seq<State>, steps: seq<Step>)
    ensures Run(ss, steps) && NoFailure(steps, ss, |ss| - 1)
    ensures var s := ss[|ss|-1];
            s.pc == Exited && ReadAll(s) && s.file == [7] && s.output == []
  {
    var s0 := State([7], 0, Reading, true, [], [], [], Serving, [], [], []);
    steps := [ReadFile(1), SendChunk, Say(EXIT), ReceiveMsg];
    var s1 := Apply(s0, ReadFile(1));
    var s2 := Apply(s1, SendChunk);
    var s3 := Apply(s2, Say(EXIT));
    var s4 := Apply(s3, ReceiveMsg);
    ExitRecognised(EXIT);
    ss := [s0, s1, s2, s3, s4];
  }

  // ---------------------------------------------------------------- the message stream

  /** Messages arrive in order, "exit" can only be the last one typed, and ends the server. */
  ghost predicate MsgInv(s: State) {
    && s.heard + s.msgStream == s.said
    && (forall k :: 0 <= k < |s.said| ==> Line(s.said[k]))
    && (forall k :: 0 <= k < |s.said| - 1 ==> s.said[k] != EXIT)
    && (s.typing && s.said != [] ==> s.said[|s.said|-1] != EXIT)
    && (s.pc == Exited ==> s.heard != [] && s.heard[|s.heard|-1] == EXIT)
    && (s.pc != Exited ==> forall k :: 0 <= k < |s.heard| ==> s.heard[k] != EXIT)
  }

  lemma {:induction false} MsgStepKeeps(s: State, step: Step)
    requires MsgInv(s) && Enabled(s, step)
    ensures MsgInv(Apply(s, step))
  {
    match step
    case ReadFile(n) =>
    case FileThreadFails =>
    case SendChunk =>
    case Say(text) => SayKeeps(s, text);
    case MsgThreadFails =>
    case ReceiveChunk(w) =>
    case ReceiveMsg => ReceiveMsgKeeps(s);
  }

  lemma {:induction false} SayKeeps(s: State, text: seq<byte>)
    requires MsgInv(s) && Enabled(s, Say(text))
    ensures MsgInv(Apply(s, Say(text)))
  {
    assert s.heard + (s.msgStream + [text]) == (s.heard + s.msgStream) + [text];
  }

  lemma {:induction false} ReceiveMsgKeeps(s: State)
    requires MsgInv(s) && Enabled(s, ReceiveMsg)
    ensures MsgInv(Apply(s, ReceiveMsg))
  {
    var m := s.msgStream[0];
    assert s.heard + s.msgStream == (s.heard + [m]) + s.msgStream[1..];
    assert m == s.said[|s.heard|];
    ExitRecognised(m);
  }

  /**
   The server ends as soon as it hears "exit" and, but for a short write, only then; it has then heard
   everything typed, in order.
   */
  lemma {:induction false} ExitMeansAllHeard(ss: seq<State>, steps: seq<Step>, i: nat)
    requires Run(ss, steps) && i < |ss|
    ensures MsgInv(ss[i]) && (ss[i].pc == Exited ==> ss[i].heard == ss[i].said && !ss[i].typing)
    ensures ss[i].pc == Exited <==> exists k :: 0 <= k < |ss[i].heard| && ss[i].heard[k] == EXIT
  {
    if i > 0 {
      ExitMeansAllHeard(ss, steps, i - 1);
      assert RunStep(ss[i-1], steps[i-1], ss[i]);
      MsgStepKeeps(ss[i-1], steps[i-1]);
    }
    var s := ss[i];
    if s.pc == Exited {
      var k := |s.heard| - 1;
      assert s.said[k] == EXIT;
      assert k >= |s.said| - 1;
      assert s.msgStream == [];
      assert s.heard + [] == s.heard;
    }
  }

  // ---------------------------------------------------------------- short writes

  /** A chunk of which fewer bytes are written than were received. */
  ghost predicate ShortWrite(s: State, step: Step) {
    step.ReceiveChunk? && s.fileStream != [] && step.w < |s.fileStream[0]|
  }

  /** The server gives up exactly after a short write. */
  lemma {:induction false} FailedIff(ss: seq<State>, steps: seq<Step>, i: nat)
    requires Run(ss, steps) && i < |ss|
    ensures ss[i].pc == WriteFailed <==> exists k :: 0 <= k < i && ShortWrite(ss[k], steps[k])
  {
    if i > 0 {
      FailedIff(ss, steps, i - 1);
      assert RunStep(ss[i-1], steps[i-1], ss[i]);
      if ss[i].pc == WriteFailed && ss[i-1].pc != WriteFailed {
        assert ShortWrite(ss[i-1], steps[i-1]);
      }
    }
  }

  // ---------------------------------------------------------------- the file can arrive

  /** `steps` lead from `s` to `s'`. */
  ghost predicate Leads(s: State, steps: seq<Step>, s': State)
    decreases |steps|
  {
    if steps == [] then s' == s
    else Enabled(s, steps[0]) && Leads(Apply(s, steps[0]), steps[1..], s')
  }

  lemma {:induction false} LeadsFrom(s: State, step: Step, rest: seq<Step>, s': State)
    requires Enabled(s, step) && Leads(Apply(s, step), rest, s')
    ensures Leads(s, [step] + rest, s')
  {
    assert ([step] + rest)[1..] == rest;
  }

  /** Nothing has gone wrong with the file so far. */
  ghost predicate OnTrack(s: State) {
    Inv(s) && Exact(s) && s.pc == Serving && (s.filePc == FileDone ==> ReadAll(s))
  }

  /** Steps that are still needed. */
  ghost function Remaining(s: State): nat
    requires s.pos <= |s.file|
  {
    4 * (|s.file| - s.pos) + (if s.filePc.Sending? then 2 else 0) + |s.fileStream|
  }

  /** The next step towards the whole file: receive, send, or read as much as a message holds. */
  function NextStep(s: State): Step
    requires s.pos <= |s.file|
  {
    if s.fileStream != [] then ReceiveChunk(|s.fileStream[0]|)
    else if s.filePc.Sending? then SendChunk
    else ReadFile(if |s.file| - s.pos < 256 then |s.file| - s.pos else 256)
  }

  lemma {:induction false} NextStepHelps(s: State)
    requires OnTrack(s) && (s.fileStream != [] || s.filePc.Sending? || s.pos < |s.file|)
    ensures Enabled(s, NextStep(s))
    ensures var s' := Apply(s, NextStep(s));
            OnTrack(s') && s'.file == s.file && Remaining(s') < Remaining(s)
  {
    StepKeeps(s, NextStep(s));
    if s.fileStream != [] {
      ExactReceive(s, |s.fileStream[0]|);
    }
  }

  lemma {:induction false} FinishFile(s: State) returns (more: seq<Step>, s': State)
    requires OnTrack(s)
    ensures Leads(s, more, s') && s'.output == s.file && s'.pc == Serving
    decreases Remaining(s)
  {
    if s.fileStream != [] || s.filePc.Sending? || s.pos < |s.file| {
      NextStepHelps(s);
      var rest;
      rest, s' := FinishFile(Apply(s, NextStep(s)));
      LeadsFrom(s, NextStep(s), rest, s');
      more := [NextStep(s)] + rest;
    } else {
      more, s' := [], s;
      assert s.output + Undelivered(s) == s.output && s.file[..s.pos] == s.file;
    }
  }

  /** As long as nothing failed and the server serves, some continuation brings it the whole file. */
  lemma {:induction false} FileCanArrive(ss: seq<State>, steps: seq<Step>, i: nat) returns (more: seq<Step>, s': State)
    requires Run(ss, steps) && i < |ss| && NoFailure(steps, ss, i) && ss[i].pc == Serving
    ensures Leads(ss[i], more, s') && s'.output == ss[0].file && s'.pc == Serving
  {
    RunInv(ss, steps, i);
    RunExact(ss, steps, i);
    more, s' := FinishFile(ss[i]);
  }
}
