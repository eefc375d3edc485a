/**
 Progress in mutex_store/lib/ms.c: from every reachable state some continuation lets every customer exit.
 The loader can always load more, and no thread is ever locked in.
 */
module MutexProgress {
  import opened MutexStore

  /** `steps` lead from `s` to `s'`. */
  ghost predicate Leads(s: State, steps: seq<Step>, s': State)
    decreases |steps|
  {
    if steps == [] then s' == s
    else WellFormed(s) && Enabled(s, steps[0]) && Leads(Apply(s, steps[0]), steps[1..], s')
  }

  lemma {:induction false} LeadsOn(s: State, a: seq<Step>, m: State, b: seq<Step>, s': State)
    requires Leads(s, a, m) && Leads(m, b, s')
    ensures Leads(s, a + b, s')
    decreases |a|
  {
    if a == [] {
      assert a + b == b;
    } else {
      LeadsOn(Apply(s, a[0]), a[1..], m, b, s');
      assert (a + b)[1..] == a[1..] + b;
    }
  }

  lemma {:induction false} LeadsFrom(s: State, step: Step, rest: seq<Step>, s': State)
    requires WellFormed(s) && Enabled(s, step) && Leads(Apply(s, step), rest, s')
    ensures Leads(s, [step] + rest, s')
  {
    assert ([step] + rest)[1..] == rest;
  }

  // ---------------------------------------------------------------- one customer alone

  /** Nobody is inside a critical section, except perhaps customer `c`. */
  ghost predicate OnlyInside(s: State, c: int) {
    WellFormed(s) && !LoaderInside(s.loader) && forall d :: 0 <= d < |s.customers| && d != c ==> !Inside(s.customers[d])
  }

  /** Nothing but customer `c` and what it does to stocks, mutexes and its own demand differs. */
  ghost predicate OthersKept(s: State, s': State, c: nat) {
    && WellFormed(s) && WellFormed(s') && |s'.customers| == |s.customers| && |s'.stock| == |s.stock|
    && s'.loader == s.loader
    && forall d :: 0 <= d < |s.customers| && d != c ==> s'.customers[d] == s.customers[d] && s'.demand[d] == s.demand[d]
  }

  /** Steps customer `c` needs at most to come back to its loop condition. */
  function Rank(pc: CustomerPc): nat {
    match pc
    case Check => 0
    case Choose => 10
    case Lock => 9
    case Test => 8
    case Clamp => 7
    case LoadStock => 6
    case StoreStock => 5
    case LoadDemand => 4
    case StoreDemand => 3
    case Unlock => 2
    case Exited => 0
  }

  /** The customer is going to buy something: it asked for some, and the store has some. */
  ghost predicate Buying(s: State, c: nat)
    requires WellFormed(s) && c < |s.customers|
  {
    var t := s.customers[c];
    && Shopping(t) && t.n >= 1 && t.st < |s.stock|
    && (t.pc.Lock? || t.pc.Test? || t.pc.Clamp? || t.pc.LoadStock? ==> s.stock[t.st] >= 1)
  }

  /** A customer that is alone inside is never kept waiting. */
  lemma {:induction false} AloneCanStep(s: State, c: nat)
    requires Inv(s) && OnlyInside(s, c) && c < |s.customers| && !s.customers[c].pc.Exited?
    ensures Enabled(s, CustomerStep(c, 0, 0))
  {
    assert CustomerOk(s, c);
    var t := s.customers[c];
    if t.pc.Lock? {
      assert StoreOk(s, t.st);
    }
  }

  /** One step of such a customer brings it closer to its loop condition and closer to its purchase. */
  lemma {:induction false} AloneStep(s: State, c: nat)
    requires Inv(s) && OnlyInside(s, c) && c < |s.customers| && Rank(s.customers[c].pc) > 0
    ensures Enabled(s, CustomerStep(c, 0, 0))
    ensures var s' := Apply(s, CustomerStep(c, 0, 0));
            && Inv(s') && OnlyInside(s', c) && OthersKept(s, s', c)
            && Rank(s'.customers[c].pc) < Rank(s.customers[c].pc)
            && !s'.customers[c].pc.Exited? && s'.demand[c] <= s.demand[c]
            && (Buying(s, c) ==> s'.demand[c] < s.demand[c] || Buying(s', c))
  {
    AloneCanStep(s, c);
    CustomerStepKeeps(s, c, 0, 0);
    assert CustomerOk(s, c);
  }

  /** Customer `c` runs alone up to its loop condition; if it is buying, its demand goes down. */
  lemma {:induction false} RunToCheck(s: State, c: nat) returns (steps: seq<Step>, s': State)
    requires Inv(s) && OnlyInside(s, c) && c < |s.customers| && !s.customers[c].pc.Exited?
    ensures Leads(s, steps, s') && Inv(s') && OnlyInside(s', c) && OthersKept(s, s', c)
    ensures s'.customers[c].pc.Check? && s'.demand[c] <= s.demand[c]
    ensures Buying(s, c) ==> s'.demand[c] < s.demand[c]
    decreases Rank(s.customers[c].pc)
  {
    if s.customers[c].pc.Check? {
      steps, s' := [], s;
    } else {
      AloneStep(s, c);
      var step := CustomerStep(c, 0, 0);
      var rest;
      rest, s' := RunToCheck(Apply(s, step), c);
      LeadsFrom(s, step, rest, s');
      steps := [step] + rest;
    }
  }

  // ---------------------------------------------------------------- the loader alone

  ghost predicate NobodyInside(s: State) {
    WellFormed(s) && forall d :: 0 <= d < |s.customers| ==> !Inside(s.customers[d])
  }

  function LoaderRank(pc: LoaderPc): nat {
    match pc
    case LChoose => 0
    case LLock => 4
    case LLoad => 3
    case LStore => 2
    case LUnlock => 1
  }

  /** Store 0 has something, or the loader is about to bring it something. */
  ghost predicate Supplied(s: State)
    requires WellFormed(s)
  {
    s.stock[0] >= 1 || ((s.loader.pc.LLock? || s.loader.pc.LLoad? || s.loader.pc.LStore?) && s.loader.st == 0 && s.loader.n >= 1)
  }

  lemma {:induction false} LoaderAloneStep(s: State)
    requires Inv(s) && NobodyInside(s) && LoaderRank(s.loader.pc) > 0
    ensures Enabled(s, LoaderStep(0, 0))
    ensures var s' := Apply(s, LoaderStep(0, 0));
            && Inv(s') && NobodyInside(s') && s'.customers == s.customers && s'.demand == s.demand
            && |s'.stock| == |s.stock|
            && LoaderRank(s'.loader.pc) < LoaderRank(s.loader.pc) && (Supplied(s) ==> Supplied(s'))
  {
    if s.loader.pc.LLock? {
      assert StoreOk(s, s.loader.st);
    }
    LoaderStepKeeps(s, 0, 0);
    assert StoreOk(s, 0);
  }

  /** The loader runs alone up to its next choice. */
  lemma {:induction false} RunLoader(s: State) returns (steps: seq<Step>, s': State)
    requires Inv(s) && NobodyInside(s)
    ensures Leads(s, steps, s') && Inv(s') && NobodyInside(s') && s'.loader.pc.LChoose?
    ensures s'.customers == s.customers && s'.demand == s.demand && |s'.stock| == |s.stock|
    ensures Supplied(s) ==> Supplied(s')
    decreases LoaderRank(s.loader.pc)
  {
    if s.loader.pc.LChoose? {
      steps, s' := [], s;
    } else {
      LoaderAloneStep(s);
      var step := LoaderStep(0, 0);
      var rest;
      rest, s' := RunLoader(Apply(s, step));
      LeadsFrom(s, step, rest, s');
      steps := [step] + rest;
    }
  }

  /** Nobody is inside and the loader is about to choose. */
  ghost predicate Quiet(s: State) {
    Inv(s) && NobodyInside(s) && s.loader.pc.LChoose?
  }

  /** From a quiet state the loader can put something into store 0. */
  lemma {:induction false} Supply(s: State) returns (steps: seq<Step>, s': State)
    requires Quiet(s)
    ensures Leads(s, steps, s') && Quiet(s') && s'.stock[0] >= 1
    ensures s'.customers == s.customers && s'.demand == s.demand
  {
    var step := LoaderStep(0, 1);
    LoaderStepKeeps(s, 0, 1);
    var rest;
    rest, s' := RunLoader(Apply(s, step));
    LeadsFrom(s, step, rest, s');
    steps := [step] + rest;
  }

  // ---------------------------------------------------------------- leaving the critical sections

  /** Customers inside a critical section, from number `c` on, leave it one after the other. */
  lemma {:induction false} ClearFrom(s: State, c: nat) returns (steps: seq<Step>, s': State)
    requires Inv(s) && c <= |s.customers| && forall d :: 0 <= d < c ==> !Inside(s.customers[d])
    ensures Leads(s, steps, s') && Inv(s') && NobodyInside(s') && |s'.customers| == |s.customers|
    decreases |s.customers| - c
  {
    if c == |s.customers| {
      steps, s' := [], s;
    } else {
      var a, m := LeaveSection(s, c);
      var b;
      b, s' := ClearFrom(m, c + 1);
      LeadsOn(s, a, m, b, s');
      steps := a + b;
    }
  }

  lemma {:induction false} LeaveSection(s: State, c: nat) returns (steps: seq<Step>, s': State)
    requires Inv(s) && c < |s.customers|
    ensures Leads(s, steps, s') && Inv(s') && |s'.customers| == |s.customers| && !Inside(s'.customers[c])
    ensures forall d :: 0 <= d < |s.customers| && d != c ==> s'.customers[d] == s.customers[d]
    decreases Rank(s.customers[c].pc)
  {
    if !Inside(s.customers[c]) {
      steps, s' := [], s;
    } else {
      var step := CustomerStep(c, 0, 0);
      InsideStep(s, c);
      var rest;
      rest, s' := LeaveSection(Apply(s, step), c);
      LeadsFrom(s, step, rest, s');
      steps := [step] + rest;
    }
  }

  lemma {:induction false} InsideStep(s: State, c: nat)
    requires Inv(s) && c < |s.customers| && Inside(s.customers[c])
    ensures Enabled(s, CustomerStep(c, 0, 0))
    ensures var s' := Apply(s, CustomerStep(c, 0, 0));
            && Inv(s') && |s'.customers| == |s.customers| && Rank(s'.customers[c].pc) < Rank(s.customers[c].pc)
            && forall d :: 0 <= d < |s.customers| && d != c ==> s'.customers[d] == s.customers[d]
  {
    assert CustomerOk(s, c);
    CustomerStepKeeps(s, c, 0, 0);
  }

  /** From every state that satisfies the invariant a quiet one can be reached. */
  lemma {:induction false} Settle(s: State) returns (steps: seq<Step>, s': State)
    requires Inv(s)
    ensures Leads(s, steps, s') && Quiet(s') && |s'.customers| == |s.customers|
  {
    var a, m := ClearFrom(s, 0);
    var b;
    b, s' := RunLoader(m);
    LeadsOn(s, a, m, b, s');
    steps := a + b;
  }

  // ---------------------------------------------------------------- everybody exits

  ghost predicate AllExited(s: State) {
    forall c :: 0 <= c < |s.customers| ==> s.customers[c].pc.Exited?
  }

  /** From a quiet state a customer that still wants something can buy some of it. */
  lemma {:induction false} Buy(s: State, c: nat) returns (steps: seq<Step>, s': State)
    requires Quiet(s) && c < |s.customers| && s.customers[c].pc.Check? && s.demand[c] > 0
    ensures Leads(s, steps, s') && Quiet(s') && |s'.customers| == |s.customers|
    ensures s'.customers[c].pc.Check? && s'.demand[c] < s.demand[c]
    ensures forall d :: 0 <= d < |s.customers| && d != c ==> s'.customers[d] == s.customers[d]
  {
    var a, m := Supply(s);
    var pick := [CustomerStep(c, 0, 0), CustomerStep(c, 0, 1)];
    var t := Order(m, c);
    var b;
    b, s' := RunToCheck(t, c);
    LeadsOn(m, pick, t, b, s');
    LeadsOn(s, a, m, pick + b, s');
    steps := a + (pick + b);
    QuietAgain(s', c);
  }

  lemma {:induction false} QuietAgain(s: State, c: nat)
    requires Inv(s) && OnlyInside(s, c) && c < |s.customers| && s.customers[c].pc.Check? && s.loader.pc.LChoose?
    ensures Quiet(s)
  {
  }

  /** The customer passes its loop condition and asks for one unit from store 0. */
  lemma {:induction false} Order(s: State, c: nat) returns (t: State)
    requires Quiet(s) && s.stock[0] >= 1 && c < |s.customers| && s.customers[c].pc.Check? && s.demand[c] > 0
    ensures Leads(s, [CustomerStep(c, 0, 0), CustomerStep(c, 0, 1)], t)
    ensures Inv(t) && OnlyInside(t, c) && OthersKept(s, t, c) && t.demand == s.demand
    ensures t.customers[c].pc.Lock? && Buying(t, c)
  {
    var s1 := Apply(s, CustomerStep(c, 0, 0));
    CustomerStepKeeps(s, c, 0, 0);
    t := Apply(s1, CustomerStep(c, 0, 1));
    CustomerStepKeeps(s1, c, 0, 1);
    assert Leads(t, [], t);
    LeadsFrom(s1, CustomerStep(c, 0, 1), [], t);
    LeadsFrom(s, CustomerStep(c, 0, 0), [CustomerStep(c, 0, 1)], t);
    assert [CustomerStep(c, 0, 0)] + [CustomerStep(c, 0, 1)] == [CustomerStep(c, 0, 0), CustomerStep(c, 0, 1)];
  }

  /** A customer at its loop condition buys until its demand is met, and exits. */
  lemma {:induction false} BuyAll(s: State, c: nat) returns (steps: seq<Step>, s': State)
    requires Quiet(s) && c < |s.customers| && s.customers[c].pc.Check?
    ensures Leads(s, steps, s') && Quiet(s') && |s'.customers| == |s.customers| && s'.customers[c].pc.Exited?
    ensures forall d :: 0 <= d < |s.customers| && d != c ==> s'.customers[d] == s.customers[d]
    decreases if s.demand[c] > 0 then s.demand[c] else 0
  {
    if s.demand[c] > 0 {
      var a, m := Buy(s, c);
      var b;
      b, s' := BuyAll(m, c);
      LeadsOn(s, a, m, b, s');
      steps := a + b;
    } else {
      var step := CustomerStep(c, 0, 0);
      CustomerStepKeeps(s, c, 0, 0);
      s' := Apply(s, step);
      assert Leads(s', [], s');
      LeadsFrom(s, step, [], s');
      steps := [step] + [];
    }
  }

  /** Customers from number `c` on finish one after the other. */
  lemma {:induction false} FinishFrom(s: State, c: nat) returns (steps: seq<Step>, s': State)
    requires Quiet(s) && c <= |s.customers| && forall d :: 0 <= d < c ==> s.customers[d].pc.Exited?
    ensures Leads(s, steps, s') && Inv(s') && AllExited(s')
    decreases |s.customers| - c
  {
    if c == |s.customers| {
      steps, s' := [], s;
    } else if s.customers[c].pc.Exited? {
      steps, s' := FinishFrom(s, c + 1);
    } else {
      var a, m := RunToCheck(s, c);
      QuietAgain(m, c);
      var b, n := BuyAll(m, c);
      LeadsOn(s, a, m, b, n);
      var e;
      e, s' := FinishFrom(n, c + 1);
      LeadsOn(s, a + b, n, e, s');
      steps := a + b + e;
    }
  }

  /**
   In every state of every interleaving the way out is open: some continuation lets every customer exit,
   each with its demand met.
   */
  lemma {:induction false} EveryoneCanLeave(ss: seq<State>, steps: seq<Step>, i: nat) returns (more: seq<Step>, s': State)
    requires Run(ss, steps) && i < |ss|
    ensures Leads(ss[i], more, s') && AllExited(s')
    ensures Inv(s') && forall c :: 0 <= c < |s'.customers| ==> s'.demand[c] == 0
  {
    RunInv(ss, steps, i);
    var a, m := Settle(ss[i]);
    var b;
    b, s' := FinishFrom(m, 0);
    LeadsOn(ss[i], a, m, b, s');
    more := a + b;
    forall c | 0 <= c < |s'.customers|
      ensures s'.demand[c] == 0
    {
      assert CustomerOk(s', c);
    }
  }
}
