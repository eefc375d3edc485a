/**
 How much is bought and loaded in mutex_store/lib/ms.c: over every interleaving, one visit of a customer takes
 exactly what it asked for or all that the store has, and one round of the loader adds exactly what it drew.
 */
module MutexAmounts {
  import opened MutexStore

  function Min(a: int, b: int): int {
    if a <= b then a else b
  }

  /**
   What a thread may do: choose any store and any amount from 0 to 512, take a mutex exactly when it is free,
   and everything else at once.
   */
  lemma {:induction false} AnyChoice(s: State, c: nat, st: nat, k: nat)
    requires Inv(s) && st < |s.stock| && k <= 512 && c < |s.customers|
    ensures Enabled(s, CustomerStep(c, st, k)) <==>
              && !s.customers[c].pc.Exited?
              && (s.customers[c].pc.Lock? ==> s.customers[c].st < |s.stock| && s.owner[s.customers[c].st] == NoOne)
    ensures Enabled(s, LoaderStep(st, k)) <==>
              (s.loader.pc.LLock? ==> s.loader.st < |s.stock| && s.owner[s.loader.st] == NoOne)
  {
    assert CustomerOk(s, c);
  }

  lemma {:induction false} StepAt(ss: seq<State>, steps: seq<Step>, j: nat)
    requires Run(ss, steps) && 0 < j < |ss|
    ensures Inv(ss[j-1]) && RunStep(ss[j-1], steps[j-1], ss[j])
  {
    RunInv(ss, steps, j - 1);
  }

  // ---------------------------------------------------------------- what a customer asks for

  /** Customer `c` has asked store `st` for `n` and waits for the mutex; its demand is `d`. */
  ghost predicate Waiting(s: State, c: nat, st: nat, n: int, d: int) {
    WellFormed(s) && c < |s.customers| && s.customers[c].pc.Lock? && s.customers[c].st == st
    && s.customers[c].n == n && s.demand[c] == d
  }

  /** From its choice to its lock a customer asks for the drawn amount, but for no more than its demand. */
  lemma {:induction false} AskedFor(ss: seq<State>, steps: seq<Step>, i: nat, j: nat, c: nat, st: nat, k: nat)
    requires Run(ss, steps) && i < j < |ss| && WellFormed(ss[i]) && c < |ss[i].customers|
    requires steps[i] == CustomerStep(c, st, k) && ss[i].customers[c].pc.Choose?
    requires forall m :: i < m <= j ==> WellFormed(ss[m]) && c < |ss[m].customers| && ss[m].customers[c].pc.Lock?
    ensures Waiting(ss[j], c, st, if k <= ss[i].demand[c] then k else ss[i].demand[c], ss[i].demand[c])
    decreases j
  {
    StepAt(ss, steps, j);
    if j > i + 1 {
      AskedFor(ss, steps, i, j - 1, c, st, k);
      assert steps[j-1].CustomerStep? ==> steps[j-1].c != c;
    }
  }

  // ---------------------------------------------------------------- what it gets

  /**
   Customer `c` took the mutex of its store in state `s0`, asking for `n`; how far state `s` of the same visit has
   got. The amount taken is `n` or what the store had then, whichever is less.
   */
  ghost predicate Visit(s0: State, s: State, c: nat) {
    && WellFormed(s0) && WellFormed(s) && c < |s0.customers| == |s.customers| && |s0.stock| == |s.stock|
    && var t0, t := s0.customers[c], s.customers[c];
       && t0.st < |s0.stock| && t.st == t0.st
       && var st, n, had, d := t0.st, t0.n, s0.stock[t0.st], s0.demand[c];
          var got := Min(n, had);
          match t.pc
          case Test => t.n == n && s.stock[st] == had && s.demand[c] == d && s.sold[st] == s0.sold[st]
          case Clamp => t.n == n > had && s.stock[st] == had && s.demand[c] == d && s.sold[st] == s0.sold[st]
          case LoadStock => t.n == got && s.stock[st] == had && s.demand[c] == d && s.sold[st] == s0.sold[st]
          case StoreStock =>
            t.n == got && t.tmp == s.stock[st] == had && s.demand[c] == d && s.sold[st] == s0.sold[st]
          case LoadDemand => t.n == got && Sold(s0, s, st, got) && s.demand[c] == d
          case StoreDemand => t.n == got && Sold(s0, s, st, got) && t.tmp == s.demand[c] == d
          case Unlock => Sold(s0, s, st, got) && s.demand[c] == d - got
          case _ => false
  }

  ghost predicate Sold(s0: State, s: State, st: nat, got: int)
    requires WellFormed(s0) && WellFormed(s) && st < |s0.stock| && st < |s.stock|
  {
    s.stock[st] == s0.stock[st] - got && s.sold[st] == s0.sold[st] + got
  }

  /** A step of the customer itself, short of leaving, takes the visit on. */
  lemma {:induction false} OwnVisitStep(s0: State, s: State, c: nat, st: nat, k: nat)
    requires Visit(s0, s, c) && Inv(s) && Enabled(s, CustomerStep(c, st, k)) && !s.customers[c].pc.Unlock?
    ensures Visit(s0, Apply(s, CustomerStep(c, st, k)), c)
  {
  }

  /** Steps of others leave it alone: they cannot be inside the same store. */
  lemma {:induction false} OtherVisitStep(s0: State, s: State, c: nat, step: Step)
    requires Visit(s0, s, c) && Inv(s) && Enabled(s, step) && (step.CustomerStep? ==> step.c != c)
    ensures Visit(s0, Apply(s, step), c)
  {
    assert CustomerOk(s, c);
    assert step.CustomerStep? ==> CustomerOk(s, step.c);
  }

  /** One visit: customer `c` takes the mutex in step `i` and is still inside in state `j`. */
  ghost predicate OneVisit(ss: seq<State>, steps: seq<Step>, i: nat, j: nat, c: nat) {
    && Run(ss, steps) && i < j < |ss| && WellFormed(ss[i]) && c < |ss[i].customers|
    && steps[i].CustomerStep? && steps[i].c == c && ss[i].customers[c].pc.Lock?
    && forall m :: i < m <= j ==> WellFormed(ss[m]) && c < |ss[m].customers| && Inside(ss[m].customers[c])
  }

  lemma {:induction false} VisitGoesOn(ss: seq<State>, steps: seq<Step>, i: nat, j: nat, c: nat)
    requires OneVisit(ss, steps, i, j, c)
    ensures Visit(ss[i], ss[j], c)
    decreases j
  {
    StepAt(ss, steps, j);
    if j == i + 1 {
      VisitStarts(ss[i], c, steps[i].st, steps[i].k);
    } else {
      VisitGoesOn(ss, steps, i, j - 1, c);
      VisitStep(ss[i], ss[j-1], c, steps[j-1]);
    }
  }

  lemma {:induction false} VisitStarts(s: State, c: nat, st: nat, k: nat)
    requires Inv(s) && Enabled(s, CustomerStep(c, st, k)) && s.customers[c].pc.Lock?
    ensures Visit(s, Apply(s, CustomerStep(c, st, k)), c)
  {
    assert CustomerOk(s, c);
  }

  lemma {:induction false} VisitStep(s0: State, s: State, c: nat, step: Step)
    requires Visit(s0, s, c) && Inv(s) && Enabled(s, step) && c < |Apply(s, step).customers|
    requires Inside(Apply(s, step).customers[c])
    ensures Visit(s0, Apply(s, step), c)
  {
    if step.CustomerStep? && step.c == c {
      OwnVisitStep(s0, s, c, step.st, step.k);
    } else {
      OtherVisitStep(s0, s, c, step);
    }
  }

  /**
   Over every interleaving: from taking the mutex to giving it back, the stock of the store and the demand of the
   customer drop by exactly the amount asked for, or by the stock there was if that was less.
   */
  lemma {:induction false} VisitTakes(ss: seq<State>, steps: seq<Step>, i: nat, j: nat, c: nat)
    requires OneVisit(ss, steps, i, j, c) && ss[j].customers[c].pc.Unlock?
    ensures WellFormed(ss[i]) && WellFormed(ss[j])
    ensures var st, n := ss[i].customers[c].st, ss[i].customers[c].n;
            && st < |ss[i].stock| == |ss[j].stock| && c < |ss[j].demand|
            && var got := if n <= ss[i].stock[st] then n else ss[i].stock[st];
               && ss[j].demand[c] == ss[i].demand[c] - got && ss[j].stock[st] == ss[i].stock[st] - got
               && ss[j].sold[st] == ss[i].sold[st] + got
  {
    VisitGoesOn(ss, steps, i, j, c);
  }

  // ---------------------------------------------------------------- what the loader adds

  /** The loader drew `k` for store `st` and took the mutex in state `s0`; how far state `s` of that round has got. */
  ghost predicate Round(s0: State, s: State, st: nat, k: int) {
    && WellFormed(s0) && WellFormed(s) && st < |s0.stock| == |s.stock| && s.loader.st == st && s.loader.n == k
    && match s.loader.pc
       case LLoad => s.stock[st] == s0.stock[st] && s.loaded[st] == s0.loaded[st]
       case LStore => s.loader.tmp == s.stock[st] == s0.stock[st] && s.loaded[st] == s0.loaded[st]
       case LUnlock => s.stock[st] == s0.stock[st] + k && s.loaded[st] == s0.loaded[st] + k
       case _ => false
  }

  lemma {:induction false} RoundStep(s0: State, s: State, st: nat, k: int, step: Step)
    requires Round(s0, s, st, k) && Inv(s) && Enabled(s, step) && (step.LoaderStep? ==> !s.loader.pc.LUnlock?)
    ensures Round(s0, Apply(s, step), st, k)
  {
    assert step.CustomerStep? ==> CustomerOk(s, step.c);
  }

  /** The loader is still waiting with what it drew, or inside with it. */
  lemma {:induction false} Drawn(ss: seq<State>, steps: seq<Step>, i: nat, j: nat, st: nat, k: nat)
    requires Run(ss, steps) && i < j < |ss| && steps[i] == LoaderStep(st, k) && ss[i].loader.pc.LChoose?
    requires forall m :: i < m <= j ==> !ss[m].loader.pc.LChoose?
    ensures ss[j].loader.st == st && ss[j].loader.n == k
    decreases j
  {
    StepAt(ss, steps, j);
    if j > i + 1 {
      Drawn(ss, steps, i, j - 1, st, k);
    }
  }

  /**
   Over every interleaving: the loader chose store `st` and amount `k` in step `h`, and took the mutex in step `i`; when
   it gives the mutex back, the store has exactly `k` more.
   */
  lemma {:induction false} RoundAdds(ss: seq<State>, steps: seq<Step>, h: nat, i: nat, j: nat, st: nat, k: nat)
    requires Run(ss, steps) && h < i < j < |ss| && steps[h] == LoaderStep(st, k) && ss[h].loader.pc.LChoose?
    requires steps[i].LoaderStep? && ss[i].loader.pc.LLock? && forall m :: h < m <= i ==> ss[m].loader.pc.LLock?
    requires forall m :: i < m <= j ==> LoaderInside(ss[m].loader)
    ensures Round(ss[i], ss[j], st, k)
    ensures ss[j].loader.pc.LUnlock? ==>
              && WellFormed(ss[i]) && WellFormed(ss[j]) && st < |ss[i].stock| == |ss[j].stock|
              && ss[j].stock[st] == ss[i].stock[st] + k && ss[j].loaded[st] == ss[i].loaded[st] + k
    decreases j
  {
    StepAt(ss, steps, j);
    if j == i + 1 {
      Drawn(ss, steps, h, i, st, k);
    } else {
      RoundAdds(ss, steps, h, i, j - 1, st, k);
      RoundStep(ss[i], ss[j-1], st, k, steps[j-1]);
    }
  }
}
