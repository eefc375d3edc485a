/**
 The stores, customers and loader of mutex_store/lib/ms.c: every interleaving of their steps, with
 lock, load, store and unlock as separate steps, for any number of stores and customers.
 */
module MutexStore {

  /** Largest amount a thread asks for in one round. */
  const MAX_STUFF := 512

  /** Where a customer stands in `cst_func` (line numbers of the source). */
  datatype CustomerPc =
    | Check        // 18: while (cst_val[cid] > 0)
    | Choose       // 19-21: pick a store and an amount
    | Lock         // 23
    | Test         // 25: st_val[st_id] - stf_num >= 0
    | Clamp        // 25: stf_num = st_val[st_id]
    | LoadStock    // 26: read st_val[st_id]
    | StoreStock   // 26: write st_val[st_id]
    | LoadDemand   // 27: read cst_val[cid]
    | StoreDemand  // 27: write cst_val[cid]
    | Unlock       // 31
    | Exited       // 35

  /** Thread state: program counter, `st_id`, `stf_num` and the register of a pending update. */
  datatype Customer = Customer(pc: CustomerPc, st: nat, n: int, tmp: int)

  datatype LoaderPc = LChoose | LLock | LLoad | LStore | LUnlock

  datatype Loader = Loader(pc: LoaderPc, st: nat, n: int, tmp: int)

  datatype Owner = NoOne | OwnedBy(c: nat) | OwnedByLoader

  /**
   Shared arrays, mutexes and threads, with a history of what was loaded into and sold by each store
   and bought by each customer.
   */
  datatype State = State(
    stock: seq<int>, demand: seq<int>, owner: seq<Owner>,
    customers: seq<Customer>, loader: Loader,
    loaded: seq<int>, sold: seq<int>, bought: seq<int>)

  /** A step of one thread; `st` and `k` are the random choices where the thread makes them. */
  datatype Step = CustomerStep(c: nat, st: nat, k: nat) | LoaderStep(st: nat, k: nat)

  ghost predicate WellFormed(s: State) {
    && |s.stock| == |s.owner| == |s.loaded| == |s.sold| > 0
    && |s.demand| == |s.customers| == |s.bought|
  }

  /** Initial stocks and demands are not negative; nobody has started. */
  ghost predicate Init(s: State) {
    && WellFormed(s)
    && (forall x :: 0 <= x < |s.stock| ==> s.stock[x] >= 0 && s.owner[x] == NoOne && s.loaded[x] == 0 && s.sold[x] == 0)
    && (forall c :: 0 <= c < |s.customers| ==> s.demand[c] >= 0 && s.customers[c].pc == Check && s.bought[c] == 0)
    && s.loader.pc == LChoose
  }

  // ---------------------------------------------------------------- steps

  /** The critical section of a customer. */
  predicate Inside(c: Customer) {
    c.pc.Test? || c.pc.Clamp? || c.pc.LoadStock? || c.pc.StoreStock? || c.pc.LoadDemand? || c.pc.StoreDemand?
    || c.pc.Unlock?
  }

  /** Between choosing an amount and recording it. */
  predicate Shopping(c: Customer) {
    c.pc.Lock? || (Inside(c) && !c.pc.Unlock?)
  }

  predicate LoaderInside(l: Loader) {
    l.pc.LLoad? || l.pc.LStore? || l.pc.LUnlock?
  }

  ghost predicate Enabled(s: State, step: Step)
    requires WellFormed(s)
  {
    match step
    case CustomerStep(c, st, k) =>
      && c < |s.customers|
      && var t := s.customers[c];
         && !t.pc.Exited?
         && (t.pc.Choose? ==> st < |s.stock| && k <= MAX_STUFF)
         && (t.pc.Lock? ==> t.st < |s.stock| && s.owner[t.st] == NoOne)
         && (Inside(t) ==> t.st < |s.stock|)
    case LoaderStep(st, k) =>
      var l := s.loader;
      && (l.pc.LChoose? ==> st < |s.stock| && k <= MAX_STUFF)
      && (l.pc.LLock? ==> l.st < |s.stock| && s.owner[l.st] == NoOne)
      && (LoaderInside(l) ==> l.st < |s.stock|)
  }

  /** The thread state after a customer's step. */
  function CustomerAfter(s: State, c: nat, st: nat, k: nat): Customer
    requires c < |s.customers| && c < |s.demand| && (Inside(s.customers[c]) ==> s.customers[c].st < |s.stock|)
  {
    var t := s.customers[c];
    match t.pc
    case Check => t.(pc := if s.demand[c] > 0 then Choose else Exited)
    case Choose => t.(pc := Lock, st := st, n := if s.demand[c] - k >= 0 then k else s.demand[c])
    case Lock => t.(pc := Test)
    case Test => t.(pc := if s.stock[t.st] - t.n >= 0 then LoadStock else Clamp)
    case Clamp => t.(pc := LoadStock, n := s.stock[t.st])
    case LoadStock => t.(pc := StoreStock, tmp := s.stock[t.st])
    case StoreStock => t.(pc := LoadDemand)
    case LoadDemand => t.(pc := StoreDemand, tmp := s.demand[c])
    case StoreDemand => t.(pc := Unlock)
    case Unlock => t.(pc := Check)
    case Exited => t
  }

  function LoaderAfter(s: State, st: nat, k: nat): Loader
    requires LoaderInside(s.loader) ==> s.loader.st < |s.stock|
  {
    var l := s.loader;
    match l.pc
    case LChoose => Loader(LLock, st, k, l.tmp)
    case LLock => l.(pc := LLoad)
    case LLoad => l.(pc := LStore, tmp := s.stock[l.st])
    case LStore => l.(pc := LUnlock)
    case LUnlock => l.(pc := LChoose)
  }

  ghost function Apply(s: State, step: Step): (s': State)
    requires WellFormed(s) && Enabled(s, step)
    ensures WellFormed(s') && |s'.stock| == |s.stock| && |s'.customers| == |s.customers|
  {
    match step
    case CustomerStep(c, st, k) =>
      var t := s.customers[c];
      var s1 := s.(customers := s.customers[c := CustomerAfter(s, c, st, k)]);
      (match t.pc
       case Lock => s1.(owner := s.owner[t.st := OwnedBy(c)])
       case StoreStock => s1.(stock := s.stock[t.st := t.tmp - t.n], sold := s.sold[t.st := s.sold[t.st] + t.n])
       case StoreDemand => s1.(demand := s.demand[c := t.tmp - t.n], bought := s.bought[c := s.bought[c] + t.n])
       case Unlock => s1.(owner := s.owner[t.st := NoOne])
       case _ => s1)
    case LoaderStep(st, k) =>
      var l := s.loader;
      var s1 := s.(loader := LoaderAfter(s, st, k));
      (match l.pc
       case LLock => s1.(owner := s.owner[l.st := OwnedByLoader])
       case LStore => s1.(stock := s.stock[l.st := l.tmp + l.n], loaded := s.loaded[l.st := s.loaded[l.st] + l.n])
       case LUnlock => s1.(owner := s.owner[l.st := NoOne])
       case _ => s1)
  }

  // ---------------------------------------------------------------- the invariant

  /** Customer `c`: owns a mutex exactly inside its critical section, and its amounts are in range. */
  ghost predicate CustomerOk(s: State, c: nat)
    requires WellFormed(s) && c < |s.customers|
  {
    var t := s.customers[c];
    && s.demand[c] >= 0
    && (t.pc.Exited? ==> s.demand[c] == 0)
    && (t.pc.Lock? || Inside(t) ==> t.st < |s.stock|)
    && (Inside(t) ==> s.owner[t.st] == OwnedBy(c))
    && (Shopping(t) ==> 0 <= t.n <= s.demand[c])
    && (t.pc.Clamp? ==> s.stock[t.st] < t.n)
    && (t.pc.LoadStock? || t.pc.StoreStock? ==> t.n <= s.stock[t.st])
    && (t.pc.StoreStock? ==> t.tmp == s.stock[t.st])
    && (t.pc.StoreDemand? ==> t.tmp == s.demand[c])
  }

  /** Store `x`: stock not negative, and a customer that owns it is inside, at this store. */
  ghost predicate StoreOk(s: State, x: nat)
    requires WellFormed(s) && x < |s.stock|
  {
    && s.stock[x] >= 0
    && (s.owner[x].OwnedBy? ==>
          && s.owner[x].c < |s.customers|
          && Inside(s.customers[s.owner[x].c]) && s.customers[s.owner[x].c].st == x)
    && (s.owner[x] == OwnedByLoader ==> LoaderInside(s.loader) && s.loader.st == x)
  }

  ghost predicate LoaderOk(s: State)
    requires WellFormed(s)
  {
    var l := s.loader;
    && (!l.pc.LChoose? ==> l.st < |s.stock| && 0 <= l.n <= MAX_STUFF)
    && (LoaderInside(l) ==> s.owner[l.st] == OwnedByLoader)
    && (l.pc.LStore? ==> l.tmp == s.stock[l.st])
  }

  ghost predicate Inv(s: State) {
    && WellFormed(s) && LoaderOk(s)
    && (forall c :: 0 <= c < |s.customers| ==> CustomerOk(s, c))
    && (forall x :: 0 <= x < |s.stock| ==> StoreOk(s, x))
  }

  lemma InitInv(s: State)
    requires Init(s)
    ensures Inv(s)
  {
    forall x | 0 <= x < |s.stock|
      ensures StoreOk(s, x)
    {
    }
  }

  /** Inside one store there is at most one thread. */
  lemma MutualExclusion(s: State, c: nat, d: nat)
    requires Inv(s) && c < |s.customers| && d < |s.customers|
    requires Inside(s.customers[c]) && Inside(s.customers[d]) && s.customers[c].st == s.customers[d].st
    ensures c == d
    ensures !(LoaderInside(s.loader) && s.loader.st == s.customers[c].st)
  {
    assert CustomerOk(s, c) && CustomerOk(s, d);
  }

  lemma OwnStepKeeps(s: State, c: nat, st: nat, k: nat)
    requires Inv(s) && Enabled(s, CustomerStep(c, st, k))
    ensures CustomerOk(Apply(s, CustomerStep(c, st, k)), c)
  {
    assert CustomerOk(s, c);
    var t := s.customers[c];
    if Inside(t) {
      assert StoreOk(s, t.st);
    }
  }

  lemma OtherStepKeeps(s: State, c: nat, st: nat, k: nat, d: nat)
    requires Inv(s) && Enabled(s, CustomerStep(c, st, k)) && d < |s.customers| && d != c
    ensures CustomerOk(Apply(s, CustomerStep(c, st, k)), d)
  {
    assert CustomerOk(s, c) && CustomerOk(s, d);
  }

  lemma StoreStepKeeps(s: State, c: nat, st: nat, k: nat, x: nat)
    requires Inv(s) && Enabled(s, CustomerStep(c, st, k)) && x < |s.stock|
    ensures StoreOk(Apply(s, CustomerStep(c, st, k)), x)
  {
    assert CustomerOk(s, c) && StoreOk(s, x);
  }

  lemma CustomerStepKeeps(s: State, c: nat, st: nat, k: nat)
    requires Inv(s) && Enabled(s, CustomerStep(c, st, k))
    ensures Inv(Apply(s, CustomerStep(c, st, k)))
  {
    var s' := Apply(s, CustomerStep(c, st, k));
    forall d | 0 <= d < |s'.customers|
      ensures CustomerOk(s', d)
    {
      if d == c {
        OwnStepKeeps(s, c, st, k);
      } else {
        OtherStepKeeps(s, c, st, k, d);
      }
    }
    forall x | 0 <= x < |s'.stock|
      ensures StoreOk(s', x)
    {
      StoreStepKeeps(s, c, st, k, x);
    }
    assert CustomerOk(s, c);
  }

  lemma LoaderStepKeeps(s: State, st: nat, k: nat)
    requires Inv(s) && Enabled(s, LoaderStep(st, k))
    ensures Inv(Apply(s, LoaderStep(st, k)))
  {
    var s' := Apply(s, LoaderStep(st, k));
    forall d | 0 <= d < |s'.customers|
      ensures CustomerOk(s', d)
    {
      assert CustomerOk(s, d);
    }
    forall x | 0 <= x < |s'.stock|
      ensures StoreOk(s', x)
    {
      assert StoreOk(s, x);
    }
  }

  // ---------------------------------------------------------------- accounts

  function Sum(q: seq<int>): int {
    if q == [] then 0 else q[0] + Sum(q[1..])
  }

  lemma {:induction false} SumUpdate(q: seq<int>, i: nat, v: int)
    requires i < |q|
    ensures Sum(q[i := v]) == Sum(q) - q[i] + v
  {
    if i == 0 {
      assert q[i := v][1..] == q[1..];
    } else {
      assert q[i := v][1..] == q[1..][i-1 := v];
      SumUpdate(q[1..], i - 1, v);
    }
  }

  lemma {:induction false} SumZero(q: seq<int>)
    requires forall i :: 0 <= i < |q| ==> q[i] == 0
    ensures Sum(q) == 0
  {
    if q != [] {
      SumZero(q[1..]);
    }
  }

  /** What a customer has taken from a store but not yet subtracted from its demand. */
  function Pending(t: Customer): int {
    if t.pc.LoadDemand? || t.pc.StoreDemand? then t.n else 0
  }

  function InFlight(ts: seq<Customer>): (q: seq<int>)
    ensures |q| == |ts| && forall c :: 0 <= c < |ts| ==> q[c] == Pending(ts[c])
  {
    seq(|ts|, c requires 0 <= c < |ts| => Pending(ts[c]))
  }

  /** A run: states linked by enabled steps. */
  ghost predicate Run(ss: seq<State>, steps: seq<Step>) {
    && |ss| == |steps| + 1 && Init(ss[0])
    && forall i :: 0 <= i < |steps| ==> RunStep(ss[i], steps[i], ss[i+1])
  }

  ghost predicate RunStep(s: State, step: Step, s': State) {
    WellFormed(s) && Enabled(s, step) && s' == Apply(s, step)
  }

  /** The books: per store, per customer, and across both. */
  ghost predicate Balanced(s0: State, s: State)
    requires WellFormed(s0) && WellFormed(s)
  {
    && |s.stock| == |s0.stock| && |s.customers| == |s0.customers|
    && (forall x :: 0 <= x < |s.stock| ==> s0.stock[x] + s.loaded[x] == s.stock[x] + s.sold[x])
    && (forall c :: 0 <= c < |s.customers| ==> s0.demand[c] == s.demand[c] + s.bought[c])
    && Sum(s.sold) == Sum(s.bought) + Sum(InFlight(s.customers))
  }

  lemma {:induction false} InFlightUpdate(ts: seq<Customer>, c: nat, t: Customer)
    requires c < |ts|
    ensures Sum(InFlight(ts[c := t])) == Sum(InFlight(ts)) - Pending(ts[c]) + Pending(t)
  {
    assert InFlight(ts[c := t]) == InFlight(ts)[c := Pending(t)];
    SumUpdate(InFlight(ts), c, Pending(t));
  }

  lemma {:induction false} SaleBalances(s0: State, s: State, c: nat, st: nat, k: nat)
    requires WellFormed(s0) && Inv(s) && Balanced(s0, s) && Enabled(s, CustomerStep(c, st, k))
    requires s.customers[c].pc.StoreStock?
    ensures Balanced(s0, Apply(s, CustomerStep(c, st, k)))
  {
    assert CustomerOk(s, c);
    SaleSums(s, c, st, k);
  }

  lemma {:induction false} SaleSums(s: State, c: nat, st: nat, k: nat)
    requires WellFormed(s) && Enabled(s, CustomerStep(c, st, k)) && s.customers[c].pc.StoreStock?
    ensures var s' := Apply(s, CustomerStep(c, st, k));
            Sum(s'.sold) - Sum(s'.bought) - Sum(InFlight(s'.customers)) == Sum(s.sold) - Sum(s.bought) - Sum(InFlight(s.customers))
  {
    var t := s.customers[c];
    InFlightUpdate(s.customers, c, t.(pc := LoadDemand));
    SumUpdate(s.sold, t.st, s.sold[t.st] + t.n);
  }

  lemma {:induction false} PurchaseBalances(s0: State, s: State, c: nat, st: nat, k: nat)
    requires WellFormed(s0) && Inv(s) && Balanced(s0, s) && Enabled(s, CustomerStep(c, st, k))
    requires s.customers[c].pc.StoreDemand?
    ensures Balanced(s0, Apply(s, CustomerStep(c, st, k)))
  {
    assert CustomerOk(s, c);
    PurchaseSums(s, c, st, k);
  }

  lemma {:induction false} PurchaseSums(s: State, c: nat, st: nat, k: nat)
    requires WellFormed(s) && Enabled(s, CustomerStep(c, st, k)) && s.customers[c].pc.StoreDemand?
    ensures var s' := Apply(s, CustomerStep(c, st, k));
            Sum(s'.sold) - Sum(s'.bought) - Sum(InFlight(s'.customers)) == Sum(s.sold) - Sum(s.bought) - Sum(InFlight(s.customers))
  {
    var t := s.customers[c];
    InFlightUpdate(s.customers, c, t.(pc := Unlock));
    SumUpdate(s.bought, c, s.bought[c] + t.n);
  }

  lemma {:induction false} CustomerStepBalances(s0: State, s: State, c: nat, st: nat, k: nat)
    requires WellFormed(s0) && Inv(s) && Balanced(s0, s) && Enabled(s, CustomerStep(c, st, k))
    ensures Balanced(s0, Apply(s, CustomerStep(c, st, k)))
  {
    if s.customers[c].pc.StoreStock? {
      SaleBalances(s0, s, c, st, k);
    } else if s.customers[c].pc.StoreDemand? {
      PurchaseBalances(s0, s, c, st, k);
    } else {
      assert CustomerOk(s, c);
      InFlightUpdate(s.customers, c, CustomerAfter(s, c, st, k));
    }
  }

  /** Invariant and books hold in every state of every interleaving. */
  lemma {:induction false} RunInv(ss: seq<State>, steps: seq<Step>, i: nat)
    requires Run(ss, steps) && i < |ss|
    ensures Inv(ss[i]) && Balanced(ss[0], ss[i])
  {
    if i == 0 {
      InitInv(ss[0]);
      SumZero(ss[0].sold);
      SumZero(ss[0].bought);
      SumZero(InFlight(ss[0].customers));
    } else {
      RunInv(ss, steps, i - 1);
      assert RunStep(ss[i-1], steps[i-1], ss[i]);
      match steps[i-1]
      case CustomerStep(c, st, k) =>
        CustomerStepKeeps(ss[i-1], c, st, k);
        CustomerStepBalances(ss[0], ss[i-1], c, st, k);
      case LoaderStep(st, k) =>
        LoaderStepKeeps(ss[i-1], st, k);
    }
  }

  /**
   What every interleaving guarantees: nothing negative, per-store and per-customer books exact,
   a customer gone only with its demand met, and, when no update is half done, total sales equal
   total purchases.
   */
  lemma {:induction false} RunSafe(ss: seq<State>, steps: seq<Step>, i: nat)
    requires Run(ss, steps) && i < |ss|
    ensures var s := ss[i];
            && WellFormed(s) && |s.stock| == |ss[0].stock| && |s.customers| == |ss[0].customers|
            && (forall x :: 0 <= x < |s.stock| ==>
                  s.stock[x] >= 0 && ss[0].stock[x] + s.loaded[x] == s.stock[x] + s.sold[x])
            && (forall c :: 0 <= c < |s.customers| ==>
                  && s.demand[c] >= 0 && ss[0].demand[c] == s.demand[c] + s.bought[c]
                  && (s.customers[c].pc.Exited? ==> s.bought[c] == ss[0].demand[c]))
            && ((forall c :: 0 <= c < |s.customers| ==> Pending(s.customers[c]) == 0) ==> Sum(s.sold) == Sum(s.bought))
  {
    RunInv(ss, steps, i);
    var s := ss[i];
    forall x | 0 <= x < |s.stock|
      ensures s.stock[x] >= 0
    {
      assert StoreOk(s, x);
    }
    forall c | 0 <= c < |s.customers|
      ensures s.demand[c] >= 0 && (s.customers[c].pc.Exited? ==> s.demand[c] == 0)
    {
      assert CustomerOk(s, c);
    }
    if forall c :: 0 <= c < |s.customers| ==> Pending(s.customers[c]) == 0 {
      SumZero(InFlight(s.customers));
    }
  }

  /** Sales only grow, and a step loads at most 512 into a store. */
  lemma {:induction false} StepBounds(s: State, step: Step, x: nat)
    requires Inv(s) && Enabled(s, step) && x < |s.stock|
    ensures var s' := Apply(s, step);
            s'.sold[x] >= s.sold[x] && s'.loaded[x] <= s.loaded[x] + MAX_STUFF
  {
    assert step.CustomerStep? ==> CustomerOk(s, step.c);
  }

  /** Bounds of the history over a run. */
  lemma {:induction false} RunBounds(ss: seq<State>, steps: seq<Step>, i: nat)
    requires Run(ss, steps) && i < |ss|
    ensures WellFormed(ss[i])
    ensures forall x :: 0 <= x < |ss[i].stock| ==> ss[i].sold[x] >= 0 && ss[i].loaded[x] <= MAX_STUFF * i
  {
    if i > 0 {
      RunBounds(ss, steps, i - 1);
      RunInv(ss, steps, i - 1);
      var s, s' := ss[i-1], ss[i];
      assert RunStep(s, steps[i-1], s');
      forall x | 0 <= x < |s'.stock|
        ensures s'.sold[x] >= 0 && s'.loaded[x] <= MAX_STUFF * i
      {
        StepBounds(s, steps[i-1], x);
      }
    }
  }

  /** The `int` counters of the source do not overflow as long as initial stock plus possible loads fit. */
  lemma {:induction false} StockFitsInt(ss: seq<State>, steps: seq<Step>, i: nat, x: nat)
    requires Run(ss, steps) && i < |ss| && x < |ss[0].stock|
    requires ss[0].stock[x] + MAX_STUFF * i <= 0x7FFF_FFFF
    ensures WellFormed(ss[i]) && x < |ss[i].stock| && 0 <= ss[i].stock[x] <= 0x7FFF_FFFF
  {
    RunSafe(ss, steps, i);
    RunBounds(ss, steps, i);
  }

  // ---------------------------------------------------------------- no deadlock

  /** Some step of customer `c` is possible. */
  ghost predicate CanStep(s: State, c: nat)
    requires WellFormed(s)
  {
    exists st, k :: Enabled(s, CustomerStep(c, st, k))
  }

  ghost predicate LoaderCanStep(s: State)
    requires WellFormed(s)
  {
    exists st, k :: Enabled(s, LoaderStep(st, k))
  }

  /** Nobody inside a critical section ever waits. */
  lemma InsideCanStep(s: State, c: nat)
    requires Inv(s) && c < |s.customers| && (Inside(s.customers[c]) || s.customers[c].pc.Check? || s.customers[c].pc.Choose?)
    ensures CanStep(s, c)
  {
    assert CustomerOk(s, c);
    assert Enabled(s, CustomerStep(c, 0, 0));
  }

  lemma LoaderInsideCanStep(s: State)
    requires Inv(s) && !s.loader.pc.LLock?
    ensures LoaderCanStep(s)
  {
    assert Enabled(s, LoaderStep(0, 0));
  }

  /** A mutex that is held is held by a thread that can go on. */
  lemma OwnerCanStep(s: State, x: nat)
    requires Inv(s) && x < |s.stock| && s.owner[x] != NoOne
    ensures if s.owner[x].OwnedBy? then s.owner[x].c < |s.customers| && CanStep(s, s.owner[x].c) else LoaderCanStep(s)
  {
    assert StoreOk(s, x);
    if s.owner[x].OwnedBy? {
      InsideCanStep(s, s.owner[x].c);
    } else {
      LoaderInsideCanStep(s);
    }
  }

  /**
   No reachable state is deadlocked, and more: a customer that is not done can step, or waits for
   a mutex whose holder can step.
   */
  lemma {:induction false} NoDeadlock(ss: seq<State>, steps: seq<Step>, i: nat, c: nat)
    requires Run(ss, steps) && i < |ss| && WellFormed(ss[i]) && c < |ss[i].customers| && !ss[i].customers[c].pc.Exited?
    ensures var s := ss[i];
            || CanStep(s, c)
            || exists x :: 0 <= x < |s.stock| && s.customers[c].st == x && HolderCanStep(s, x)
  {
    RunInv(ss, steps, i);
    var s := ss[i];
    assert CustomerOk(s, c);
    var t := s.customers[c];
    if t.pc.Lock? {
      if s.owner[t.st] == NoOne {
        assert Enabled(s, CustomerStep(c, 0, 0));
      } else {
        OwnerCanStep(s, t.st);
        assert HolderCanStep(s, t.st);
      }
    } else {
      InsideCanStep(s, c);
    }
  }

  ghost predicate HolderCanStep(s: State, x: nat)
    requires WellFormed(s) && x < |s.stock|
  {
    if s.owner[x].OwnedBy? then CanStep(s, s.owner[x].c) else s.owner[x] == OwnedByLoader && LoaderCanStep(s)
  }

  /** The loader, which never ends, can step or waits for a customer that can. */
  lemma {:induction false} LoaderNeverStuck(ss: seq<State>, steps: seq<Step>, i: nat)
    requires Run(ss, steps) && i < |ss| && WellFormed(ss[i])
    ensures LoaderCanStep(ss[i]) || exists c :: 0 <= c < |ss[i].customers| && CanStep(ss[i], c)
  {
    RunInv(ss, steps, i);
    var s := ss[i];
    if s.loader.pc.LLock? && s.owner[s.loader.st] != NoOne {
      OwnerCanStep(s, s.loader.st);
    } else if s.loader.pc.LLock? {
      assert Enabled(s, LoaderStep(0, 0));
    } else {
      LoaderInsideCanStep(s);
    }
  }
}
