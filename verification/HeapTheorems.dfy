/**
 What `my_malloc_hook` and `my_free_hook` (backup/malloc/src/main.c) promise together, over whole runs:
 live payloads, refinement of an eagerly coalescing first-fit allocator, and return to the empty heap.
 */
module HeapTheorems {
  import opened HeapBlocks

  // ---------------------------------------------------------------- live payloads

  /** The allocations a client holds: payload address to payload size, for blocks laid out from `x`. */
  function Live(bs: seq<Block>, x: int): map<int, nat> {
    if bs == [] then map[]
    else
      var rest := Live(bs[1..], x + H + bs[0].size);
      if bs[0].used then rest[x + H := bs[0].size] else rest
  }

  function Payload(bs: seq<Block>, x: int, k: nat): int
    requires k < |bs|
  {
    x + Span(bs[..k]) + H
  }

  lemma {:induction false} LiveInside(bs: seq<Block>, x: int)
    ensures forall p :: p in Live(bs, x) ==> x + H <= p && p + Live(bs, x)[p] <= x + Span(bs)
  {
    if bs != [] {
      LiveInside(bs[1..], x + H + bs[0].size);
    }
  }

  /** Payloads of live allocations are pairwise disjoint; a whole header lies between any two. */
  lemma {:induction false} LiveDisjoint(bs: seq<Block>, x: int, p: int, q: int)
    requires p in Live(bs, x) && q in Live(bs, x) && p < q
    ensures p + Live(bs, x)[p] + H <= q
  {
    var y := x + H + bs[0].size;
    LiveInside(bs[1..], y);
    if p in Live(bs[1..], y) {
      LiveDisjoint(bs[1..], y, p, q);
    }
  }

  lemma {:induction false} LiveConcat(a: seq<Block>, b: seq<Block>, x: int)
    ensures Live(a + b, x) == Live(a, x) + Live(b, x + Span(a))
  {
    if a == [] {
      assert a + b == b;
    } else {
      assert (a + b)[1..] == a[1..] + b;
      LiveConcat(a[1..], b, x + H + a[0].size);
      LiveInside(b, x + Span(a));
    }
  }

  lemma {:induction false} LiveFree(bs: seq<Block>, x: int)
    requires AllFree(bs)
    ensures Live(bs, x) == map[]
  {
    if bs != [] {
      LiveFree(bs[1..], x + H + bs[0].size);
    }
  }

  /** The live map around one block. */
  lemma {:induction false} LiveAround(bs: seq<Block>, x: int, k: nat)
    requires k < |bs|
    ensures var p := Payload(bs, x, k);
            var others := Live(bs[..k], x) + Live(bs[k+1..], p + bs[k].size);
            && p !in others
            && Live(bs, x) == if bs[k].used then others[p := bs[k].size] else others
  {
    var p := Payload(bs, x, k);
    assert bs == bs[..k] + ([bs[k]] + bs[k+1..]);
    LiveConcat(bs[..k], [bs[k]] + bs[k+1..], x);
    LiveConcat([bs[k]], bs[k+1..], x + Span(bs[..k]));
    LiveInside(bs[..k], x);
    LiveInside(bs[k+1..], p + bs[k].size);
  }

  lemma {:induction false} LiveIffUsed(bs: seq<Block>, x: int, k: nat)
    requires k < |bs|
    ensures Payload(bs, x, k) in Live(bs, x) <==> bs[k].used
  {
    LiveAround(bs, x, k);
  }

  /** Payloads are multiples of 8 if the heap starts at one. */
  lemma {:induction false} LiveAligned(bs: seq<Block>, x: int)
    requires Aligned(bs) && x % 8 == 0
    ensures forall p :: p in Live(bs, x) ==> p % 8 == 0
  {
    if bs != [] {
      assert bs[0].size % 8 == 0;
      SumAligned(x, H);
      SumAligned(x + H, bs[0].size);
      AlignedTail(bs);
      LiveAligned(bs[1..], x + H + bs[0].size);
    }
  }

  /** Live pointers are payload addresses of used blocks. */
  lemma {:induction false} LiveHasBlock(bs: seq<Block>, x: int, p: int) returns (k: nat)
    requires p in Live(bs, x)
    ensures k < |bs| && bs[k].used && p == Payload(bs, x, k) && bs[k].size == Live(bs, x)[p]
  {
    if bs[0].used && p == x + H {
      k := 0;
    } else {
      var i := LiveHasBlock(bs[1..], x + H + bs[0].size, p);
      k := i + 1;
      assert bs[..k][1..] == bs[1..][..i];
    }
  }

  /**
   `malloc` hands out one fresh payload of `n` to `n + H + 15` bytes and touches no other allocation.
   */
  lemma {:induction false} MallocAddsOne(bs: seq<Block>, n: nat, bs': seq<Block>, at: int, x: int)
    requires MallocStep(bs, n, bs', at)
    ensures 0 <= at < |bs'|
    ensures var p := Payload(bs', x, at);
            && p !in Live(bs, x)
            && n <= bs'[at].size < n + H + MIN_SPLIT
            && Live(bs', x) == Live(bs, x)[p := bs'[at].size]
  {
    if NoFit(bs, n) && at == |bs| && bs' == bs + [Block(n, true)] {
      LiveAround(bs', x, at);
      assert bs'[..at] == bs;
      assert bs'[at+1..] == [];
    } else {
      var j :| FirstFit(bs, n, at, j) && bs' == bs[..at] + Cut(Capacity(bs, at, j), n) + bs[j..];
      CutAddsOne(bs, n, at, j, x);
    }
  }

  lemma {:induction false} CutAddsOne(bs: seq<Block>, n: nat, i: int, j: int, x: int)
    requires Run(bs, i, j) && n <= Capacity(bs, i, j)
    ensures var bs' := bs[..i] + Cut(Capacity(bs, i, j), n) + bs[j..];
            var p := Payload(bs', x, i);
            && p !in Live(bs, x)
            && n <= bs'[i].size < n + H + MIN_SPLIT
            && Live(bs', x) == Live(bs, x)[p := bs'[i].size]
  {
    var a, run, b := bs[..i], bs[i..j], bs[j..];
    var cut := Cut(Capacity(bs, i, j), n);
    CutSpan(Capacity(bs, i, j), n);
    LiveSwap(a, run, cut, b, x);
    assert bs == a + run + b;
    assert (a + cut + b)[..i] == a && (a + cut + b)[i] == cut[0];
  }

  /** Replacing a free run by a used block and free blocks of the same span adds that block only. */
  lemma {:induction false} LiveSwap(a: seq<Block>, run: seq<Block>, cut: seq<Block>, b: seq<Block>, x: int)
    requires AllFree(run) && cut != [] && cut[0].used && AllFree(cut[1..]) && Span(cut) == Span(run)
    ensures var p := x + Span(a) + H;
            && p !in Live(a + run + b, x)
            && Live(a + cut + b, x) == Live(a + run + b, x)[p := cut[0].size]
  {
    var xa := x + Span(a);
    var p := xa + H;
    LiveThree(a, run, b, x);
    LiveThree(a, cut, b, x);
    LiveFree(run, xa);
    assert Live(cut, xa) == map[p := cut[0].size] by {
      LiveFree(cut[1..], xa + H + cut[0].size);
    }
    LiveInside(a, x);
    LiveInside(b, xa + Span(run));
  }

  lemma {:induction false} LiveThree(a: seq<Block>, r: seq<Block>, b: seq<Block>, x: int)
    ensures Live(a + r + b, x) == Live(a, x) + Live(r, x + Span(a)) + Live(b, x + Span(a) + Span(r))
  {
    LiveConcat(a + r, b, x);
    LiveConcat(a, r, x);
    SpanConcat(a, r);
  }

  lemma {:induction false} CutSpan(cap: nat, n: nat)
    requires n <= cap
    ensures Span(Cut(cap, n)) == cap + H
  {
    var c := Cut(cap, n);
    if |c| == 2 {
      assert c == [c[0]] + [c[1]];
      SpanConcat([c[0]], [c[1]]);
    }
  }

  /** Adding or removing free blocks at the end changes no allocation. */
  lemma {:induction false} TrimKeepsLive(bs: seq<Block>, x: int)
    ensures Live(Trim(bs), x) == Live(bs, x)
  {
    TrimPrefix(bs);
    var t := Trim(bs);
    assert bs == t + bs[|t|..];
    LiveConcat(t, bs[|t|..], x);
    LiveFree(bs[|t|..], x + Span(t));
  }

  /** `free` removes exactly the freed allocation. */
  lemma {:induction false} ReleaseRemovesOne(bs: seq<Block>, k: nat, x: int)
    requires k < |bs| && bs[k].used
    ensures Live(Release(bs, k), x) == Live(bs, x) - {Payload(bs, x, k)}
  {
    var marked := bs[k := bs[k].(used := false)];
    TrimKeepsLive(marked, x);
    LiveAround(bs, x, k);
    LiveAround(marked, x, k);
    assert marked[..k] == bs[..k] && marked[k+1..] == bs[k+1..];
  }

  // ---------------------------------------------------------------- byte accounting

  function UsedBytes(bs: seq<Block>): nat {
    if bs == [] then 0 else (if bs[0].used then bs[0].size else 0) + UsedBytes(bs[1..])
  }

  function FreeBytes(bs: seq<Block>): nat {
    if bs == [] then 0 else (if bs[0].used then 0 else bs[0].size) + FreeBytes(bs[1..])
  }

  /** Headers, used payload and free payload account for every byte between the sentinels and `hub`. */
  lemma {:induction false} Accounting(bs: seq<Block>)
    ensures Span(bs) == H * |bs| + UsedBytes(bs) + FreeBytes(bs)
  {
    if bs != [] {
      Accounting(bs[1..]);
      assert H * |bs| == H + H * |bs[1..]|;
    }
  }

  /** The used bytes are those of the live allocations: with nothing live there are none, and a block adds its size. */
  lemma {:induction false} UsedBytesAre(bs: seq<Block>, b: Block)
    ensures AllFree(bs) ==> UsedBytes(bs) == 0
    ensures UsedBytes(bs + [b]) == UsedBytes(bs) + if b.used then b.size else 0
  {
    if bs == [] {
      assert bs + [b] == [b];
    } else {
      assert (bs + [b])[1..] == bs[1..] + [b];
      UsedBytesAre(bs[1..], b);
      assert AllFree(bs) ==> !bs[0].used;
    }
  }

  // ---------------------------------------------------------------- eager coalescing

  function Join(b: Block, rest: seq<Block>): seq<Block> {
    if !b.used && rest != [] && !rest[0].used then [Block(b.size + H + rest[0].size, false)] + rest[1..]
    else [b] + rest
  }

  /** The heap an eagerly coalescing allocator would have: no two neighbouring free blocks. */
  function Coalesce(bs: seq<Block>): seq<Block> {
    if bs == [] then [] else Join(bs[0], Coalesce(bs[1..]))
  }

  /** `a` and `b` meet at a used block or at an end, so no free run crosses the seam. */
  ghost predicate Seam(a: seq<Block>, b: seq<Block>) {
    a == [] || b == [] || a[|a|-1].used || b[0].used
  }

  lemma {:induction false} CoalesceHead(bs: seq<Block>)
    ensures bs == [] <==> Coalesce(bs) == []
    ensures bs != [] ==> Coalesce(bs)[0].used == bs[0].used
  {
    if bs != [] {
      CoalesceHead(bs[1..]);
    }
  }

  lemma {:induction false} CoalesceConcat(a: seq<Block>, b: seq<Block>)
    requires Seam(a, b)
    ensures Coalesce(a + b) == Coalesce(a) + Coalesce(b)
  {
    if a == [] {
      assert a + b == b;
    } else {
      assert (a + b)[1..] == a[1..] + b;
      CoalesceConcat(a[1..], b);
      CoalesceHead(a[1..]);
      CoalesceHead(b);
      JoinConcat(a[0], Coalesce(a[1..]), Coalesce(b));
    }
  }

  lemma {:induction false} JoinConcat(b: Block, r: seq<Block>, t: seq<Block>)
    requires r != [] || b.used || t == [] || t[0].used
    ensures Join(b, r + t) == Join(b, r) + t
  {
    if r == [] {
      assert r + t == t;
      assert Join(b, t) == [b] + t;
    } else if !b.used && !r[0].used {
      assert (r + t)[1..] == r[1..] + t;
    }
  }

  /** A free run coalesces to one free block of its merged capacity. */
  lemma {:induction false} CoalesceRun(bs: seq<Block>)
    requires bs != [] && AllFree(bs)
    ensures Coalesce(bs) == [Block(Span(bs) - H, false)]
  {
    if |bs| > 1 {
      CoalesceRun(bs[1..]);
    }
  }

  lemma {:induction false} CoalesceSpan(bs: seq<Block>)
    ensures Span(Coalesce(bs)) == Span(bs)
  {
    if bs != [] {
      CoalesceSpan(bs[1..]);
      var rest := Coalesce(bs[1..]);
      if !bs[0].used && rest != [] && !rest[0].used {
        assert Join(bs[0], rest)[1..] == rest[1..];
      } else {
        assert Join(bs[0], rest)[1..] == rest;
      }
    }
  }

  lemma {:induction false} TailSlice(bs: seq<Block>, i: int, j: int)
    requires bs != [] && 0 <= i <= j < |bs|
    ensures bs[1..][i..j] == bs[i+1..j+1]
  {
  }

  /** Coalescing leaves no two free neighbours and keeps every allocation where it is. */
  lemma {:induction false} CoalesceKeepsLive(bs: seq<Block>, x: int)
    ensures forall k :: 0 < k < |Coalesce(bs)| ==> Coalesce(bs)[k-1].used || Coalesce(bs)[k].used
    ensures Live(Coalesce(bs), x) == Live(bs, x)
  {
    if bs != [] {
      var y := x + H + bs[0].size;
      CoalesceKeepsLive(bs[1..], y);
      JoinKeepsLive(bs[0], Coalesce(bs[1..]), x);
    }
  }

  lemma {:induction false} JoinKeepsLive(b: Block, rest: seq<Block>, x: int)
    requires forall k :: 0 < k < |rest| ==> rest[k-1].used || rest[k].used
    ensures forall k :: 0 < k < |Join(b, rest)| ==> Join(b, rest)[k-1].used || Join(b, rest)[k].used
    ensures Live(Join(b, rest), x) == Live([b] + rest, x)
  {
    assert ([b] + rest)[1..] == rest;
    if !b.used && rest != [] && !rest[0].used {
      assert Join(b, rest)[1..] == rest[1..];
    }
  }

  /** Every free block of the coalesced heap is some free run of the lazy one. */
  lemma {:induction false} CoalescedBlockIsRun(bs: seq<Block>, e: nat) returns (i: int, j: int)
    requires e < |Coalesce(bs)| && !Coalesce(bs)[e].used
    ensures Run(bs, i, j) && Capacity(bs, i, j) == Coalesce(bs)[e].size
    ensures e == 0 ==> i == 0
  {
    var tail := bs[1..];
    var rest := Coalesce(tail);
    CoalesceHead(bs);
    CoalesceHead(tail);
    if e == 0 && tail != [] && !rest[0].used {
      var i', j' := CoalescedBlockIsRun(tail, 0);
      i, j := 0, j' + 1;
      assert bs[0..j][1..] == tail[0..j'];
      assert forall k :: 1 <= k < j ==> bs[k] == tail[k-1];
    } else if e == 0 {
      i, j := 0, 1;
      assert bs[0..1] == [bs[0]];
      assert Span([bs[0]]) == H + bs[0].size;
      assert Coalesce(bs) == [bs[0]] + rest;
    } else {
      var joined := !bs[0].used && rest != [] && !rest[0].used;
      var i', j' := CoalescedBlockIsRun(tail, if joined then e else e - 1);
      i, j := i' + 1, j' + 1;
      TailSlice(bs, i', j');
      assert forall k :: i <= k < j ==> bs[k] == tail[k-1];
    }
  }

  lemma {:induction false} NoFitCoalesced(bs: seq<Block>, n: nat)
    requires NoFit(bs, n)
    ensures forall e :: 0 <= e < |Coalesce(bs)| && !Coalesce(bs)[e].used ==> Coalesce(bs)[e].size < n
  {
    forall e | 0 <= e < |Coalesce(bs)| && !Coalesce(bs)[e].used
      ensures Coalesce(bs)[e].size < n
    {
      var i, j := CoalescedBlockIsRun(bs, e);
    }
  }

  /** Granting `g` bytes from the front of a free block of `cap` bytes. */
  function Carve(cap: nat, g: nat): seq<Block>
    requires g == cap || g + H <= cap
  {
    if g == cap then [Block(cap, true)] else [Block(g, true), Block(cap - g - H, false)]
  }

  ghost predicate TooSmall(es: seq<Block>, n: nat) {
    forall e :: 0 <= e < |es| && !es[e].used ==> es[e].size < n
  }

  /**
   First fit on a coalesced heap: take `g` bytes, `n` and less than `H + MIN_SPLIT` more, from the lowest
   free block that holds `n`, or append a block of exactly `n` when there is none; `off` is where the granted block starts.
   */
  ghost predicate EagerMalloc(es: seq<Block>, n: nat, g: nat, es': seq<Block>, off: int) {
    if TooSmall(es, n) then g == n && es' == es + [Block(n, true)] && off == Span(es)
    else exists e :: 0 <= e < |es| && EagerTakes(es, n, g, e, es', off)
  }

  ghost predicate EagerTakes(es: seq<Block>, n: nat, g: nat, e: int, es': seq<Block>, off: int)
    requires 0 <= e < |es|
  {
    && !es[e].used && es[e].size >= n && TooSmall(es[..e], n)
    && n <= g < n + H + MIN_SPLIT && (g == es[e].size || g + H <= es[e].size)
    && es' == es[..e] + Carve(es[e].size, g) + es[e+1..]
    && off == Span(es[..e])
  }

  /** End of the maximal free run that starts at `i`. */
  lemma {:induction false} MaximalRun(bs: seq<Block>, i: int, j: int) returns (m: int)
    requires Run(bs, i, j)
    ensures j <= m <= |bs| && Run(bs, i, m) && (m == |bs| || bs[m].used)
  {
    m := j;
    while m < |bs| && !bs[m].used
      invariant j <= m <= |bs| && Run(bs, i, m)
    {
      m := m + 1;
    }
  }

  /**
   Lazy coalescing refines eager first fit: seen through `Coalesce`, `malloc` serves the request
   from the lowest free block that fits, at its start, and grows the heap only when none fits.
   */
  lemma {:induction false} MallocRefinesEager(bs: seq<Block>, n: nat, bs': seq<Block>, at: int)
    requires MallocStep(bs, n, bs', at)
    ensures 0 <= at < |bs'|
    ensures EagerMalloc(Coalesce(bs), n, bs'[at].size, Coalesce(bs'), Span(bs'[..at]))
  {
    if NoFit(bs, n) && at == |bs| && bs' == bs + [Block(n, true)] {
      NoFitCoalesced(bs, n);
      CoalesceConcat(bs, [Block(n, true)]);
      CoalesceSpan(bs);
      assert bs'[..at] == bs;
    } else {
      var j :| FirstFit(bs, n, at, j) && bs' == bs[..at] + Cut(Capacity(bs, at, j), n) + bs[j..];
      CutRefinesEager(bs, n, at, j);
      assert bs'[..at] == bs[..at] && bs'[at] == Cut(Capacity(bs, at, j), n)[0];
    }
  }

  lemma {:induction false} CutRefinesEager(bs: seq<Block>, n: nat, i: int, j: int)
    requires FirstFit(bs, n, i, j)
    ensures var cut := Cut(Capacity(bs, i, j), n);
            EagerMalloc(Coalesce(bs), n, cut[0].size, Coalesce(bs[..i] + cut + bs[j..]), Span(bs[..i]))
  {
    var m := MaximalRun(bs, i, j);
    var a, run, b := bs[..i], bs[i..m], bs[m..];
    var cut := Cut(Capacity(bs, i, j), n);
    CutPieces(bs, i, j, m, cut);
    LeftoverSpan(bs, n, i, j, m);
    CapacityMono(bs, i, i, j, m);
    GrantIsEager(a, run, cut[0].size, cut[1..] + bs[j..m], b, n);
  }

  lemma {:induction false} CutPieces(bs: seq<Block>, i: int, j: int, m: int, cut: seq<Block>)
    requires 0 <= i <= j <= m <= |bs| && cut != [] && cut[0].used
    ensures bs == bs[..i] + bs[i..m] + bs[m..]
    ensures bs[..i] + cut + bs[j..] == bs[..i] + [Block(cut[0].size, true)] + (cut[1..] + bs[j..m]) + bs[m..]
  {
    assert bs[j..] == bs[j..m] + bs[m..];
    assert cut == [Block(cut[0].size, true)] + cut[1..];
  }

  /** Replacing a maximal free run by a granted block and free leftovers is one eager first-fit step. */
  lemma {:induction false} GrantIsEager(a: seq<Block>, run: seq<Block>, g: nat, left: seq<Block>, b: seq<Block>, n: nat)
    requires NoFit(a, n) && (a == [] || a[|a|-1].used) && (b == [] || b[0].used)
    requires run != [] && AllFree(run) && AllFree(left)
    requires n <= Span(run) - H && Span(left) == Span(run) - H - g && n <= g < n + H + MIN_SPLIT
    ensures EagerMalloc(Coalesce(a + run + b), n, g, Coalesce(a + [Block(g, true)] + left + b), Span(a))
  {
    var cap := Span(run) - H;
    CoalesceAround(a, run, b);
    CoalesceGrant(a, g, left, b, cap);
    NoFitCoalesced(a, n);
    CoalesceSpan(a);
    CarveIsEager(Coalesce(a), Coalesce(b), cap, n, g);
  }

  lemma {:induction false} CoalesceGrant(a: seq<Block>, g: nat, left: seq<Block>, b: seq<Block>, cap: nat)
    requires AllFree(left) && Span(left) == cap - g && (b == [] || b[0].used)
    ensures g == cap || g + H <= cap
    ensures Coalesce(a + [Block(g, true)] + left + b) == Coalesce(a) + Carve(cap, g) + Coalesce(b)
  {
    var u := [Block(g, true)];
    assert (g == cap || g + H <= cap) && u + Coalesce(left) == Carve(cap, g) by {
      if left != [] {
        CoalesceRun(left);
      }
    }
    assert Coalesce(a + u) == Coalesce(a) + u by {
      CoalesceConcat(a, u);
      assert Coalesce(u) == u;
    }
    assert Coalesce(a + u + left) == Coalesce(a + u) + Coalesce(left) by {
      CoalesceConcat(a + u, left);
    }
    CoalesceConcat(a + u + left, b);
    assert Coalesce(a) + u + Coalesce(left) == Coalesce(a) + (u + Coalesce(left));
  }

  lemma {:induction false} CarveIsEager(ea: seq<Block>, eb: seq<Block>, cap: nat, n: nat, g: nat)
    requires TooSmall(ea, n) && n <= cap && n <= g < n + H + MIN_SPLIT && (g == cap || g + H <= cap)
    ensures EagerMalloc(ea + [Block(cap, false)] + eb, n, g, ea + Carve(cap, g) + eb, Span(ea))
  {
    var es, e := ea + [Block(cap, false)] + eb, |ea|;
    assert es[..e] == ea && es[e+1..] == eb && es[e] == Block(cap, false);
    assert EagerTakes(es, n, g, e, ea + Carve(cap, g) + eb, Span(ea));
    assert !TooSmall(es, n);
  }

  lemma {:induction false} LeftoverSpan(bs: seq<Block>, n: nat, i: int, j: int, m: int)
    requires FirstFit(bs, n, i, j) && j <= m <= |bs| && Run(bs, i, m)
    ensures var cut := Cut(Capacity(bs, i, j), n);
            var left := cut[1..] + bs[j..m];
            AllFree(left) && Span(left) == Capacity(bs, i, m) - cut[0].size
  {
    var cut := Cut(Capacity(bs, i, j), n);
    FreeConcat(cut[1..], bs[j..m]);
    CutSpan(Capacity(bs, i, j), n);
    SpanHead(cut);
    SpanConcat(cut[1..], bs[j..m]);
    SliceJoin(bs, i, j, m);
    SpanConcat(bs[i..j], bs[j..m]);
  }

  lemma {:induction false} FreeConcat(a: seq<Block>, b: seq<Block>)
    requires AllFree(a) && AllFree(b)
    ensures AllFree(a + b)
  {
    forall k | 0 <= k < |a + b|
      ensures !(a + b)[k].used
    {
      if k >= |a| {
        assert (a + b)[k] == b[k-|a|];
      }
    }
  }

  lemma {:induction false} SpanHead(bs: seq<Block>)
    requires bs != []
    ensures Span(bs) == H + bs[0].size + Span(bs[1..])
  {
  }

  lemma {:induction false} SliceJoin(bs: seq<Block>, i: int, j: int, m: int)
    requires 0 <= i <= j <= m <= |bs|
    ensures bs[i..m] == bs[i..j] + bs[j..m]
  {
  }

  lemma {:induction false} CoalesceAround(a: seq<Block>, run: seq<Block>, b: seq<Block>)
    requires run != [] && AllFree(run)
    requires a == [] || a[|a|-1].used
    requires b == [] || b[0].used
    ensures Coalesce(a + run + b) == Coalesce(a) + [Block(Span(run) - H, false)] + Coalesce(b)
  {
    CoalesceConcat(a + run, b);
    CoalesceConcat(a, run);
    CoalesceRun(run);
  }

  lemma {:induction false} JoinAssociative(b: Block, g: Block, rest: seq<Block>)
    requires !b.used && !g.used
    ensures Join(b, Join(g, rest)) == Join(Block(b.size + H + g.size, false), rest)
  {
  }

  lemma {:induction false} CoalesceCons(b: Block, rest: seq<Block>)
    ensures Coalesce([b] + rest) == Join(b, Coalesce(rest))
  {
    assert ([b] + rest)[1..] == rest;
  }

  lemma {:induction false} CoalesceTail(x: seq<Block>, y: seq<Block>)
    requires x != []
    ensures Coalesce(x + y) == Join(x[0], Coalesce(x[1..] + y))
  {
    assert (x + y)[1..] == x[1..] + y;
  }

  lemma {:induction false} CoalesceJoined(b: Block, c: seq<Block>, y: seq<Block>)
    ensures Coalesce(Join(b, c) + y) == Join(b, Coalesce(c + y))
  {
    if !b.used && c != [] && !c[0].used {
      var m := Block(b.size + H + c[0].size, false);
      assert Join(b, c) + y == [m] + (c[1..] + y) && c + y == [c[0]] + (c[1..] + y);
      CoalesceCons(m, c[1..] + y);
      CoalesceCons(c[0], c[1..] + y);
      JoinAssociative(b, c[0], Coalesce(c[1..] + y));
    } else {
      assert Join(b, c) + y == [b] + (c + y);
      CoalesceCons(b, c + y);
    }
  }

  /** Coalescing a part first makes no difference. */
  lemma {:induction false} CoalesceLeft(x: seq<Block>, y: seq<Block>)
    ensures Coalesce(Coalesce(x) + y) == Coalesce(x + y)
  {
    if x == [] {
      assert Coalesce(x) + y == x + y;
    } else {
      CoalesceLeft(x[1..], y);
      CoalesceJoined(x[0], Coalesce(x[1..]), y);
      CoalesceTail(x, y);
    }
  }

  lemma {:induction false} CoalesceRight(x: seq<Block>, y: seq<Block>)
    ensures Coalesce(x + Coalesce(y)) == Coalesce(x + y)
  {
    if x == [] {
      CoalesceLeft(y, []);
      assert Coalesce(y) + [] == Coalesce(y) == x + Coalesce(y) && y + [] == y == x + y;
    } else {
      CoalesceRight(x[1..], y);
      CoalesceTail(x, Coalesce(y));
      CoalesceTail(x, y);
    }
  }

  /** Freeing on a coalesced heap: mark a used block, merge it with its neighbours, give back a last free block. */
  ghost predicate EagerFree(es: seq<Block>, e: nat, es': seq<Block>)
    requires e < |es|
  {
    es[e].used && es' == Trim(Coalesce(es[e := es[e].(used := false)]))
  }

  /** Seen through `Coalesce`, `free` is a step of the eager allocator on the same block, at the same place. */
  lemma {:induction false} ReleaseRefinesEager(bs: seq<Block>, k: nat) returns (e: nat)
    requires k < |bs| && bs[k].used
    ensures e < |Coalesce(bs)| && Coalesce(bs)[e] == bs[k] && Span(Coalesce(bs)[..e]) == Span(bs[..k])
    ensures EagerFree(Coalesce(bs), e, Coalesce(Release(bs, k)))
  {
    e := |Coalesce(bs[..k])|;
    CoalescedPosition(bs, k);
    CoalesceSpan(bs[..k]);
    ReleaseCommutes(bs, k);
    MarkedCoalesced(bs, k);
  }

  /** Where a used block is found after coalescing. */
  lemma {:induction false} CoalescedPosition(bs: seq<Block>, k: nat)
    requires k < |bs| && bs[k].used
    ensures var e, es := |Coalesce(bs[..k])|, Coalesce(bs);
            e < |es| && es[e] == bs[k] && es[..e] == Coalesce(bs[..k])
  {
    CoalesceAtUsed(bs, k);
    Replace(Coalesce(bs), Coalesce(bs[..k]), bs[k], Coalesce(bs[k+1..]), bs[k]);
  }

  /** Marking it there and coalescing is marking it in the lazy heap and coalescing. */
  lemma {:induction false} MarkedCoalesced(bs: seq<Block>, k: nat)
    requires k < |bs| && bs[k].used
    ensures var e, es, f := |Coalesce(bs[..k])|, Coalesce(bs), bs[k].(used := false);
            e < |es| && Coalesce(es[e := f]) == Coalesce(bs[k := f])
  {
    var a, b, f := bs[..k], bs[k+1..], bs[k].(used := false);
    CoalesceAtUsed(bs, k);
    Replace(Coalesce(bs), Coalesce(a), bs[k], Coalesce(b), f);
    Replace(bs, a, bs[k], b, f);
    CoalesceParts(a, f, b);
  }

  lemma {:induction false} Replace(s: seq<Block>, a: seq<Block>, x: Block, b: seq<Block>, y: Block)
    requires s == a + [x] + b
    ensures |a| < |s| && s[|a|] == x && s[..|a|] == a && s[|a| := y] == a + [y] + b
  {
  }

  lemma {:induction false} CoalesceParts(a: seq<Block>, f: Block, b: seq<Block>)
    ensures Coalesce(Coalesce(a) + [f] + Coalesce(b)) == Coalesce(a + [f] + b)
  {
    CoalesceRight(Coalesce(a) + [f], b);
    assert Coalesce(a) + [f] + b == Coalesce(a) + ([f] + b) && a + [f] + b == a + ([f] + b);
    CoalesceLeft(a, [f] + b);
  }

  /** A used block stays what it is and separates what is merged on either side. */
  lemma {:induction false} CoalesceAtUsed(bs: seq<Block>, k: nat)
    requires k < |bs| && bs[k].used
    ensures Coalesce(bs) == Coalesce(bs[..k]) + [bs[k]] + Coalesce(bs[k+1..])
  {
    var u := [bs[k]];
    assert bs == bs[..k] + u + bs[k+1..];
    CoalesceConcat(bs[..k] + u, bs[k+1..]);
    CoalesceConcat(bs[..k], u);
    assert Coalesce(u) == u;
  }

  /** Marking, merging and trimming may be done in either order. */
  lemma {:induction false} ReleaseCommutes(bs: seq<Block>, k: nat)
    requires k < |bs|
    ensures Coalesce(Release(bs, k)) == Trim(Coalesce(bs[k := bs[k].(used := false)]))
  {
    var marked := bs[k := bs[k].(used := false)];
    var t := Trim(marked);
    TrimPrefix(marked);
    assert marked == t + marked[|t|..];
    TrimCoalesced(t, marked[|t|..]);
  }

  lemma {:induction false} TrimCoalesced(t: seq<Block>, r: seq<Block>)
    requires (t != [] ==> t[|t|-1].used) && AllFree(r)
    ensures Trim(Coalesce(t + r)) == Coalesce(t)
  {
    var c := Coalesce(t);
    CoalesceConcat(t, r);
    CoalesceLast(t);
    if r != [] {
      CoalesceRun(r);
    }
    assert (c + Coalesce(r))[..|c|] == c;
    TrimAt(c + Coalesce(r), |c|);
  }

  lemma {:induction false} CoalesceLast(bs: seq<Block>)
    requires bs != [] ==> bs[|bs|-1].used
    ensures bs != [] ==> Coalesce(bs) != [] && Coalesce(bs)[|Coalesce(bs)|-1].used
  {
    if bs != [] {
      var a, last := bs[..|bs|-1], bs[|bs|-1];
      assert bs == a + [last];
      CoalesceConcat(a, [last]);
    }
  }

  // ---------------------------------------------------------------- runs

  datatype Call = Malloc(n: nat) | Free(p: int)

  /** One call of a client that can be served; blocks are laid out from `x`, just behind the two sentinels. */
  ghost predicate Step(x: int, bs: seq<Block>, c: Call, bs': seq<Block>) {
    match c
    case Malloc(n) => if n == 0 then bs' == bs else Servable(bs, n) && exists at :: MallocStep(bs, Round(n), bs', at)
    case Free(p) => exists k :: 0 <= k < |bs| && FreeStep(x, bs, p, k, bs')
  }

  ghost predicate FreeStep(x: int, bs: seq<Block>, p: int, k: int, bs': seq<Block>)
    requires 0 <= k < |bs|
  {
    p == Payload(bs, x, k) && bs' == if bs[k].used then Release(bs, k) else bs
  }

  /** `heaps` are the successive heaps of the calls `calls`. */
  ghost predicate History(x: int, heaps: seq<seq<Block>>, calls: seq<Call>) {
    && |heaps| == |calls| + 1
    && forall i :: 0 <= i < |calls| ==> Step(x, heaps[i], calls[i], heaps[i+1])
  }

  lemma {:induction false} StepKeepsInv(x: int, bs: seq<Block>, c: Call, bs': seq<Block>)
    requires Inv(bs) && Step(x, bs, c, bs')
    ensures Inv(bs') && (Aligned(bs) ==> Aligned(bs'))
  {
    match c
    case Malloc(n) =>
      if n != 0 {
        var at :| MallocStep(bs, Round(n), bs', at);
        MallocKeepsInv(bs, Round(n), bs', at);
        if Aligned(bs) {
          MallocKeepsAligned(bs, Round(n), bs', at);
        }
      }
    case Free(p) =>
      var k :| 0 <= k < |bs| && FreeStep(x, bs, p, k, bs');
      if bs[k].used {
        ReleaseKeepsInv(bs, k);
      }
  }

  /** In every state of every run the last chunk is in use and sizes are multiples of 8. */
  lemma {:induction false} RunKeepsInv(x: int, heaps: seq<seq<Block>>, calls: seq<Call>, i: nat)
    requires History(x, heaps, calls) && Inv(heaps[0]) && i < |heaps|
    ensures Inv(heaps[i]) && (Aligned(heaps[0]) ==> Aligned(heaps[i]))
  {
    if i > 0 {
      RunKeepsInv(x, heaps, calls, i - 1);
      StepKeepsInv(x, heaps[i-1], calls[i-1], heaps[i]);
    }
  }

  ghost predicate Positive(bs: seq<Block>) {
    forall k :: 0 <= k < |bs| ==> bs[k].size > 0
  }

  /** `Round` gives at least the request exactly when the sum `n + 7` fits in `size_t`. */
  lemma {:induction false} RoundCovers(n: nat)
    requires n < SIZE_MODULUS
    ensures n <= Round(n) <==> n + 7 < SIZE_MODULUS
    ensures n + 7 < SIZE_MODULUS ==> Round(n) < n + 8 && Round(n) % 8 == 0
    ensures 0 < n && n + 7 < SIZE_MODULUS ==> Round(n) > 0
  {
  }

  /**
   Blocks at..j, the shortest part of a free run that holds `n` bytes, are granted: split if what is left holds
   a header and 16 bytes, whole otherwise. What follows them stays.
   */
  ghost predicate Reused(bs: seq<Block>, n: nat, bs': seq<Block>, at: int, j: int) {
    && 0 <= at < j <= |bs| && (at == 0 || bs[at-1].used) && (forall k :: at <= k < j ==> !bs[k].used)
    && var c := Span(bs[at..j]) - H;
       && c >= n && (j == at + 1 || Span(bs[at..j-1]) - H < n)
       && |bs'| > at && bs'[..at] == bs[..at]
       && if c >= n + H + 16 then bs'[at..] == [Block(n, true), Block(c - n - H, false)] + bs[j..]
          else bs'[at..] == [Block(c, true)] + bs[j..]
  }

  /** What one first-fit step does to the blocks, number for number. */
  ghost predicate Outcome(bs: seq<Block>, n: nat, bs': seq<Block>, at: int) {
    if at == |bs| then bs' == bs + [Block(n, true)] else exists j :: Reused(bs, n, bs', at, j)
  }

  /** A step grows the heap by one chunk of the rounded request, or reuses a run as `Reused` says. */
  lemma {:induction false} MallocOutcome(bs: seq<Block>, n: nat, bs': seq<Block>, at: int)
    requires MallocStep(bs, n, bs', at)
    ensures Outcome(bs, n, bs', at)
  {
    if at != |bs| {
      var j :| FirstFit(bs, n, at, j) && bs' == bs[..at] + Cut(Capacity(bs, at, j), n) + bs[j..];
      CutIsReuse(bs, n, at, j);
    }
  }

  lemma {:induction false} CutIsReuse(bs: seq<Block>, n: nat, i: int, j: int)
    requires FirstFit(bs, n, i, j)
    ensures Reused(bs, n, bs[..i] + Cut(Capacity(bs, i, j), n) + bs[j..], i, j)
  {
    Joined(bs[..i], Cut(Capacity(bs, i, j), n), bs[j..]);
  }

  lemma {:induction false} Joined(a: seq<Block>, c: seq<Block>, b: seq<Block>)
    ensures (a + c + b)[..|a|] == a && (a + c + b)[|a|..] == c + b
  {
  }

  /**
   A block of `Round(n)` to `Round(n) + H + 15` bytes holds the request exactly when the request does not wrap.
   */
  lemma GrantCoversIff(n: nat, size: nat)
    requires n < SIZE_MODULUS
    requires Round(n) <= size < Round(n) + H + MIN_SPLIT
    ensures n <= size <==> n + 7 < SIZE_MODULUS
  {
    RoundCovers(n);
  }

  /**
   What a client gets from one call of `malloc(n)`: the payload `p` of one new block, number `at`, of `n` rounded
   to `n` rounded + H + 15 bytes; all other allocations stay; payloads are aligned if the heap is.
   */
  ghost predicate Delivered(bs: seq<Block>, n: nat, bs': seq<Block>, at: int, x: int, p: int) {
    && MallocStep(bs, Round(n), bs', at) && 0 <= at < |bs'|
    && p == Payload(bs', x, at) && p !in Live(bs, x) && Live(bs', x) == Live(bs, x)[p := bs'[at].size]
    && Round(n) <= bs'[at].size < Round(n) + H + MIN_SPLIT
    && (n <= bs'[at].size <==> n + 7 < SIZE_MODULUS)
    && (Aligned(bs) ==> Aligned(bs') && (x % 8 == 0 ==> p % 8 == 0))
  }

  /** The granted block holds the request exactly when the rounding does not wrap. */
  lemma {:induction false} MallocDelivers(bs: seq<Block>, n: nat, bs': seq<Block>, at: int, x: int)
    requires n < SIZE_MODULUS && MallocStep(bs, Round(n), bs', at)
    ensures 0 <= at < |bs'| && Delivered(bs, n, bs', at, x, Payload(bs', x, at))
  {
    MallocAddsOne(bs, Round(n), bs', at, x);
    GrantCoversIff(n, bs'[at].size);
    if Aligned(bs) {
      RoundAligned(n);
      MallocKeepsAligned(bs, Round(n), bs', at);
      if x % 8 == 0 {
        LiveAligned(bs', x);
        assert Payload(bs', x, at) in Live(bs', x);
      }
    }
  }

  lemma RoundAligned(n: nat)
    ensures Round(n) % 8 == 0
  {
  }

  /** The largest request wraps to nothing: an empty heap grants it a chunk of size 0. 2^64 - 8 does not wrap. */
  lemma WrappedRequest()
    ensures Round(0xFFFF_FFFF_FFFF_FFFF) == 0 && Step(0, [], Malloc(0xFFFF_FFFF_FFFF_FFFF), [Block(0, true)])
    ensures Round(0xFFFF_FFFF_FFFF_FFF8) == 0xFFFF_FFFF_FFFF_FFF8
  {
    assert MallocStep([], 0, [Block(0, true)], 0);
  }

  /**
   With a header of 32 bytes: 2^64 - 24 is a multiple of 8 that does not wrap when rounded, but `sbrk` is asked
   for 8 bytes; for 2^64 - 1024 it is asked for 992 bytes back.
   */
  lemma WrappedIncrements()
    requires H == 32
    ensures var n := 0xFFFF_FFFF_FFFF_FFE8;
            n + 7 < SIZE_MODULUS && Round(n) == n && Increment(n) == 8 && !Servable([], n)
    ensures var n := 0xFFFF_FFFF_FFFF_FC00;
            n + 7 < SIZE_MODULUS && Round(n) == n && Increment(n) == -992 && !Servable([], n)
  {
  }

  /** As long as no request wraps, every chunk has a positive size. */
  lemma {:induction false} RunKeepsPositive(x: int, heaps: seq<seq<Block>>, calls: seq<Call>, i: nat)
    requires History(x, heaps, calls) && heaps[0] == [] && i < |heaps|
    requires forall c :: 0 <= c < |calls| && calls[c].Malloc? ==> calls[c].n + 7 < SIZE_MODULUS
    ensures Positive(heaps[i])
  {
    if i > 0 {
      RunKeepsPositive(x, heaps, calls, i - 1);
      StepKeepsPositive(x, heaps[i-1], calls[i-1], heaps[i]);
    }
  }

  lemma {:induction false} StepKeepsPositive(x: int, bs: seq<Block>, c: Call, bs': seq<Block>)
    requires Positive(bs) && Step(x, bs, c, bs') && (c.Malloc? ==> c.n + 7 < SIZE_MODULUS)
    ensures Positive(bs')
  {
    match c
    case Malloc(n) =>
      if n != 0 {
        RoundCovers(n);
        var at :| MallocStep(bs, Round(n), bs', at);
        MallocKeepsPositive(bs, Round(n), bs', at);
      }
    case Free(p) =>
      var k :| 0 <= k < |bs| && FreeStep(x, bs, p, k, bs');
      if bs[k].used {
        ReleaseKeepsPositive(bs, k);
      }
  }

  lemma {:induction false} ReleaseKeepsPositive(bs: seq<Block>, k: nat)
    requires Positive(bs) && k < |bs|
    ensures Positive(Release(bs, k))
  {
    TrimPrefix(bs[k := bs[k].(used := false)]);
  }

  lemma {:induction false} MallocKeepsPositive(bs: seq<Block>, n: nat, bs': seq<Block>, at: int)
    requires Positive(bs) && n > 0 && MallocStep(bs, n, bs', at)
    ensures Positive(bs')
  {
    if NoFit(bs, n) && at == |bs| && bs' == bs + [Block(n, true)] {
    } else {
      var j :| FirstFit(bs, n, at, j) && bs' == bs[..at] + Cut(Capacity(bs, at, j), n) + bs[j..];
      var cut := Cut(Capacity(bs, at, j), n);
      forall k | 0 <= k < |bs'|
        ensures bs'[k].size > 0
      {
        if at <= k < at + |cut| {
          assert bs'[k] == cut[k-at];
        } else if k >= at + |cut| {
          assert bs'[k] == bs[k - at - |cut| + j];
        }
      }
    }
  }

  /** With nothing live the heap is empty, so `hub` is back where `init` left it. */
  lemma {:induction false} NothingLiveMeansEmpty(bs: seq<Block>, x: int)
    requires Inv(bs) && Live(bs, x) == map[]
    ensures bs == []
  {
    if bs != [] {
      LiveIffUsed(bs, x, |bs| - 1);
    }
  }

  lemma {:induction false} FreeStepRemoves(x: int, bs: seq<Block>, p: int, bs': seq<Block>)
    requires Step(x, bs, Free(p), bs')
    ensures Live(bs', x) == Live(bs, x) - {p}
  {
    var k :| 0 <= k < |bs| && FreeStep(x, bs, p, k, bs');
    LiveIffUsed(bs, x, k);
    if bs[k].used {
      ReleaseRemovesOne(bs, k, x);
    }
  }

  /** Freeing every live allocation once, in any order, gives the whole heap back. */
  lemma {:induction false} FreeingAllEmpties(x: int, heaps: seq<seq<Block>>, ps: seq<int>)
    requires History(x, heaps, seq(|ps|, i requires 0 <= i < |ps| => Free(ps[i]))) && Inv(heaps[0])
    requires Live(heaps[0], x).Keys == set p | p in ps
    ensures heaps[|ps|] == []
  {
    var calls := seq(|ps|, i requires 0 <= i < |ps| => Free(ps[i]));
    var i := 0;
    while i < |ps|
      invariant 0 <= i <= |ps|
      invariant Live(heaps[i], x).Keys <= set p | p in ps[i..]
    {
      assert Step(x, heaps[i], calls[i], heaps[i+1]);
      FreeStepRemoves(x, heaps[i], ps[i], heaps[i+1]);
      assert ps[i..] == [ps[i]] + ps[i+1..];
      i := i + 1;
    }
    RunKeepsInv(x, heaps, calls, |ps|);
    assert (set p | p in ps[i..]) == {};
    NothingLiveMeansEmpty(heaps[|ps|], x);
  }
}
