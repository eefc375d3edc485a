/**
 The allocator seen as a sequence of blocks: what `my_malloc_hook` and `my_free_hook`
 (backup/malloc/src/main.c) do to the chunk list, without addresses and links.
 A block is one chunk header followed by its payload; blocks lie back to back.
 */
module HeapBlocks {

  /** `sizeof(MEM_CHUNK_STRUCT)`: any positive multiple of 8 that a struct of a few words can have. */
  type HeaderSize = n: int | 0 < n < 0x1_0000 && n % 8 == 0 witness 32
  const H: HeaderSize

  /** `size_t` is 64 bits wide. */
  const SIZE_MODULUS: int := 0x1_0000_0000_0000_0000

  /** A leftover of at least `H + MIN_SPLIT` bytes is split off as a free chunk. */
  const MIN_SPLIT: int := 16

  datatype Block = Block(size: nat, used: bool)

  /** The request rounded up to a multiple of 8, in `size_t` arithmetic. */
  function Round(n: nat): nat {
    (n + 7) % SIZE_MODULUS / 8 * 8
  }

  /** Addresses and `sbrk` arguments are signed: they end where `intptr_t` does. */
  const ADDRESS_END: int := SIZE_MODULUS / 2

  /** A `size_t` value passed as the `intptr_t` argument of `sbrk`. */
  function Signed(w: int): int {
    var r := w % SIZE_MODULUS;
    if r >= ADDRESS_END then r - SIZE_MODULUS else r
  }

  /** The argument of `sbrk` for a new chunk of `size` bytes. */
  function Increment(size: nat): int {
    Signed(size + H)
  }

  /** The argument is what was meant exactly below 2^63; otherwise not even a header fits into what is added. */
  lemma IncrementIff(size: nat)
    requires size < SIZE_MODULUS
    ensures Increment(size) == size + H <==> size + H < ADDRESS_END
    ensures size + H >= ADDRESS_END ==> Increment(size) < H
  {
  }

  /** Giving back `sum` bytes: `0 - sum` in `size_t` arithmetic, taken as signed. */
  lemma DecrementExact(sum: int)
    requires 0 <= sum < ADDRESS_END
    ensures Signed(-sum) == -sum
  {
  }

  /** Bytes taken by a sequence of blocks, headers included. */
  function Span(bs: seq<Block>): nat {
    if bs == [] then 0 else H + bs[0].size + Span(bs[1..])
  }

  ghost predicate AllFree(bs: seq<Block>) {
    forall k :: 0 <= k < |bs| ==> !bs[k].used
  }

  /** Blocks i..j are contiguous and free. */
  ghost predicate Run(bs: seq<Block>, i: int, j: int) {
    0 <= i < j <= |bs| && forall k :: i <= k < j ==> !bs[k].used
  }

  /** Payload bytes that one chunk holds after absorbing blocks i..j. */
  function Capacity(bs: seq<Block>, i: int, j: int): int
    requires 0 <= i <= j <= |bs|
  {
    Span(bs[i..j]) - H
  }

  ghost predicate NoFit(bs: seq<Block>, n: nat) {
    forall i, j :: Run(bs, i, j) ==> Capacity(bs, i, j) < n
  }

  /** The run i..j is the shortest fitting prefix of the lowest maximal free run that fits. */
  ghost predicate FirstFit(bs: seq<Block>, n: nat, i: int, j: int) {
    && Run(bs, i, j)
    && (i == 0 || bs[i-1].used)
    && Capacity(bs, i, j) >= n
    && (i + 1 < j ==> Capacity(bs, i, j - 1) < n)
    && NoFit(bs[..i], n)
  }

  /** What replaces a run of capacity `cap` when `n` bytes are granted from it. */
  function Cut(cap: nat, n: nat): (r: seq<Block>)
    requires n <= cap
  {
    if cap - n >= H + MIN_SPLIT then [Block(n, true), Block(cap - n - H, false)] else [Block(cap, true)]
  }

  /** One `malloc` of `n` (rounded) bytes turns `bs` into `bs'`, the granted block being number `at`. */
  ghost predicate MallocStep(bs: seq<Block>, n: nat, bs': seq<Block>, at: int) {
    || (NoFit(bs, n) && at == |bs| && bs' == bs + [Block(n, true)])
    || exists j :: FirstFit(bs, n, at, j) && bs' == bs[..at] + Cut(Capacity(bs, at, j), n) + bs[j..]
  }

  /** The call `malloc(n)` reuses a run, or asks `sbrk` for what it needs. */
  ghost predicate Servable(bs: seq<Block>, n: nat) {
    n == 0 || !NoFit(bs, Round(n)) || Round(n) + H < ADDRESS_END
  }

  /** The blocks left once the trailing free run is given back. */
  function Trim(bs: seq<Block>): seq<Block> {
    if bs == [] || bs[|bs|-1].used then bs else Trim(bs[..|bs|-1])
  }

  function Release(bs: seq<Block>, k: nat): seq<Block>
    requires k < |bs|
  {
    Trim(bs[k := bs[k].(used := false)])
  }

  /** The unwritten invariant of the allocator: the chunk before `mem_tail` is never free. */
  ghost predicate Inv(bs: seq<Block>) {
    bs != [] ==> bs[|bs|-1].used
  }

  ghost predicate Aligned(bs: seq<Block>) {
    forall k :: 0 <= k < |bs| ==> bs[k].size % 8 == 0
  }

  // ---------------------------------------------------------------- spans

  lemma {:induction false} SpanConcat(a: seq<Block>, b: seq<Block>)
    ensures Span(a + b) == Span(a) + Span(b)
  {
    if a == [] {
      assert a + b == b;
    } else {
      assert (a + b)[1..] == a[1..] + b;
      SpanConcat(a[1..], b);
    }
  }

  lemma {:induction false} SpanSplit(bs: seq<Block>, i: int, j: int)
    requires 0 <= i <= j <= |bs|
    ensures Span(bs[..j]) == Span(bs[..i]) + Span(bs[i..j])
  {
    assert bs[..j] == bs[..i] + bs[i..j];
    SpanConcat(bs[..i], bs[i..j]);
  }

  lemma {:induction false} SpanStep(bs: seq<Block>, k: int)
    requires 0 <= k < |bs|
    ensures Span(bs[..k+1]) == Span(bs[..k]) + H + bs[k].size
  {
    SpanSplit(bs, k, k + 1);
    assert bs[k..k+1] == [bs[k]];
  }

  lemma {:induction false} CapacityStep(bs: seq<Block>, i: int, j: int)
    requires 0 <= i <= j < |bs|
    ensures Capacity(bs, i, j + 1) == Capacity(bs, i, j) + H + bs[j].size
  {
    assert bs[i..j+1] == bs[i..j] + [bs[j]];
    SpanConcat(bs[i..j], [bs[j]]);
  }

  lemma {:induction false} SingleCapacity(bs: seq<Block>, i: int)
    requires 0 <= i < |bs|
    ensures Capacity(bs, i, i + 1) == bs[i].size
  {
    CapacityStep(bs, i, i);
    assert bs[i..i] == [];
  }

  lemma {:induction false} SpanPrepend(bs: seq<Block>, t: int, k: int)
    requires 0 < t <= k <= |bs|
    ensures Span(bs[t-1..k]) == H + bs[t-1].size + Span(bs[t..k])
  {
    assert bs[t-1..k][1..] == bs[t..k];
  }

  lemma {:induction false} CapacityMono(bs: seq<Block>, i: int, i': int, j': int, j: int)
    requires 0 <= i <= i' <= j' <= j <= |bs|
    ensures Capacity(bs, i', j') <= Capacity(bs, i, j)
  {
    assert bs[i..j] == bs[i..i'] + bs[i'..j'] + bs[j'..j];
    SpanConcat(bs[i..i'], bs[i'..j']);
    SpanConcat(bs[i..i'] + bs[i'..j'], bs[j'..j]);
  }

  lemma {:induction false} CapacityAligned(bs: seq<Block>)
    requires Aligned(bs)
    ensures Span(bs) % 8 == 0
  {
    if bs != [] {
      assert bs[0].size % 8 == 0;
      AlignedTail(bs);
      CapacityAligned(bs[1..]);
      SumAligned(H, bs[0].size);
      SumAligned(H + bs[0].size, Span(bs[1..]));
    }
  }

  lemma SumAligned(x: int, y: int)
    requires x % 8 == 0 && y % 8 == 0
    ensures (x + y) % 8 == 0
  {
  }

  lemma {:induction false} AlignedTail(bs: seq<Block>)
    requires Aligned(bs) && bs != []
    ensures Aligned(bs[1..])
  {
  }

  // ---------------------------------------------------------------- first fit

  /** A used block ends every run that starts before it. */
  lemma {:induction false} RunStops(bs: seq<Block>, i: int, j: int, k: int)
    requires Run(bs, i, j) && i <= k < |bs| && bs[k].used
    ensures j <= k
  {
  }

  lemma {:induction false} PrefixSlice(bs: seq<Block>, m: int, i: int, j: int)
    requires 0 <= i <= j <= m <= |bs|
    ensures bs[..m][i..j] == bs[i..j]
  {
    forall k | 0 <= k < j - i
      ensures bs[..m][i..j][k] == bs[i..j][k]
    {
    }
  }

  /** A run is a run of the same capacity in every prefix that holds it. */
  lemma {:induction false} PrefixRun(bs: seq<Block>, m: int, i: int, j: int)
    requires 0 <= i < j <= m <= |bs|
    ensures Run(bs[..m], i, j) == Run(bs, i, j) && Capacity(bs[..m], i, j) == Capacity(bs, i, j)
  {
    assert forall k :: i <= k < j ==> bs[..m][k] == bs[k];
    PrefixSlice(bs, m, i, j);
  }

  /** A used block ends every run, so nothing that fits can straddle it. */
  lemma {:induction false} NoFitExtend(bs: seq<Block>, n: nat, i: int, j: int, m: int)
    requires 0 <= i <= j < m <= |bs|
    requires NoFit(bs[..i], n)
    requires i == 0 || bs[i-1].used
    requires i < j ==> Run(bs, i, j) && Capacity(bs, i, j) < n
    requires bs[j].used && m == j + 1
    ensures NoFit(bs[..m], n)
  {
    forall a, b | Run(bs[..m], a, b)
      ensures Capacity(bs[..m], a, b) < n
    {
      PrefixRun(bs, m, a, b);
      RunStops(bs, a, b, j);
      if a < i {
        RunStops(bs, a, b, i - 1);
        PrefixRun(bs, i, a, b);
      } else {
        CapacityMono(bs, i, a, b, j);
      }
    }
  }

  /** The fit is determined by the blocks and the request. */
  lemma {:induction false} FirstFitUnique(bs: seq<Block>, n: nat, i: int, j: int, i': int, j': int)
    requires FirstFit(bs, n, i, j) && FirstFit(bs, n, i', j')
    ensures i == i' && j == j'
  {
    FirstFitBefore(bs, n, i, j, i', j');
    FirstFitBefore(bs, n, i', j', i, j);
    if j < j' {
      CapacityMono(bs, i, i, j, j' - 1);
    } else if j' < j {
      CapacityMono(bs, i, i, j', j - 1);
    }
  }

  lemma {:induction false} FirstFitBefore(bs: seq<Block>, n: nat, i: int, j: int, i': int, j': int)
    requires FirstFit(bs, n, i, j) && FirstFit(bs, n, i', j')
    ensures i >= i'
  {
    if i < i' {
      RunStops(bs, i, j, i' - 1);
      PrefixRun(bs, i', i, j);
    }
  }

  /** Growing the heap and reusing a run exclude each other: `malloc` is deterministic. */
  lemma {:induction false} MallocStepDeterministic(bs: seq<Block>, n: nat, bs1: seq<Block>, at1: int, bs2: seq<Block>, at2: int)
    requires MallocStep(bs, n, bs1, at1) && MallocStep(bs, n, bs2, at2)
    ensures bs1 == bs2 && at1 == at2
  {
    if NoFit(bs, n) {
    } else {
      var j1 :| FirstFit(bs, n, at1, j1) && bs1 == bs[..at1] + Cut(Capacity(bs, at1, j1), n) + bs[j1..];
      var j2 :| FirstFit(bs, n, at2, j2) && bs2 == bs[..at2] + Cut(Capacity(bs, at2, j2), n) + bs[j2..];
      FirstFitUnique(bs, n, at1, j1, at2, j2);
    }
  }

  // ---------------------------------------------------------------- the invariant

  lemma {:induction false} TrimPrefix(bs: seq<Block>)
    ensures Trim(bs) <= bs && AllFree(bs[|Trim(bs)|..])
    ensures Trim(bs) != [] ==> Trim(bs)[|Trim(bs)|-1].used
  {
    if bs != [] && !bs[|bs|-1].used {
      var c := bs[..|bs|-1];
      var t := Trim(c);
      TrimPrefix(c);
      forall k | 0 <= k < |bs[|t|..]|
        ensures !bs[|t|..][k].used
      {
        if |t| + k < |c| {
          assert c[|t|..][k] == bs[|t|+k];
        }
      }
    }
  }

  /** The trailing free run is exactly what `Trim` removes. */
  lemma {:induction false} TrimAt(bs: seq<Block>, m: int)
    requires 0 <= m <= |bs| && AllFree(bs[m..])
    requires m == 0 || bs[m-1].used
    ensures Trim(bs) == bs[..m]
    decreases |bs|
  {
    if m == |bs| {
      assert bs[..m] == bs;
    } else {
      assert bs[m..][|bs|-1-m] == bs[|bs|-1];
      var c := bs[..|bs|-1];
      assert forall k :: 0 <= k < |c[m..]| ==> c[m..][k] == bs[m..][k];
      TrimAt(c, m);
      assert c[..m] == bs[..m];
    }
  }

  lemma {:induction false} MallocKeepsInv(bs: seq<Block>, n: nat, bs': seq<Block>, at: int)
    requires Inv(bs) && MallocStep(bs, n, bs', at)
    ensures Inv(bs') && 0 <= at < |bs'| && bs'[at].used
  {
    if NoFit(bs, n) && at == |bs| && bs' == bs + [Block(n, true)] {
    } else {
      var j :| FirstFit(bs, n, at, j) && bs' == bs[..at] + Cut(Capacity(bs, at, j), n) + bs[j..];
      FitEndsBeforeTail(bs, at, j);
      CutKeepsInv(bs, n, at, j);
    }
  }

  lemma {:induction false} CutKeepsInv(bs: seq<Block>, n: nat, i: int, j: int)
    requires Inv(bs) && 0 <= i < j < |bs| && n <= Capacity(bs, i, j)
    ensures var bs' := bs[..i] + Cut(Capacity(bs, i, j), n) + bs[j..];
            Inv(bs') && i < |bs'| && bs'[i].used
  {
    var cut := Cut(Capacity(bs, i, j), n);
    var bs' := bs[..i] + cut + bs[j..];
    assert bs'[i] == cut[0];
    assert bs'[|bs'|-1] == bs[|bs|-1];
  }

  lemma {:induction false} MallocKeepsAligned(bs: seq<Block>, n: nat, bs': seq<Block>, at: int)
    requires Aligned(bs) && n % 8 == 0 && MallocStep(bs, n, bs', at)
    ensures Aligned(bs')
  {
    if NoFit(bs, n) && at == |bs| && bs' == bs + [Block(n, true)] {
    } else {
      var j :| FirstFit(bs, n, at, j) && bs' == bs[..at] + Cut(Capacity(bs, at, j), n) + bs[j..];
      CutKeepsAligned(bs, n, at, j);
    }
  }

  lemma {:induction false} CutKeepsAligned(bs: seq<Block>, n: nat, i: int, j: int)
    requires Aligned(bs) && n % 8 == 0 && 0 <= i < j <= |bs| && n <= Capacity(bs, i, j)
    ensures Aligned(bs[..i] + Cut(Capacity(bs, i, j), n) + bs[j..])
  {
    var cut := Cut(Capacity(bs, i, j), n);
    assert Aligned(cut) by {
      CapacityAligned(bs[i..j]);
      CutAligned(Capacity(bs, i, j), n);
    }
    AlignedConcat(bs[..i], cut);
    AlignedConcat(bs[..i] + cut, bs[j..]);
  }

  lemma {:induction false} CutAligned(cap: nat, n: nat)
    requires n <= cap && n % 8 == 0 && cap % 8 == 0
    ensures Aligned(Cut(cap, n))
  {
  }

  lemma {:induction false} AlignedConcat(a: seq<Block>, b: seq<Block>)
    requires Aligned(a) && Aligned(b)
    ensures Aligned(a + b)
  {
    forall k | 0 <= k < |a + b|
      ensures (a + b)[k].size % 8 == 0
    {
      if k >= |a| {
        assert (a + b)[k] == b[k-|a|];
      }
    }
  }

  /** A run can never reach the end of the chunk list, so `s_curs` is never `mem_tail` when a run is reused. */
  lemma {:induction false} FitEndsBeforeTail(bs: seq<Block>, i: int, j: int)
    requires Inv(bs) && Run(bs, i, j)
    ensures j < |bs|
  {
    assert !bs[j-1].used;
  }

  lemma {:induction false} ReleaseKeepsInv(bs: seq<Block>, k: nat)
    requires k < |bs|
    ensures Inv(Release(bs, k))
    ensures Aligned(bs) ==> Aligned(Release(bs, k))
  {
    TrimPrefix(bs[k := bs[k].(used := false)]);
  }
}
