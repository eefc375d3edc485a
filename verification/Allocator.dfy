/**
 The `sbrk` allocator of backup/malloc/src/main.c over raw memory.

 Memory is a map from the address of a readable chunk header to its four fields. A header that was
 only partly overwritten, or that lies above the program break, is not in the map, so every header
 access below carries the obligation that it reads a header that is really there.
 */
module Allocator {
  import opened HeapBlocks
  import opened HeapTheorems

  const NULL: int := 0

  datatype Header = Header(size: int, stat: int, next: int, prev: int)

  type Memory = map<int, Header>

  /** Write a whole header; headers that overlap it are destroyed. */
  function Overwrite(mem: Memory, a: int, h: Header): (m: Memory)
    ensures a in m && m[a] == h
    ensures forall x :: x in mem && (x + H <= a || a + H <= x) ==> x in m && m[x] == mem[x]
    ensures forall x :: x in m && x != a ==> x in mem
  {
    (map x | x in mem && (x + H <= a || a + H <= x) :: mem[x])[a := h]
  }

  /** A header written below `top`; above it the write is lost. */
  function Stored(mem: Memory, top: int, a: int, h: Header): Memory {
    if a + H <= top then mem[a := h] else mem
  }

  /** Writes to one link of a header that is there. */
  function WithNext(mem: Memory, a: int, next: int): Memory {
    if a in mem then mem[a := mem[a].(next := next)] else mem
  }

  function WithPrev(mem: Memory, a: int, prev: int): Memory {
    if a in mem then mem[a := mem[a].(prev := prev)] else mem
  }

  // ---------------------------------------------------------------- addresses

  /** Header addresses of blocks laid out from `x`. */
  ghost function Addrs(bs: seq<Block>, x: int): (cs: seq<int>)
    ensures |cs| == |bs|
  {
    if bs == [] then [] else [x] + Addrs(bs[1..], x + H + bs[0].size)
  }

  lemma {:induction false} AddrsConcat(a: seq<Block>, b: seq<Block>, x: int)
    ensures Addrs(a + b, x) == Addrs(a, x) + Addrs(b, x + Span(a))
  {
    if a == [] {
      assert a + b == b;
    } else {
      assert (a + b)[1..] == a[1..] + b;
      AddrsConcat(a[1..], b, x + H + a[0].size);
    }
  }

  lemma {:induction false} AddrsAppend(bs: seq<Block>, b: Block, x: int)
    ensures Addrs(bs + [b], x) == Addrs(bs, x) + [x + Span(bs)]
    ensures Span(bs + [b]) == Span(bs) + H + b.size
  {
    AddrsConcat(bs, [b], x);
    SpanConcat(bs, [b]);
  }

  /** Each chunk starts where the payload before it ends. */
  lemma {:induction false} AddrsAt(bs: seq<Block>, x: int, k: nat)
    requires k < |bs|
    ensures Addrs(bs, x)[k] == x + Span(bs[..k])
  {
    assert bs == bs[..k] + bs[k..];
    AddrsConcat(bs[..k], bs[k..], x);
  }

  lemma {:induction false} AddrsInside(bs: seq<Block>, x: int)
    ensures forall k :: 0 <= k < |bs| ==> x <= Addrs(bs, x)[k] && Addrs(bs, x)[k] + H + bs[k].size <= x + Span(bs)
  {
    if bs != [] {
      AddrsInside(bs[1..], x + H + bs[0].size);
    }
  }

  lemma {:induction false} AddrsSeparate(bs: seq<Block>, x: int)
    ensures Separate(Addrs(bs, x))
    ensures forall k :: 0 <= k < |bs| ==> x <= Addrs(bs, x)[k] && Addrs(bs, x)[k] + H + bs[k].size <= x + Span(bs)
  {
    AddrsInside(bs, x);
    if bs != [] {
      var rest := Addrs(bs[1..], x + H + bs[0].size);
      AddrsSeparate(bs[1..], x + H + bs[0].size);
      assert Addrs(bs, x) == [x] + rest;
    }
  }

  ghost predicate Separate(cs: seq<int>) {
    forall k, l :: 0 <= k < l < |cs| ==> cs[k] + H <= cs[l]
  }

  // ---------------------------------------------------------------- the linked list in memory

  ghost function Stat(b: Block): int {
    if b.used then 1 else 0
  }

  /** Node number `k` of the list head, c0, c1, ..., tail. */
  ghost function Link(hd: int, tl: int, cs: seq<int>, k: int): int {
    if k < 0 then hd else if k < |cs| then cs[k] else tl
  }

  ghost function Before(hd: int, tl: int, cs: seq<int>, k: int): int {
    Link(hd, tl, cs, k - 1)
  }

  /** The list in memory is exactly head, cs, tail, with mirrored links and the sizes and states of `bs`. */
  ghost predicate Shape(mem: Memory, hd: int, tl: int, cs: seq<int>, bs: seq<Block>) {
    && |cs| == |bs|
    && hd + H <= tl && (forall k :: 0 <= k < |cs| ==> tl + H <= cs[k])
    && hd in mem && mem[hd] == Header(H, 1, Link(hd, tl, cs, 0), NULL)
    && tl in mem && mem[tl] == Header(H, 1, NULL, Link(hd, tl, cs, |cs| - 1))
    && forall k :: 0 <= k < |cs| ==> ChunkAt(mem, hd, tl, cs, bs, k)
  }

  ghost predicate ChunkAt(mem: Memory, hd: int, tl: int, cs: seq<int>, bs: seq<Block>, k: int)
    requires |cs| == |bs| && 0 <= k < |cs|
  {
    && cs[k] in mem
    && mem[cs[k]] == Header(bs[k].size, Stat(bs[k]), Link(hd, tl, cs, k + 1), Link(hd, tl, cs, k - 1))
  }

  /** The writes of lines 44-59: a new used chunk `c` in front of the tail. */
  ghost predicate GrowWrites(mem: Memory, mem': Memory, tl: int, c: int, size: int) {
    && tl in mem && mem[tl].prev in mem && mem'.Keys == mem.Keys + {c}
    && var last := mem[tl].prev;
       && mem'[c] == Header(size, 1, tl, last)
       && mem'[last] == mem[last].(next := c)
       && mem'[tl] == mem[tl].(prev := c)
       && forall a :: a in mem && a != last && a != tl ==> mem'[a] == mem[a]
  }

  lemma {:induction false} ShapeGrow(mem: Memory, mem': Memory, hd: int, tl: int, cs: seq<int>, bs: seq<Block>,
                                     c: int, size: nat)
    requires Separate(cs) && Shape(mem, hd, tl, cs, bs) && GrowWrites(mem, mem', tl, c, size)
    requires tl + H <= c && forall k :: 0 <= k < |cs| ==> cs[k] + H <= c
    ensures Shape(mem', hd, tl, cs + [c], bs + [Block(size, true)])
  {
    var n := |cs|;
    assert n > 0 ==> ChunkAt(mem, hd, tl, cs, bs, n - 1);
    var cs', bs' := cs + [c], bs + [Block(size, true)];
    forall k | 0 <= k < |cs'|
      ensures ChunkAt(mem', hd, tl, cs', bs', k)
    {
      if k < n {
        assert ChunkAt(mem, hd, tl, cs, bs, k);
      }
    }
  }

  /** The list cs with nodes i..j replaced by mc. */
  ghost function Splice<T>(cs: seq<T>, i: int, j: int, mc: seq<T>): (r: seq<T>)
    requires 0 <= i <= j <= |cs|
    ensures |r| == |cs| - (j - i) + |mc|
  {
    cs[..i] + mc + cs[j..]
  }

  /** Memory after nodes i..j gave way to the nodes mc, all else being as before. */
  ghost predicate Rewired(mem: Memory, mem': Memory, hd: int, tl: int, cs: seq<int>, i: int, j: int,
                          mc: seq<int>, mb: seq<Block>)
    requires 0 <= i < j < |cs| && |mc| == |mb|
  {
    && mc != [] && mc[0] == cs[i] && Separate(mc) && mc[|mc|-1] + H <= cs[j]
    && (forall a :: a in mem && (a == hd || a == tl) ==> a in mem' && mem'[a] == mem[a])
    && (forall k :: (0 <= k < i || j < k < |cs|) && cs[k] in mem ==> cs[k] in mem' && mem'[cs[k]] == mem[cs[k]])
    && (cs[j] in mem ==> cs[j] in mem' && mem'[cs[j]] == mem[cs[j]].(prev := mc[|mc|-1]))
    && (forall a :: a in mem' ==> a in mem || a in mc)
    && forall q :: 0 <= q < |mc| ==> NewNodeAt(mem', Before(hd, tl, cs, i), cs[j], mc, mb, q)
  }

  ghost predicate NewNodeAt(mem': Memory, before: int, after: int, mc: seq<int>, mb: seq<Block>, q: int)
    requires |mc| == |mb| && 0 <= q < |mc|
  {
    && mc[q] in mem'
    && mem'[mc[q]] == Header(mb[q].size, Stat(mb[q]),
                             if q + 1 < |mc| then mc[q+1] else after, if q == 0 then before else mc[q-1])
  }

  /** An untouched chunk left of the splice; its right neighbour may now be mc[0], which is where cs[i] was. */
  lemma {:induction false} RewiredLeft(mem: Memory, mem': Memory, hd: int, tl: int, cs: seq<int>, bs: seq<Block>,
                                       i: int, j: int, mc: seq<int>, mb: seq<Block>, k: int)
    requires |cs| == |bs| && 0 <= i < j < |bs| && |mc| == |mb|
    requires Rewired(mem, mem', hd, tl, cs, i, j, mc, mb)
    requires 0 <= k < i && ChunkAt(mem, hd, tl, cs, bs, k)
    ensures ChunkAt(mem', hd, tl, Splice(cs, i, j, mc), Splice(bs, i, j, mb), k)
  {
  }

  lemma {:induction false} RewiredRight(mem: Memory, mem': Memory, hd: int, tl: int, cs: seq<int>, bs: seq<Block>,
                                        i: int, j: int, mc: seq<int>, mb: seq<Block>, k: int)
    requires |cs| == |bs| && 0 <= i < j < |bs| && |mc| == |mb|
    requires Rewired(mem, mem', hd, tl, cs, i, j, mc, mb)
    requires j <= k < |cs| && ChunkAt(mem, hd, tl, cs, bs, k)
    ensures ChunkAt(mem', hd, tl, Splice(cs, i, j, mc), Splice(bs, i, j, mb), k - j + i + |mc|)
  {
  }

  lemma {:induction false} RewiredMiddle(mem: Memory, mem': Memory, hd: int, tl: int, cs: seq<int>, bs: seq<Block>,
                                         i: int, j: int, mc: seq<int>, mb: seq<Block>, q: int)
    requires |cs| == |bs| && 0 <= i < j < |bs| && |mc| == |mb|
    requires Rewired(mem, mem', hd, tl, cs, i, j, mc, mb)
    requires 0 <= q < |mc|
    ensures ChunkAt(mem', hd, tl, Splice(cs, i, j, mc), Splice(bs, i, j, mb), q + i)
  {
    assert NewNodeAt(mem', Before(hd, tl, cs, i), cs[j], mc, mb, q);
    var cs' := Splice(cs, i, j, mc);
    assert cs'[q+i] == mc[q] && (q == |mc| - 1 ==> cs'[q+i+1] == cs[j]);
    assert q == 0 ==> Link(hd, tl, cs', i - 1) == Link(hd, tl, cs, i - 1);
  }

  lemma {:induction false} SpliceAbove(cs: seq<int>, i: int, j: int, mc: seq<int>, lo: int)
    requires 0 <= i < j < |cs| && mc != [] && mc[0] == cs[i] && Separate(mc)
    requires forall k :: 0 <= k < |cs| ==> lo <= cs[k]
    ensures forall k :: 0 <= k < |Splice(cs, i, j, mc)| ==> lo <= Splice(cs, i, j, mc)[k]
  {
    assert forall q :: 0 <= q < |mc| ==> cs[i] <= mc[q];
  }

  lemma {:induction false} RewiredChunk(mem: Memory, mem': Memory, hd: int, tl: int, cs: seq<int>, bs: seq<Block>,
                                        i: int, j: int, mc: seq<int>, mb: seq<Block>, k: int)
    requires |cs| == |bs| && 0 <= i < j < |bs| && |mc| == |mb|
    requires forall l :: 0 <= l < |cs| ==> ChunkAt(mem, hd, tl, cs, bs, l)
    requires Rewired(mem, mem', hd, tl, cs, i, j, mc, mb)
    requires 0 <= k < |Splice(cs, i, j, mc)|
    ensures ChunkAt(mem', hd, tl, Splice(cs, i, j, mc), Splice(bs, i, j, mb), k)
  {
    if k < i {
      assert ChunkAt(mem, hd, tl, cs, bs, k);
      RewiredLeft(mem, mem', hd, tl, cs, bs, i, j, mc, mb, k);
    } else if k < i + |mc| {
      RewiredMiddle(mem, mem', hd, tl, cs, bs, i, j, mc, mb, k - i);
    } else {
      assert ChunkAt(mem, hd, tl, cs, bs, k - i - |mc| + j);
      RewiredRight(mem, mem', hd, tl, cs, bs, i, j, mc, mb, k - i - |mc| + j);
    }
  }

  lemma {:induction false} ShapeRewired(mem: Memory, mem': Memory, hd: int, tl: int, cs: seq<int>, bs: seq<Block>,
                                        i: int, j: int, mc: seq<int>, mb: seq<Block>)
    requires Shape(mem, hd, tl, cs, bs) && 0 <= i < j < |bs| && |mc| == |mb|
    requires Rewired(mem, mem', hd, tl, cs, i, j, mc, mb)
    ensures Shape(mem', hd, tl, Splice(cs, i, j, mc), Splice(bs, i, j, mb))
  {
    var cs', bs' := Splice(cs, i, j, mc), Splice(bs, i, j, mb);
    SpliceAbove(cs, i, j, mc, tl + H);
    assert cs'[0] == cs[0] && cs'[|cs'|-1] == cs[|cs|-1];
    forall k | 0 <= k < |cs'|
      ensures ChunkAt(mem', hd, tl, cs', bs', k)
    {
      RewiredChunk(mem, mem', hd, tl, cs, bs, i, j, mc, mb, k);
    }
  }

  /** The writes of lines 64-80: what is left of the run between `m` and `s` becomes a free chunk at `c`. */
  ghost predicate SplitWrites(mem: Memory, mem': Memory, m: int, s: int, size: int, c: int, rest: int) {
    && m in mem && m in mem' && mem'[m] == mem[m].(size := size, stat := 1, next := c)
    && s in mem && s in mem' && mem'[s] == mem[s].(prev := c)
    && c in mem' && mem'[c] == Header(rest, 0, s, m)
    && (forall a :: a in mem && (a + H <= m || s + H <= a) ==> a in mem' && mem'[a] == mem[a])
    && (forall a :: a in mem' ==> a in mem || a == c)
  }

  /** The writes of lines 83-87: the whole run becomes the granted chunk. */
  ghost predicate AbsorbWrites(mem: Memory, mem': Memory, m: int, s: int, cap: int) {
    && m in mem && s in mem && mem'.Keys == mem.Keys
    && mem'[m] == mem[m].(size := cap, stat := 1, next := s)
    && mem'[s] == mem[s].(prev := m)
    && forall a :: a in mem && a != m && a != s ==> mem'[a] == mem[a]
  }

  lemma {:induction false} SplitRewires(mem: Memory, mem': Memory, hd: int, tl: int, cs: seq<int>, bs: seq<Block>,
                                        i: int, j: int, size: nat, c: int, rest: nat)
    requires Separate(cs) && Shape(mem, hd, tl, cs, bs) && 0 <= i < j < |bs|
    requires c == cs[i] + H + size && c + H + rest == cs[j]
    requires SplitWrites(mem, mem', cs[i], cs[j], size, c, rest)
    ensures Rewired(mem, mem', hd, tl, cs, i, j, [cs[i], c], [Block(size, true), Block(rest, false)])
  {
    assert ChunkAt(mem, hd, tl, cs, bs, i) && ChunkAt(mem, hd, tl, cs, bs, j);
    var mc, mb := [cs[i], c], [Block(size, true), Block(rest, false)];
    assert NewNodeAt(mem', Before(hd, tl, cs, i), cs[j], mc, mb, 0);
    assert NewNodeAt(mem', Before(hd, tl, cs, i), cs[j], mc, mb, 1);
    assert c == mc[1];
  }

  lemma {:induction false} AbsorbRewires(mem: Memory, mem': Memory, hd: int, tl: int, cs: seq<int>, bs: seq<Block>,
                                         i: int, j: int, cap: nat)
    requires Separate(cs) && Shape(mem, hd, tl, cs, bs) && 0 <= i < j < |bs|
    requires AbsorbWrites(mem, mem', cs[i], cs[j], cap)
    ensures Rewired(mem, mem', hd, tl, cs, i, j, [cs[i]], [Block(cap, true)])
  {
    assert ChunkAt(mem, hd, tl, cs, bs, i) && ChunkAt(mem, hd, tl, cs, bs, j);
    assert NewNodeAt(mem', Before(hd, tl, cs, i), cs[j], [cs[i]], [Block(cap, true)], 0);
  }

  /** Line 111: the state of chunk `c` becomes free. */
  ghost predicate MarkWrites(mem: Memory, mem': Memory, c: int) {
    && c in mem && mem'.Keys == mem.Keys && mem'[c] == mem[c].(stat := 0)
    && forall a :: a in mem && a != c ==> mem'[a] == mem[a]
  }

  lemma {:induction false} ShapeMark(mem: Memory, mem': Memory, hd: int, tl: int, cs: seq<int>, bs: seq<Block>, k: int)
    requires Separate(cs) && Shape(mem, hd, tl, cs, bs) && 0 <= k < |bs| && MarkWrites(mem, mem', cs[k])
    ensures Shape(mem', hd, tl, cs, bs[k := bs[k].(used := false)])
  {
    var bs' := bs[k := bs[k].(used := false)];
    forall l | 0 <= l < |cs|
      ensures ChunkAt(mem', hd, tl, cs, bs', l)
    {
      assert ChunkAt(mem, hd, tl, cs, bs, l);
    }
  }

  /** Lines 132-135: the list ends after node `m`, and only headers below `top` stay readable. */
  ghost predicate TrimWrites(mem: Memory, mem': Memory, tl: int, m: int, top: int) {
    && tl in mem && m in mem
    && (forall a :: a in mem' <==> a in mem && a + H <= top)
    && (m in mem' ==> mem'[m] == mem[m].(next := tl))
    && (tl in mem' ==> mem'[tl] == mem[tl].(prev := m))
    && forall a :: a in mem' && a != m && a != tl ==> mem'[a] == mem[a]
  }

  lemma {:induction false} ShapeTrim(mem: Memory, mem': Memory, hd: int, tl: int, cs: seq<int>, bs: seq<Block>,
                                     t: int, top: int)
    requires Separate(cs) && Shape(mem, hd, tl, cs, bs) && 0 <= t <= |bs|
    requires tl + H <= top && forall k :: 0 <= k < t ==> cs[k] + H <= top
    requires TrimWrites(mem, mem', tl, Before(hd, tl, cs, t), top)
    ensures Shape(mem', hd, tl, cs[..t], bs[..t])
  {
    assert t > 0 ==> ChunkAt(mem, hd, tl, cs, bs, t - 1);
    forall k | 0 <= k < t
      ensures ChunkAt(mem', hd, tl, cs[..t], bs[..t], k)
    {
      assert ChunkAt(mem, hd, tl, cs, bs, k);
    }
  }

  // ---------------------------------------------------------------- the whole heap

  /** The chunks `cs` are the blocks `bs`, back to back from behind the sentinels up to `top`. */
  ghost predicate Tiles(mem: Memory, hlb: int, top: int, cs: seq<int>, bs: seq<Block>) {
    && 0 < hlb
    && cs == Addrs(bs, hlb + 2 * H) && top == hlb + 2 * H + Span(bs)
    && Shape(mem, hlb, hlb + H, cs, bs)
    && forall a :: a in mem ==> hlb <= a && a + H <= top
  }

  lemma {:induction false} TilesGrow(mem: Memory, mem': Memory, hlb: int, top: int, cs: seq<int>, bs: seq<Block>,
                                     size: nat, top': int)
    requires Tiles(mem, hlb, top, cs, bs) && GrowWrites(mem, mem', hlb + H, top, size) && top' == top + size + H
    ensures Tiles(mem', hlb, top', cs + [top], bs + [Block(size, true)])
  {
    AddrsAppend(bs, Block(size, true), hlb + 2 * H);
    GrowInTiles(mem, mem', hlb, top, cs, bs, size);
  }

  lemma {:induction false} GrowInTiles(mem: Memory, mem': Memory, hlb: int, top: int, cs: seq<int>, bs: seq<Block>, size: nat)
    requires Tiles(mem, hlb, top, cs, bs) && GrowWrites(mem, mem', hlb + H, top, size)
    ensures Shape(mem', hlb, hlb + H, cs + [top], bs + [Block(size, true)])
    ensures forall a :: a in mem' ==> hlb <= a && a + H <= top + size + H
  {
    TilesSeparate(mem, hlb, top, cs, bs);
    GrowInside(mem, mem', hlb, hlb + H, top, cs, bs, size);
  }

  lemma {:induction false} GrowInside(mem: Memory, mem': Memory, hlb: int, tl: int, top: int, cs: seq<int>, bs: seq<Block>,
                                      size: nat)
    requires Separate(cs) && Shape(mem, hlb, tl, cs, bs) && GrowWrites(mem, mem', tl, top, size)
    requires hlb <= tl && tl + H <= top && forall k :: 0 <= k < |cs| ==> cs[k] + H <= top
    requires forall a :: a in mem ==> hlb <= a && a + H <= top
    ensures Shape(mem', hlb, tl, cs + [top], bs + [Block(size, true)])
    ensures forall a :: a in mem' ==> hlb <= a && a + H <= top + size + H
  {
    ShapeGrow(mem, mem', hlb, tl, cs, bs, top, size);
  }

  /** Chunk headers do not overlap and lie behind the sentinels and below the top. */
  lemma {:induction false} TilesSeparate(mem: Memory, hlb: int, top: int, cs: seq<int>, bs: seq<Block>)
    requires Tiles(mem, hlb, top, cs, bs)
    ensures Separate(cs) && hlb + 2 * H <= top
    ensures forall k :: 0 <= k < |cs| ==> hlb + 2 * H <= cs[k] && cs[k] + H <= top
  {
    AddrsSeparate(bs, hlb + 2 * H);
  }

  lemma {:induction false} AddrsCut(bs: seq<Block>, i: int, j: int, mb: seq<Block>, x: int)
    requires 0 <= i < j < |bs| && mb != [] && Span(mb) == Span(bs[i..j])
    ensures var cs := Addrs(bs, x);
            && Addrs(Splice(bs, i, j, mb), x) == Splice(cs, i, j, Addrs(mb, cs[i]))
            && Span(Splice(bs, i, j, mb)) == Span(bs)
            && cs[j] == cs[i] + Span(mb)
  {
    var a, r, b := bs[..i], bs[i..j], bs[j..];
    assert bs == a + r + b;
    AddrsAt(bs, x, i);
    AddrsConcat(a + r, b, x);
    AddrsConcat(a, r, x);
    SpanConcat(a + r, b);
    SpanConcat(a, r);
    AddrsConcat(a + mb, b, x);
    AddrsConcat(a, mb, x);
    SpanConcat(a + mb, b);
    SpanConcat(a, mb);
    assert Addrs(bs, x)[..i] == Addrs(a, x) && Addrs(bs, x)[j..] == Addrs(b, x + Span(a) + Span(r));
  }

  /** Replacing the run i..j by the blocks `mb`, which span the same bytes, keeps the heap tiled. */
  lemma {:induction false} TilesSpliced(mem: Memory, mem': Memory, hlb: int, top: int, cs: seq<int>, bs: seq<Block>,
                                        i: int, j: int, mc: seq<int>, mb: seq<Block>)
    requires Tiles(mem, hlb, top, cs, bs) && 0 <= i < j < |bs| && mb != []
    requires Span(mb) == Span(bs[i..j]) && mc == Addrs(mb, cs[i])
    requires Shape(mem', hlb, hlb + H, Splice(cs, i, j, mc), Splice(bs, i, j, mb))
    requires forall a :: a in mem' ==> hlb <= a && a + H <= top
    ensures Tiles(mem', hlb, top, Splice(cs, i, j, mc), Splice(bs, i, j, mb))
  {
    AddrsCut(bs, i, j, mb, hlb + 2 * H);
  }

  lemma {:induction false} RewiredInside(mem: Memory, mem': Memory, hlb: int, tl: int, top: int, cs: seq<int>,
                                         bs: seq<Block>, i: int, j: int, mc: seq<int>, mb: seq<Block>)
    requires Shape(mem, hlb, tl, cs, bs) && 0 <= i < j < |bs| && |mc| == |mb|
    requires Rewired(mem, mem', hlb, tl, cs, i, j, mc, mb)
    requires forall a :: a in mem ==> hlb <= a && a + H <= top
    ensures Shape(mem', hlb, tl, Splice(cs, i, j, mc), Splice(bs, i, j, mb))
    ensures forall a :: a in mem' ==> hlb <= a && a + H <= top
  {
    ShapeRewired(mem, mem', hlb, tl, cs, bs, i, j, mc, mb);
    assert ChunkAt(mem, hlb, tl, cs, bs, i) && ChunkAt(mem, hlb, tl, cs, bs, j);
    RewiredBounds(mem, mem', hlb, tl, cs, i, j, mc, mb, top);
  }

  lemma {:induction false} RewiredInTiles(mem: Memory, mem': Memory, hlb: int, top: int, cs: seq<int>, bs: seq<Block>,
                                          i: int, j: int, mc: seq<int>, mb: seq<Block>)
    requires Tiles(mem, hlb, top, cs, bs) && 0 <= i < j < |bs| && |mc| == |mb|
    requires Rewired(mem, mem', hlb, hlb + H, cs, i, j, mc, mb)
    ensures Shape(mem', hlb, hlb + H, Splice(cs, i, j, mc), Splice(bs, i, j, mb))
    ensures forall a :: a in mem' ==> hlb <= a && a + H <= top
  {
    RewiredInside(mem, mem', hlb, hlb + H, top, cs, bs, i, j, mc, mb);
  }

  lemma {:induction false} RewiredBounds(mem: Memory, mem': Memory, hd: int, tl: int, cs: seq<int>, i: int, j: int,
                                         mc: seq<int>, mb: seq<Block>, top: int)
    requires 0 <= i < j < |cs| && |mc| == |mb| && Rewired(mem, mem', hd, tl, cs, i, j, mc, mb)
    requires hd <= cs[i] && cs[j] <= top
    requires forall a :: a in mem ==> hd <= a && a + H <= top
    ensures forall a :: a in mem' ==> hd <= a && a + H <= top
  {
    forall q | 0 <= q < |mc|
      ensures hd <= mc[q] && mc[q] + H <= top
    {
      assert q > 0 ==> mc[0] + H <= mc[q];
      assert q < |mc| - 1 ==> mc[q] + H <= mc[|mc|-1];
    }
  }

  lemma {:induction false} RunAddrs(bs: seq<Block>, i: int, j: int, x: int)
    requires 0 <= i < j < |bs|
    ensures Addrs(bs, x)[j] == Addrs(bs, x)[i] + H + Capacity(bs, i, j)
  {
    AddrsAt(bs, x, i);
    AddrsAt(bs, x, j);
    SpanSplit(bs, i, j);
  }

  lemma {:induction false} TilesSplit(mem: Memory, mem': Memory, hlb: int, top: int, cs: seq<int>, bs: seq<Block>,
                                      i: int, j: int, size: nat, c: int, rest: nat)
    requires Tiles(mem, hlb, top, cs, bs) && 0 <= i < j < |bs|
    requires c == cs[i] + H + size && rest == Capacity(bs, i, j) - size - H
    requires SplitWrites(mem, mem', cs[i], cs[j], size, c, rest)
    ensures Tiles(mem', hlb, top, Splice(cs, i, j, [cs[i], c]), Splice(bs, i, j, [Block(size, true), Block(rest, false)]))
  {
    TwoAddrs(Block(size, true), Block(rest, false), cs[i]);
    SplitRewired(mem, mem', hlb, top, cs, bs, i, j, size, c, rest);
    RewiredInTiles(mem, mem', hlb, top, cs, bs, i, j, [cs[i], c], [Block(size, true), Block(rest, false)]);
    TilesSpliced(mem, mem', hlb, top, cs, bs, i, j, [cs[i], c], [Block(size, true), Block(rest, false)]);
  }

  lemma {:induction false} TwoAddrs(b1: Block, b2: Block, x: int)
    ensures Addrs([b1, b2], x) == [x, x + H + b1.size]
    ensures Span([b1, b2]) == H + b1.size + H + b2.size
  {
    AddrsAppend([b1], b2, x);
    assert [b1, b2] == [b1] + [b2];
  }

  lemma {:induction false} SplitRewired(mem: Memory, mem': Memory, hlb: int, top: int, cs: seq<int>, bs: seq<Block>,
                                        i: int, j: int, size: nat, c: int, rest: nat)
    requires Tiles(mem, hlb, top, cs, bs) && 0 <= i < j < |bs|
    requires c == cs[i] + H + size && rest == Capacity(bs, i, j) - size - H
    requires SplitWrites(mem, mem', cs[i], cs[j], size, c, rest)
    ensures Rewired(mem, mem', hlb, hlb + H, cs, i, j, [cs[i], c], [Block(size, true), Block(rest, false)])
  {
    RunAddrs(bs, i, j, hlb + 2 * H);
    AddrsSeparate(bs, hlb + 2 * H);
    SplitRewires(mem, mem', hlb, hlb + H, cs, bs, i, j, size, c, rest);
  }

  lemma {:induction false} TilesAbsorb(mem: Memory, mem': Memory, hlb: int, top: int, cs: seq<int>, bs: seq<Block>,
                                       i: int, j: int, cap: nat)
    requires Tiles(mem, hlb, top, cs, bs) && 0 <= i < j < |bs| && cap == Capacity(bs, i, j)
    requires AbsorbWrites(mem, mem', cs[i], cs[j], cap)
    ensures Tiles(mem', hlb, top, Splice(cs, i, j, [cs[i]]), Splice(bs, i, j, [Block(cap, true)]))
  {
    assert Addrs([Block(cap, true)], cs[i]) == [cs[i]];
    AbsorbRewired(mem, mem', hlb, top, cs, bs, i, j, cap);
    RewiredInTiles(mem, mem', hlb, top, cs, bs, i, j, [cs[i]], [Block(cap, true)]);
    TilesSpliced(mem, mem', hlb, top, cs, bs, i, j, [cs[i]], [Block(cap, true)]);
  }

  lemma {:induction false} AbsorbRewired(mem: Memory, mem': Memory, hlb: int, top: int, cs: seq<int>, bs: seq<Block>,
                                         i: int, j: int, cap: nat)
    requires Tiles(mem, hlb, top, cs, bs) && 0 <= i < j < |bs|
    requires AbsorbWrites(mem, mem', cs[i], cs[j], cap)
    ensures Rewired(mem, mem', hlb, hlb + H, cs, i, j, [cs[i]], [Block(cap, true)])
  {
    AddrsSeparate(bs, hlb + 2 * H);
    AbsorbRewires(mem, mem', hlb, hlb + H, cs, bs, i, j, cap);
  }

  lemma {:induction false} AddrsTake(bs: seq<Block>, t: int, x: int)
    requires 0 <= t <= |bs|
    ensures Addrs(bs[..t], x) == Addrs(bs, x)[..t] && Span(bs) == Span(bs[..t]) + Span(bs[t..])
  {
    assert bs == bs[..t] + bs[t..];
    AddrsConcat(bs[..t], bs[t..], x);
    SpanConcat(bs[..t], bs[t..]);
  }

  /** Dropping the blocks from `t` on and returning their bytes keeps the rest tiled. */
  lemma {:induction false} TilesTrim(mem: Memory, mem': Memory, hlb: int, top: int, cs: seq<int>, bs: seq<Block>,
                                     t: int, top': int)
    requires Tiles(mem, hlb, top, cs, bs) && 0 <= t <= |bs| && top' == top - Span(bs[t..])
    requires TrimWrites(mem, mem', hlb + H, Before(hlb, hlb + H, cs, t), top')
    ensures Tiles(mem', hlb, top', cs[..t], bs[..t])
  {
    AddrsTake(bs, t, hlb + 2 * H);
    TrimInTiles(mem, mem', hlb, top, cs, bs, t, top');
  }

  lemma {:induction false} TrimInTiles(mem: Memory, mem': Memory, hlb: int, top: int, cs: seq<int>, bs: seq<Block>,
                                       t: int, top': int)
    requires Tiles(mem, hlb, top, cs, bs) && 0 <= t <= |bs| && top' == top - Span(bs[t..])
    requires TrimWrites(mem, mem', hlb + H, Before(hlb, hlb + H, cs, t), top')
    ensures Shape(mem', hlb, hlb + H, cs[..t], bs[..t])
    ensures forall a :: a in mem' ==> hlb <= a && a + H <= top'
  {
    TakeBelow(bs, t, hlb + 2 * H);
    TilesSeparate(mem, hlb, top, cs, bs);
    TrimInside(mem, mem', hlb, hlb + H, cs, bs, t, top');
  }

  lemma {:induction false} TrimInside(mem: Memory, mem': Memory, hlb: int, tl: int, cs: seq<int>, bs: seq<Block>,
                                      t: int, top': int)
    requires Separate(cs) && Shape(mem, hlb, tl, cs, bs) && 0 <= t <= |bs|
    requires tl + H <= top' && (forall k :: 0 <= k < t ==> cs[k] + H <= top') && forall a :: a in mem ==> hlb <= a
    requires TrimWrites(mem, mem', tl, Before(hlb, tl, cs, t), top')
    ensures Shape(mem', hlb, tl, cs[..t], bs[..t])
    ensures forall a :: a in mem' ==> hlb <= a && a + H <= top'
  {
    ShapeTrim(mem, mem', hlb, tl, cs, bs, t, top');
  }

  lemma {:induction false} TakeBelow(bs: seq<Block>, t: int, x: int)
    requires 0 <= t <= |bs|
    ensures forall k :: 0 <= k < t ==> Addrs(bs, x)[k] + H <= x + Span(bs[..t])
    ensures x + Span(bs[..t]) == x + Span(bs) - Span(bs[t..])
  {
    AddrsTake(bs, t, x);
    AddrsInside(bs[..t], x);
    assert forall k :: 0 <= k < t ==> Addrs(bs, x)[k] == Addrs(bs[..t], x)[k];
  }

  lemma {:induction false} TilesMark(mem: Memory, mem': Memory, hlb: int, top: int, cs: seq<int>, bs: seq<Block>, k: nat)
    requires Tiles(mem, hlb, top, cs, bs) && k < |bs| && MarkWrites(mem, mem', cs[k])
    ensures Tiles(mem', hlb, top, cs, bs[k := bs[k].(used := false)])
  {
    MarkSameAddrs(bs, k, hlb + 2 * H);
    assert Shape(mem', hlb, hlb + H, cs, bs[k := bs[k].(used := false)]) by {
      AddrsSeparate(bs, hlb + 2 * H);
      ShapeMark(mem, mem', hlb, hlb + H, cs, bs, k);
    }
  }

  /** The client may write anything into a payload it holds: headers lying there are lost, nothing else. */
  ghost predicate ClientWrites(mem: Memory, mem': Memory, p: int, size: int) {
    && (forall a :: a in mem && (a + H <= p || p + size <= a) ==> a in mem' && mem'[a] == mem[a])
    && (forall a :: a in mem' ==> a in mem)
  }

  lemma {:induction false} TilesScribble(mem: Memory, mem': Memory, hlb: int, top: int, cs: seq<int>, bs: seq<Block>, k: nat)
    requires Tiles(mem, hlb, top, cs, bs) && k < |bs|
    requires ClientWrites(mem, mem', cs[k] + H, bs[k].size)
    ensures Tiles(mem', hlb, top, cs, bs)
  {
    var tl := hlb + H;
    AddrsNext(bs, hlb + 2 * H, k);
    AddrsSeparate(bs, hlb + 2 * H);
    forall l | 0 <= l < |cs|
      ensures ChunkAt(mem', hlb, tl, cs, bs, l)
    {
      assert ChunkAt(mem, hlb, tl, cs, bs, l);
    }
  }

  lemma {:induction false} AddrsNext(bs: seq<Block>, x: int, k: nat)
    requires k < |bs|
    ensures forall l :: k < l < |bs| ==> Addrs(bs, x)[k] + H + bs[k].size <= Addrs(bs, x)[l]
  {
    AddrsTake(bs, k + 1, x);
    AddrsAt(bs, x, k);
    SpanStep(bs, k);
    forall l | k < l < |bs|
      ensures Addrs(bs, x)[k] + H + bs[k].size <= Addrs(bs, x)[l]
    {
      AddrsAt(bs, x, l);
      SpanSplit(bs, k + 1, l);
    }
  }

  lemma {:induction false} MarkSameAddrs(bs: seq<Block>, k: nat, x: int)
    requires k < |bs|
    ensures var marked := bs[k := bs[k].(used := false)];
            Addrs(marked, x) == Addrs(bs, x) && Span(marked) == Span(bs)
  {
    var b := bs[k].(used := false);
    assert bs == bs[..k] + ([bs[k]] + bs[k+1..]);
    assert bs[k := b] == bs[..k] + ([b] + bs[k+1..]);
    AddrsConcat(bs[..k], [bs[k]] + bs[k+1..], x);
    AddrsConcat(bs[..k], [b] + bs[k+1..], x);
    SpanConcat(bs[..k], [bs[k]] + bs[k+1..]);
    SpanConcat(bs[..k], [b] + bs[k+1..]);
  }

  /** The two scans of `free` together find exactly the trailing free run. */
  lemma {:induction false} TrailingRun(bs: seq<Block>, t: int, k: int)
    requires 0 <= t <= k < |bs| && Run(bs, t, |bs|) && (t == 0 || bs[t-1].used)
    ensures Trim(bs) == bs[..t] && Span(bs[t..]) == Span(bs[t..k]) + Span(bs[k..|bs|])
  {
    assert AllFree(bs[t..]) by {
      assert forall l :: 0 <= l < |bs[t..]| ==> bs[t..][l] == bs[t+l];
    }
    assert Span(bs[t..]) == Span(bs[t..k]) + Span(bs[k..|bs|]) by {
      assert bs[t..] == bs[t..k] + bs[k..|bs|];
      SpanConcat(bs[t..k], bs[k..|bs|]);
    }
    TrimAt(bs, t);
  }

  lemma {:induction false} FreeRemoves(bs: seq<Block>, k: nat, x: int)
    requires k < |bs|
    ensures Live(if bs[k].used then Release(bs, k) else bs, x) == Live(bs, x) - {Payload(bs, x, k)}
  {
    LiveIffUsed(bs, x, k);
    if bs[k].used {
      ReleaseRemovesOne(bs, k, x);
    }
  }

  /** A first-fit step whose granted block, number `at`, has its payload at `p`. */
  ghost predicate Granted(bs: seq<Block>, n: nat, bs': seq<Block>, at: int, x: int, p: int) {
    MallocStep(bs, n, bs', at) && 0 <= at < |bs'| && p == Payload(bs', x, at)
  }

  lemma {:induction false} GrowIsStep(bs: seq<Block>, n: nat, x: int)
    requires NoFit(bs, n)
    ensures Granted(bs, n, bs + [Block(n, true)], |bs|, x, x + Span(bs) + H)
  {
    assert (bs + [Block(n, true)])[..|bs|] == bs;
  }

  lemma {:induction false} FitRefutesNoFit(bs: seq<Block>, n: nat, i: int, j: int)
    requires FirstFit(bs, n, i, j)
    ensures !NoFit(bs, n)
  {
    assert Run(bs, i, j);
  }

  lemma {:induction false} ReuseIsStep(bs: seq<Block>, n: nat, i: int, j: int, x: int)
    requires FirstFit(bs, n, i, j)
    ensures !NoFit(bs, n)
    ensures Granted(bs, n, Splice(bs, i, j, Cut(Capacity(bs, i, j), n)), i, x, Addrs(bs, x)[i] + H)
  {
    FitRefutesNoFit(bs, n, i, j);
    var bs' := Splice(bs, i, j, Cut(Capacity(bs, i, j), n));
    assert bs'[..i] == bs[..i];
    AddrsAt(bs, x, i);
  }

  /** In a heap the tail names the head or a chunk whose header lies below the top. */
  lemma {:induction false} TailNamesChunk(mem: Memory, hlb: int, top: int, cs: seq<int>, bs: seq<Block>)
    requires Tiles(mem, hlb, top, cs, bs)
    ensures hlb + H in mem && (mem[hlb+H].prev == hlb || mem[hlb+H].prev + H <= top)
  {
    if cs != [] {
      assert ChunkAt(mem, hlb, hlb + H, cs, bs, |cs| - 1);
    }
  }

  /** No chunks and blocks whatever tile this memory. */
  ghost predicate Untileable(mem: Memory, hlb: int, top: int) {
    forall cs: seq<int>, bs: seq<Block> :: !Tiles(mem, hlb, top, cs, bs)
  }

  /** A tail that names anything else closes no list. */
  lemma {:induction false} Untiled(mem: Memory, hlb: int, top: int, c: int)
    requires hlb + H in mem ==> mem[hlb+H].prev == c
    requires c + H > top && c != hlb
    ensures Untileable(mem, hlb, top)
  {
    forall cs: seq<int>, bs: seq<Block>
      ensures !Tiles(mem, hlb, top, cs, bs)
    {
      if Tiles(mem, hlb, top, cs, bs) {
        TailNamesChunk(mem, hlb, top, cs, bs);
      }
    }
  }

  class Heap {
    var mem: Memory
    var head: int
    var tail: int
    var hlb: int
    var hub: int
    /** The program break, known to the system only. */
    var brk: int
    /** The headers of the chunk list in order, and what the list stands for. */
    ghost var chunks: seq<int>
    ghost var blocks: seq<Block>

    /** First address behind the two sentinels. */
    ghost function Base(): int
      reads this
    {
      hlb + 2 * H
    }

    /** What the client holds: payload address to payload size. */
    ghost function Allocations(): map<int, nat>
      reads this
    {
      Live(blocks, Base())
    }

    ghost predicate Tiled()
      reads this
    {
      && head == hlb && tail == hlb + H && brk == hub < ADDRESS_END
      && Tiles(mem, hlb, hub, chunks, blocks)
    }

    ghost predicate Valid()
      reads this
    {
      Tiled() && Inv(blocks)
    }

    /** What is left is not a heap. */
    ghost predicate NotAHeap()
      reads this
    {
      Untileable(mem, hlb, hub)
    }

    /** `sbrk`, which succeeds as long as the break stays an address; giving memory back makes it unreadable. */
    method Sbrk(n: int) returns (p: int)
      requires 0 <= brk + n < ADDRESS_END
      modifies this`brk, this`mem
      ensures p == old(brk) && brk == old(brk) + n
      ensures n >= 0 ==> mem == old(mem)
      ensures n < 0 ==> forall a :: a in mem <==> a in old(mem) && a + H <= brk
      ensures n < 0 ==> forall a :: a in mem ==> mem[a] == old(mem)[a]
    {
      p := brk;
      brk := brk + n;
      if n < 0 {
        mem := map a | a in mem && a + H <= brk :: mem[a];
      }
    }

    /** `init`: two sentinels at the program break the process starts with. */
    constructor (start: int)
      requires 0 < start && start + 2 * H < ADDRESS_END
      ensures Valid() && blocks == [] && hlb == start && hub == start + 2 * H
    {
      hlb := start;
      head := start;
      tail := start + H;
      hub := start + 2 * H;
      brk := start + 2 * H;
      mem := map[start := Header(H, 1, start + H, NULL), start + H := Header(H, 1, NULL, start)];
      chunks, blocks := [], [];
    }

    /** The inner loop of the search: extend the free run at `m` until it holds `size` bytes or ends. */
    method Extend(m: int, size: nat, ghost i: int) returns (s: int, freeMem: int, ghost j: int)
      requires Valid() && 0 <= i < |blocks| && !blocks[i].used && m == chunks[i]
      ensures i < j < |blocks| && Run(blocks, i, j) && s == chunks[j]
      ensures freeMem == Capacity(blocks, i, j)
      ensures i + 1 < j ==> Capacity(blocks, i, j - 1) < size
      ensures freeMem < size ==> blocks[j].used
    {
      ghost var cs, bs := chunks, blocks;
      assert ChunkAt(mem, head, tail, cs, bs, i);
      s := mem[m].next;
      freeMem := mem[m].size;
      j := i + 1;
      SingleCapacity(bs, i);
      FitEndsBeforeTail(bs, i, j);
      while freeMem < size
        invariant i < j < |bs| && Run(bs, i, j) && s == cs[j]
        invariant freeMem == Capacity(bs, i, j)
        invariant i + 1 < j ==> Capacity(bs, i, j - 1) < size
        decreases |bs| - j
      {
        assert ChunkAt(mem, head, tail, cs, bs, j);
        if mem[s].stat == 0 {
          freeMem := freeMem + (mem[s].size + H);
          CapacityStep(bs, i, j);
          j := j + 1;
          FitEndsBeforeTail(bs, i, j);
        } else {
          break;
        }
        s := mem[s].next;
      }
    }

    /** The search loops of `my_malloc_hook` (first fit with lazy merging). */
    method Search(size: nat) returns (m: int, s: int, freeMem: int, ghost i: int, ghost j: int)
      requires Valid()
      ensures m == tail ==> NoFit(blocks, size)
      ensures m != tail ==>
                && FirstFit(blocks, size, i, j) && j < |blocks|
                && m == chunks[i] && s == chunks[j]
                && freeMem == Capacity(blocks, i, j)
    {
      ghost var cs, bs := chunks, blocks;
      freeMem, s, j := 0, NULL, 0;
      m, i := mem[head].next, 0;
      while m != tail
        invariant 0 <= i <= |bs| && m == Link(head, tail, cs, i) && freeMem == 0
        invariant NoFit(bs[..i], size) && (i == 0 || bs[i-1].used)
        decreases |bs| - i
      {
        assert ChunkAt(mem, head, tail, cs, bs, i);
        j := i;
        if mem[m].stat == 0 {
          s, freeMem, j := Extend(m, size, i);
          if freeMem >= size {
            return;
          }
          m := s;
          assert ChunkAt(mem, head, tail, cs, bs, j);
        }
        freeMem := 0;
        m := mem[m].next;
        NoFitExtend(bs, size, i, j, j + 1);
        i := j + 1;
      }
      assert bs[..i] == bs;
    }

    /**
     Links chunk `c` in front of the tail; the two branches of the source differ only in their reads. Writes to
     memory above the break are lost. If the break fell below the sentinels nothing is left to link to.
     */
    method LinkLast(c: int, size: nat)
      modifies this`mem
      ensures head == hlb && tail == hlb + H && Tiles(old(mem), hlb, c, chunks, blocks) && c + H <= brk
              ==> GrowWrites(old(mem), mem, tail, c, size)
      ensures tail in mem && tail != c ==> mem[tail].prev == c
    {
      ghost var n := |blocks|;
      assert Tiles(mem, hlb, c, chunks, blocks) && n > 0 ==>
               ChunkAt(mem, hlb, hlb + H, chunks, blocks, 0) && ChunkAt(mem, hlb, hlb + H, chunks, blocks, n - 1);
      if head in mem && mem[head].next == tail {
        mem := Stored(mem, brk, c, Header(size, 1, tail, head));
        mem := WithNext(mem, head, c);
        mem := WithPrev(mem, tail, c);
      } else if tail in mem {
        var last := mem[tail].prev;
        mem := Stored(mem, brk, c, Header(size, 1, tail, last));
        mem := WithNext(mem, last, c);
        mem := WithPrev(mem, tail, c);
      }
    }

    /**
     No run fits: `sbrk` a new chunk and link it before `mem_tail`. If the argument of `sbrk` wraps, what is left
     is not a heap: no sequence of blocks tiles it.
     */
    method Grow(size: nat) returns (result: int)
      requires Valid() && size < SIZE_MODULUS && 0 <= brk + Increment(size) < ADDRESS_END
      modifies this
      ensures hlb == old(hlb) && result == old(hub) + H
      ensures size + H < ADDRESS_END ==> Valid() && blocks == old(blocks) + [Block(size, true)]
      ensures size + H >= ADDRESS_END ==> NotAHeap()
    {
      IncrementIff(size);
      assert hlb + 2 * H <= hub by {
        TilesSeparate(mem, hlb, hub, chunks, blocks);
      }
      var c := Sbrk(Increment(size));
      result := c + H;
      LinkLast(c, size);
      hub := brk;
      if size + H < ADDRESS_END {
        TilesGrow(old(mem), mem, hlb, c, chunks, blocks, size, hub);
        chunks, blocks := chunks + [c], blocks + [Block(size, true)];
        assert Tiles(mem, hlb, hub, chunks, blocks);
      } else {
        Untiled(mem, hlb, hub, c);
      }
    }

    /** The three writes of the split: new header, back link, granted header. */
    method WriteSplit(m: int, s: int, size: nat, rest: int) returns (c: int)
      requires m in mem && s in mem && m + H + size + H <= s
      modifies this`mem
      ensures c == m + H + size && SplitWrites(old(mem), mem, m, s, size, c, rest)
    {
      c := m + H + size;
      mem := Overwrite(mem, c, Header(rest, 0, s, m));
      mem := mem[s := mem[s].(prev := c)];
      mem := mem[m := mem[m].(size := size, stat := 1, next := c)];
    }

    /** Grants the front of the run and splits the leftover off. */
    method TakeFront(m: int, s: int, size: nat, rest: nat, ghost i: int, ghost j: int)
      requires Tiled() && 0 <= i < j < |blocks|
      requires m == chunks[i] && s == chunks[j] && Capacity(blocks, i, j) == size + H + rest
      modifies this
      ensures Tiled() && hlb == old(hlb)
      ensures blocks == Splice(old(blocks), i, j, [Block(size, true), Block(rest, false)])
    {
      assert ChunkAt(mem, head, tail, chunks, blocks, i) && ChunkAt(mem, head, tail, chunks, blocks, j);
      RunAddrs(blocks, i, j, Base());
      var c := WriteSplit(m, s, size, rest);
      TilesSplit(old(mem), mem, hlb, hub, chunks, blocks, i, j, size, c, rest);
      chunks := Splice(chunks, i, j, [m, c]);
      blocks := Splice(blocks, i, j, [Block(size, true), Block(rest, false)]);
    }

    method WriteWhole(m: int, s: int, cap: int)
      requires m in mem && s in mem && m != s
      modifies this`mem
      ensures AbsorbWrites(old(mem), mem, m, s, cap)
    {
      mem := mem[m := mem[m].(size := cap, stat := 1, next := s)];
      mem := mem[s := mem[s].(prev := m)];
    }

    /** Grants the whole run as one chunk. */
    method TakeWhole(m: int, s: int, cap: nat, ghost i: int, ghost j: int)
      requires Tiled() && 0 <= i < j < |blocks|
      requires m == chunks[i] && s == chunks[j] && cap == Capacity(blocks, i, j)
      modifies this
      ensures Tiled() && hlb == old(hlb)
      ensures blocks == Splice(old(blocks), i, j, [Block(cap, true)])
    {
      assert ChunkAt(mem, head, tail, chunks, blocks, i) && ChunkAt(mem, head, tail, chunks, blocks, j);
      RunAddrs(blocks, i, j, Base());
      WriteWhole(m, s, cap);
      TilesAbsorb(old(mem), mem, hlb, hub, chunks, blocks, i, j, cap);
      chunks := Splice(chunks, i, j, [m]);
      blocks := Splice(blocks, i, j, [Block(cap, true)]);
    }

    /** A run fits: split off a large leftover or take it whole. */
    method Reuse(m: int, s: int, freeMem: int, size: nat, ghost i: int, ghost j: int) returns (result: int)
      requires Valid() && 0 <= i < j < |blocks|
      requires m == chunks[i] && s == chunks[j] && freeMem == Capacity(blocks, i, j) >= size
      modifies this
      ensures Valid() && hlb == old(hlb)
      ensures blocks == Splice(old(blocks), i, j, Cut(freeMem, size))
      ensures result == m + H
    {
      CutKeepsInv(blocks, size, i, j);
      if freeMem - size >= H + MIN_SPLIT {
        TakeFront(m, s, size, freeMem - size - H, i, j);
      } else {
        TakeWhole(m, s, freeMem, i, j);
      }
      result := m + H;
      hub := brk;
    }

    /** The body of `my_malloc_hook` for a non-zero request. */
    method MallocBlock(size: nat) returns (p: int, ghost at: int)
      requires Valid() && size < SIZE_MODULUS
      requires NoFit(blocks, size) ==> 0 <= brk + Increment(size) < ADDRESS_END
      modifies this
      ensures hlb == old(hlb)
      ensures NoFit(old(blocks), size) && size + H >= ADDRESS_END ==> NotAHeap()
      ensures !NoFit(old(blocks), size) || size + H < ADDRESS_END ==>
                Valid() && Granted(old(blocks), size, blocks, at, Base(), p)
    {
      ghost var bs, x := blocks, Base();
      var m, s, freeMem, i, j := Search(size);
      at := i;
      if m == tail {
        GrowIsStep(bs, size, x);
        at := |bs|;
        assert hub == x + Span(bs);
        p := Grow(size);
      } else {
        ReuseIsStep(bs, size, i, j, x);
        assert m == Addrs(bs, x)[i];
        p := Reuse(m, s, freeMem, size, i, j);
      }
      assert Base() == x;
    }

    /**
     `my_malloc_hook`; `at` is the number of the granted block. The heap stays one, and the request is held, exactly
     when neither the rounding nor the argument of `sbrk` wraps; `sbrk` is taken to succeed.
     */
    method Malloc(n: nat) returns (p: int, ghost at: int)
      requires Valid() && n < SIZE_MODULUS
      requires n > 0 && NoFit(blocks, Round(n)) ==> 0 <= brk + Increment(Round(n)) < ADDRESS_END
      modifies this
      ensures hlb == old(hlb)
      ensures n == 0 ==> p == NULL && blocks == old(blocks)
      ensures Valid() <==> Servable(old(blocks), n)
      ensures !Servable(old(blocks), n) ==> NotAHeap()
      ensures n > 0 && Valid() ==> Delivered(old(blocks), n, blocks, at, Base(), p)
      ensures n > 0 && Valid() ==> Outcome(old(blocks), Round(n), blocks, at)
      ensures Valid() ==> Step(Base(), old(blocks), Call.Malloc(n), blocks)
      ensures n > 0 ==> (Valid() && n <= blocks[at].size <==> Servable(old(blocks), n) && n + 7 < SIZE_MODULUS)
    {
      at := 0;
      if n == 0 {
        return NULL, at;
      }
      ghost var bs := blocks;
      p, at := MallocBlock(Round(n));
      if Servable(bs, n) {
        MallocDelivers(bs, n, blocks, at, Base());
        MallocOutcome(bs, Round(n), blocks, at);
      }
    }

    /** Forward scan of `my_free_hook` from chunk `k` to the first used one. */
    method ScanForward(c: int, ghost k: int) returns (m: int, sum: int, ghost e: int)
      requires Shape(mem, head, tail, chunks, blocks) && 0 <= k < |blocks| && c == chunks[k] && !blocks[k].used
      ensures k < e <= |blocks| && Run(blocks, k, e) && (e == |blocks| || blocks[e].used)
      ensures m == Link(head, tail, chunks, e) && sum == Span(blocks[k..e])
    {
      ghost var cs, bs := chunks, blocks;
      m, sum, e := c, 0, k;
      while m != tail
        invariant k <= e <= |bs| && (k < e ==> Run(bs, k, e))
        invariant m == Link(head, tail, cs, e) && sum == Span(bs[k..e])
        decreases |bs| - e
      {
        assert ChunkAt(mem, head, tail, cs, bs, e);
        if mem[m].stat == 1 {
          break;
        }
        CapacityStep(bs, k, e);
        sum := sum + (mem[m].size + H);
        m := mem[m].next;
        e := e + 1;
      }
    }

    /** Backward scan of `my_free_hook` from the chunk before number `k`. */
    method ScanBackward(c: int, start: int, ghost k: int) returns (m: int, sum: int, ghost t: int)
      requires Shape(mem, head, tail, chunks, blocks) && 0 <= k < |blocks| && c == chunks[k]
      ensures 0 <= t <= k && (t < k ==> Run(blocks, t, k)) && (t == 0 || blocks[t-1].used)
      ensures m == Link(head, tail, chunks, t - 1) && sum == start + Span(blocks[t..k])
    {
      ghost var cs, bs := chunks, blocks;
      assert ChunkAt(mem, head, tail, cs, bs, k);
      m, sum, t := mem[c].prev, start, k;
      while m != head
        invariant 0 <= t <= k && (t < k ==> Run(bs, t, k))
        invariant m == Link(head, tail, cs, t - 1) && sum == start + Span(bs[t..k])
        decreases t
      {
        assert ChunkAt(mem, head, tail, cs, bs, t - 1);
        if mem[m].stat == 1 {
          break;
        }
        SpanPrepend(bs, t, k);
        sum := sum + (mem[m].size + H);
        m := mem[m].prev;
        t := t - 1;
      }
    }

    /** Lines 132-135: end the list at `m` and give `sum` bytes back. */
    method Unlink(m: int, sum: int)
      requires m in mem && tail in mem && m != tail && 0 < sum <= brk < ADDRESS_END
      modifies this`mem, this`brk
      ensures brk == old(brk) - sum && TrimWrites(old(mem), mem, tail, m, brk)
    {
      mem := mem[tail := mem[tail].(prev := m)];
      mem := mem[m := mem[m].(next := tail)];
      DecrementExact(sum);
      var _ := Sbrk(Signed(-sum));
    }

    /** Unlinks the trailing free run and gives it back. */
    method GiveBack(m: int, sum: int, ghost t: int)
      requires Tiled() && 0 <= t < |blocks| && Inv(blocks[..t])
      requires m == Before(head, tail, chunks, t) && sum == Span(blocks[t..])
      modifies this
      ensures Valid() && blocks == old(blocks)[..t] && hlb == old(hlb) && hub == old(hub) - sum
    {
      assert t > 0 ==> ChunkAt(mem, head, tail, chunks, blocks, t - 1);
      AddrsTake(blocks, t, Base());
      assert 0 < sum <= brk;
      Unlink(m, sum);
      TilesTrim(old(mem), mem, hlb, hub, chunks, blocks, t, brk);
      hub := brk;
      chunks, blocks := chunks[..t], blocks[..t];
    }

    /** From a freshly marked chunk: return the trailing free run to the system, if it is part of one. */
    method Shrink(c: int, ghost k: nat)
      requires Tiled() && k < |blocks| && c == chunks[k] && !blocks[k].used
      requires k == |blocks| - 1 || blocks[|blocks|-1].used
      modifies this
      ensures Valid() && hlb == old(hlb) && blocks == Trim(old(blocks))
    {
      var m, sum, e := ScanForward(c, k);
      if m == tail {
        ghost var t;
        m, sum, t := ScanBackward(c, sum, k);
        TrailingRun(blocks, t, k);
        GiveBack(m, sum, t);
      } else {
        hub := brk;
      }
    }

    /** The body of `my_free_hook`, chunk list only. */
    method FreeBlock(p: int, ghost k: nat)
      requires Valid() && k < |blocks| && p == Payload(blocks, Base(), k)
      modifies this
      ensures Valid() && hlb == old(hlb)
      ensures blocks == if old(blocks)[k].used then Release(old(blocks), k) else old(blocks)
    {
      AddrsAt(blocks, Base(), k);
      assert ChunkAt(mem, head, tail, chunks, blocks, k);
      var c := p - H;
      if mem[c].stat == 0 {
        return;
      }
      mem := mem[c := mem[c].(stat := 0)];
      TilesMark(old(mem), mem, hlb, hub, chunks, blocks, k);
      blocks := blocks[k := blocks[k].(used := false)];
      Shrink(c, k);
    }

    /** `my_free_hook`; `p` is the payload of chunk number `k`, still held or already free. */
    method Free(p: int, ghost k: nat)
      requires Valid() && k < |blocks| && p == Payload(blocks, Base(), k)
      modifies this
      ensures Valid() && hlb == old(hlb)
      ensures blocks == if old(blocks)[k].used then Release(old(blocks), k) else old(blocks)
      ensures Allocations() == old(Allocations()) - {p}
      ensures Aligned(old(blocks)) ==> Aligned(blocks)
      ensures Step(Base(), old(blocks), Call.Free(p), blocks)
    {
      ReleaseKeepsInv(blocks, k);
      FreeRemoves(blocks, k, Base());
      ghost var bs := blocks;
      FreeBlock(p, k);
      assert FreeStep(Base(), bs, p, k, blocks);
    }

    /** A client that frees everything it holds, in any order, gives the whole heap back. */
    method FreeEvery(ps: seq<int>)
      requires Valid() && forall k, l :: 0 <= k < l < |ps| ==> ps[k] != ps[l]
      requires Allocations().Keys == set p | p in ps
      modifies this
      ensures Valid() && hlb == old(hlb)
      ensures Allocations() == map[] && blocks == [] && hub == hlb + 2 * H
    {
      var i := 0;
      while i < |ps|
        invariant 0 <= i <= |ps| && Valid() && hlb == old(hlb)
        invariant Allocations().Keys == set p | p in ps[i..]
      {
        assert ps[i] in ps[i..];
        ghost var k := LiveHasBlock(blocks, Base(), ps[i]);
        assert forall p :: p in ps[i..] <==> p == ps[i] || p in ps[i+1..];
        assert ps[i] !in ps[i+1..];
        Free(ps[i], k);
        i := i + 1;
      }
      assert (set p | p in ps[i..]) == {};
      NothingLiveMeansEmpty(blocks, Base());
    }

    /** The client fills its payload with arbitrary bytes. */
    method ClientWrite(p: int, ghost k: nat)
      requires Valid() && k < |blocks| && blocks[k].used && p == Payload(blocks, Base(), k)
      modifies this`mem
      ensures Valid()
    {
      AddrsAt(blocks, Base(), k);
      assert ChunkAt(mem, head, tail, chunks, blocks, k);
      var size := mem[p - H].size;
      mem := map a | a in mem && (a + H <= p || p + size <= a) :: mem[a];
      TilesScribble(old(mem), mem, hlb, hub, chunks, blocks, k);
    }
  }
}
