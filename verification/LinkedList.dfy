/**
 The doubly linked list of list/src/list.c and its iterators (list/src/list_iterator.c).
 A node that was given to `LIST_FREE` is no longer `live`; every node the list or an iterator
 dereferences below is proved live.
 */
module LinkedList {
  import opened Collections

  datatype Direction = LIST_HEAD | LIST_TAIL

  const LEN_MODULUS: int := 0x1_0000_0000

  class Node<V> {
    var prev: Node?<V>
    var next: Node?<V>
    var val: V
    ghost var live: bool

    /** `list_node_new`. */
    constructor (val: V)
      ensures prev == null && next == null && this.val == val && live
    {
      prev, next, this.val, live := null, null, val, true;
    }
  }

  // ---------------------------------------------------------------- sequences

  ghost function Rev<T>(s: seq<T>): (r: seq<T>)
    ensures |r| == |s| && forall k :: 0 <= k < |s| ==> r[k] == s[|s|-1-k]
  {
    seq(|s|, k requires 0 <= k < |s| => s[|s|-1-k])
  }

  ghost predicate Differ<T>(s: seq<T>, i: int, j: int)
    requires 0 <= i < |s| && 0 <= j < |s|
  {
    s[i] != s[j]
  }

  ghost predicate Distinct<T>(s: seq<T>) {
    forall i, j {:trigger Differ(s, i, j)} :: 0 <= i < j < |s| ==> Differ(s, i, j)
  }

  /** The order in which direction `d` walks through `s`. */
  ghost function Ordered<T>(d: Direction, s: seq<T>): (v: seq<T>)
    ensures |v| == |s|
  {
    if d == LIST_HEAD then s else Rev(s)
  }

  /** Where element number `k` stands in that order. */
  ghost function OrderIndex(d: Direction, n: nat, k: nat): nat
    requires k < n
  {
    if d == LIST_HEAD then k else n - 1 - k
  }

  lemma OrderedRemove<T>(d: Direction, s: seq<T>, k: nat)
    requires k < |s|
    ensures var j := OrderIndex(d, |s|, k);
            Ordered(d, s)[j] == s[k] && Ordered(d, RemoveAt(s, k)) == RemoveAt(Ordered(d, s), j)
  {
    if d == LIST_TAIL {
      var n, r, v := |s|, RemoveAt(s, k), Rev(s);
      forall i | 0 <= i < n - 1
        ensures Rev(r)[i] == RemoveAt(v, n - 1 - k)[i]
      {
        assert Rev(r)[i] == r[n-2-i];
        assert r[n-2-i] == if n - 2 - i < k then s[n-2-i] else s[n-1-i];
      }
    }
  }

  lemma OrderedMember<T>(d: Direction, s: seq<T>, k: nat)
    requires k < |s|
    ensures Ordered(d, s)[k] in s
  {
  }

  lemma AppendDistinct<T>(s: seq<T>, x: T)
    requires Distinct(s) && x !in s
    ensures Distinct(s + [x])
  {
    forall i, j | 0 <= i < j < |s| + 1
      ensures Differ(s + [x], i, j)
    {
      assert j < |s| ==> Differ(s, i, j);
    }
  }

  lemma PrependDistinct<T>(s: seq<T>, x: T)
    requires Distinct(s) && x !in s
    ensures Distinct([x] + s)
  {
    forall i, j | 0 <= i < j < |s| + 1
      ensures Differ([x] + s, i, j)
    {
      assert i > 0 ==> Differ(s, i - 1, j - 1);
    }
  }

  lemma SliceDistinct<T>(s: seq<T>, lo: nat, hi: nat)
    requires Distinct(s) && lo <= hi <= |s|
    ensures Distinct(s[lo..hi])
  {
    forall i, j | 0 <= i < j < hi - lo
      ensures Differ(s[lo..hi], i, j)
    {
      assert Differ(s, lo + i, lo + j);
    }
  }

  lemma RemoveAtDistinct<T>(s: seq<T>, k: nat)
    requires k < |s| && Distinct(s)
    ensures Distinct(RemoveAt(s, k))
    ensures forall i :: 0 <= i < |s| - 1 ==> RemoveAt(s, k)[i] != s[k]
  {
    var r := RemoveAt(s, k);
    forall i | 0 <= i < |r|
      ensures r[i] != s[k]
    {
      assert if i < k then Differ(s, i, k) else Differ(s, k, i + 1);
    }
    forall i, j | 0 <= i < j < |r|
      ensures Differ(r, i, j)
    {
      assert Differ(s, if i < k then i else i + 1, if j < k then j else j + 1);
    }
  }

  lemma RemoveAtSubset<T>(s: seq<T>, k: nat)
    requires k < |s|
    ensures forall x :: x in RemoveAt(s, k) ==> x in s
  {
    var r := RemoveAt(s, k);
    assert forall i :: 0 <= i < |r| ==> r[i] == s[if i < k then i else i + 1];
  }

  lemma OrderedDistinct<T>(d: Direction, s: seq<T>)
    requires Distinct(s)
    ensures Distinct(Ordered(d, s))
  {
    var v, n := Ordered(d, s), |s|;
    forall i, j | 0 <= i < j < n
      ensures Differ(v, i, j)
    {
      assert Differ(s, i, j);
      assert Differ(s, n - 1 - j, n - 1 - i);
    }
  }

  lemma OtherIndex<T>(s: seq<T>, i: nat, j: nat)
    requires Distinct(s) && i < |s| && j < |s| && i != j
    ensures s[i] != s[j]
  {
    assert if i < j then Differ(s, i, j) else Differ(s, j, i);
  }

  lemma TakeNext<T>(s: seq<T>, k: nat)
    requires k < |s|
    ensures s[..k+1] == s[..k] + [s[k]]
  {
  }

  lemma AppendNext<T>(a: seq<T>, s: seq<T>, k: nat)
    requires k < |s|
    ensures a + s[..k+1] == (a + s[..k]) + [s[k]]
  {
    TakeNext(s, k);
    Associate(a, s[..k], [s[k]]);
  }

  /** What is left of a prefix once one of its elements is gone. */
  lemma RemoveFromPrefix<T>(s: seq<T>, n: nat, j: nat)
    requires j < n <= |s|
    ensures RemoveAt(s, j)[..n-1] == RemoveAt(s[..n], j)
  {
  }

  /** A position once the element at `j` is gone. */
  ghost function Shifted(pos: nat, j: nat): nat {
    if j < pos then pos - 1 else pos
  }

  /** What lies behind a position survives the removal of another element. */
  lemma RemoveShifts<T>(v: seq<T>, j: nat, pos: nat)
    requires j < |v| && pos <= |v|
    ensures var v', pos' := RemoveAt(v, j), Shifted(pos, j);
            && pos' <= |v'|
            && (j != pos && pos < |v| ==> pos' < |v'| && v'[pos'] == v[pos])
            && (j != pos && pos == |v| ==> pos' == |v'|)
            && (j < pos ==> v'[pos'..] == v[pos..])
            && (j > pos ==> v'[pos'..] == v[pos..j] + v[j+1..])
  {
  }

  // ---------------------------------------------------------------- shape

  ghost function NodeAt<V>(ns: seq<Node<V>>, i: int): Node?<V> {
    if 0 <= i < |ns| then ns[i] else null
  }

  /** The node behind a pointer that may be NULL. */
  ghost function Given<V>(node: Node?<V>): set<Node<V>> {
    if node == null then {} else {node}
  }

  lemma RemoveAtNode<V>(ns: seq<Node<V>>, k: nat, i: int)
    requires k < |ns| && -1 <= i < |ns|
    ensures NodeAt(RemoveAt(ns, k), i) == NodeAt(ns, if i < k then i else i + 1)
  {
  }

  /** Node i is live and linked to its two neighbours. */
  ghost predicate LinkedAt<V>(ns: seq<Node<V>>, i: int)
    requires 0 <= i < |ns|
    reads ns[i]
  {
    ns[i].live && ns[i].prev == NodeAt(ns, i - 1) && ns[i].next == NodeAt(ns, i + 1)
  }

  class List<V(==)> {
    var head: Node?<V>
    var tail: Node?<V>
    var len: nat
    /** Whether a `free` callback is installed; the values it was called with are logged. */
    var hasFree: bool
    var match_: Option<(V, V) -> bool>
    ghost var released: seq<V>
    /** The nodes this list has freed, in order. */
    ghost var disposed: seq<Node<V>>
    /** The nodes of the list in order. */
    ghost var nodes: seq<Node<V>>

    ghost predicate Valid()
      reads this, nodes
    {
      && len == |nodes| < LEN_MODULUS && Distinct(nodes)
      && head == NodeAt(nodes, 0) && tail == NodeAt(nodes, |nodes| - 1)
      && forall i :: 0 <= i < |nodes| ==> LinkedAt(nodes, i)
    }

    /** Callbacks are kept and nothing is freed. */
    twostate predicate SameSetup()
      reads this
    {
      released == old(released) && disposed == old(disposed) && hasFree == old(hasFree) && match_ == old(match_)
    }

    /** `list_new`. */
    constructor ()
      ensures Valid() && nodes == [] && !hasFree && match_ == None && released == [] && disposed == []
    {
      head, tail, len, hasFree, match_ := null, null, 0, false, None;
      nodes, released, disposed := [], [], [];
    }

    /** `list_rpush`. */
    method RPush(node: Node?<V>) returns (r: Node?<V>)
      requires Valid() && len + 1 < LEN_MODULUS
      requires node != null ==> node.live && node !in nodes
      modifies this, nodes`next, Given(node)`prev, Given(node)`next
      ensures Valid() && r == node && SameSetup()
      ensures nodes == if node == null then old(nodes) else old(nodes) + [node]
    {
      if node == null {
        return null;
      }
      ghost var ns := nodes;
      ghost var added: Node<V> := node;
      assert len > 0 ==> LinkedAt(ns, len - 1);
      if len != 0 {
        node.prev := tail;
        node.next := null;
        tail.next := node;
        tail := node;
      } else {
        head, tail := node, node;
        node.prev, node.next := null, null;
      }
      len := len + 1;
      nodes := ns + [added];
      forall i | 0 <= i < |nodes|
        ensures LinkedAt(nodes, i)
      {
        assert i < |ns| ==> old(LinkedAt(ns, i));
        assert i < |ns| - 1 ==> Differ(ns, i, |ns| - 1);
      }
      AppendDistinct(ns, added);
      return node;
    }

    /** `list_lpush`. */
    method LPush(node: Node?<V>) returns (r: Node?<V>)
      requires Valid() && len + 1 < LEN_MODULUS
      requires node != null ==> node.live && node !in nodes
      modifies this, nodes`prev, Given(node)`prev, Given(node)`next
      ensures Valid() && r == node && SameSetup()
      ensures nodes == if node == null then old(nodes) else [node] + old(nodes)
    {
      if node == null {
        return null;
      }
      ghost var ns := nodes;
      ghost var added: Node<V> := node;
      assert len > 0 ==> LinkedAt(ns, 0);
      if len != 0 {
        node.next := head;
        node.prev := null;
        head.prev := node;
        head := node;
      } else {
        head, tail := node, node;
        node.prev, node.next := null, null;
      }
      len := len + 1;
      nodes := [added] + ns;
      forall i | 0 <= i < |nodes|
        ensures LinkedAt(nodes, i)
      {
        assert i > 0 ==> old(LinkedAt(ns, i - 1));
        assert i > 1 ==> Differ(ns, 0, i - 1);
      }
      PrependDistinct(ns, added);
      return node;
    }

    /** `list_rpop`. */
    method RPop() returns (r: Node?<V>)
      requires Valid()
      modifies this, nodes`prev, nodes`next
      ensures Valid() && SameSetup()
      ensures old(nodes) == [] ==> r == null && nodes == []
      ensures old(nodes) != [] ==>
                && nodes == old(nodes)[..|old(nodes)|-1]
                && r == old(nodes)[|old(nodes)|-1] && r.live && r.prev == null && r.next == null
    {
      if len == 0 {
        return null;
      }
      ghost var ns := nodes;
      ghost var n := |ns|;
      assert LinkedAt(ns, n - 1) && (n > 1 ==> LinkedAt(ns, n - 2));
      var node := tail;
      len := len - 1;
      if len != 0 {
        tail := node.prev;
        tail.next := null;
      } else {
        head, tail := null, null;
      }
      node.next, node.prev := null, null;
      nodes := ns[..n-1];
      forall i | 0 <= i < |nodes|
        ensures LinkedAt(nodes, i)
      {
        assert old(LinkedAt(ns, i));
        assert Differ(ns, i, n - 1) && (i < n - 2 ==> Differ(ns, i, n - 2));
      }
      SliceDistinct(ns, 0, n - 1);
      return node;
    }

    /** `list_lpop`. */
    method LPop() returns (r: Node?<V>)
      requires Valid()
      modifies this, nodes`prev, nodes`next
      ensures Valid() && SameSetup()
      ensures old(nodes) == [] ==> r == null && nodes == []
      ensures old(nodes) != [] ==>
                && nodes == old(nodes)[1..]
                && r == old(nodes)[0] && r.live && r.prev == null && r.next == null
    {
      if len == 0 {
        return null;
      }
      ghost var ns := nodes;
      assert LinkedAt(ns, 0) && (|ns| > 1 ==> LinkedAt(ns, 1));
      var node := head;
      len := len - 1;
      if len != 0 {
        head := node.next;
        head.prev := null;
      } else {
        head, tail := null, null;
      }
      node.next, node.prev := null, null;
      nodes := ns[1..];
      forall i | 0 <= i < |nodes|
        ensures LinkedAt(nodes, i)
      {
        assert old(LinkedAt(ns, i + 1));
        assert Differ(ns, 0, i + 1) && (i > 0 ==> Differ(ns, 1, i + 1));
      }
      SliceDistinct(ns, 1, |ns|);
      assert ns[1..|ns|] == ns[1..];
      return node;
    }

    /** Makes the neighbours of node number `k` point past it. */
    method Unlink(node: Node<V>, ghost k: nat)
      requires Valid() && k < |nodes| && node == nodes[k]
      modifies this`head, this`tail, nodes`prev, nodes`next
      ensures var rs := RemoveAt(nodes, k);
              && head == NodeAt(rs, 0) && tail == NodeAt(rs, |rs| - 1)
              && forall i :: 0 <= i < |rs| ==> LinkedAt(rs, i)
    {
      ghost var ns, rs := nodes, RemoveAt(nodes, k);
      assert LinkedAt(ns, k) && (k > 0 ==> LinkedAt(ns, k - 1)) && (k + 1 < |ns| ==> LinkedAt(ns, k + 1));
      if node.prev != null {
        node.prev.next := node.next;
      } else {
        head := node.next;
      }
      if node.next != null {
        node.next.prev := node.prev;
      } else {
        tail := node.prev;
      }
      forall i | 0 <= i < |rs|
        ensures LinkedAt(rs, i)
      {
        var j := if i < k then i else i + 1;
        RemoveAtNode(ns, k, i - 1);
        RemoveAtNode(ns, k, i);
        RemoveAtNode(ns, k, i + 1);
        assert rs[i] == ns[j] && old(LinkedAt(ns, j));
        assert j + 1 < k ==> Differ(ns, j, k - 1);
        assert j > k + 1 ==> Differ(ns, k + 1, j);
        assert k > 0 && j > k ==> Differ(ns, k - 1, j);
        assert j < k && k + 1 < |ns| ==> Differ(ns, j, k + 1);
        assert ns[j].live;
      }
    }

    /** Calls the `free` callback, if there is one, with the value of a node that is still allocated. */
    method Release(node: Node<V>)
      requires node.live
      modifies this`released
      ensures released == old(released) + if hasFree then [node.val] else []
    {
      if hasFree {
        released := released + [node.val];
      }
    }

    /** The body of `list_remove`, for node number `k`. */
    method RemoveNumber(node: Node<V>, ghost k: nat)
      requires Valid() && k < |nodes| && node == nodes[k]
      modifies this, nodes`prev, nodes`next, node`live
      ensures Valid() && hasFree == old(hasFree) && match_ == old(match_) && disposed == old(disposed) + [node]
      ensures nodes == RemoveAt(old(nodes), k)
      ensures !node.live
      ensures released == old(released) + if hasFree then [node.val] else []
    {
      assert LinkedAt(nodes, k);
      assert node.live;
      ghost var rs := RemoveAt(nodes, k);
      RemoveAtDistinct(nodes, k);
      Unlink(node, k);
      label unlinked:
      Release(node);
      Dispose(node);
      disposed := disposed + [node];
      len := len - 1;
      nodes := rs;
      forall i | 0 <= i < |rs|
        ensures LinkedAt(rs, i)
      {
        assert old@unlinked(LinkedAt(rs, i));
        assert rs[i] != node;
      }
    }

    /** `list_remove`: unlink, release the value, free the node; `k` is where the node was. */
    method Remove(node: Node<V>) returns (ghost k: nat)
      requires Valid() && node in nodes
      modifies this, nodes`prev, nodes`next, node`live
      ensures Valid() && hasFree == old(hasFree) && match_ == old(match_) && disposed == old(disposed) + [node]
      ensures k < |old(nodes)| && old(nodes)[k] == node && nodes == RemoveAt(old(nodes), k)
      ensures !node.live
      ensures released == old(released) + if hasFree then [node.val] else []
    {
      k :| 0 <= k < |nodes| && nodes[k] == node;
      RemoveNumber(node, k);
    }

    /** `LIST_FREE` of node number `k`, the nodes behind it staying linked. */
    ghost method FreeFirst(node: Node<V>, k: nat)
      requires Distinct(nodes) && k < |nodes| && node == nodes[k] && node.live
      requires forall i :: k < i < |nodes| ==> LinkedAt(nodes, i)
      modifies node`live, this`disposed
      ensures !node.live && disposed == old(disposed) + [node]
      ensures forall i :: k < i < |nodes| ==> LinkedAt(nodes, i)
    {
      Dispose(node);
      disposed := disposed + [node];
      forall i | k < i < |nodes|
        ensures LinkedAt(nodes, i)
      {
        assert old(LinkedAt(nodes, i)) && Differ(nodes, k, i);
      }
    }

    ghost function Values(): (vs: seq<V>)
      reads this, nodes
    {
      seq(|nodes|, i requires 0 <= i < |nodes| reads this, nodes => nodes[i].val)
    }

    /** `list_destroy`: every node is freed once, while live, and every value released once, in order. */
    method Destroy()
      requires Valid()
      modifies this`released, this`disposed, nodes`live
      ensures forall i :: 0 <= i < |nodes| ==> !nodes[i].live
      ensures disposed == old(disposed) + nodes
      ensures released == old(released) + if hasFree then Values() else []
    {
      ghost var k, vs := 0, Values();
      var count := len;
      var curr := head;
      while count != 0
        invariant 0 <= k <= |nodes| && count == |nodes| - k && curr == NodeAt(nodes, k)
        invariant forall i :: k <= i < |nodes| ==> LinkedAt(nodes, i)
        invariant forall i :: 0 <= i < k ==> !nodes[i].live
        invariant disposed == old(disposed) + nodes[..k]
        invariant released == old(released) + if hasFree then vs[..k] else []
      {
        assert LinkedAt(nodes, k);
        count := count - 1;
        var next := curr.next;
        if hasFree {
          released := released + [curr.val];
          AppendNext(old(released), vs, k);
        }
        AppendNext(old(disposed), nodes, k);
        FreeFirst(nodes[k], k);
        curr := next;
        k := k + 1;
      }
      assert vs[..k] == vs && nodes[..k] == nodes;
    }

    /** The order in which an iterator of direction `d` meets the nodes. */
    ghost function View(d: Direction): (v: seq<Node<V>>)
      reads this
      ensures |v| == |nodes|
    {
      Ordered(d, nodes)
    }

    /** Following `next` or `prev` walks through the view of that direction. */
    lemma ViewStep(d: Direction, k: nat)
      requires Valid() && k < |nodes|
      ensures var v := View(d);
              v[k].live && NodeAt(v, k + 1) == if d == LIST_HEAD then v[k].next else v[k].prev
    {
      if d == LIST_HEAD {
        assert LinkedAt(nodes, k);
      } else {
        assert LinkedAt(nodes, |nodes| - 1 - k);
      }
    }

    /** The node a client means by `index`: from the front, or from the back if negative. */
    ghost function Indexed(index: int): Node?<V>
      reads this
    {
      if 0 <= index then NodeAt(nodes, index) else NodeAt(nodes, |nodes| + index)
    }

    /** The walk of `list_at`: the i-th node of the view. */
    method Walk(direction: Direction, index: nat) returns (node: Node?<V>)
      requires Valid() && index < |nodes|
      ensures node == View(direction)[index]
    {
      var it := new Iterator(this, direction);
      node := it.Next(this);
      var i := index;
      while i != 0
        invariant 0 <= i <= index && it.On(this) && fresh(it) && it.direction == direction
        invariant it.pos == index - i + 1 && node == View(direction)[index - i]
      {
        i := i - 1;
        node := it.Next(this);
      }
    }

    /** `list_at`, for any 32-bit index. */
    method At(index: int) returns (node: Node?<V>)
      requires Valid() && -0x8000_0000 <= index < 0x8000_0000
      ensures node == Indexed(index)
      ensures node == null <==> !(-|nodes| <= index < |nodes|)
    {
      var direction, i := LIST_HEAD, index;
      if index < 0 {
        direction := LIST_TAIL;
        i := -index - 1;
      }
      if i < len {
        node := Walk(direction, i);
      } else {
        node := null;
      }
    }

    ghost predicate Matches(val: V, node: Node<V>)
      reads this, node
    {
      if match_.Some? then match_.value(val, node.val) else val == node.val
    }

    /** `list_find`: the first node that matches. */
    method Find(val: V) returns (r: Node?<V>)
      requires Valid()
      ensures r == null ==> forall i :: 0 <= i < |nodes| ==> !Matches(val, nodes[i])
      ensures r != null ==> exists i :: 0 <= i < |nodes| && r == nodes[i] && Matches(val, nodes[i])
                                        && forall j :: 0 <= j < i ==> !Matches(val, nodes[j])
    {
      var it := new Iterator(this, LIST_HEAD);
      var node := it.Next(this);
      ghost var k := 0;
      while node != null
        invariant 0 <= k <= |nodes| && it.On(this) && fresh(it) && it.direction == LIST_HEAD
        invariant node == NodeAt(nodes, k) && (node != null ==> it.pos == k + 1)
        invariant forall j :: 0 <= j < k ==> !Matches(val, nodes[j])
        decreases |nodes| - k
      {
        if match_.Some? {
          if match_.value(val, node.val) {
            return node;
          }
        } else if val == node.val {
          return node;
        }
        assert !Matches(val, nodes[k]);
        node := it.Next(this);
        k := k + 1;
      }
      return null;
    }
  }

  /** `LIST_FREE` of a node: only a live node may be freed. */
  ghost method Dispose<V>(node: Node<V>)
    requires node.live
    modifies node`live
    ensures !node.live
  {
    node.live := false;
  }

  class Iterator<V(==)> {
    var next: Node?<V>
    const direction: Direction
    /** How many nodes of its order it has passed. */
    ghost var pos: nat

    /** The iterator stands in list `l`. */
    ghost predicate On(l: List<V>)
      reads this, l
    {
      pos <= |l.nodes| && next == NodeAt(l.View(direction), pos)
    }

    /** What it is still going to return. */
    ghost function Rest(l: List<V>): seq<Node<V>>
      requires On(l)
      reads this, l
    {
      l.View(direction)[pos..]
    }

    /** `list_iterator_new`. */
    constructor (l: List<V>, d: Direction)
      requires l.Valid()
      ensures direction == d && On(l) && pos == 0
    {
      next := if d == LIST_HEAD then l.head else l.tail;
      direction := d;
      pos := 0;
    }

    /** `list_iterator_new_from_node`, at node number `k` of the direction's order. */
    constructor FromNode(node: Node<V>, d: Direction, ghost l: List<V>, ghost k: nat)
      requires l.Valid() && k < |l.nodes| && node == l.View(d)[k]
      ensures direction == d && On(l) && pos == k
    {
      next := node;
      direction := d;
      pos := k;
    }

    /** Bookkeeping: the node at view position `j` is gone. */
    ghost method Shift(j: nat)
      modifies this`pos
      ensures pos == Shifted(old(pos), j)
    {
      pos := Shifted(pos, j);
    }

    /** `list_iterator_next`. */
    method Next(ghost l: List<V>) returns (curr: Node?<V>)
      requires l.Valid() && On(l)
      modifies this
      ensures On(l) && curr == NodeAt(l.View(direction), old(pos))
      ensures pos == if curr == null then old(pos) else old(pos) + 1
      ensures curr != null ==> curr.live
    {
      curr := next;
      if curr != null {
        l.ViewStep(direction, pos);
        next := if direction == LIST_HEAD then curr.next else curr.prev;
        pos := pos + 1;
      }
    }
  }

  // ---------------------------------------------------------------- removal during iteration

  /**
   `list_remove` of any node while `it` iterates. Unless it is the very node the iterator returns next,
   the iterator stays usable and will return what it would have returned, less the removed node;
   otherwise its next step would touch a freed node.
   */
  method RemoveDuring<V>(l: List<V>, it: Iterator<V>, node: Node<V>) returns (ghost j: nat)
    requires l.Valid() && it.On(l) && node in l.nodes
    modifies l, l.nodes`prev, l.nodes`next, node`live, it`pos
    ensures l.Valid() && !node.live && l.disposed == old(l.disposed) + [node]
    ensures j < |old(l.nodes)| && old(l.View(it.direction))[j] == node
    ensures l.View(it.direction) == RemoveAt(old(l.View(it.direction)), j)
    ensures node != old(it.next) ==> it.On(l) && it.pos == Shifted(old(it.pos), j)
    ensures node == old(it.next) ==> it.next == node && !it.next.live
    ensures j < old(it.pos) ==> node != old(it.next) && it.On(l) && it.Rest(l) == old(it.Rest(l))
    ensures forall n :: n in l.nodes ==> n in old(l.nodes)
  {
    ghost var ns, d, pos := l.nodes, it.direction, it.pos;
    ghost var k := l.Remove(node);
    j := OrderIndex(d, |ns|, k);
    OrderedRemove(d, ns, k);
    RemoveAtSubset(ns, k);
    OrderedDistinct(d, ns);
    assert j < pos < |ns| ==> Differ(Ordered(d, ns), j, pos);
    RemoveShifts(Ordered(d, ns), j, pos);
    it.Shift(j);
  }

  ghost function NodeSet<V>(ns: seq<Node<V>>): set<Node<V>> {
    set n | n in ns
  }

  /**
   A client loop that removes each node just returned: what was visited, followed by what is left,
   is the whole original order, and exactly the nodes visited before `node` have been freed.
   */
  ghost predicate Draining<V>(l: List<V>, it: Iterator<V>, node: Node?<V>, visited: seq<Node<V>>,
                              view: seq<Node<V>>, before: seq<Node<V>>)
    reads l, l.nodes, it
  {
    && l.Valid() && it.On(l)
    && visited + l.View(it.direction) == view
    && l.disposed == before + visited
    && node == NodeAt(l.View(it.direction), 0) && it.pos == (if node == null then 0 else 1)
  }

  /** One round of the drain: remove the node just returned and ask for the next one. */
  method RemoveAndNext<V>(l: List<V>, it: Iterator<V>, node: Node<V>) returns (next: Node?<V>)
    requires l.Valid() && it.On(l) && it.pos == 1 && node == l.View(it.direction)[0]
    modifies l, NodeSet(l.nodes)`prev, NodeSet(l.nodes)`next, NodeSet(l.nodes)`live, it
    ensures l.Valid() && it.On(l) && l.disposed == old(l.disposed) + [node]
    ensures l.View(it.direction) == old(l.View(it.direction))[1..]
    ensures next == NodeAt(l.View(it.direction), 0) && it.pos == if next == null then 0 else 1
    ensures NodeSet(l.nodes) <= old(NodeSet(l.nodes))
  {
    OrderedMember(it.direction, l.nodes, 0);
    OrderedDistinct(it.direction, l.nodes);
    ghost var v := l.View(it.direction);
    ghost var j := RemoveDuring(l, it, node);
    assert j > 0 ==> Differ(v, 0, j);
    next := it.Next(l);
  }

  method DrainRound<V>(l: List<V>, it: Iterator<V>, node: Node<V>, ghost visited: seq<Node<V>>,
                       ghost view: seq<Node<V>>, ghost before: seq<Node<V>>) returns (next: Node?<V>)
    requires Draining(l, it, node, visited, view, before)
    modifies l, NodeSet(l.nodes)`prev, NodeSet(l.nodes)`next, NodeSet(l.nodes)`live, it
    ensures Draining(l, it, next, visited + [node], view, before)
    ensures NodeSet(l.nodes) <= old(NodeSet(l.nodes)) && |l.nodes| == |old(l.nodes)| - 1
  {
    DrainStep(visited, l.View(it.direction), view);
    Associate(before, visited, [node]);
    next := RemoveAndNext(l, it, node);
  }

  /** Iterating over the whole list and removing each node just returned. */
  method Drain<V>(l: List<V>, d: Direction) returns (visited: seq<Node<V>>)
    requires l.Valid()
    modifies l, NodeSet(l.nodes)`prev, NodeSet(l.nodes)`next, NodeSet(l.nodes)`live
    ensures l.Valid() && l.nodes == [] && visited == old(l.View(d))
    ensures l.disposed == old(l.disposed) + visited
  {
    ghost var view, before := l.View(d), l.disposed;
    var it := new Iterator(l, d);
    visited := [];
    var node := it.Next(l);
    while node != null
      invariant Draining(l, it, node, visited, view, before) && fresh(it) && it.direction == d
      invariant NodeSet(l.nodes) <= old(NodeSet(l.nodes))
      decreases |l.nodes|
    {
      var curr: Node<V> := node;
      node := DrainRound(l, it, curr, visited, view, before);
      visited := visited + [curr];
    }
    assert l.View(d) == [];
  }

  lemma DrainStep<T>(a: seq<T>, v: seq<T>, all: seq<T>)
    requires a + v == all && v != []
    ensures (a + [v[0]]) + v[1..] == all
  {
  }

  // ---------------------------------------------------------------- whole iterations

  /** What a client does: fetch the next node, or remove the `j`-th of the visited nodes that are still there. */
  datatype Move = Fetch | Drop(j: nat)

  /** Order of the list, position of the iterator, and what it has returned so far. */
  datatype Tour<T> = Tour(order: seq<T>, pos: nat, got: seq<T>)

  ghost predicate TourStep<T>(t: Tour<T>, m: Move, t': Tour<T>) {
    match m
    case Fetch =>
      && t.pos <= |t.order|
      && t' == if t.pos == |t.order| then t else Tour(t.order, t.pos + 1, t.got + [t.order[t.pos]])
    case Drop(j) =>
      && t.pos <= |t.order|
      && t' == if j < t.pos then Tour(RemoveAt(t.order, j), t.pos - 1, t.got) else t
  }

  /** What was returned followed by what is still to come is the order `all`. */
  ghost predicate OnTour<T>(t: Tour<T>, all: seq<T>) {
    t.pos <= |t.order| && t.got + t.order[t.pos..] == all
  }

  lemma {:induction false} TourStepKeeps<T>(t: Tour<T>, m: Move, t': Tour<T>, all: seq<T>)
    requires OnTour(t, all) && TourStep(t, m, t')
    ensures OnTour(t', all)
  {
    match m
    case Fetch =>
      if t.pos < |t.order| {
        assert t.order[t.pos..] == [t.order[t.pos]] + t.order[t.pos+1..];
      }
    case Drop(j) =>
      if j < t.pos {
        RemoveShifts(t.order, j, t.pos);
      }
  }

  /** The heap shows tour `t`: list order, iterator position; `held` are the visited nodes still in the list. */
  ghost predicate Shows<V>(l: List<V>, it: Iterator<V>, held: seq<Node<V>>, t: Tour<Node<V>>)
    reads l, l.nodes, it
  {
    l.Valid() && it.On(l) && t.order == l.View(it.direction) && t.pos == it.pos && held == t.order[..t.pos]
  }

  /** One move on the heap. */
  method RunFetch<V>(l: List<V>, it: Iterator<V>, held: seq<Node<V>>, got: seq<Node<V>>, ghost t: Tour<Node<V>>)
    returns (held': seq<Node<V>>, got': seq<Node<V>>, ghost t': Tour<Node<V>>)
    requires Shows(l, it, held, t) && got == t.got
    modifies it
    ensures Shows(l, it, held', t') && got' == t'.got && TourStep(t, Fetch, t')
  {
    var node := it.Next(l);
    if node == null {
      return held, got, t;
    }
    var fetched: Node<V> := node;
    held', got' := held + [fetched], got + [fetched];
    t' := Tour(t.order, t.pos + 1, got');
    assert t.order[..t.pos+1] == t.order[..t.pos] + [t.order[t.pos]];
  }

  method RunDrop<V>(l: List<V>, it: Iterator<V>, held: seq<Node<V>>, j: nat, ghost t: Tour<Node<V>>)
    returns (held': seq<Node<V>>, ghost t': Tour<Node<V>>)
    requires Shows(l, it, held, t)
    modifies l, l.nodes`prev, l.nodes`next, l.nodes`live, it`pos
    ensures Shows(l, it, held', t') && t'.got == t.got && TourStep(t, Drop(j), t')
    ensures forall n :: n in l.nodes ==> n in old(l.nodes)
  {
    if j >= |held| {
      return held, t;
    }
    assert held[j] == t.order[j];
    OrderedMember(it.direction, l.nodes, j);
    OrderedDistinct(it.direction, l.nodes);
    ghost var i := RemoveDuring(l, it, held[j]);
    if i != j {
      OtherIndex(t.order, i, j);
    }
    held' := RemoveAt(held, j);
    t' := Tour(RemoveAt(t.order, j), t.pos - 1, t.got);
    RemoveFromPrefix(t.order, t.pos, j);
  }

  /** The heap shows a tour of `all` that has returned `got`. */
  ghost predicate Touring<V>(l: List<V>, it: Iterator<V>, held: seq<Node<V>>, got: seq<Node<V>>,
                             t: Tour<Node<V>>, all: seq<Node<V>>)
    reads l, l.nodes, it
  {
    Shows(l, it, held, t) && got == t.got && OnTour(t, all)
  }

  lemma TouringMeans<V>(l: List<V>, it: Iterator<V>, held: seq<Node<V>>, got: seq<Node<V>>,
                        t: Tour<Node<V>>, all: seq<Node<V>>)
    requires Touring(l, it, held, got, t, all)
    ensures l.Valid() && it.On(l) && got + it.Rest(l) == all && held + it.Rest(l) == l.View(it.direction)
  {
    assert t.order == t.order[..t.pos] + t.order[t.pos..];
  }

  /** One move of either kind. */
  method RunMove<V>(l: List<V>, it: Iterator<V>, held: seq<Node<V>>, got: seq<Node<V>>, m: Move,
                    ghost t: Tour<Node<V>>, ghost all: seq<Node<V>>)
    returns (held': seq<Node<V>>, got': seq<Node<V>>, ghost t': Tour<Node<V>>)
    requires Touring(l, it, held, got, t, all)
    modifies l, NodeSet(l.nodes)`prev, NodeSet(l.nodes)`next, NodeSet(l.nodes)`live, it
    ensures Touring(l, it, held', got', t', all)
    ensures NodeSet(l.nodes) <= old(NodeSet(l.nodes))
  {
    match m
    case Fetch =>
      held', got', t' := RunFetch(l, it, held, got, t);
      TourStepKeeps(t, Fetch, t', all);
    case Drop(j) =>
      held', t' := RunDrop(l, it, held, j, t);
      got' := got;
      TourStepKeeps(t, Drop(j), t', all);
  }

  /**
   A client that iterates over the list and removes visited nodes, in any mixture: what the iterator
   returned is always a prefix of the original order, the rest of which is still to come.
   */
  method RunMoves<V>(l: List<V>, d: Direction, moves: seq<Move>)
    returns (got: seq<Node<V>>, held: seq<Node<V>>, it: Iterator<V>)
    requires l.Valid()
    modifies l, NodeSet(l.nodes)`prev, NodeSet(l.nodes)`next, NodeSet(l.nodes)`live
    ensures l.Valid() && fresh(it) && it.direction == d && it.On(l)
    ensures got + it.Rest(l) == old(l.View(d)) && held + it.Rest(l) == l.View(d)
  {
    ghost var all := l.View(d);
    it := new Iterator(l, d);
    got, held := [], [];
    ghost var t := Tour(all, 0, []);
    for i := 0 to |moves|
      invariant fresh(it) && it.direction == d
      invariant Touring(l, it, held, got, t, all)
      invariant NodeSet(l.nodes) <= old(NodeSet(l.nodes))
    {
      held, got, t := RunMove(l, it, held, got, moves[i], t, all);
    }
    TouringMeans(l, it, held, got, t, all);
  }
}
