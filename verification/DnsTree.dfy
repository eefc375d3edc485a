/**
 The name tree of dns_proxy_server/dns_proxy_mod.c: a search tree ordered by `strcmp`, rebalanced
 after each insertion by rotations that this model leaves arbitrary.
 */
module DnsTree {
  import opened Collections
  import opened Checksum

  /** The bytes of a C string, without its terminator. */
  type Name = s: seq<byte> | forall i :: 0 <= i < |s| ==> s[i] != 0

  /** A 32-bit field as it lies in memory. */
  type Quad = s: seq<byte> | |s| == 4 witness [0, 0, 0, 0]

  datatype Record = Record(name: Name, addr: Quad, ttl: Quad)

  // ---------------------------------------------------------------- strcmp

  /** The sign of `strcmp`; the end of a string compares below every character. */
  function StrCmp(a: Name, b: Name): (c: int)
    ensures c == 0 <==> a == b
  {
    if a == [] then (if b == [] then 0 else -1)
    else if b == [] then 1
    else if a[0] < b[0] then -1
    else if a[0] > b[0] then 1
    else
      assert a == [a[0]] + a[1..] && b == [b[0]] + b[1..];
      StrCmp(a[1..], b[1..])
  }

  predicate Less(a: Name, b: Name) {
    StrCmp(a, b) < 0
  }

  /** The smaller name is a proper prefix of the other, or has the smaller byte where they first differ. */
  lemma {:induction false} StrCmpMeans(a: Name, b: Name) returns (k: nat)
    ensures k <= |a| && k <= |b| && a[..k] == b[..k]
    ensures StrCmp(a, b) < 0 <==> k < |b| && (k == |a| || a[k] < b[k])
    ensures StrCmp(a, b) > 0 <==> k < |a| && (k == |b| || a[k] > b[k])
  {
    if a == [] || b == [] || a[0] != b[0] {
      k := 0;
    } else {
      var i := StrCmpMeans(a[1..], b[1..]);
      k := i + 1;
      assert a[..k] == [a[0]] + a[1..][..i] && b[..k] == [b[0]] + b[1..][..i];
    }
  }

  lemma {:induction false} StrCmpFlip(a: Name, b: Name)
    ensures StrCmp(a, b) < 0 <==> StrCmp(b, a) > 0
  {
    if a != [] && b != [] && a[0] == b[0] {
      StrCmpFlip(a[1..], b[1..]);
    }
  }

  lemma {:induction false} LessTransitive(a: Name, b: Name, c: Name)
    requires Less(a, b) && Less(b, c)
    ensures Less(a, c)
  {
    if a != [] && b != [] && c != [] && a[0] == b[0] == c[0] {
      LessTransitive(a[1..], b[1..], c[1..]);
    }
  }

  // ---------------------------------------------------------------- sorted sequences of records

  /** The record a sequence holds for a name. */
  function Assoc(s: seq<Record>, n: Name): (r: Option<Record>)
    ensures r.Some? ==> r.value.name == n
  {
    if s == [] then None else if s[0].name == n then Some(s[0]) else Assoc(s[1..], n)
  }

  ghost predicate AllBelow(s: seq<Record>, n: Name) {
    forall i :: 0 <= i < |s| ==> Less(s[i].name, n)
  }

  ghost predicate AllAbove(s: seq<Record>, n: Name) {
    forall i :: 0 <= i < |s| ==> Less(n, s[i].name)
  }

  ghost predicate LessAt(s: seq<Record>, i: int, j: int)
    requires 0 <= i < |s| && 0 <= j < |s|
  {
    Less(s[i].name, s[j].name)
  }

  ghost predicate Sorted(s: seq<Record>) {
    forall i, j {:trigger LessAt(s, i, j)} :: 0 <= i < j < |s| ==> LessAt(s, i, j)
  }

  lemma {:induction false} AssocConcat(a: seq<Record>, b: seq<Record>, n: Name)
    ensures Assoc(a + b, n) == if Assoc(a, n).Some? then Assoc(a, n) else Assoc(b, n)
  {
    if a == [] {
      assert a + b == b;
    } else {
      assert (a + b)[1..] == a[1..] + b;
      AssocConcat(a[1..], b, n);
    }
  }

  lemma {:induction false} AssocAround(a: seq<Record>, r: Record, b: seq<Record>, n: Name)
    ensures Assoc(a + [r] + b, n) ==
            if Assoc(a, n).Some? then Assoc(a, n) else if r.name == n then Some(r) else Assoc(b, n)
  {
    AssocConcat(a + [r], b, n);
    AssocConcat(a, [r], n);
  }

  lemma {:induction false} AssocBelow(s: seq<Record>, m: Name, n: Name)
    requires AllBelow(s, m) && StrCmp(n, m) >= 0
    ensures Assoc(s, n) == None
  {
    if s != [] {
      AssocBelow(s[1..], m, n);
    }
  }

  lemma {:induction false} AssocAbove(s: seq<Record>, m: Name, n: Name)
    requires AllAbove(s, m) && StrCmp(n, m) <= 0
    ensures Assoc(s, n) == None
  {
    if s != [] {
      StrCmpFlip(m, n);
      AssocAbove(s[1..], m, n);
    }
  }

  lemma {:induction false} SortedSplit(a: seq<Record>, r: Record, b: seq<Record>)
    requires Sorted(a + [r] + b)
    ensures Sorted(a) && Sorted(b) && AllBelow(a, r.name) && AllAbove(b, r.name)
  {
    var s, k := a + [r] + b, |a|;
    forall i, j | 0 <= i < j < |a|
      ensures LessAt(a, i, j)
    {
      assert LessAt(s, i, j);
    }
    forall i, j | 0 <= i < j < |b|
      ensures LessAt(b, i, j)
    {
      assert LessAt(s, k + 1 + i, k + 1 + j);
    }
    forall i | 0 <= i < |a|
      ensures Less(a[i].name, r.name)
    {
      assert LessAt(s, i, k);
    }
    forall i | 0 <= i < |b|
      ensures Less(r.name, b[i].name)
    {
      assert LessAt(s, k, k + 1 + i);
    }
  }

  lemma {:induction false} SortedJoin(a: seq<Record>, r: Record, b: seq<Record>)
    requires Sorted(a) && Sorted(b) && AllBelow(a, r.name) && AllAbove(b, r.name)
    ensures Sorted(a + [r] + b)
  {
    var s, k := a + [r] + b, |a|;
    forall i, j | 0 <= i < j < |s|
      ensures LessAt(s, i, j)
    {
      if j < k {
        assert LessAt(a, i, j);
      } else if i > k {
        assert LessAt(b, i - k - 1, j - k - 1);
      } else if i < k < j {
        LessTransitive(a[i].name, r.name, b[j-k-1].name);
      }
    }
  }

  // ---------------------------------------------------------------- trees

  datatype Tree = Leaf | Node(left: Tree, rec: Record, right: Tree)

  function InOrder(t: Tree): seq<Record> {
    if t == Leaf then [] else InOrder(t.left) + [t.rec] + InOrder(t.right)
  }

  /** Search-tree order. */
  ghost predicate Ordered(t: Tree) {
    Sorted(InOrder(t))
  }

  /** The tree as a finite map: what it holds for a name. */
  function Held(t: Tree, n: Name): (r: Option<Record>)
    ensures r.Some? ==> r.value.name == n
  {
    Assoc(InOrder(t), n)
  }

  /** What an ordered tree holds for a name is held by the side the name compares to. */
  lemma {:induction false} HeldBySide(t: Tree, n: Name)
    requires t.Node? && Ordered(t)
    ensures Ordered(t.left) && Ordered(t.right)
    ensures AllBelow(InOrder(t.left), t.rec.name) && AllAbove(InOrder(t.right), t.rec.name)
    ensures Held(t, n) == if StrCmp(n, t.rec.name) < 0 then Held(t.left, n)
                          else if StrCmp(n, t.rec.name) > 0 then Held(t.right, n) else Some(t.rec)
  {
    var a, b := InOrder(t.left), InOrder(t.right);
    SortedSplit(a, t.rec, b);
    AssocAround(a, t.rec, b, n);
    if StrCmp(n, t.rec.name) <= 0 {
      AssocAbove(b, t.rec.name, n);
    }
    if StrCmp(n, t.rec.name) >= 0 {
      AssocBelow(a, t.rec.name, n);
    }
  }

  /** `search_dr`. */
  method Search(root: Tree, name: Name) returns (r: Option<Record>)
    requires Ordered(root)
    ensures r == Held(root, name)
  {
    var node := root;
    while node != Leaf
      invariant Ordered(node) && Held(node, name) == Held(root, name)
      decreases node
    {
      HeldBySide(node, name);
      var result := StrCmp(name, node.rec.name);
      if result < 0 {
        node := node.left;
      } else if result > 0 {
        node := node.right;
      } else {
        return Some(node.rec);
      }
    }
    return None;
  }

  // ---------------------------------------------------------------- insertion

  /** `rb_link_node`: the new record becomes a leaf at the place its name is searched at. */
  function Link(t: Tree, rec: Record): Tree {
    if t == Leaf then Node(Leaf, rec, Leaf)
    else if StrCmp(rec.name, t.rec.name) < 0 then t.(left := Link(t.left, rec))
    else if StrCmp(rec.name, t.rec.name) > 0 then t.(right := Link(t.right, rec))
    else t
  }

  /** The tree with `sub` in place of what is found by following `path` (true is right). */
  function Graft(t: Tree, path: seq<bool>, sub: Tree): Tree {
    if path == [] || t == Leaf then sub
    else if path[0] then t.(right := Graft(t.right, path[1..], sub))
    else t.(left := Graft(t.left, path[1..], sub))
  }

  function Subtree(t: Tree, path: seq<bool>): Tree {
    if path == [] || t == Leaf then t
    else Subtree(if path[0] then t.right else t.left, path[1..])
  }

  lemma {:induction false} GraftDeeper(t: Tree, path: seq<bool>, right: bool, sub: Tree)
    requires Subtree(t, path).Node?
    ensures var s := Subtree(t, path);
            && Graft(t, path + [right], sub) == Graft(t, path, if right then s.(right := sub) else s.(left := sub))
            && Subtree(t, path + [right]) == if right then s.right else s.left
  {
    if path == [] {
      assert path + [right] == [right];
      assert [right][1..] == [];
    } else {
      assert (path + [right])[1..] == path[1..] + [right];
      GraftDeeper(if path[0] then t.right else t.left, path[1..], right, sub);
    }
  }

  lemma {:induction false} AllBelowJoin(a: seq<Record>, r: Record, b: seq<Record>, n: Name)
    ensures AllBelow(a + [r] + b, n) <==> AllBelow(a, n) && Less(r.name, n) && AllBelow(b, n)
  {
    var s, k := a + [r] + b, |a|;
    if AllBelow(s, n) {
      assert forall i :: 0 <= i < |a| ==> a[i] == s[i];
      assert s[k] == r;
      assert forall i :: 0 <= i < |b| ==> b[i] == s[k+1+i];
    }
  }

  lemma {:induction false} AllAboveJoin(a: seq<Record>, r: Record, b: seq<Record>, n: Name)
    ensures AllAbove(a + [r] + b, n) <==> AllAbove(a, n) && Less(n, r.name) && AllAbove(b, n)
  {
    var s, k := a + [r] + b, |a|;
    if AllAbove(s, n) {
      assert forall i :: 0 <= i < |a| ==> a[i] == s[i];
      assert s[k] == r;
      assert forall i :: 0 <= i < |b| ==> b[i] == s[k+1+i];
    }
  }

  lemma {:induction false} LinkBelow(t: Tree, rec: Record, n: Name)
    requires AllBelow(InOrder(t), n) && Less(rec.name, n)
    ensures AllBelow(InOrder(Link(t, rec)), n)
  {
    if t != Leaf {
      AllBelowJoin(InOrder(t.left), t.rec, InOrder(t.right), n);
      LinkBelow(t.left, rec, n);
      LinkBelow(t.right, rec, n);
      var l := Link(t, rec);
      AllBelowJoin(InOrder(l.left), l.rec, InOrder(l.right), n);
    }
  }

  lemma {:induction false} LinkAbove(t: Tree, rec: Record, n: Name)
    requires AllAbove(InOrder(t), n) && Less(n, rec.name)
    ensures AllAbove(InOrder(Link(t, rec)), n)
  {
    if t != Leaf {
      AllAboveJoin(InOrder(t.left), t.rec, InOrder(t.right), n);
      LinkAbove(t.left, rec, n);
      LinkAbove(t.right, rec, n);
      var l := Link(t, rec);
      AllAboveJoin(InOrder(l.left), l.rec, InOrder(l.right), n);
    }
  }

  lemma {:induction false} LinkOrdered(t: Tree, rec: Record)
    requires Ordered(t)
    ensures Ordered(Link(t, rec))
  {
    if t != Leaf {
      HeldBySide(t, rec.name);
      var c, l := StrCmp(rec.name, t.rec.name), Link(t, rec);
      if c < 0 {
        LinkOrdered(t.left, rec);
        LinkBelow(t.left, rec, t.rec.name);
        SortedJoin(InOrder(l.left), l.rec, InOrder(l.right));
      } else if c > 0 {
        StrCmpFlip(t.rec.name, rec.name);
        LinkOrdered(t.right, rec);
        LinkAbove(t.right, rec, t.rec.name);
        SortedJoin(InOrder(l.left), l.rec, InOrder(l.right));
      }
    }
  }

  /** A new name is added; every name already held keeps its record. */
  lemma {:induction false} LinkHolds(t: Tree, rec: Record, n: Name)
    requires Ordered(t)
    ensures Held(Link(t, rec), n) ==
            if Held(t, n).Some? then Held(t, n) else if n == rec.name then Some(rec) else None
  {
    if t == Leaf {
      AssocAround([], rec, [], n);
      assert [] + [rec] + [] == [rec];
    } else {
      HeldBySide(t, n);
      HeldBySide(t, rec.name);
      LinkOrdered(t, rec);
      HeldBySide(Link(t, rec), n);
      LinkHolds(t.left, rec, n);
      LinkHolds(t.right, rec, n);
    }
  }

  // ---------------------------------------------------------------- rotations

  datatype Rotation = Rotation(path: seq<bool>, toRight: bool)

  /** Rotates the root if it has the child that moves up. */
  function RotateRoot(t: Tree, toRight: bool): Tree {
    if t == Leaf then t
    else if toRight then
      if t.left == Leaf then t
      else Node(t.left.left, t.left.rec, Node(t.left.right, t.rec, t.right))
    else
      if t.right == Leaf then t
      else Node(Node(t.left, t.rec, t.right.left), t.right.rec, t.right.right)
  }

  function Rotate(t: Tree, path: seq<bool>, toRight: bool): Tree {
    if path == [] || t == Leaf then RotateRoot(t, toRight)
    else if path[0] then t.(right := Rotate(t.right, path[1..], toRight))
    else t.(left := Rotate(t.left, path[1..], toRight))
  }

  /** `rb_insert_color`, as far as the source shows it: some finite series of rotations. */
  function Rebalance(t: Tree, rots: seq<Rotation>): Tree
    decreases |rots|
  {
    if rots == [] then t else Rebalance(Rotate(t, rots[0].path, rots[0].toRight), rots[1..])
  }

  /** At the root the child moves up, and the opposite rotation undoes it. */
  lemma {:induction false} RotationUndone(a: Tree, x: Record, b: Tree, y: Record, c: Tree)
    ensures var leftHigh, rightHigh := Node(Node(a, x, b), y, c), Node(a, x, Node(b, y, c));
            RotateRoot(leftHigh, true) == rightHigh && RotateRoot(rightHigh, false) == leftHigh
  {
  }

  /** A rotation further down changes the subtree found there and nothing else. */
  lemma {:induction false} RotateIsLocal(t: Tree, path: seq<bool>, toRight: bool)
    ensures Rotate(t, path, toRight) == Graft(t, path, RotateRoot(Subtree(t, path), toRight))
    decreases |path|
  {
    if path != [] && t != Leaf {
      RotateIsLocal(if path[0] then t.right else t.left, path[1..], toRight);
    }
  }

  lemma {:induction false} RotateRootInOrder(t: Tree, toRight: bool)
    ensures InOrder(RotateRoot(t, toRight)) == InOrder(t)
  {
    if t.Node? && toRight && t.left.Node? {
      var a, x, b, y, c := InOrder(t.left.left), t.left.rec, InOrder(t.left.right), t.rec, InOrder(t.right);
      assert (a + [x] + b) + [y] + c == a + [x] + (b + [y] + c);
    } else if t.Node? && !toRight && t.right.Node? {
      var a, x, b, y, c := InOrder(t.left), t.rec, InOrder(t.right.left), t.right.rec, InOrder(t.right.right);
      assert (a + [x] + b) + [y] + c == a + [x] + (b + [y] + c);
    }
  }

  lemma {:induction false} RotateInOrder(t: Tree, path: seq<bool>, toRight: bool)
    ensures InOrder(Rotate(t, path, toRight)) == InOrder(t)
  {
    if path == [] || t == Leaf {
      RotateRootInOrder(t, toRight);
    } else if path[0] {
      RotateInOrder(t.right, path[1..], toRight);
    } else {
      RotateInOrder(t.left, path[1..], toRight);
    }
  }

  /** Rebalancing by any rotations keeps the sequence of records, hence order and map. */
  lemma {:induction false} RebalanceInOrder(t: Tree, rots: seq<Rotation>)
    ensures InOrder(Rebalance(t, rots)) == InOrder(t)
    decreases |rots|
  {
    if rots != [] {
      RotateInOrder(t, rots[0].path, rots[0].toRight);
      RebalanceInOrder(Rotate(t, rots[0].path, rots[0].toRight), rots[1..]);
    }
  }

  /** The walk of `insert_dr` ends at the place where `Link` attaches, or at a record of that name. */
  method FindPlace(root: Tree, data: Record) returns (path: seq<bool>, known: bool)
    requires Ordered(root)
    ensures known == Held(root, data.name).Some?
    ensures !known ==> Graft(root, path, Node(Leaf, data, Leaf)) == Link(root, data)
  {
    var cur := root;
    path := [];
    while cur != Leaf
      invariant cur == Subtree(root, path) && Link(root, data) == Graft(root, path, Link(cur, data))
      invariant Ordered(cur) && Held(root, data.name) == Held(cur, data.name)
      decreases cur
    {
      var result := StrCmp(data.name, cur.rec.name);
      HeldBySide(cur, data.name);
      if result < 0 {
        GraftDeeper(root, path, false, Link(cur.left, data));
        path := path + [false];
        cur := cur.left;
      } else if result > 0 {
        GraftDeeper(root, path, true, Link(cur.right, data));
        path := path + [true];
        cur := cur.right;
      } else {
        return path, true;
      }
    }
    return path, false;
  }

  /** `insert_dr`; `rots` is what the rebalancing chooses to do. */
  method Insert(root: Tree, data: Record, rots: seq<Rotation>) returns (t: Tree, added: bool)
    requires Ordered(root)
    ensures Ordered(t) && added == Held(root, data.name).None?
    ensures forall n :: Held(t, n) == if added && n == data.name then Some(data) else Held(root, n)
  {
    var path, known := FindPlace(root, data);
    if known {
      return root, false;
    }
    var linked := Graft(root, path, Node(Leaf, data, Leaf));
    LinkOrdered(root, data);
    RebalanceInOrder(linked, rots);
    forall n
      ensures Held(linked, n) == if n == data.name then Some(data) else Held(root, n)
    {
      LinkHolds(root, data, n);
    }
    return Rebalance(linked, rots), true;
  }
}
