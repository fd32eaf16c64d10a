/**
  The binary search tree of `_snippets/B-trees.c`: nodes on the heap whose left and right
  pointers are rewired in place.

  A ghost value of type Tree records which node stands where; a ghost value of type Context
  records the path from the root to the place where a loop is working.
*/
module TreeShapes {

  class Node {
    const data: int
    var left: Node?
    var right: Node?

    constructor (v: int)
      ensures data == v && left == null && right == null
    {
      data := v;
      left, right := null, null;
    }
  }

  datatype Tree = Nil | Fork(l: Tree, n: Node, r: Tree)

  /** The nodes of a tree from left to right. */
  ghost function Order(t: Tree): seq<Node> {
    match t
    case Nil => []
    case Fork(l, n, r) => Order(l) + [n] + Order(r)
  }

  ghost function Nodes(t: Tree): set<Node> {
    match t
    case Nil => {}
    case Fork(l, n, r) => Nodes(l) + {n} + Nodes(r)
  }

  ghost function Size(t: Tree): nat {
    match t
    case Nil => 0
    case Fork(l, _, r) => Size(l) + 1 + Size(r)
  }

  /** Pointer p is the root of t: the links on the heap are those of t and no node is shared. */
  ghost predicate Rep(p: Node?, t: Tree)
    reads Nodes(t)
  {
    match t
    case Nil => p == null
    case Fork(l, n, r) =>
      && p == n
      && n !in Nodes(l) && n !in Nodes(r) && Nodes(l) !! Nodes(r)
      && Rep(n.left, l) && Rep(n.right, r)
  }

  /** A tree with one missing subtree, given by the path from the hole upward. */
  datatype Context = Top | InLeft(up: Context, n: Node, r: Tree) | InRight(up: Context, l: Tree, n: Node)

  ghost function Plug(c: Context, t: Tree): Tree {
    match c
    case Top => t
    case InLeft(up, n, r) => Plug(up, Fork(t, n, r))
    case InRight(up, l, n) => Plug(up, Fork(l, n, t))
  }

  ghost function ContextNodes(c: Context): set<Node> {
    match c
    case Top => {}
    case InLeft(up, n, r) => ContextNodes(up) + {n} + Nodes(r)
    case InRight(up, l, n) => ContextNodes(up) + {n} + Nodes(l)
  }

  /** The nodes to the left and to the right of the hole. */
  ghost function Before(c: Context): seq<Node> {
    match c
    case Top => []
    case InLeft(up, _, _) => Before(up)
    case InRight(up, l, n) => Before(up) + Order(l) + [n]
  }

  ghost function After(c: Context): seq<Node> {
    match c
    case Top => []
    case InLeft(up, n, r) => [n] + Order(r) + After(up)
    case InRight(up, _, _) => After(up)
  }

  /** The node right above the hole. */
  ghost function Parent(c: Context): Node? {
    match c
    case Top => null
    case InLeft(_, n, _) => n
    case InRight(_, _, n) => n
  }

  /** Starting from pointer root, the links of c lead to pointer p at the hole. */
  ghost predicate Leads(root: Node?, c: Context, p: Node?)
    reads ContextNodes(c)
  {
    match c
    case Top => root == p
    case InLeft(up, n, r) =>
      && n !in Nodes(r) && n !in ContextNodes(up) && Nodes(r) !! ContextNodes(up)
      && n.left == p && Rep(n.right, r) && Leads(root, up, n)
    case InRight(up, l, n) =>
      && n !in Nodes(l) && n !in ContextNodes(up) && Nodes(l) !! ContextNodes(up)
      && n.right == p && Rep(n.left, l) && Leads(root, up, n)
  }

  /** Filling the hole with a tree that stands there gives a tree that stands at the root. */
  lemma {:induction false} PlugRep(root: Node?, c: Context, p: Node?, t: Tree)
    requires Leads(root, c, p) && Rep(p, t) && Nodes(t) !! ContextNodes(c)
    ensures Rep(root, Plug(c, t)) && Nodes(Plug(c, t)) == Nodes(t) + ContextNodes(c)
    decreases c
  {
    match c
    case Top =>
    case InLeft(up, n, r) => PlugRep(root, up, n, Fork(t, n, r));
    case InRight(up, l, n) => PlugRep(root, up, n, Fork(l, n, t));
  }

  lemma RootIn(p: Node?, t: Tree)
    requires Rep(p, t)
    ensures p == null <==> t == Nil
    ensures p != null ==> p in Nodes(t) && p in Order(t)
  {
  }

  lemma RootFork(p: Node, t: Tree)
    requires Rep(p, t)
    ensures t.Fork? && t.n == p && Rep(p.left, t.l) && Rep(p.right, t.r)
  {
  }

  lemma {:induction false} PlugOrder(c: Context, t: Tree)
    ensures Order(Plug(c, t)) == Before(c) + Order(t) + After(c)
    decreases c
  {
    match c
    case Top =>
    case InLeft(up, n, r) => PlugOrder(up, Fork(t, n, r));
    case InRight(up, l, n) => PlugOrder(up, Fork(l, n, t));
  }

  /** Search-tree order. */
  ghost predicate Increasing(s: seq<Node>) {
    forall i, j :: 0 <= i < j < |s| ==> s[i].data < s[j].data
  }

  ghost function KeySet(s: seq<Node>): set<int> {
    set n | n in s :: n.data
  }

  /** v belongs at the hole of c: it lies between the keys on its two sides along the path. */
  ghost predicate Fits(c: Context, v: int) {
    match c
    case Top => true
    case InLeft(up, n, _) => v < n.data && Fits(up, v)
    case InRight(up, _, n) => n.data < v && Fits(up, v)
  }

  lemma IncreasingParts(a: seq<Node>, b: seq<Node>)
    requires Increasing(a + b)
    ensures Increasing(a) && Increasing(b)
    ensures forall x, y :: x in a && y in b ==> x.data < y.data
  {
    forall i, j | 0 <= i < j < |a| ensures a[i].data < a[j].data {
      assert (a + b)[i] == a[i] && (a + b)[j] == a[j];
    }
    forall i, j | 0 <= i < j < |b| ensures b[i].data < b[j].data {
      assert (a + b)[i + |a|] == b[i] && (a + b)[j + |a|] == b[j];
    }
    forall x, y | x in a && y in b ensures x.data < y.data {
      var i :| 0 <= i < |a| && a[i] == x;
      var j :| 0 <= j < |b| && b[j] == y;
      assert (a + b)[i] == x && (a + b)[j + |a|] == y;
    }
  }

  lemma IncreasingJoin(a: seq<Node>, b: seq<Node>)
    requires Increasing(a) && Increasing(b)
    requires forall x, y :: x in a && y in b ==> x.data < y.data
    ensures Increasing(a + b)
  {
    var s := a + b;
    forall i, j | 0 <= i < j < |s| ensures s[i].data < s[j].data {
      if j < |a| {
        assert s[i] == a[i] && s[j] == a[j];
      } else if |a| <= i {
        assert s[i] == b[i - |a|] && s[j] == b[j - |a|];
      } else {
        assert s[i] == a[i] && s[j] == b[j - |a|];
        assert a[i] in a && b[j - |a|] in b;
      }
    }
  }

  /** Dropping a middle stretch keeps the order. */
  lemma IncreasingDrop(a: seq<Node>, b: seq<Node>, c: seq<Node>)
    requires Increasing(a + b + c)
    ensures Increasing(a + c)
  {
    hide Increasing;
    IncreasingParts(a + b, c);
    IncreasingParts(a, b);
    IncreasingJoin(a, c);
  }

  /** A key that fits at the hole separates the nodes before it from those after it. */
  lemma {:induction false} FitsBounds(c: Context, v: int)
    requires Increasing(Before(c) + After(c)) && Fits(c, v)
    ensures forall n :: n in Before(c) ==> n.data < v
    ensures forall n :: n in After(c) ==> v < n.data
    decreases c
  {
    hide Increasing;
    match c
    case Top =>
    case InLeft(up, n, r) =>
      assert Before(c) + After(c) == Before(up) + ([n] + Order(r)) + After(up);
      IncreasingDrop(Before(up), [n] + Order(r), After(up));
      FitsBounds(up, v);
      IncreasingParts(Before(c), After(c));
      assert After(c) == [n] + (Order(r) + After(up));
      IncreasingParts([n], Order(r) + After(up));
    case InRight(up, l, n) =>
      assert Before(c) + After(c) == Before(up) + (Order(l) + [n]) + After(up);
      IncreasingDrop(Before(up), Order(l) + [n], After(up));
      FitsBounds(up, v);
      IncreasingParts(Before(c), After(c));
      assert Before(c) == (Before(up) + Order(l)) + [n];
      IncreasingParts(Before(up) + Order(l), [n]);
  }

  /** Where a key can be, seen from one node of a search tree. */
  lemma WhichSide(l: Tree, n: Node, r: Tree, v: int)
    requires Increasing(Order(Fork(l, n, r)))
    ensures v < n.data ==> (v in KeySet(Order(Fork(l, n, r))) <==> v in KeySet(Order(l)))
    ensures n.data < v ==> (v in KeySet(Order(Fork(l, n, r))) <==> v in KeySet(Order(r)))
    ensures Increasing(Order(l)) && Increasing(Order(r))
  {
    hide Increasing;
    assert Order(Fork(l, n, r)) == (Order(l) + [n]) + Order(r);
    IncreasingParts(Order(l) + [n], Order(r));
    IncreasingParts(Order(l), [n]);
    assert n in Order(l) + [n];
    assert n in [n];
  }
}

/** What removal does to the shape of a search tree. */
module Removal {
  import opened TreeShapes

  ghost function MaxNode(t: Tree): Node
    requires t.Fork?
  {
    if t.r.Nil? then t.n else MaxNode(t.r)
  }

  /** The subtree hanging from the greatest node; it hangs on its left. */
  ghost function MaxOwn(t: Tree): Tree
    requires t.Fork?
  {
    if t.r.Nil? then t.l else MaxOwn(t.r)
  }

  /** The tree without its greatest node and what hangs from that. */
  ghost function CutMax(t: Tree): Tree
    requires t.Fork?
  {
    if t.r.Nil? then Nil else Fork(t.l, t.n, CutMax(t.r))
  }

  ghost function MinNode(t: Tree): Node
    requires t.Fork?
  {
    if t.l.Nil? then t.n else MinNode(t.l)
  }

  ghost function MinOwn(t: Tree): Tree
    requires t.Fork?
  {
    if t.l.Nil? then t.r else MinOwn(t.l)
  }

  ghost function CutMin(t: Tree): Tree
    requires t.Fork?
  {
    if t.l.Nil? then Nil else Fork(CutMin(t.l), t.n, t.r)
  }

  lemma {:induction false} MaxParts(t: Tree)
    requires t.Fork?
    ensures Order(t) == Order(CutMax(t)) + Order(MaxOwn(t)) + [MaxNode(t)]
    ensures Nodes(t) == Nodes(CutMax(t)) + Nodes(MaxOwn(t)) + {MaxNode(t)}
  {
    if t.r.Fork? { MaxParts(t.r); }
  }

  lemma {:induction false} MinParts(t: Tree)
    requires t.Fork?
    ensures Order(t) == [MinNode(t)] + Order(MinOwn(t)) + Order(CutMin(t))
    ensures Nodes(t) == Nodes(CutMin(t)) + Nodes(MinOwn(t)) + {MinNode(t)}
  {
    if t.l.Fork? { MinParts(t.l); }
  }

  /** The nearer of the two neighbouring keys substitutes for the root; ties go to the left. */
  ghost predicate RightIsNearer(t: Tree)
    requires t.Fork? && t.l.Fork? && t.r.Fork?
  {
    t.n.data - MaxNode(t.l).data > MinNode(t.r).data - t.n.data
  }

  /** The tree left when its root is removed. */
  ghost function WithoutRoot(t: Tree): Tree
    requires t.Fork?
  {
    if t.l.Nil? then t.r
    else if t.r.Nil? then t.l
    else if RightIsNearer(t) then Fork(t.l, MinNode(t.r), CutMin(t.r))
    else Fork(CutMax(t.l), MaxNode(t.l), t.r)
  }

  /** What hangs from the substitute; removal overwrites the substitute's links and so drops it. */
  ghost function SubstituteOwn(t: Tree): Tree
    requires t.Fork?
  {
    if t.l.Nil? || t.r.Nil? then Nil
    else if RightIsNearer(t) then MinOwn(t.r)
    else MaxOwn(t.l)
  }

  ghost function Without(t: Tree, v: int): Tree {
    match t
    case Nil => Nil
    case Fork(l, n, r) =>
      if v < n.data then Fork(Without(l, v), n, r)
      else if n.data < v then Fork(l, n, Without(r, v))
      else WithoutRoot(t)
  }

  /*
   Which node takes the place of the removed one, said by distances of keys.
   */

  /** The subtree at whose root v is, found by searching. */
  ghost function NodeAt(t: Tree, v: int): Tree {
    match t
    case Nil => Nil
    case Fork(l, n, r) => if v < n.data then NodeAt(l, v) else if n.data < v then NodeAt(r, v) else t
  }

  /** The subtree of the second tree that stands where v is in the first one. */
  ghost function PlaceOf(t: Tree, now: Tree, v: int): Tree {
    match t
    case Nil => now
    case Fork(l, n, r) =>
      if v == n.data || now.Nil? then now
      else if v < n.data then PlaceOf(l, now.l, v)
      else PlaceOf(r, now.r, v)
  }

  function Distance(a: int, b: int): int { if a < b then b - a else a - b }

  /** s is nearer to v than k is, or as near and not greater. */
  predicate NotFarther(v: int, s: int, k: int) {
    Distance(s, v) < Distance(k, v) || (Distance(s, v) == Distance(k, v) && s <= k)
  }

  /** At the root of u is now the node of t whose key was next to the root's, the smaller one on a tie. */
  ghost predicate NearestTookOver(t: Tree, u: Tree)
    requires t.Fork?
  {
    && u.Fork? && u.n in Order(t) && u.n != t.n
    && forall k :: k in Order(t) && k != t.n ==> NotFarther(t.n.data, u.n.data, k.data)
  }

  lemma RootNearest(t: Tree)
    requires t.Fork? && t.l.Fork? && t.r.Fork? && Increasing(Order(t))
    ensures NearestTookOver(t, WithoutRoot(t))
  {
    hide Increasing, Order, MaxNode, MinNode;
    SidesOfRoot(t);
    GreatestOf(t.l);
    LeastOf(t.r);
    forall k | k in Order(t) && k != t.n ensures NotFarther(t.n.data, WithoutRoot(t).n.data, k.data) {
      OnOneSide(t, k);
    }
    assert WithoutRoot(t).n in Order(t) by { OnOneSide(t, WithoutRoot(t).n); }
  }

  lemma OnOneSide(t: Tree, k: Node)
    requires t.Fork?
    ensures k in Order(t) <==> k in Order(t.l) || k == t.n || k in Order(t.r)
  {
  }

  lemma SidesOfRoot(t: Tree)
    requires t.Fork? && Increasing(Order(t))
    ensures forall k :: k in Order(t.l) ==> k.data < t.n.data
    ensures forall k :: k in Order(t.r) ==> t.n.data < k.data
    ensures Increasing(Order(t.l)) && Increasing(Order(t.r))
  {
    hide Increasing;
    IncreasingParts(Order(t.l) + [t.n], Order(t.r));
    IncreasingParts(Order(t.l), [t.n]);
    assert t.n in Order(t.l) + [t.n] && t.n in [t.n];
  }

  lemma GreatestOf(t: Tree)
    requires t.Fork? && Increasing(Order(t))
    ensures MaxNode(t) in Order(t) && forall k :: k in Order(t) ==> k.data <= MaxNode(t).data
  {
    hide Increasing, Order, MaxNode;
    MaxParts(t);
    IncreasingParts(Order(CutMax(t)) + Order(MaxOwn(t)), [MaxNode(t)]);
    assert MaxNode(t) in [MaxNode(t)];
  }

  lemma LeastOf(t: Tree)
    requires t.Fork? && Increasing(Order(t))
    ensures MinNode(t) in Order(t) && forall k :: k in Order(t) ==> MinNode(t).data <= k.data
  {
    hide Increasing, Order, MinNode;
    MinParts(t);
    var rest := Order(MinOwn(t)) + Order(CutMin(t));
    assert Order(t) == [MinNode(t)] + rest;
    IncreasingParts([MinNode(t)], rest);
    assert MinNode(t) in [MinNode(t)];
  }

  /** Removing a key with two children puts the nearest key of its subtree in its place. */
  lemma {:induction false} NearestSubstitutes(t: Tree, v: int)
    requires Increasing(Order(t))
    ensures var u := NodeAt(t, v);
            u.Fork? && u.l.Fork? && u.r.Fork? ==> u.n.data == v && NearestTookOver(u, PlaceOf(t, Without(t, v), v))
    ensures var u := NodeAt(t, v);
            u.Fork? && (u.l.Nil? || u.r.Nil?) ==> PlaceOf(t, Without(t, v), v) == if u.l.Nil? then u.r else u.l
  {
    hide Increasing, Order, NearestTookOver, WithoutRoot;
    match t
    case Nil =>
    case Fork(l, n, r) =>
      SidesOfRoot(t);
      if v < n.data {
        NearestSubstitutes(l, v);
      } else if n.data < v {
        NearestSubstitutes(r, v);
      } else {
        if l.Fork? && r.Fork? { RootNearest(t); } else { OneChildStays(t); }
      }
  }

  lemma OneChildStays(t: Tree)
    requires t.Fork? && (t.l.Nil? || t.r.Nil?)
    ensures WithoutRoot(t) == if t.l.Nil? then t.r else t.l
  {
  }

  /** The subtree that removing v drops along with v. */
  ghost function Dropped(t: Tree, v: int): Tree {
    match t
    case Nil => Nil
    case Fork(l, n, r) =>
      if v < n.data then Dropped(l, v) else if n.data < v then Dropped(r, v) else SubstituteOwn(t)
  }

  lemma {:induction false} WithoutUnderContext(c: Context, t: Tree, v: int)
    requires Fits(c, v)
    ensures Without(Plug(c, t), v) == Plug(c, Without(t, v))
    ensures Dropped(Plug(c, t), v) == Dropped(t, v)
    decreases c
  {
    match c
    case Top =>
    case InLeft(up, n, r) => WithoutUnderContext(up, Fork(t, n, r), v);
    case InRight(up, l, n) => WithoutUnderContext(up, Fork(l, n, t), v);
  }

  /** Dropping a middle stretch of an increasing sequence takes away just its keys. */
  lemma MiddleDrop(p: seq<Node>, q: seq<Node>, u: seq<Node>)
    requires Increasing(p + q + u)
    ensures Increasing(p + u)
    ensures KeySet(p + u) == KeySet(p + q + u) - KeySet(q)
  {
    hide Increasing;
    IncreasingDrop(p, q, u);
    IncreasingParts(p + q, u);
    IncreasingParts(p, q);
  }

  /** Removing the root of a subtree drops its key and the keys hanging from the substitute. */
  ghost predicate DropsOnly(pre: seq<Node>, t: Tree, post: seq<Node>)
    requires t.Fork?
  {
    && Increasing(pre + Order(WithoutRoot(t)) + post)
    && KeySet(pre + Order(WithoutRoot(t)) + post) ==
       KeySet(pre + Order(t) + post) - {t.n.data} - KeySet(Order(SubstituteOwn(t)))
  }

  lemma RootRemoved(pre: seq<Node>, t: Tree, post: seq<Node>)
    requires t.Fork? && Increasing(pre + Order(t) + post)
    ensures DropsOnly(pre, t, post)
  {
    hide Increasing, DropsOnly, Order;
    if t.l.Nil? || t.r.Nil? {
      OneChildRemoved(pre, t, post);
    } else if RightIsNearer(t) {
      MinSubstituted(pre, t, post);
    } else {
      MaxSubstituted(pre, t, post);
    }
  }

  lemma OneChildRemoved(pre: seq<Node>, t: Tree, post: seq<Node>)
    requires t.Fork? && Increasing(pre + Order(t) + post) && (t.l.Nil? || t.r.Nil?)
    ensures DropsOnly(pre, t, post)
  {
    hide Increasing, KeySet;
    var L, R := Order(t.l), Order(t.r);
    assert Order(WithoutRoot(t)) == L + R;
    Around(pre, L, t.n, R, post);
    MiddleDrop(pre + L, [t.n], R + post);
    SingleKey(t.n);
    NoKeys();
  }

  lemma Around(pre: seq<Node>, l: seq<Node>, n: Node, r: seq<Node>, post: seq<Node>)
    ensures pre + (l + [n] + r) + post == (pre + l) + [n] + (r + post)
    ensures pre + (l + r) + post == (pre + l) + (r + post)
  {
  }

  lemma MinSubstituted(pre: seq<Node>, t: Tree, post: seq<Node>)
    requires t.Fork? && Increasing(pre + Order(t) + post) && t.l.Fork? && t.r.Fork? && RightIsNearer(t)
    ensures DropsOnly(pre, t, post)
  {
    hide Increasing, KeySet;
    MinParts(t.r);
    var L, m, d, b := Order(t.l), MinNode(t.r), Order(MinOwn(t.r)), Order(CutMin(t.r));
    RegroupMin(pre, L, [t.n], [m], d, b, post);
    assert pre + Order(WithoutRoot(t)) + post == (pre + L) + [m] + (b + post);
    DropAroundMin(pre + L, t.n, m, d, b + post);
  }

  lemma RegroupMin(p: seq<Node>, l: seq<Node>, n: seq<Node>, m: seq<Node>, d: seq<Node>, b: seq<Node>, q: seq<Node>)
    ensures p + (l + n + (m + d + b)) + q == (p + l) + n + m + d + (b + q)
  {
  }

  lemma Regroup(p: seq<Node>, a: seq<Node>, d: seq<Node>, m: seq<Node>, n: seq<Node>, r: seq<Node>, q: seq<Node>)
    ensures p + ((a + d + m) + n + r) + q == (p + a) + d + m + n + (r + q)
  {
  }

  lemma MaxSubstituted(pre: seq<Node>, t: Tree, post: seq<Node>)
    requires t.Fork? && Increasing(pre + Order(t) + post) && t.l.Fork? && t.r.Fork? && !RightIsNearer(t)
    ensures DropsOnly(pre, t, post)
  {
    hide Increasing, KeySet;
    MaxParts(t.l);
    var R, m, d, a := Order(t.r), MaxNode(t.l), Order(MaxOwn(t.l)), Order(CutMax(t.l));
    Regroup(pre, a, d, [m], [t.n], R, post);
    assert pre + Order(WithoutRoot(t)) + post == (pre + a) + [m] + (R + post);
    DropAroundMax(pre + a, d, m, t.n, R + post);
  }

  lemma DropAroundMin(p: seq<Node>, n: Node, m: Node, d: seq<Node>, u: seq<Node>)
    requires Increasing(p + [n] + [m] + d + u)
    ensures Increasing(p + [m] + u)
    ensures KeySet(p + [m] + u) == KeySet(p + [n] + [m] + d + u) - {n.data} - KeySet(d)
  {
    hide Increasing, KeySet;
    MiddleDrop(p + [n] + [m], d, u);
    assert (p + [n] + [m]) + u == p + [n] + ([m] + u);
    MiddleDrop(p, [n], [m] + u);
    assert p + ([m] + u) == p + [m] + u;
    SingleKey(n);
  }

  lemma DropAroundMax(a: seq<Node>, d: seq<Node>, m: Node, n: Node, u: seq<Node>)
    requires Increasing(a + d + [m] + [n] + u)
    ensures Increasing(a + [m] + u)
    ensures KeySet(a + [m] + u) == KeySet(a + d + [m] + [n] + u) - {n.data} - KeySet(d)
  {
    hide Increasing, KeySet;
    assert a + d + [m] + [n] + u == a + d + ([m] + [n] + u);
    MiddleDrop(a, d, [m] + [n] + u);
    assert a + ([m] + [n] + u) == (a + [m]) + [n] + u;
    MiddleDrop(a + [m], [n], u);
    SingleKey(n);
  }

  lemma SingleKey(n: Node)
    ensures KeySet([n]) == {n.data}
  {
  }

  lemma NoKeys()
    ensures KeySet([]) == {}
  {
  }

  /** A removal that is not exact: the substitute for 3 is 2, and the key 1 below it is lost. */
  lemma RemovalLoses(a: Node, b: Node, c: Node, d: Node)
    requires a.data == 1 && b.data == 2 && c.data == 3 && d.data == 5
    ensures var t := Fork(Fork(Fork(Nil, a, Nil), b, Nil), c, Fork(Nil, d, Nil));
            && Increasing(Order(t))
            && Without(t, 3) == Fork(Nil, b, Fork(Nil, d, Nil))
            && Dropped(t, 3) == Fork(Nil, a, Nil)
  {
    var l := Fork(Fork(Nil, a, Nil), b, Nil);
    var t := Fork(l, c, Fork(Nil, d, Nil));
    assert Order(l) == Order(Fork(Nil, a, Nil)) + [b] + Order(Nil) == [a, b];
    assert Order(t) == Order(l) + [c] + Order(Fork(Nil, d, Nil)) == [a, b, c, d];
  }

}

module SearchTrees {
  import opened TreeShapes
  import opened Removal

  class SearchTree {
    var root: Node?
    ghost var shape: Tree
    ghost var repr: set<Node>

    ghost predicate Valid()
      reads this, repr
    {
      repr == Nodes(shape) && Rep(root, shape) && Increasing(Order(shape))
    }

    /** The set of keys the tree stands for. */
    ghost function Contents(): set<int>
      reads this
    {
      KeySet(Order(shape))
    }

    constructor ()
      ensures Valid() && Contents() == {} && shape == Nil
    {
      root, shape, repr := null, Nil, {};
    }

    /** One step of a search: the node itself if it holds v, else the child on v's side. */
    static function Get(node: Node, v: int): Node?
      reads node
    {
      if node.data == v then node else if node.data > v then node.left else node.right
    }

    /**
      Finds the node holding v, and its parent; when there is none, the parent is the node
      below which v would be attached. The ghost results locate both in the tree.
     */
    method Search(v: int) returns (node: Node?, prev: Node?, ghost c: Context, ghost t: Tree)
      requires Valid()
      ensures node != null <==> v in Contents()
      ensures node != null ==> node.data == v && node in repr
      ensures shape == Plug(c, t) && Leads(root, c, node) && Rep(node, t) && Nodes(t) !! ContextNodes(c)
      ensures prev == Parent(c) && Fits(c, v) && repr == Nodes(t) + ContextNodes(c)
    {
      c, t := Top, shape;
      if root == null { RootIn(root, shape); return null, null, c, t; }
      var p: Node := root;
      node := Get(p, v);
      if p.data != v {
        Descend(root, c, t, p, v);
        c, t := WayDown(c, t, v), SideOf(t, v);
      }
      while node != null && node.data != v
        invariant shape == Plug(c, t) && Leads(root, c, node) && Rep(node, t) && Nodes(t) !! ContextNodes(c)
        invariant Fits(c, v) && Increasing(Order(t))
        invariant v in Contents() <==> v in KeySet(Order(t))
        invariant if p.data == v then c == Top && node == p else Parent(c) == p && p in ContextNodes(c)
        decreases t
      {
        Descend(root, c, t, node, v);
        c, t := WayDown(c, t, v), SideOf(t, v);
        p := node;
        node := Get(node, v);
      }
      RootIn(node, t);
      PlugRep(root, c, node, t);
      if v in KeySet(Order(t)) { assert node != null; }
      prev := if p != node then p else null;
    }

    /** Adds v unless it is there already; returns its node. */
    method Insert(v: int) returns (node: Node)
      requires Valid()
      modifies this, repr
      ensures Valid() && fresh(repr - old(repr))
      ensures Contents() == old(Contents()) + {v}
      ensures node.data == v && node in repr
      ensures v in old(Contents()) ==> shape == old(shape)
    {
      hide Increasing, KeySet, Order, Plug, Fits, Rep, Leads, ContextNodes, Contents, Valid;
      ValidFacts();
      var found, closest, c, t := Search(v);
      if found != null { return found; }
      RootIn(found, t);
      node := new Node(v);
      ParentIn(c);
      Attach(node, closest, v, c);
      shape := Plug(c, Fork(Nil, node, Nil));
      repr := repr + {node};
      Attached(root, c, node, v);
      MakeValid();
    }

    /** Links the new node below the closest one, or makes it the root. */
    method Attach(node: Node, closest: Node?, v: int, ghost c: Context)
      requires Leads(root, c, null) && closest == Parent(c) && Fits(c, v) && ContextNodes(c) <= repr
      requires node !in ContextNodes(c)
      modifies this`root, closest
      ensures Leads(root, c, node)
    {
      if closest == null {
        root := node;
      } else if closest.data > v {
        closest.left := node;
      } else {
        closest.right := node;
      }
    }

    /** A new leaf at the place where the search for its key ended. */
    static lemma Attached(root: Node?, c: Context, node: Node, v: int)
      requires Leads(root, c, node) && node !in ContextNodes(c)
      requires node.data == v && node.left == null && node.right == null
      requires Increasing(Order(Plug(c, Nil))) && Fits(c, v)
      ensures var t := Plug(c, Fork(Nil, node, Nil));
              && Rep(root, t) && Increasing(Order(t)) && Nodes(t) == ContextNodes(c) + {node}
              && KeySet(Order(t)) == KeySet(Order(Plug(c, Nil))) + {v}
    {
      hide Increasing, KeySet, Fits;
      PlugRep(root, c, node, Fork(Nil, node, Nil));
      PlugOrder(c, Nil);
      PlugOrder(c, Fork(Nil, node, Nil));
      assert Order(Fork(Nil, node, Nil)) == [node];
      var a, b := Before(c), After(c);
      assert Order(Plug(c, Nil)) == a + b;
      FitsBounds(c, v);
      JoinedBetween(a, node, b);
    }

    static lemma JoinedBetween(a: seq<Node>, node: Node, b: seq<Node>)
      requires Increasing(a + b)
      requires forall n :: n in a ==> n.data < node.data
      requires forall n :: n in b ==> node.data < n.data
      ensures Increasing(a + [node] + b) && KeySet(a + [node] + b) == KeySet(a + b) + {node.data}
    {
      hide Increasing;
      IncreasingParts(a, b);
      IncreasingJoin(a, [node]);
      IncreasingJoin(a + [node], b);
    }

    /** The greatest node of the left subtree l of node, and its parent. */
    static method MaxLeaf(node: Node, ghost l: Tree) returns (ret: Node, prev: Node, ghost d: Context)
      requires l.Fork? && Rep(node.left, l)
      ensures ret == MaxNode(l) && Rep(ret, Fork(MaxOwn(l), ret, Nil)) && Plug(d, Nil) == CutMax(l)
      ensures LeftSite(node, l, d, ret, prev)
    {
      ret, prev, d := node.left, node, Top;
      ghost var s := l;
      while ret.right != null
        invariant Leads(node.left, d, ret) && Rep(ret, s) && Nodes(s) !! ContextNodes(d)
        invariant (d.Top? || d.InRight?) && prev == if d.Top? then node else Parent(d)
        invariant Plug(d, CutMax(s)) == CutMax(l) && MaxNode(s) == MaxNode(l) && MaxOwn(s) == MaxOwn(l)
        invariant ContextNodes(d) + Nodes(s) == Nodes(l)
        decreases s
      {
        d, s := InRight(d, s.l, s.n), s.r;
        prev := ret;
        ret := ret.right;
      }
    }

    /** The least node of the right subtree r of node, and its parent. */
    static method MinLeaf(node: Node, ghost r: Tree) returns (ret: Node, prev: Node, ghost d: Context)
      requires r.Fork? && Rep(node.right, r)
      ensures ret == MinNode(r) && Rep(ret, Fork(Nil, ret, MinOwn(r))) && Plug(d, Nil) == CutMin(r)
      ensures RightSite(node, r, d, ret, prev)
    {
      ret, prev, d := node.right, node, Top;
      ghost var s := r;
      while ret.left != null
        invariant Leads(node.right, d, ret) && Rep(ret, s) && Nodes(s) !! ContextNodes(d)
        invariant (d.Top? || d.InLeft?) && prev == if d.Top? then node else Parent(d)
        invariant Plug(d, CutMin(s)) == CutMin(r) && MinNode(s) == MinNode(r) && MinOwn(s) == MinOwn(r)
        invariant ContextNodes(d) + Nodes(s) == Nodes(r)
        decreases s
      {
        d, s := InLeft(d, s.n, s.r), s.l;
        prev := ret;
        ret := ret.left;
      }
    }

    /** Node x with parent p is reached from node's left child by right steps only. */
    static ghost predicate LeftSite(node: Node, l: Tree, d: Context, x: Node, p: Node)
      reads node, ContextNodes(d)
    {
      && Leads(node.left, d, x) && (d.Top? || d.InRight?)
      && p == (if d.Top? then node else Parent(d))
      && ContextNodes(d) + {x} <= Nodes(l) && x !in ContextNodes(d)
    }

    static ghost predicate RightSite(node: Node, r: Tree, d: Context, x: Node, p: Node)
      reads node, ContextNodes(d)
    {
      && Leads(node.right, d, x) && (d.Top? || d.InLeft?)
      && p == (if d.Top? then node else Parent(d))
      && ContextNodes(d) + {x} <= Nodes(r) && x !in ContextNodes(d)
    }

    /** Makes p point to n where it pointed to node. */
    static method Connect(p: Node, n: Node?, node: Node)
      modifies p
      ensures if old(p.left) == node then p.left == n && p.right == old(p.right)
              else p.right == n && p.left == old(p.left)
    {
      if p.left == node { p.left := n; } else { p.right := n; }
    }

    /** Puts next at the place of node, which the context c leads to. */
    method Redirect(prev: Node?, next: Node?, node: Node, ghost c: Context)
      requires Leads(root, c, node) && prev == Parent(c) && node !in ContextNodes(c) && ContextNodes(c) <= repr
      modifies this`root, prev
      ensures Leads(root, c, next)
    {
      if prev == null {
        root := next;
      } else {
        if c.InRight? { RootIn(prev.left, c.l); }
        Connect(prev, next, node);
      }
    }

    /**
      Puts nnew, detached from its parent pnew, at the place of nold and gives it nold's children.
      Whatever hung from nnew is no longer reachable.
     */
    method Substitute(nold: Node, nnew: Node, pold: Node?, pnew: Node,
                      ghost c: Context, ghost t: Tree, ghost d: Context, ghost leftSide: bool)
      requires Leads(root, c, nold) && pold == Parent(c) && repr == Nodes(t) + ContextNodes(c)
      requires Rep(nold, t) && Nodes(t) !! ContextNodes(c) && t.Fork?
      requires if leftSide then LeftSite(nold, t.l, d, nnew, pnew) else RightSite(nold, t.r, d, nnew, pnew)
      modifies this`root, pold, pnew, nnew
      ensures Leads(root, c, nnew)
      ensures Rep(nnew, if leftSide then Fork(Plug(d, Nil), nnew, t.r) else Fork(t.l, nnew, Plug(d, Nil)))
      ensures Nodes(Plug(d, Nil)) == ContextNodes(d)
    {
      hide Plug, Leads, LeftSite, RightSite, ContextNodes;
      ParentIn(c);
      SiteNodes(nold, nnew, pnew, t, d, leftSide);
      Redirect(pold, nnew, nold, c);
      Detach(nold, nnew, pnew, t, d, leftSide);
      assert Leads(root, c, nnew);
      ghost var lt, rt := if leftSide then Plug(d, Nil) else t.l, if leftSide then t.r else Plug(d, Nil);
      Adopt(nold, nnew, lt, rt);
    }

    /** Gives nnew the children of nold. */
    static method Adopt(nold: Node, nnew: Node, ghost lt: Tree, ghost rt: Tree)
      requires Rep(nold.left, lt) && Rep(nold.right, rt) && nold != nnew
      requires nnew !in Nodes(lt) && nnew !in Nodes(rt) && Nodes(lt) !! Nodes(rt)
      modifies nnew
      ensures Rep(nnew, Fork(lt, nnew, rt))
    {
      nnew.left := nold.left;
      nnew.right := nold.right;
    }

    static lemma SiteNodes(nold: Node, nnew: Node, pnew: Node, t: Tree, d: Context, leftSide: bool)
      requires Rep(nold, t) && t.Fork?
      requires if leftSide then LeftSite(nold, t.l, d, nnew, pnew) else RightSite(nold, t.r, d, nnew, pnew)
      ensures pnew in Nodes(t) && nnew in Nodes(t) && nnew != nold && nnew !in ContextNodes(d) && ContextNodes(d) <= Nodes(t)
      ensures if leftSide then nnew !in Nodes(t.r) && ContextNodes(d) !! Nodes(t.r)
              else nnew !in Nodes(t.l) && ContextNodes(d) !! Nodes(t.l)
    {
    }

    /** Takes nnew, with all that hangs from it, out of the subtree it is in. */
    method Detach(nold: Node, nnew: Node, pnew: Node, ghost t: Tree, ghost d: Context, ghost leftSide: bool)
      requires Rep(nold, t) && t.Fork? && Nodes(t) <= repr
      requires if leftSide then LeftSite(nold, t.l, d, nnew, pnew) else RightSite(nold, t.r, d, nnew, pnew)
      modifies pnew
      ensures Rep(nold.left, if leftSide then Plug(d, Nil) else t.l)
      ensures Rep(nold.right, if leftSide then t.r else Plug(d, Nil))
      ensures Nodes(Plug(d, Nil)) == ContextNodes(d)
    {
      if d.InRight? { RootIn(pnew.left, d.l); }
      Connect(pnew, null, nnew);
      PlugRep(if leftSide then nold.left else nold.right, d, null, Nil);
    }

    /**
      Removes v. Along with v the tree loses whatever hung from the node that takes v's place,
      so the removal is exact just when nothing did.
     */
    method Remove(v: int)
      requires Valid()
      modifies this, repr
      ensures Valid() && repr <= old(repr)
      ensures shape == Without(old(shape), v)
      ensures var u := NodeAt(old(shape), v);
              u.Fork? && u.l.Fork? && u.r.Fork? ==> NearestTookOver(u, PlaceOf(old(shape), shape, v))
      ensures Contents() == old(Contents()) - {v} - KeySet(Order(Dropped(old(shape), v)))
      ensures Contents() == old(Contents()) - {v} <==> Dropped(old(shape), v) == Nil
    {
      hide *;
      var node, prev, c, t := Search(v);
      ValidFacts();
      NearestSubstitutes(shape, v);
      if node == null {
        NothingRemoved(shape, v);
        return;
      }
      RootFork(node, t);
      ghost var top := Excise(node, prev, c, t);
      PlugRep(root, c, top, WithoutRoot(t));
      WithoutUnderContext(c, t, v);
      WithoutAtRoot(t, v);
      RemovalKeys(c, t);
      shape := Plug(c, WithoutRoot(t));
      repr := Nodes(shape);
      MakeValid();
    }

    lemma ValidFacts()
      requires Valid()
      ensures repr == Nodes(shape) && Increasing(Order(shape)) && Contents() == KeySet(Order(shape))
    {
    }

    lemma MakeValid()
      requires repr == Nodes(shape) && Rep(root, shape) && Increasing(Order(shape))
      ensures Valid() && Contents() == KeySet(Order(shape))
    {
    }

    /** Takes node, the root of t, out of the tree; top is what stands in its place. */
    method Excise(node: Node, prev: Node?, ghost c: Context, ghost t: Tree) returns (ghost top: Node?)
      requires Leads(root, c, node) && Rep(node, t) && t.Fork? && t.n == node && prev == Parent(c)
      requires Nodes(t) !! ContextNodes(c) && repr == Nodes(t) + ContextNodes(c)
      modifies this`root, repr
      ensures Leads(root, c, top) && Rep(top, WithoutRoot(t)) && Nodes(WithoutRoot(t)) <= Nodes(t)
    {
      hide Leads, Plug, LeftSite, RightSite;
      RootIn(node.left, t.l);
      RootIn(node.right, t.r);
      ParentIn(c);
      if node.left == null {
        top := node.right;
        Redirect(prev, node.right, node, c);
        return;
      }
      if node.right == null {
        top := node.left;
        Redirect(prev, node.left, node, c);
        return;
      }
      top := ExciseBoth(node, prev, c, t);
    }

    /** The case of two children: the nearer neighbour takes the place of node. */
    method ExciseBoth(node: Node, prev: Node?, ghost c: Context, ghost t: Tree) returns (ghost top: Node?)
      requires Leads(root, c, node) && Rep(node, t) && t.Fork? && t.n == node && prev == Parent(c)
      requires Nodes(t) !! ContextNodes(c) && repr == Nodes(t) + ContextNodes(c)
      requires t.l.Fork? && t.r.Fork?
      modifies this`root, repr
      ensures Leads(root, c, top) && Rep(top, WithoutRoot(t)) && Nodes(WithoutRoot(t)) <= Nodes(t)
    {
      hide Leads, Plug, LeftSite, RightSite, MaxNode, MinNode, MaxOwn, MinOwn, CutMax, CutMin;
      ParentIn(c);
      var lmax, lmp, ld := MaxLeaf(node, t.l);
      var rmin, rmp, rd := MinLeaf(node, t.r);
      if node.data - lmax.data > rmin.data - node.data {
        SiteNodes(node, rmin, rmp, t, rd, false);
        MinParts(t.r);
        Substitute(node, rmin, prev, rmp, c, t, rd, false);
        top := rmin;
      } else {
        SiteNodes(node, lmax, lmp, t, ld, true);
        MaxParts(t.l);
        Substitute(node, lmax, prev, lmp, c, t, ld, true);
        top := lmax;
      }
    }

    static lemma ParentIn(c: Context)
      ensures Parent(c) != null ==> Parent(c) in ContextNodes(c)
    {
    }

    static lemma NothingRemoved(t: Tree, v: int)
      requires Increasing(Order(t)) && v !in KeySet(Order(t))
      ensures Without(t, v) == t && Dropped(t, v) == Nil && KeySet(Order(Nil)) == {}
    {
      match t
      case Nil =>
      case Fork(l, n, r) =>
        WhichSide(l, n, r, v);
        assert n in Order(t);
    }

    static lemma WithoutAtRoot(t: Tree, v: int)
      requires t.Fork? && t.n.data == v
      ensures Without(t, v) == WithoutRoot(t) && Dropped(t, v) == SubstituteOwn(t)
    {
    }

    static lemma RemovalKeys(c: Context, t: Tree)
      requires t.Fork? && Increasing(Order(Plug(c, t)))
      ensures Increasing(Order(Plug(c, WithoutRoot(t))))
      ensures KeySet(Order(Plug(c, WithoutRoot(t)))) ==
              KeySet(Order(Plug(c, t))) - {t.n.data} - KeySet(Order(SubstituteOwn(t)))
      ensures KeySet(Order(Plug(c, WithoutRoot(t)))) == KeySet(Order(Plug(c, t))) - {t.n.data}
              <==> SubstituteOwn(t) == Nil
    {
      hide Increasing;
      PlugOrder(c, t);
      PlugOrder(c, WithoutRoot(t));
      RootRemoved(Before(c), t, After(c));
      OwnIsElsewhere(c, t);
    }

    /** What hangs from the substitute is made of nodes of the tree other than its root. */
    static lemma OwnIsElsewhere(c: Context, t: Tree)
      requires t.Fork? && Increasing(Order(Plug(c, t)))
      ensures KeySet(Order(SubstituteOwn(t))) <= KeySet(Order(Plug(c, t))) - {t.n.data}
      ensures KeySet(Order(SubstituteOwn(t))) == {} <==> SubstituteOwn(t) == Nil
    {
      hide Increasing, SubstituteOwn, Plug;
      SubtreeOrder(c, t);
      OwnNodes(t);
      var own := SubstituteOwn(t);
      if own.Fork? { assert own.n.data in KeySet(Order(own)); }
    }

    static lemma SubtreeOrder(c: Context, t: Tree)
      requires Increasing(Order(Plug(c, t)))
      ensures Increasing(Order(t))
      ensures forall x :: x in Order(t) ==> x in Order(Plug(c, t))
    {
      hide Increasing;
      PlugOrder(c, t);
      IncreasingParts(Before(c) + Order(t), After(c));
      IncreasingParts(Before(c), Order(t));
    }

    static lemma OwnNodes(t: Tree)
      requires t.Fork? && Increasing(Order(t))
      ensures forall x :: x in Order(SubstituteOwn(t)) ==> x in Order(t) && x.data != t.n.data
      ensures SubstituteOwn(t).Fork? ==> SubstituteOwn(t).n in Order(SubstituteOwn(t))
    {
      hide Increasing;
      IncreasingParts(Order(t.l) + [t.n], Order(t.r));
      IncreasingParts(Order(t.l), [t.n]);
      assert t.n in [t.n] && t.n in Order(t.l) + [t.n];
      if t.l.Fork? { MaxParts(t.l); }
      if t.r.Fork? { MinParts(t.r); }
    }

    /** The position after one step down from the root of t toward v: the way there and the subtree. */
    static ghost function WayDown(c: Context, t: Tree, v: int): Context
      requires t.Fork?
    {
      if t.n.data > v then InLeft(c, t.n, t.r) else InRight(c, t.l, t.n)
    }

    static ghost function SideOf(t: Tree, v: int): Tree
      requires t.Fork?
    {
      if t.n.data > v then t.l else t.r
    }

    static lemma Descend(root: Node?, c: Context, t: Tree, p: Node, v: int)
      requires Leads(root, c, p) && Rep(p, t) && p.data != v && Increasing(Order(t)) && Nodes(t) !! ContextNodes(c)
      ensures t.Fork? && t.n == p && Plug(WayDown(c, t, v), SideOf(t, v)) == Plug(c, t)
      ensures Parent(WayDown(c, t, v)) == p && p in ContextNodes(WayDown(c, t, v))
      ensures Rep(Get(p, v), SideOf(t, v)) && Nodes(SideOf(t, v)) !! ContextNodes(WayDown(c, t, v))
      ensures Leads(root, WayDown(c, t, v), Get(p, v))
      ensures Fits(c, v) ==> Fits(WayDown(c, t, v), v)
      ensures Increasing(Order(SideOf(t, v))) && (v in KeySet(Order(t)) <==> v in KeySet(Order(SideOf(t, v))))
    {
      WhichSide(t.l, t.n, t.r, v);
    }
  }
}
