/**
  Rebalancing of `_snippets/B-trees.c`: flattening a search tree into a left vine
  (`tree_to_vine`) and folding a vine into a balanced tree (`vine_to_tree`).
*/
module Vines {
  import opened TreeShapes
  import opened Removal
  import opened SearchTrees

  /** The number of nodes on the left spine. */
  ghost function Spine(t: Tree): nat { if t.Nil? then 0 else 1 + Spine(t.l) }

  ghost function Height(t: Tree): nat {
    match t
    case Nil => 0
    case Fork(l, _, r) => 1 + Max(Height(l), Height(r))
  }

  function Max(a: nat, b: nat): nat { if a < b then b else a }

  /** A tree in which no node has a right child. */
  ghost predicate IsVine(t: Tree) { t.Fork? ==> t.r.Nil? && IsVine(t.l) }

  /** One folding pass: from the top, every second spine node goes below the next one. */
  ghost function Pass(t: Tree): Tree {
    if t.Fork? && t.l.Fork? then Fork(Pass(t.l.l), t.l.n, Fork(t.l.r, t.n, t.r)) else t
  }

  ghost function Passes(t: Tree, k: nat): Tree
    decreases k
  {
    if k == 0 then t else Passes(Pass(t), k - 1)
  }

  /** The position of the highest one bit; zero for zero. */
  function Log2(x: nat): nat { if x < 2 then 0 else 1 + Log2(x / 2) }

  function Pow2(k: nat): nat { if k == 0 then 1 else 2 * Pow2(k - 1) }

  lemma {:induction false} PassKeeps(t: Tree)
    ensures Order(Pass(t)) == Order(t) && Nodes(Pass(t)) == Nodes(t)
    ensures Spine(Pass(t)) == (Spine(t) + 1) / 2
  {
    if t.Fork? && t.l.Fork? { PassKeeps(t.l.l); }
  }

  /** The subtrees to the right of the spine are at most k high. */
  ghost predicate RightsWithin(t: Tree, k: nat) { t.Fork? ==> Height(t.r) <= k && RightsWithin(t.l, k) }

  lemma {:induction false} RightsWeaken(t: Tree, k: nat)
    requires RightsWithin(t, k)
    ensures RightsWithin(t, k + 1)
  {
    if t.Fork? { RightsWeaken(t.l, k); }
  }

  lemma {:induction false} PassRights(t: Tree, k: nat)
    requires RightsWithin(t, k)
    ensures RightsWithin(Pass(t), k + 1)
  {
    if t.Fork? && t.l.Fork? { PassRights(t.l.l, k); } else { RightsWeaken(t, k); }
  }

  lemma {:induction false} SpineAndRights(t: Tree, k: nat)
    requires RightsWithin(t, k) && t.Fork?
    ensures Height(t) <= Spine(t) + k
  {
    if t.l.Fork? { SpineAndRights(t.l, k); }
  }

  lemma {:induction false} VineRights(t: Tree)
    requires IsVine(t)
    ensures RightsWithin(t, 0) && Spine(t) == Size(t)
  {
    if t.Fork? { VineRights(t.l); }
  }

  /** After k passes the spine has shrunk to a 2^k-th, rounded up, and the rights have grown by k. */
  lemma {:induction false} PassesBound(t: Tree, k: nat, h: nat)
    requires RightsWithin(t, h)
    ensures Order(Passes(t, k)) == Order(t) && Nodes(Passes(t, k)) == Nodes(t)
    ensures RightsWithin(Passes(t, k), h + k)
    ensures forall m: nat :: Spine(t) <= m * Pow2(k) ==> Spine(Passes(t, k)) <= m
    ensures Spine(t) > 0 ==> Spine(Passes(t, k)) > 0
    decreases k
  {
    hide Pass, Order, Nodes, RightsWithin, Spine;
    if k > 0 {
      PassKeeps(t);
      PassRights(t, h);
      PassesBound(Pass(t), k - 1, h + 1);
      forall m: nat | Spine(t) <= m * Pow2(k) ensures Spine(Passes(t, k)) <= m { TwiceThePower(m, k); }
    }
  }

  /** Exactly: k passes divide the spine by 2^k, rounding up. */
  lemma {:induction false} SpineDivided(t: Tree, k: nat, m: nat)
    ensures Spine(Passes(t, k)) <= m <==> Spine(t) <= m * Pow2(k)
    decreases k
  {
    hide Pass, Spine;
    if k > 0 {
      PassKeeps(t);
      SpineDivided(Pass(t), k - 1, m);
      TwiceThePower(m, k);
    }
  }

  /** The number of passes leaves one node on the spine for a power of two, and else two. */
  lemma FoldedSpine(t: Tree)
    requires Spine(t) > 0
    ensures var n := Spine(t);
            Spine(Passes(t, Log2(n))) == if n == Pow2(Log2(n)) then 1 else 2
  {
    hide Spine, Passes, Pow2, Log2;
    var k := Log2(Spine(t));
    Log2Bounds(Spine(t));
    SpineDivided(t, k, 0);
    SpineDivided(t, k, 1);
    SpineDivided(t, k, 2);
  }

  lemma TwiceThePower(m: nat, k: nat)
    requires k > 0
    ensures m * Pow2(k) == 2 * (m * Pow2(k - 1))
  {
  }

  lemma {:induction false} Log2Bounds(x: nat)
    requires x > 0
    ensures Pow2(Log2(x)) <= x < 2 * Pow2(Log2(x))
  {
    if x >= 2 { Log2Bounds(x / 2); }
  }

  /** Folding a vine log2 n times leaves a tree at most log2 n + 2 high. */
  lemma FoldedHeight(t: Tree)
    requires IsVine(t) && t.Fork?
    ensures Height(Passes(t, Log2(Size(t)))) <= Log2(Size(t)) + 2
  {
    var k := Log2(Size(t));
    VineRights(t);
    Log2Bounds(Size(t));
    PassesBound(t, k, 0);
    assert Spine(t) <= 2 * Pow2(k);
    SpineAndRights(Passes(t, k), k);
  }

  ghost function Present(p: Node?): set<Node> { if p == null then {} else {p} }

  /** Rotates node below its left child, which takes node's place under parent. */
  method RotateCw(node: Node, parent: Node?) returns (chld: Node?)
    requires node.left != null ==> node != node.left && parent != node && parent != node.left
    modifies if node.left == null then {} else {node} + Present(node.left) + Present(parent)
    ensures chld == old(node.left)
    ensures chld != null ==> node.left == old(chld.right) && node.right == old(node.right)
    ensures chld != null ==> chld.right == node && chld.left == old(chld.left)
    ensures chld != null && parent != null ==> parent.left == chld && parent.right == old(parent.right)
  {
    if node.left == null { return null; }
    chld := node.left;
    var rght := chld.right;
    if parent != null { parent.left := chld; }
    chld.right := node;
    node.left := rght;
  }

  /** The context and the subtree left to fold after node has gone below its left child. */
  ghost function FoldedAbove(c: Context, s: Tree): Context
    requires s.Fork? && s.l.Fork?
  {
    InLeft(c, s.l.n, Fork(s.l.r, s.n, s.r))
  }

  /** The spine loop stands at node, the root of s, below the part c that is folded already. */
  ghost predicate Folding(root: Node?, repr: set<Node>, c: Context, node: Node?, s: Tree)
    reads Nodes(s), ContextNodes(c)
  {
    && Rep(node, s) && Nodes(s) !! ContextNodes(c) && Nodes(s) + ContextNodes(c) == repr
    && (c.Top? || c.InLeft?)
    && if c.Top? then node != null && root == (if node.left != null then node.left else node)
       else Leads(root, c, node)
  }

  method FoldStep(root: Node?, ghost repr: set<Node>, node: Node, prev: Node?, ghost c: Context, ghost s: Tree)
    returns (chld: Node)
    requires Folding(root, repr, c, node, s) && node.left != null && prev == Parent(c)
    modifies repr
    ensures s.Fork? && s.l.Fork? && chld == Parent(FoldedAbove(c, s))
    ensures Folding(root, repr, FoldedAbove(c, s), chld.left, s.l.l)
  {
    RootFork(node, s);
    RootFork(node.left, s.l);
    RootIn(node.left, s.l);
    chld := RotateCw(node, prev);
  }

  /** One folding pass over the whole spine. */
  method FoldOnce(tree: SearchTree)
    requires tree.Valid() && tree.root != null
    modifies tree, tree.repr
    ensures tree.Valid() && tree.repr == old(tree.repr)
    ensures tree.shape == Pass(old(tree.shape)) && tree.root != null
  {
    hide Increasing, Order, Leads, Nodes, ContextNodes;
    var node: Node? := tree.root;
    var prev: Node? := null;
    ghost var c, s := Top, tree.shape;
    if tree.root.left != null { tree.root := tree.root.left; }
    FoldStarts(tree.root, tree.repr, node, s);
    while node != null && node.left != null
      invariant Folding(tree.root, tree.repr, c, node, s) && prev == Parent(c)
      invariant Plug(c, Pass(s)) == Pass(old(tree.shape))
      invariant tree.repr == old(tree.repr) && tree.shape == old(tree.shape)
      decreases s
    {
      prev := FoldStep(tree.root, tree.repr, node, prev, c, s);
      c, s := FoldedAbove(c, s), s.l.l;
      node := prev.left;
    }
    FoldEnds(tree.root, tree.repr, c, node, s);
    PassKeeps(old(tree.shape));
    tree.shape := Plug(c, s);
  }

  lemma FoldStarts(root: Node?, repr: set<Node>, node: Node, s: Tree)
    requires Rep(node, s) && Nodes(s) == repr && root == if node.left != null then node.left else node
    ensures Folding(root, repr, Top, node, s)
  {
  }

  lemma FoldEnds(root: Node?, repr: set<Node>, c: Context, node: Node?, s: Tree)
    requires Folding(root, repr, c, node, s) && (node == null || node.left == null)
    ensures Pass(s) == s && Rep(root, Plug(c, s)) && Nodes(Plug(c, s)) == repr
    ensures root != null <==> Plug(c, s).Fork?
    ensures root != null
  {
    RootIn(node, s);
    if node != null { RootIn(node.left, s.l); }
    PlugRep(root, c, node, s);
    RootIn(root, Plug(c, s));
    PlugFork(c, s);
  }

  lemma {:induction false} PlugFork(c: Context, s: Tree)
    ensures Plug(c, s).Fork? <==> s.Fork? || !c.Top?
    decreases c
  {
    match c
    case Top =>
    case InLeft(up, n, r) => PlugFork(up, Fork(s, n, r));
    case InRight(up, l, n) => PlugFork(up, Fork(l, n, s));
  }

  /** Folds the spine log2(its length) times. */
  method VineToTree(tree: SearchTree)
    requires tree.Valid()
    modifies tree, tree.repr
    ensures tree.Valid() && tree.repr == old(tree.repr)
    ensures Order(tree.shape) == old(Order(tree.shape))
    ensures tree.shape == Passes(old(tree.shape), Log2(Spine(old(tree.shape))))
    ensures var n := Spine(old(tree.shape)); n > 0 ==> Spine(tree.shape) == if n == Pow2(Log2(n)) then 1 else 2
    ensures IsVine(old(tree.shape)) && tree.shape.Fork? ==>
              Height(tree.shape) <= Log2(Size(tree.shape)) + 2
  {
    hide Rep, Pass;
    var depth := 0;
    var node := tree.root;
    ghost var s := tree.shape;
    while node != null
      modifies {}
      invariant Rep(node, s) && depth + Spine(s) == Spine(tree.shape)
      decreases s
    {
      RootFork(node, s);
      node := node.left;
      s := s.l;
      depth := depth + 1;
    }
    RootIn(node, s);
    var k := Log2(depth);
    ghost var t0, r0 := tree.shape, tree.repr;
    RootIn(tree.root, t0);
    for i := 0 to k
      invariant tree.Valid() && tree.repr == r0
      invariant t0.Fork? <==> tree.root != null
      invariant Passes(tree.shape, k - i) == Passes(t0, k)
    {
      FoldOnce(tree);
    }
    Folded(t0);
  }

  lemma Folded(t: Tree)
    ensures var u := Passes(t, Log2(Spine(t)));
            && Order(u) == Order(t) && Size(u) == Size(t)
            && (Spine(t) > 0 ==> Spine(u) == if Spine(t) == Pow2(Log2(Spine(t))) then 1 else 2)
            && (IsVine(t) && t.Fork? ==> Height(u) <= Log2(Size(t)) + 2)
  {
    PassesOrder(t, Log2(Spine(t)));
    if Spine(t) > 0 { FoldedSpine(t); }
    SizeOrder(t);
    SizeOrder(Passes(t, Log2(Spine(t))));
    if IsVine(t) && t.Fork? {
      VineRights(t);
      FoldedHeight(t);
    }
  }

  lemma {:induction false} PassesOrder(t: Tree, k: nat)
    ensures Order(Passes(t, k)) == Order(t)
    decreases k
  {
    if k > 0 {
      PassKeeps(t);
      PassesOrder(Pass(t), k - 1);
    }
  }

  lemma {:induction false} SizeOrder(t: Tree)
    ensures Size(t) == |Order(t)|
  {
    if t.Fork? {
      SizeOrder(t.l);
      SizeOrder(t.r);
    }
  }

  /** The tree with its right child, if any, rotated above its root. */
  ghost function Rotated(t: Tree): Tree {
    if t.Fork? && t.r.Fork? then Fork(Fork(t.l, t.n, t.r.l), t.r.n, t.r.r) else t
  }

  /**
    Rotates node below its right child, which takes node's place under prev; returns the node
    that needs attention next. Without a right child, that is the left child.
   */
  method RotateCcw(node: Node?, prev: Node?) returns (ret: Node?)
    requires node != null && node.right != null ==> node != node.right && prev != node && prev != node.right
    modifies if node == null || node.right == null then {} else {node} + Present(node.right) + Present(prev)
    ensures node == null ==> ret == null
    ensures node != null && old(node.right) == null ==> ret == node.left
    ensures node != null && old(node.right) != null ==>
              var chld := old(node.right);
              && node.right == old(chld.left) && node.left == old(node.left)
              && chld.left == node && chld.right == old(chld.right)
              && (prev != null ==> prev.left == chld && prev.right == old(prev.right))
              && ret == if chld.right != null then chld else node
  {
    if node == null { return null; }
    if node.right == null { return node.left; }
    var chld := node.right;
    if prev != null { prev.left := chld; }
    node.right := chld.left;
    chld.left := node;
    if chld.right != null { return chld; } else { return node; }
  }

  lemma {:induction false} RotatedKeeps(t: Tree)
    ensures Order(Rotated(t)) == Order(t) && Nodes(Rotated(t)) == Nodes(t) && Size(Rotated(t)) == Size(t)
    ensures t.Fork? && t.r.Fork? ==> Spine(Rotated(t)) == Spine(t) + 1
  {
  }

  /** A path of left steps through nodes without right children. */
  ghost predicate VineContext(c: Context) { c.Top? || (c.InLeft? && c.r.Nil? && VineContext(c.up)) }

  lemma {:induction false} PlugVine(c: Context, t: Tree)
    requires VineContext(c) && IsVine(t)
    ensures IsVine(Plug(c, t))
    decreases c
  {
    if c.InLeft? { PlugVine(c.up, Fork(t, c.n, c.r)); }
  }

  /** The flattening loop works at the left child of prev, the root of s, below the vine c. */
  ghost predicate Flattening(top: Node?, dn: set<Node>, c: Context, prev: Node, s: Tree)
    reads prev, Nodes(s), ContextNodes(c)
  {
    && Leads(top, c, prev.left) && Rep(prev.left, s)
    && prev == Parent(c) && VineContext(c)
    && Nodes(s) !! ContextNodes(c) && Nodes(s) + ContextNodes(c) == dn
  }

  method FlattenStep(top: Node?, ghost dn: set<Node>, node: Node?, prev: Node, ghost c: Context, ghost s: Tree)
    returns (ret: Node?)
    requires Flattening(top, dn, c, prev, s) && node == prev.left
    modifies dn
    ensures Flattening(top, dn, c, prev, Rotated(s))
    ensures ret == null <==> s.Nil? || (s.r.Nil? && s.l.Nil?)
  {
    if node != null {
      RootFork(node, s);
      RootIn(node.right, s.r);
      RootIn(node.left, s.l);
    } else {
      RootIn(node, s);
    }
    ret := RotateCcw(node, prev);
  }

  /** Flattens the left subtree of prev. */
  method Flatten(first: Node, ghost dn: set<Node>, ghost t: Tree) returns (ghost v: Tree)
    requires Rep(first, t) && t.Fork? && t.r.Nil? && Nodes(t) == dn
    modifies dn
    ensures Rep(first, v) && IsVine(v) && Order(v) == Order(t) && Nodes(v) == dn
  {
    hide Rep, Leads, Nodes, ContextNodes, Order, Size, Spine;
    var prev: Node := first;
    var node := prev.left;
    ghost var c, s := InLeft(Top, first, Nil), t.l;
    FlattenStarts(first, dn, t);
    var ret := FlattenStep(first, dn, node, prev, c, s);
    RotatedPlug(c, s);
    s := Rotated(s);
    while ret != null
      invariant Flattening(first, dn, c, prev, s)
      invariant Order(Plug(c, s)) == Order(t)
      invariant ret == null ==> IsVine(s)
      invariant ret != null ==> s.Fork?
      decreases 2 * Size(s) - Spine(s), ret != null
    {
      node := prev.left;
      FlattenNext(first, dn, c, prev, s);
      if node.right == null {
        c, s := InLeft(c, s.n, Nil), s.l;
        prev := node;
        node := node.left;
      }
      ret := FlattenStep(first, dn, node, prev, c, s);
      RotatedPlug(c, s);
      s := Rotated(s);
    }
    FlattenEnds(first, dn, c, prev, s);
    v := Plug(c, s);
  }

  lemma FlattenStarts(first: Node, dn: set<Node>, t: Tree)
    requires Rep(first, t) && t.Fork? && t.r.Nil? && Nodes(t) == dn
    ensures Flattening(first, dn, InLeft(Top, first, Nil), first, t.l)
    ensures Plug(InLeft(Top, first, Nil), t.l) == t
  {
  }

  lemma FlattenNext(top: Node?, dn: set<Node>, c: Context, prev: Node, s: Tree)
    requires Flattening(top, dn, c, prev, s) && s.Fork?
    ensures prev.left == s.n
    ensures s.n.right == null <==> s.r.Nil?
    ensures s.r.Nil? ==> Flattening(top, dn, InLeft(c, s.n, Nil), s.n, s.l) && Plug(InLeft(c, s.n, Nil), s.l) == Plug(c, s)
    ensures s.r.Nil? ==> Size(s.l) == Size(s) - 1 && Spine(s.l) == Spine(s) - 1
    ensures Spine(s) <= Size(s) && Spine(s.l) <= Size(s.l)
  {
    RootIn(s.n.right, s.r);
    SpineWithin(s);
    SpineWithin(s.l);
  }

  lemma {:induction false} SpineWithin(t: Tree)
    ensures Spine(t) <= Size(t)
  {
    if t.Fork? { SpineWithin(t.l); }
  }

  lemma RotatedPlug(c: Context, s: Tree)
    ensures Order(Plug(c, Rotated(s))) == Order(Plug(c, s))
    ensures Size(Rotated(s)) == Size(s) && Spine(Rotated(s)) <= Size(s)
    ensures if s.Fork? && s.r.Fork? then Spine(Rotated(s)) == Spine(s) + 1 else Rotated(s) == s
    ensures s.Fork? ==> Rotated(s).Fork?
    ensures s.Nil? || (s.r.Nil? && s.l.Nil?) ==> IsVine(Rotated(s))
  {
    RotatedKeeps(s);
    PlugOrder(c, s);
    PlugOrder(c, Rotated(s));
    SpineWithin(Rotated(s));
  }

  lemma FlattenEnds(top: Node?, dn: set<Node>, c: Context, prev: Node, s: Tree)
    requires Flattening(top, dn, c, prev, s) && IsVine(s)
    ensures Rep(top, Plug(c, s)) && IsVine(Plug(c, s)) && Nodes(Plug(c, s)) == dn
  {
    PlugRep(top, c, prev.left, s);
    PlugVine(c, s);
  }

  /*
   The climb of tree_to_vine. While the greatest node mx has not been passed, the tree d at the
   current node holds everything. Once mx has been rotated above a node n, mx.left stays at n
   for good, and only what comes up to n in d stays reachable from mx.
   */

  ghost predicate Climbing(t: Tree, d: Tree, mx: Node) {
    t.Fork? && d.Fork? && d.r.Fork? && Order(d) == Order(t) && MaxNode(d) == mx && MaxOwn(d) == MaxOwn(t) && Nodes(d) == Nodes(t)
  }

  ghost predicate Passed(t: Tree, d: Tree, mx: Node, n: Node) {
    && t.Fork? && d.Fork? && mx !in Nodes(d) && Nodes(d) <= Nodes(t) && Increasing(Order(d))
    && mx == MaxNode(t)
    && Order(CutMax(t)) <= Order(d.l) + [d.n]
    && Order(CutMax(t)) != [] && Order(CutMax(t))[|Order(CutMax(t))| - 1] == n
    && (MaxOwn(t).Nil? ==> d.r.Nil? && d.n == n && Order(d) == Order(CutMax(t)))
  }

  /** The tree at the node that the climb returns after one rotation. */
  ghost function Climbed(d: Tree): Tree
    requires d.Fork? && d.r.Fork?
  {
    if d.r.r.Fork? then Rotated(d) else Fork(d.l, d.n, d.r.l)
  }

  method ClimbStep(ghost dn: set<Node>, node: Node, ghost d: Tree) returns (ret: Node)
    requires Rep(node, d) && node.right != null && Nodes(d) <= dn
    modifies Nodes(d)
    ensures d.Fork? && d.r.Fork? && Rep(ret, Climbed(d)) && Nodes(Climbed(d)) <= Nodes(d)
    ensures d.r.r.Nil? ==> ret == d.n == d.r.n.left && d.r.n.right == null && d.r.n !in Nodes(Climbed(d))
    ensures Size(Climbed(d).r) < Size(d.r)
  {
    RootFork(node, d);
    RootIn(node.right, d.r);
    RootFork(node.right, d.r);
    RootIn(node.right.right, d.r.r);
    ret := RotateCcw(node, null);
  }

  lemma ClimbingRound(t: Tree, d: Tree, mx: Node)
    requires Climbing(t, d, mx) && d.r.r.Fork?
    ensures Climbing(t, Climbed(d), mx)
  {
    RotatedKeeps(d);
    assert MaxNode(d) == MaxNode(d.r) && MaxOwn(d) == MaxOwn(d.r);
  }

  lemma GreatestPassed(t: Tree, d: Tree, mx: Node)
    requires Climbing(t, d, mx) && Increasing(Order(t)) && mx == MaxNode(t)
    requires d.r.r.Nil? && d.r.n !in Nodes(Climbed(d))
    ensures d.r.n == mx && Passed(t, Climbed(d), mx, d.n)
  {
    hide Increasing;
    var e := Climbed(d);
    assert MaxNode(d) == MaxNode(d.r) && MaxOwn(d) == MaxOwn(d.r);
    assert Order(d.r) == Order(d.r.l) + [mx];
    assert Order(d) == Order(e) + [mx];
    IncreasingParts(Order(e), [mx]);
    UpToGreatest(t, d);
    assert Order(CutMax(t)) == Order(e.l) + [e.n];
    assert MaxOwn(t) == e.r && e.n == d.n;
    assert Nodes(d.r.l) <= Nodes(d.r) <= Nodes(d) && Nodes(e) <= Nodes(d);
    if e.r.Nil? { assert Order(e) == Order(e.l) + [e.n]; }
  }

  lemma UpToGreatest(t: Tree, d: Tree)
    requires t.Fork? && d.Fork? && d.r.Fork? && d.r.r.Nil?
    requires Order(d) == Order(t) && MaxNode(d) == MaxNode(t) && MaxOwn(d) == MaxOwn(t)
    ensures Order(CutMax(t)) == Order(d.l) + [d.n]
  {
    MaxParts(t);
    MaxParts(d);
    var u := Order(MaxOwn(t)) + [MaxNode(t)];
    assert Order(CutMax(d)) + u == Order(d) && Order(CutMax(t)) + u == Order(t);
    SamePrefix(Order(CutMax(d)), Order(CutMax(t)), u);
    assert CutMax(d) == Fork(d.l, d.n, Nil);
  }

  lemma SamePrefix(a: seq<Node>, b: seq<Node>, u: seq<Node>)
    requires a + u == b + u
    ensures a == b
  {
    assert |a| == |b|;
    assert (a + u)[..|a|] == a && (b + u)[..|b|] == b;
  }

  lemma PassedRound(t: Tree, d: Tree, mx: Node, n: Node)
    requires Passed(t, d, mx, n) && d.r.Fork?
    ensures Passed(t, Climbed(d), mx, n)
  {
    hide Increasing;
    RotatedKeeps(d);
    var e := Climbed(d);
    if d.r.r.Nil? {
      assert Order(d) == Order(e) + [d.r.n];
      IncreasingParts(Order(e), [d.r.n]);
    } else {
      assert Order(e.l) + [e.n] == (Order(d.l) + [d.n]) + (Order(d.r.l) + [d.r.n]);
    }
  }

  /** Rotates up along the right links until the current node has no right child. */
  method Climb(first: Node, ghost mx: Node, ghost dn: set<Node>, ghost t: Tree)
    returns (last: Node, ghost d: Tree, ghost n: Node)
    requires Rep(first, t) && t.Fork? && Nodes(t) == dn && Increasing(Order(t)) && mx == MaxNode(t)
    modifies dn
    ensures Rep(last, d) && d.Fork? && d.r.Nil? && Nodes(d) <= dn
    ensures if t.r.Nil? then last == first && d == t
            else Passed(t, d, mx, n) && mx.left == n && mx.right == null
  {
    hide Rep, Order, Nodes, Increasing, Size, MaxNode, MaxOwn, CutMax, Climbing, Passed, Climbed;
    last, d, n := first, t, first;
    ghost var passed := false;
    ClimbStarts(first, t);
    while last.right != null
      invariant Rep(last, d) && Nodes(d) <= dn && d.Fork?
      invariant if passed then Passed(t, d, mx, n) && mx.left == n && mx.right == null
                else if t.r.Nil? then last == first && d == t
                else Climbing(t, d, mx)
      invariant t.r.Nil? ==> !passed
      decreases Size(d.r)
    {
      ClimbFacts(t, last, d, mx, n);
      ghost var e, old_n := Climbed(d), d.n;
      last := ClimbStep(dn, last, d);
      if passed {
        PassedRound(t, d, mx, n);
      } else {
        if d.r.r.Fork? {
          ClimbingRound(t, d, mx);
        } else {
          GreatestPassed(t, d, mx);
          passed, n := true, old_n;
        }
      }
      d := e;
    }
    ClimbFacts(t, last, d, mx, n);
  }

  lemma ClimbStarts(first: Node, t: Tree)
    requires Rep(first, t) && t.Fork?
    ensures t.r.Fork? ==> Climbing(t, t, MaxNode(t))
  {
  }

  lemma ClimbFacts(t: Tree, last: Node, d: Tree, mx: Node, n: Node)
    requires Rep(last, d) && d.Fork?
    ensures d.r.Nil? <==> last.right == null
    ensures Climbing(t, d, mx) ==> d.r.Fork?
    ensures Passed(t, d, mx, n) ==> mx !in Nodes(d)
  {
    RootFork(last, d);
    RootIn(last.right, d.r);
  }

  /** The part of a vine from node n down. */
  ghost function Below(v: Tree, n: Node): Tree { if v.Nil? || v.n == n then v else Below(v.l, n) }

  lemma {:induction false} BelowIn(p: Node?, v: Tree, n: Node)
    requires Rep(p, v) && IsVine(v) && n in Order(v)
    ensures Rep(n, Below(v, n)) && IsVine(Below(v, n)) && Nodes(Below(v, n)) <= Nodes(v)
    ensures Order(Below(v, n)) <= Order(v)
    ensures var s := Order(Below(v, n)); s != [] && s[|s| - 1] == n
    decreases v
  {
    if v.n != n { BelowIn(v.n.left, v.l, n); }
  }

  /** Two initial stretches of an increasing sequence that end alike are the same. */
  lemma SameStretch(a: seq<Node>, b: seq<Node>, s: seq<Node>)
    requires a <= s && b <= s && a != [] && b != [] && Increasing(s)
    requires a[|a| - 1] == b[|b| - 1]
    ensures a == b
  {
    assert s[|a| - 1] == a[|a| - 1] && s[|b| - 1] == b[|b| - 1];
  }

  /** What flattening leaves: everything, except what hung from a greatest node that was not the root. */
  ghost function Flattened(t: Tree): seq<Node>
    requires t.Fork?
  {
    if t.r.Nil? then Order(t) else Order(CutMax(t)) + [MaxNode(t)]
  }

  /** Nothing is lost just when the greatest node is the root or has no left child. */
  lemma FlattenedExactly(t: Tree)
    requires t.Fork?
    ensures Flattened(t) == Order(t) <==> t.r.Nil? || MaxOwn(t).Nil?
  {
    MaxParts(t);
    SizeOrder(MaxOwn(t));
  }

  /** What is lost otherwise: the keys of the left subtree of the greatest node, and no others. */
  lemma LostByFlattening(t: Tree)
    requires t.Fork? && t.r.Fork? && Increasing(Order(t))
    ensures KeySet(Flattened(t)) == KeySet(Order(t)) - KeySet(Order(MaxOwn(t)))
    ensures forall k :: k in MaxOwnKeys(t) ==> k < MaxNode(t).data
  {
    hide Increasing, KeySet;
    MaxParts(t);
    var a, b, m := Order(CutMax(t)), Order(MaxOwn(t)), [MaxNode(t)];
    MiddleDrop(a, b, m);
    IncreasingParts(a + b, m);
    assert MaxNode(t) in m;
    OwnKeysBelow(a, b, t);
  }

  ghost function MaxOwnKeys(t: Tree): set<int>
    requires t.Fork?
  {
    KeySet(Order(MaxOwn(t)))
  }

  lemma OwnKeysBelow(a: seq<Node>, b: seq<Node>, t: Tree)
    requires t.Fork? && b == Order(MaxOwn(t)) && forall x :: x in a + b ==> x.data < MaxNode(t).data
    ensures forall k :: k in MaxOwnKeys(t) ==> k < MaxNode(t).data
  {
    forall k | k in MaxOwnKeys(t) ensures k < MaxNode(t).data {
      var n :| n in b && n.data == k;
      assert n in a + b;
    }
  }

  /** Turns the tree into a left vine rooted at its greatest node. */
  method TreeToVine(tree: SearchTree)
    requires tree.Valid() && tree.root != null
    modifies tree, tree.repr
    ensures tree.Valid() && tree.repr <= old(tree.repr)
    ensures old(tree.shape).Fork? && tree.root == MaxNode(old(tree.shape))
    ensures IsVine(tree.shape) && Order(tree.shape) == Flattened(old(tree.shape))
    ensures Order(tree.shape) == Order(old(tree.shape)) <==>
              old(tree.shape).r.Nil? || MaxOwn(old(tree.shape)).Nil?
  {
    hide Rep, Order, Nodes, Increasing, MaxNode, MaxOwn, CutMax, Passed, IsVine, Flattened, Below;
    ghost var t, dn := tree.shape, tree.repr;
    RootFork(tree.root, t);
    FlattenedExactly(t);
    var node: Node := tree.root;
    MoveToGreatest(tree);
    ghost var mx := tree.root;
    var last, d, n := Climb(node, mx, dn, t);
    ghost var left := Nodes(d);
    ClimbFacts(t, last, d, mx, n);
    ghost var v := Flatten(last, left, d);
    if t.r.Nil? {
      RootIsGreatest(t);
      tree.shape := v;
    } else {
      FlattenedBelow(t, d, v, last, mx, n);
      tree.shape := Fork(Below(v, n), mx, Nil);
    }
    tree.repr := Nodes(tree.shape);
  }

  lemma RootIsGreatest(t: Tree)
    requires t.Fork? && t.r.Nil?
    ensures Flattened(t) == Order(t) && MaxNode(t) == t.n
  {
  }

  lemma FlattenedBelow(t: Tree, d: Tree, v: Tree, last: Node, mx: Node, n: Node)
    requires Passed(t, d, mx, n) && Increasing(Order(t)) && t.r.Fork?
    requires Rep(last, v) && IsVine(v) && Order(v) == Order(d) && Nodes(v) == Nodes(d)
    requires mx.left == n && mx.right == null
    ensures var u := Fork(Below(v, n), mx, Nil);
            && Rep(mx, u) && IsVine(u) && Nodes(u) <= Nodes(t)
            && Order(u) == Flattened(t) && Increasing(Order(u))
  {
    hide Increasing;
    var pre := Order(CutMax(t));
    assert Order(d.l) + [d.n] <= Order(d);
    assert n == pre[|pre| - 1] && n in pre && n in Order(v);
    BelowIn(last, v, n);
    SameStretch(Order(Below(v, n)), pre, Order(v));
    MaxParts(t);
    IncreasingDrop(pre, Order(MaxOwn(t)), [mx]);
  }

  method MoveToGreatest(tree: SearchTree)
    requires tree.Valid() && tree.root != null
    modifies tree`root
    ensures tree.shape.Fork? && tree.root == MaxNode(tree.shape)
  {
    ghost var u := tree.shape;
    RootFork(tree.root, u);
    while tree.root.right != null
      invariant tree.root != null && Rep(tree.root, u) && u.Fork? && tree.shape.Fork?
      invariant MaxNode(u) == MaxNode(tree.shape)
      decreases u
    {
      RootIn(tree.root.right, u.r);
      tree.root := tree.root.right;
      u := u.r;
    }
    RootIn(tree.root.right, u.r);
  }

  /** Flattening and folding in turn, as the program's own demonstration does. */
  method Rebalance(tree: SearchTree)
    requires tree.Valid() && tree.root != null
    modifies tree, tree.repr
    ensures tree.Valid() && old(tree.shape).Fork? && Order(tree.shape) == Flattened(old(tree.shape))
    ensures Height(tree.shape) <= Log2(|Order(tree.shape)|) + 2
    ensures old(tree.shape).r.Nil? || MaxOwn(old(tree.shape)).Nil? ==> tree.Contents() == old(tree.Contents())
  {
    hide Rep, Increasing, Flattened, Height;
    TreeToVine(tree);
    ghost var v := tree.shape;
    RootIn(tree.root, v);
    VineToTree(tree);
    SizeOrder(tree.shape);
    assert |Order(v)| > 0;
  }

  /** A tree of three keys whose greatest has a left child: flattening loses that child. */
  lemma FlatteningLoses(a: Node, b: Node, c: Node)
    requires a.data == 1 && b.data == 2 && c.data == 3
    ensures var t := Fork(Nil, a, Fork(Fork(Nil, b, Nil), c, Nil));
            Increasing(Order(t)) && Flattened(t) == [a, c] && Order(t) == [a, b, c]
  {
    var r := Fork(Fork(Nil, b, Nil), c, Nil);
    assert Order(Fork(Nil, b, Nil)) == [b];
    assert Order(r) == [b, c];
    assert CutMax(r) == Nil && MaxNode(r) == c;
    assert CutMax(Fork(Nil, a, r)) == Fork(Nil, a, Nil);
    assert Order(Fork(Nil, a, Nil)) == [a];
  }

  /** The bound log2 n + 2 is reached: seven keys fold to a tree four high. */
  lemma FoldedHeightReached(n: seq<Node>)
    requires |n| == 7
    ensures var t := VineOf(n);
            IsVine(t) && Size(t) == 7 && Height(Passes(t, Log2(7))) == Log2(7) + 2
  {
    var t1 := Fork(Nil, n[0], Nil);
    var t2 := Fork(t1, n[1], Nil);
    var t3 := Fork(t2, n[2], Nil);
    var t4 := Fork(t3, n[3], Nil);
    var t5 := Fork(t4, n[4], Nil);
    var t6 := Fork(t5, n[5], Nil);
    var t7 := Fork(t6, n[6], Nil);
    assert VineOf(n[..1]) == t1 by { assert n[..1][..0] == []; }
    assert VineOf(n[..2]) == t2 by { assert n[..2][..1] == n[..1]; }
    assert VineOf(n[..3]) == t3 by { assert n[..3][..2] == n[..2]; }
    assert VineOf(n[..4]) == t4 by { assert n[..4][..3] == n[..3]; }
    assert VineOf(n[..5]) == t5 by { assert n[..5][..4] == n[..4]; }
    assert VineOf(n[..6]) == t6 by { assert n[..6][..5] == n[..5]; }
    assert VineOf(n) == t7;
    assert Pass(t1) == t1;
    assert Pass(t3) == Fork(Pass(t1), n[1], Fork(Nil, n[2], Nil));
    assert Pass(t5) == Fork(Pass(t3), n[3], Fork(Nil, n[4], Nil));
    var p := Fork(Pass(t5), n[5], Fork(Nil, n[6], Nil));
    assert Pass(t7) == p;
    var low := Fork(Nil, n[0], Fork(Nil, n[1], Fork(Nil, n[2], Nil)));
    var q := Fork(low, n[3], Fork(Fork(Nil, n[4], Nil), n[5], Fork(Nil, n[6], Nil)));
    assert Pass(Pass(t3)) == low;
    assert Pass(p) == q;
    assert Log2(3) == 1 && Log2(7) == 2;
    assert Passes(p, 1) == q;
    assert Height(Fork(Nil, n[2], Nil)) == 1 && Height(Fork(Nil, n[4], Nil)) == 1 && Height(Fork(Nil, n[6], Nil)) == 1;
    assert Height(Fork(Nil, n[1], Fork(Nil, n[2], Nil))) == 2;
    assert Height(low) == 3;
    assert Height(q) == 4;
    VineOfIsVine(n);
  }

  lemma {:induction false} VineOfIsVine(n: seq<Node>)
    ensures IsVine(VineOf(n)) && Size(VineOf(n)) == |n| && Order(VineOf(n)) == n
  {
    if n != [] { VineOfIsVine(n[..|n| - 1]); }
  }

  /** The vine with the given nodes, the first at the bottom. */
  ghost function VineOf(n: seq<Node>): Tree {
    if n == [] then Nil else Fork(VineOf(n[..|n| - 1]), n[|n| - 1], Nil)
  }
}
