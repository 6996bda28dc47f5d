/** The read-only walks: RB_FIND, RB_NFIND, RB_MINMAX, RB_NEXT, RB_PREV and RB_FOREACH. */
module RbWalk {
  import opened Powers
  import opened RedBlack
  import opened Order
  import opened RbTree
  import opened RbInsert

  /** The position of the root of a focused subtree in the order of the whole tree. */
  ghost function Rank<E>(ctx: Ctx<E>, t: Tree<E>): nat
    requires t.Node?
  {
    |Before(ctx)| + Size(t.left)
  }

  lemma {:induction false} SizeIsLength<E>(t: Tree<E>)
    ensures |Inorder(t)| == Size(t)
    decreases t
  {
    if t.Node? {
      SizeIsLength(t.left);
      SizeIsLength(t.right);
    }
  }

  lemma PlugLength<E>(ctx: Ctx<E>, t: Tree<E>)
    ensures |Inorder(Plug(ctx, t))| == |Before(ctx)| + Size(t) + |After(ctx)|
  {
    PlugInorder(ctx, t);
    SizeIsLength(t);
  }

  lemma RankElem<E>(ctx: Ctx<E>, t: Tree<E>)
    requires t.Node?
    ensures Rank(ctx, t) < |Inorder(Plug(ctx, t))| && Inorder(Plug(ctx, t))[Rank(ctx, t)] == t.elem
  {
    PlugInorder(ctx, t);
    SizeIsLength(t.left);
    assert Inorder(t) == Inorder(t.left) + ([t.elem] + Inorder(t.right));
    assert Inorder(t)[|Inorder(t.left)|] == t.elem;
  }

  /** Every position of the order is the rank of some focus. */
  lemma {:induction false} LocateRank<E>(ctx0: Ctx<E>, t: Tree<E>, i: nat) returns (ctx: Ctx<E>, sub: Tree<E>)
    requires i < Size(t)
    ensures Plug(ctx, sub) == Plug(ctx0, t) && sub.Node? && Rank(ctx, sub) == |Before(ctx0)| + i
    decreases t
  {
    SizeIsLength(t.left);
    if i < Size(t.left) {
      ctx, sub := LocateRank(LeftOf(ctx0, t.color, t.elem, t.right), t.left, i);
    } else if i == Size(t.left) {
      ctx, sub := ctx0, t;
    } else {
      ctx, sub := LocateRank(RightOf(ctx0, t.color, t.left, t.elem), t.right, i - Size(t.left) - 1);
    }
  }

  /** Lengths on either side of the focus after a move in the tree. */
  lemma Moves<E>(ctx: Ctx<E>, t: Tree<E>)
    ensures t.Node? ==> |Before(RightOf(ctx, t.color, t.left, t.elem))| == Rank(ctx, t) + 1
    ensures t.Node? ==> |Before(LeftOf(ctx, t.color, t.elem, t.right))| == |Before(ctx)|
    ensures ctx.LeftOf? ==>
      |Before(ctx)| == |Before(ctx.up)| && Rank(ctx.up, Rise(ctx, t)) == |Before(ctx)| + Size(t)
    ensures ctx.RightOf? ==>
      |Before(ctx)| == Rank(ctx.up, Rise(ctx, t)) + 1 &&
      |Before(ctx.up)| + Size(Rise(ctx, t)) == |Before(ctx)| + Size(t)
  {
    if t.Node? { SizeIsLength(t.left); }
    if ctx.RightOf? { SizeIsLength(ctx.left); }
  }

  /** `elm` is the element at position `i`, or null when `i` is past either end. */
  ghost predicate IsAt<K>(elm: RbEntry?<K>, s: seq<RbEntry<K>>, i: int) {
    if 0 <= i < |s| then elm == s[i] else elm == null
  }

  /** The focus lies at the low (high) edge of the order. */
  ghost predicate AtEdge<E>(ctx: Ctx<E>, t: Tree<E>, low: bool, tree: Tree<E>) {
    Plug(ctx, t) == tree &&
    if ctx.Top? then t == tree
    else if low then ctx.LeftOf? && |Before(ctx)| == 0
    else ctx.RightOf? && |Before(ctx)| + Size(t) == Size(tree)
  }

  lemma EdgeDown<E>(ctx: Ctx<E>, t: Tree<E>, low: bool, tree: Tree<E>)
    requires AtEdge(ctx, t, low, tree) && t.Node?
    ensures low ==> AtEdge(LeftOf(ctx, t.color, t.elem, t.right), t.left, low, tree)
    ensures !low ==> AtEdge(RightOf(ctx, t.color, t.left, t.elem), t.right, low, tree)
  {
    Moves(ctx, t);
  }

  /** The parent of an empty subtree at the edge is the first (last) element. */
  lemma EdgeElem<K>(ctx: RbPath<K>, low: bool, tree: RbShape<K>)
    requires AtEdge(ctx, Leaf, low, tree)
    ensures IsAt(HoleParent(ctx), Inorder(tree), EdgeIndex(low, |Inorder(tree)|))
  {
    SizeIsLength(tree);
    if !ctx.Top? {
      Moves(ctx, Leaf);
      RankElem(ctx.up, Rise(ctx, Leaf));
    }
  }

  ghost function EdgeIndex(low: bool, n: nat): int { if low then 0 else n - 1 }

  /** RB_MINMAX: the first element (`val` negative) or the last one, or null if there is none. */
  method MinMax<K(!new)>(head: RbHead<K>, val: int) returns (parent: RbEntry?<K>)
    requires head.Valid()
    ensures IsAt(parent, head.Contents(), EdgeIndex(val < 0, |head.Contents()|))
  {
    head.PeekRoot(head.tree);
    ghost var ctx: RbPath<K>, t := Top, head.tree;
    assert AtEdge(ctx, t, val < 0, head.tree);
    hide RbHead.Is, Ascending, Comparator, IsRedBlack, Plug, Inorder, AtEdge, IsAt;
    var tmp := head.root;
    parent := null;
    while tmp != null
      invariant head.Is(head.tree) && tmp == RootOf(t) && parent == HoleParent(ctx)
      invariant Plug(ctx, t) == head.tree && AtEdge(ctx, t, val < 0, head.tree)
      decreases t
    {
      head.Peek(ctx, t);
      EdgeDown(ctx, t, val < 0, head.tree);
      PlugDown(ctx, t);
      parent := tmp;
      if val < 0 {
        tmp := tmp.left;
        ctx, t := LeftOf(ctx, t.color, t.elem, t.right), t.left;
      } else {
        tmp := tmp.right;
        ctx, t := RightOf(ctx, t.color, t.left, t.elem), t.right;
      }
    }
    assert t == Leaf;
    EdgeElem(ctx, val < 0, head.tree);
  }

  lemma PlugDown<E>(ctx: Ctx<E>, t: Tree<E>)
    requires t.Node?
    ensures Plug(LeftOf(ctx, t.color, t.elem, t.right), t.left) == Plug(ctx, t)
    ensures Plug(RightOf(ctx, t.color, t.left, t.elem), t.right) == Plug(ctx, t)
  {
  }

  /** The tree below the focus starts at position `k` of the order. */
  ghost predicate StartsAt<E>(ctx: Ctx<E>, t: Tree<E>, k: int, tree: Tree<E>) {
    Plug(ctx, t) == tree && |Before(ctx)| == k
  }

  /** The tree below the focus ends just before position `k` of the order. */
  ghost predicate EndsAt<E>(ctx: Ctx<E>, t: Tree<E>, k: int, tree: Tree<E>) {
    Plug(ctx, t) == tree && |Before(ctx)| + Size(t) == k
  }

  lemma RankBounds<E>(ctx: Ctx<E>, t: Tree<E>, i: nat, tree: Tree<E>)
    requires t.Node? && Plug(ctx, t) == tree && Rank(ctx, t) == i
    ensures StartsAt(RightOf(ctx, t.color, t.left, t.elem), t.right, i + 1, tree)
    ensures EndsAt(LeftOf(ctx, t.color, t.elem, t.right), t.left, i, tree)
    ensures t.right.Leaf? ==> EndsAt(ctx, t, i + 1, tree)
    ensures t.left.Leaf? ==> StartsAt(ctx, t, i, tree)
  {
    SizeIsLength(t.left);
  }

  lemma StartsDown<E>(ctx: Ctx<E>, t: Tree<E>, k: nat, tree: Tree<E>)
    requires StartsAt(ctx, t, k, tree) && t.Node?
    ensures Plug(ctx, t) == tree
    ensures StartsAt(LeftOf(ctx, t.color, t.elem, t.right), t.left, k, tree)
    ensures t.left.Leaf? ==> k < |Inorder(tree)| && Inorder(tree)[k] == t.elem
  {
    RankElem(ctx, t);
  }

  lemma EndsDown<E>(ctx: Ctx<E>, t: Tree<E>, k: nat, tree: Tree<E>)
    requires EndsAt(ctx, t, k, tree) && t.Node?
    ensures Plug(ctx, t) == tree
    ensures EndsAt(RightOf(ctx, t.color, t.left, t.elem), t.right, k, tree)
    ensures t.right.Leaf? ==> 0 < k <= |Inorder(tree)| && Inorder(tree)[k - 1] == t.elem
  {
    SizeIsLength(t.left);
    RankElem(ctx, t);
  }

  lemma EndsUp<K>(ctx: RbPath<K>, t: RbShape<K>, k: nat, tree: RbShape<K>)
    requires EndsAt(ctx, t, k, tree)
    ensures Plug(ctx, t) == tree
    ensures ctx.RightOf? ==> EndsAt(ctx.up, Rise(ctx, t), k, tree)
    ensures !ctx.RightOf? ==> IsAt(HoleParent(ctx), Inorder(tree), k)
  {
    PlugLength(ctx, t);
    Moves(ctx, t);
    if ctx.LeftOf? { RankElem(ctx.up, Rise(ctx, t)); }
  }

  lemma StartsUp<K>(ctx: RbPath<K>, t: RbShape<K>, k: nat, tree: RbShape<K>)
    requires StartsAt(ctx, t, k, tree)
    ensures Plug(ctx, t) == tree
    ensures ctx.LeftOf? ==> StartsAt(ctx.up, Rise(ctx, t), k, tree)
    ensures !ctx.LeftOf? ==> IsAt(HoleParent(ctx), Inorder(tree), k - 1)
  {
    Moves(ctx, t);
    if ctx.RightOf? { RankElem(ctx.up, Rise(ctx, t)); }
  }

  /** What a climbing walk sees at the focus. */
  lemma PeekBoth<K(!new)>(head: RbHead<K>, ctx: RbPath<K>, t: RbShape<K>)
    requires head.Is(Plug(ctx, t)) && t.Node?
    ensures t.elem.parent == HoleParent(ctx)
    ensures !ctx.Top? ==>
      (ctx.elem.left == t.elem <==> ctx.LeftOf?) && (ctx.elem.right == t.elem <==> ctx.RightOf?)
    ensures !ctx.Top? ==> Plug(ctx, t) == Plug(ctx.up, Rise(ctx, t)) && Rise(ctx, t).elem == ctx.elem
  {
    head.Peek(ctx, t);
    if !ctx.Top? { head.PeekUp(ctx, t); }
  }

  /** The loop of RB_NEXT into the right subtree: the first element below the focus. */
  method FirstBelow<K(!new)>(head: RbHead<K>, elm0: RbEntry<K>,
      ghost ctx0: RbPath<K>, ghost t0: RbShape<K>, ghost k: nat)
    returns (elm: RbEntry<K>)
    requires head.Is(head.tree) && t0.Node? && t0.elem == elm0 && StartsAt(ctx0, t0, k, head.tree)
    ensures k < |head.Contents()| && head.Contents()[k] == elm
  {
    hide RbHead.Is, Plug, Inorder, StartsAt;
    elm := elm0;
    ghost var ctx, t := ctx0, t0;
    StartsDown(ctx, t, k, head.tree);
    head.Peek(ctx, t);
    while elm.left != null
      invariant head.Is(head.tree) && t.Node? && elm == t.elem && elm.left == RootOf(t.left)
      invariant StartsAt(ctx, t, k, head.tree)
      decreases t
    {
      elm := elm.left;
      StartsDown(ctx, t, k, head.tree);
      ctx, t := LeftOf(ctx, t.color, t.elem, t.right), t.left;
      StartsDown(ctx, t, k, head.tree);
      head.Peek(ctx, t);
    }
    StartsDown(ctx, t, k, head.tree);
  }

  /** The loop of RB_NEXT up from right children. */
  method ClimbFromRight<K(!new)>(head: RbHead<K>, elm0: RbEntry<K>,
      ghost ctx0: RbPath<K>, ghost t0: RbShape<K>, ghost k: nat)
    returns (elm: RbEntry?<K>)
    requires head.Is(head.tree) && t0.Node? && t0.elem == elm0 && EndsAt(ctx0, t0, k, head.tree)
    ensures IsAt(elm, head.Contents(), k)
  {
    hide RbHead.Is, Plug, Inorder, EndsAt, IsAt;
    var cur := elm0;
    ghost var ctx, t := ctx0, t0;
    EndsUp(ctx, t, k, head.tree);
    PeekBoth(head, ctx, t);
    while cur.parent != null && cur == cur.parent.right
      invariant head.Is(head.tree) && t.Node? && cur == t.elem
      invariant EndsAt(ctx, t, k, head.tree)
      decreases Depth(ctx)
    {
      EndsUp(ctx, t, k, head.tree);
      PeekBoth(head, ctx, t);
      cur := cur.parent;
      ctx, t := ctx.up, Rise(ctx, t);
    }
    EndsUp(ctx, t, k, head.tree);
    PeekBoth(head, ctx, t);
    elm := cur.parent;
  }

  /** RB_NEXT: the element after `elm` in the order, or null at the end. */
  method Next<K(!new)>(head: RbHead<K>, elm: RbEntry<K>, ghost i: nat) returns (res: RbEntry?<K>)
    requires head.Valid() && i < |head.Contents()| && head.Contents()[i] == elm
    ensures IsAt(res, head.Contents(), i + 1)
  {
    PlugLength(Top, head.tree);
    ghost var ctx: RbPath<K>, t := LocateRank(Top, head.tree, i);
    RankElem(ctx, t);
    RankBounds(ctx, t, i, head.tree);
    hide RbHead.Is, Ascending, Comparator, IsRedBlack, Plug, Inorder, StartsAt, EndsAt, Rank;
    PeekBoth(head, ctx, t);
    head.Peek(ctx, t);
    if elm.right != null {
      res := FirstBelow(head, elm.right, RightOf(ctx, t.color, t.left, t.elem), t.right, i + 1);
    } else {
      EndsUp(ctx, t, i + 1, head.tree);
      if elm.parent != null && elm == elm.parent.left {
        res := elm.parent;
      } else {
        res := ClimbFromRight(head, elm, ctx, t, i + 1);
      }
    }
  }

  /** The loop of RB_PREV into the left subtree: the last element below the focus. */
  method LastBelow<K(!new)>(head: RbHead<K>, elm0: RbEntry<K>,
      ghost ctx0: RbPath<K>, ghost t0: RbShape<K>, ghost k: nat)
    returns (elm: RbEntry<K>)
    requires head.Is(head.tree) && t0.Node? && t0.elem == elm0 && EndsAt(ctx0, t0, k, head.tree)
    ensures 0 < k <= |head.Contents()| && head.Contents()[k - 1] == elm
  {
    hide RbHead.Is, Plug, Inorder, EndsAt;
    elm := elm0;
    ghost var ctx, t := ctx0, t0;
    EndsDown(ctx, t, k, head.tree);
    head.Peek(ctx, t);
    while elm.right != null
      invariant head.Is(head.tree) && t.Node? && elm == t.elem && elm.right == RootOf(t.right)
      invariant EndsAt(ctx, t, k, head.tree)
      decreases t
    {
      elm := elm.right;
      EndsDown(ctx, t, k, head.tree);
      ctx, t := RightOf(ctx, t.color, t.left, t.elem), t.right;
      EndsDown(ctx, t, k, head.tree);
      head.Peek(ctx, t);
    }
    EndsDown(ctx, t, k, head.tree);
  }

  /** The loop of RB_PREV up from left children. */
  method ClimbFromLeft<K(!new)>(head: RbHead<K>, elm0: RbEntry<K>,
      ghost ctx0: RbPath<K>, ghost t0: RbShape<K>, ghost k: nat)
    returns (elm: RbEntry?<K>)
    requires head.Is(head.tree) && t0.Node? && t0.elem == elm0 && StartsAt(ctx0, t0, k, head.tree)
    ensures IsAt(elm, head.Contents(), k - 1)
  {
    hide RbHead.Is, Plug, Inorder, StartsAt, IsAt;
    var cur := elm0;
    ghost var ctx, t := ctx0, t0;
    StartsUp(ctx, t, k, head.tree);
    PeekBoth(head, ctx, t);
    while cur.parent != null && cur == cur.parent.left
      invariant head.Is(head.tree) && t.Node? && cur == t.elem
      invariant StartsAt(ctx, t, k, head.tree)
      decreases Depth(ctx)
    {
      StartsUp(ctx, t, k, head.tree);
      PeekBoth(head, ctx, t);
      cur := cur.parent;
      ctx, t := ctx.up, Rise(ctx, t);
    }
    StartsUp(ctx, t, k, head.tree);
    PeekBoth(head, ctx, t);
    elm := cur.parent;
  }

  /** RB_PREV: the element before `elm` in the order, or null at the front. */
  method Prev<K(!new)>(head: RbHead<K>, elm: RbEntry<K>, ghost i: nat) returns (res: RbEntry?<K>)
    requires head.Valid() && i < |head.Contents()| && head.Contents()[i] == elm
    ensures IsAt(res, head.Contents(), i - 1)
  {
    PlugLength(Top, head.tree);
    ghost var ctx: RbPath<K>, t := LocateRank(Top, head.tree, i);
    RankElem(ctx, t);
    RankBounds(ctx, t, i, head.tree);
    hide RbHead.Is, Ascending, Comparator, IsRedBlack, Plug, Inorder, StartsAt, EndsAt, Rank;
    PeekBoth(head, ctx, t);
    head.Peek(ctx, t);
    if elm.left != null {
      res := LastBelow(head, elm.left, LeftOf(ctx, t.color, t.elem, t.right), t.left, i);
    } else {
      StartsUp(ctx, t, i, head.tree);
      if elm.parent != null && elm == elm.parent.right {
        res := elm.parent;
      } else {
        res := ClimbFromLeft(head, elm, ctx, t, i);
      }
    }
  }

  /** RB_FOREACH: from the minimum, RB_NEXT visits every element once, in ascending order. */
  method Foreach<K(!new)>(head: RbHead<K>) returns (visited: seq<RbEntry<K>>)
    requires head.Valid()
    ensures visited == head.Contents()
    ensures Ascending(Keys(visited), head.cmp)
  {
    hide RbHead.Is, IsRedBlack, Comparator;
    visited := [];
    var x := MinMax(head, -1);
    while x != null
      invariant IsAt(x, head.Contents(), |visited|)
      invariant |visited| <= |head.Contents()| && visited == head.Contents()[..|visited|]
      decreases |head.Contents()| - |visited|
    {
      visited := visited + [x];
      x := Next(head, x, |visited| - 1);
    }
  }

  /** In an empty hole where `key` fits, no element compares equal to `key`. */
  lemma Missed<K>(cmp: (K, K) -> int, key: K, ctx: RbPath<K>, tree: RbShape<K>)
    requires Plug(ctx, Leaf) == tree && Aims(cmp, key, ctx)
    ensures forall e :: e in Inorder(tree) ==> cmp(key, e.key) != 0
    ensures forall i :: 0 <= i < |Inorder(tree)| ==>
      (if i < |Before(ctx)| then cmp(key, Inorder(tree)[i].key) > 0 else cmp(key, Inorder(tree)[i].key) < 0)
  {
    PlugInorder(ctx, Leaf);
    var s, a, b := Inorder(tree), Before(ctx), After(ctx);
    assert s == a + b;
    forall i | 0 <= i < |s|
      ensures if i < |a| then cmp(key, s[i].key) > 0 else cmp(key, s[i].key) < 0
    {
      if i < |a| {
        assert s[i] == a[i] && Keys(a)[i] == a[i].key;
      } else {
        assert s[i] == b[i - |a|] && Keys(b)[i - |a|] == b[i - |a|].key;
      }
    }
  }

  /** A step down the tree spends one unit of its height. */
  lemma HeightDown<E>(t: Tree<E>)
    requires t.Node?
    ensures Height(t.left) < Height(t) && Height(t.right) < Height(t)
  {
  }

  lemma FoundInOrder<E>(ctx: Ctx<E>, t: Tree<E>, tree: Tree<E>)
    requires t.Node? && Plug(ctx, t) == tree
    ensures t.elem in Inorder(tree)
  {
    RankElem(ctx, t);
  }

  /** RB_FIND: the element comparing equal to `key`, in at most 2 lg (n+1) comparisons. */
  method Find<K(!new)>(head: RbHead<K>, key: K) returns (found: RbEntry?<K>, ghost steps: nat)
    requires head.Valid()
    ensures found != null ==> found in head.Contents() && head.cmp(key, found.key) == 0
    ensures found == null ==> forall e :: e in head.Contents() ==> head.cmp(key, e.key) != 0
    ensures Pow2(steps) <= (|head.Contents()| + 1) * (|head.Contents()| + 1)
  {
    head.PeekRoot(head.tree);
    SearchBound(head.tree);
    ghost var ctx: RbPath<K>, t := Top, head.tree;
    assert Aims(head.cmp, key, ctx) && Plug(ctx, t) == head.tree;
    hide RbHead.Is, Ascending, Comparator, IsRedBlack, Plug, Inorder, Aims, Before, After, Height, Pow2;
    var tmp := head.root;
    steps := 0;
    while tmp != null
      invariant head.Is(head.tree) && Plug(ctx, t) == head.tree && tmp == RootOf(t)
      invariant Aims(head.cmp, key, ctx)
      invariant steps + Height(t) <= Height(head.tree)
      decreases t
    {
      head.Peek(ctx, t);
      Descend(head.cmp, key, ctx, t);
      PlugDown(ctx, t);
      HeightDown(t);
      steps := steps + 1;
      var comp := head.cmp(key, tmp.key);
      if comp < 0 {
        tmp := tmp.left;
        ctx, t := LeftOf(ctx, t.color, t.elem, t.right), t.left;
      } else if comp > 0 {
        tmp := tmp.right;
        ctx, t := RightOf(ctx, t.color, t.left, t.elem), t.right;
      } else {
        FoundInOrder(ctx, t, head.tree);
        return tmp, steps;
      }
    }
    assert t == Leaf;
    Missed(head.cmp, key, ctx, head.tree);
    return null, steps;
  }

  lemma SearchBound<E>(t: Tree<E>)
    requires IsRedBlack(t)
    ensures forall steps: nat :: steps <= Height(t) ==> Pow2(steps) <= (|Inorder(t)| + 1) * (|Inorder(t)| + 1)
  {
    HeightIsLogarithmic(t);
    SizeIsLength(t);
    forall steps: nat | steps <= Height(t)
      ensures Pow2(steps) <= (|Inorder(t)| + 1) * (|Inorder(t)| + 1)
    {
      Pow2Mono(steps, Height(t));
    }
  }

  /** `elm` is the first element of `s` that is not below `key`, or null if all are. */
  ghost predicate LeastNotBelow<K>(elm: RbEntry?<K>, s: seq<RbEntry<K>>, cmp: (K, K) -> int, key: K) {
    if elm == null then forall e :: e in s ==> cmp(key, e.key) > 0
    else exists i :: 0 <= i < |s| && s[i] == elm && cmp(key, elm.key) <= 0 &&
                     forall j :: 0 <= j < i ==> cmp(key, s[j].key) > 0
  }

  /** The last node where the search turned left: the first element after the hole. */
  ghost function Turn<E>(ctx: Ctx<E>): Ctx<E> {
    if ctx.RightOf? then Turn(ctx.up) else ctx
  }

  lemma {:induction false} TurnIsNext<E>(ctx: Ctx<E>)
    ensures if Turn(ctx).Top? then After(ctx) == [] else |After(ctx)| > 0 && After(ctx)[0] == Turn(ctx).elem
    decreases ctx
  {
    if ctx.RightOf? { TurnIsNext(ctx.up); }
  }

  lemma NotBelowAtHole<K(!new)>(cmp: (K, K) -> int, key: K, ctx: RbPath<K>, tree: RbShape<K>)
    requires Plug(ctx, Leaf) == tree && Aims(cmp, key, ctx)
    ensures LeastNotBelow(HoleParent(Turn(ctx)), Inorder(tree), cmp, key)
  {
    Missed(cmp, key, ctx, tree);
    TurnIsNext(ctx);
    PlugInorder(ctx, Leaf);
    var s := Inorder(tree);
    assert s == Before(ctx) + After(ctx);
    if !Turn(ctx).Top? {
      assert s[|Before(ctx)|] == Turn(ctx).elem;
    }
  }

  lemma NotBelowAtNode<K(!new)>(cmp: (K, K) -> int, key: K, ctx: RbPath<K>, t: RbShape<K>, tree: RbShape<K>)
    requires Comparator(cmp) && Ascending(Keys(Inorder(tree)), cmp)
    requires Plug(ctx, t) == tree && t.Node? && cmp(key, t.elem.key) == 0
    ensures LeastNotBelow(t.elem, Inorder(tree), cmp, key)
  {
    RankElem(ctx, t);
    var s, i := Inorder(tree), Rank(ctx, t);
    forall j | 0 <= j < i
      ensures cmp(key, s[j].key) > 0
    {
      assert cmp(Keys(s)[j], Keys(s)[i]) < 0;
      assert cmp(t.elem.key, key) == 0;
      Chain(cmp, s[j].key, t.elem.key, key);
    }
  }

  /** RB_NFIND: the least element that is not below `key`. */
  method NFind<K(!new)>(head: RbHead<K>, key: K) returns (res: RbEntry?<K>)
    requires head.Valid()
    ensures LeastNotBelow(res, head.Contents(), head.cmp, key)
  {
    head.PeekRoot(head.tree);
    ghost var ctx: RbPath<K>, t := Top, head.tree;
    assert Aims(head.cmp, key, ctx) && Plug(ctx, t) == head.tree;
    hide RbHead.Is, Ascending, Comparator, IsRedBlack, Plug, Inorder, Aims, Before, After, LeastNotBelow;
    var tmp := head.root;
    res := null;
    while tmp != null
      invariant head.Is(head.tree) && Plug(ctx, t) == head.tree && tmp == RootOf(t)
      invariant Aims(head.cmp, key, ctx) && res == HoleParent(Turn(ctx))
      decreases t
    {
      head.Peek(ctx, t);
      Descend(head.cmp, key, ctx, t);
      PlugDown(ctx, t);
      var comp := head.cmp(key, tmp.key);
      if comp < 0 {
        res := tmp;
        tmp := tmp.left;
        ctx, t := LeftOf(ctx, t.color, t.elem, t.right), t.left;
      } else if comp > 0 {
        tmp := tmp.right;
        ctx, t := RightOf(ctx, t.color, t.left, t.elem), t.right;
      } else {
        NotBelowAtNode(head.cmp, key, ctx, t, head.tree);
        return tmp;
      }
    }
    assert t == Leaf;
    NotBelowAtHole(head.cmp, key, ctx, head.tree);
  }
}
