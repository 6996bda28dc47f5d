/** RB_INSERT_COLOR: the insertion fix-up, climbing from a red node. */
module RbInsert {
  import opened RedBlack
  import opened Order
  import opened RbTree

  /** Everything is a red-black tree, except that the red root of `t` may hang below a red parent. */
  ghost predicate RedAtFocus<E>(ctx: Ctx<E>, t: Tree<E>) {
    t.Node? && t.color == Red && RedOk(t) && Balanced(t) && CtxRedOk(ctx) && CtxBalanced(ctx, BlackHeight(t))
  }

  ghost function Painted<E>(t: Tree<E>, c: Color): Tree<E>
    requires t.Node?
  {
    t.(color := c)
  }

  /** Two trees of equal in-order contents can stand for each other in any context. */
  lemma SameInorder<E>(ctx: Ctx<E>, t: Tree<E>, u: Tree<E>)
    requires Inorder(t) == Inorder(u)
    ensures Inorder(Plug(ctx, t)) == Inorder(Plug(ctx, u))
  {
    PlugInorder(ctx, t);
    PlugInorder(ctx, u);
  }

  lemma RotatedLeftInorder<E>(t: Tree<E>)
    requires t.Node? && t.right.Node?
    ensures Inorder(RotatedLeft(t)) == Inorder(t)
  {
    hide Inorder;
    NodeInorder(t);
    NodeInorder(t.right);
    NodeInorder(RotatedLeft(t));
    NodeInorder(RotatedLeft(t).left);
    Concat4(Inorder(t.left), t.elem, Inorder(t.right.left), t.right.elem, Inorder(t.right.right));
  }

  lemma RotatedRightInorder<E>(t: Tree<E>)
    requires t.Node? && t.left.Node?
    ensures Inorder(RotatedRight(t)) == Inorder(t)
  {
    hide Inorder;
    NodeInorder(t);
    NodeInorder(t.left);
    NodeInorder(RotatedRight(t));
    NodeInorder(RotatedRight(t).right);
    Concat4(Inorder(t.left.left), t.left.elem, Inorder(t.left.right), t.elem, Inorder(t.right));
  }

  lemma NodeInorder<E>(t: Tree<E>)
    requires t.Node?
    ensures Inorder(t) == Inorder(t.left) + [t.elem] + Inorder(t.right)
  {
  }

  lemma Concat4<E>(a: seq<E>, x: E, b: seq<E>, y: E, c: seq<E>)
    ensures (a + [x] + b) + [y] + c == a + [x] + (b + [y] + c)
  {
  }

  ghost function Sibling<E>(ctx: Ctx<E>): Tree<E>
    requires !ctx.Top?
  {
    if ctx.LeftOf? then ctx.right else ctx.left
  }

  /** `p` has the colours and heights of a parent below the context `up` and a black `g`. */
  ghost predicate RedPair<E>(up: Ctx<E>, p: Tree<E>, u: Tree<E>) {
    IsRed(p) && RedBelow(p) && Balanced(p) && RedOk(u) && Balanced(u) && BlackHeight(p) == BlackHeight(u) &&
    CtxRedOk(up) && CtxBalanced(up, BlackHeight(p) + 1)
  }

  /** What a red parent of the red focus entails. */
  lemma RedParent<E>(ctx: Ctx<E>, t: Tree<E>)
    requires RedAtFocus(ctx, t) && CtxIsRed(ctx)
    ensures !ctx.up.Top? && ctx.up.color == Black && !IsRed(Sibling(ctx))
    ensures RedPair(ctx.up.up, Rise(ctx, t), Sibling(ctx.up))
  {
    assert CtxRedOk(ctx.up) && CtxBalanced(ctx.up, BlackHeight(t));
  }

  /** Recolouring a red parent `p` and a red uncle `u` below `g` moves the red focus up to `g`. */
  lemma Recolored<E>(up: Ctx<E>, p: Tree<E>, g: E, u: Tree<E>)
    requires RedPair(up, p, u) && IsRed(u)
    ensures RedAtFocus(up, Node(Red, Painted(p, Black), g, Painted(u, Black)))
    ensures RedAtFocus(up, Node(Red, Painted(u, Black), g, Painted(p, Black)))
    ensures Inorder(Painted(p, Black)) == Inorder(p) && Inorder(Painted(u, Black)) == Inorder(u)
  {
  }

  /** Rotating at a grandparent with a black uncle ends the fix-up. */
  lemma TurnedRight<E>(up: Ctx<E>, p: Tree<E>, g: E, u: Tree<E>)
    requires RedPair(up, p, u) && !IsRed(u) && IsRed(p.left) && !IsRed(p.right)
    ensures RedAtFocus(LeftOf(up, Black, p.elem, Node(Red, p.right, g, u)), p.left)
  {
  }

  lemma TurnedLeft<E>(up: Ctx<E>, p: Tree<E>, g: E, u: Tree<E>)
    requires RedPair(up, p, u) && !IsRed(u) && IsRed(p.right) && !IsRed(p.left)
    ensures RedAtFocus(RightOf(up, Black, Node(Red, u, g, p.left), p.elem), p.right)
  {
  }

  /** Turning an inner red child outward keeps the pair. */
  lemma TurnedOut<E>(up: Ctx<E>, p: Tree<E>, u: Tree<E>)
    requires RedPair(up, p, u)
    ensures IsRed(p.right) && !IsRed(p.left) ==>
              RedPair(up, RotatedLeft(p), u) && IsRed(RotatedLeft(p).left) && !IsRed(RotatedLeft(p).right)
    ensures IsRed(p.left) && !IsRed(p.right) ==>
              RedPair(up, RotatedRight(p), u) && IsRed(RotatedRight(p).right) && !IsRed(RotatedRight(p).left)
  {
    if IsRed(p.right) && !IsRed(p.left) {
      assert Balanced(p.right) && RedOk(p.right) && Balanced(RotatedLeft(p).left);
    }
    if IsRed(p.left) && !IsRed(p.right) {
      assert Balanced(p.left) && RedOk(p.left) && Balanced(RotatedRight(p).right);
    }
  }

  /** One round of the fix-up at a red focus whose parent is red and a left child. */
  method FixLeft<K(!new)>(head: RbHead<K>, elm: RbEntry<K>, ghost ctx: RbPath<K>, ghost t: RbShape<K>)
    returns (next: RbEntry<K>, ghost ctx': RbPath<K>, ghost t': RbShape<K>)
    requires head.Is(Plug(ctx, t)) && RedAtFocus(ctx, t) && t.elem == elm
    requires CtxIsRed(ctx) && ctx.up.LeftOf?
    modifies head`root, head.nodes
    ensures head.Is(Plug(ctx', t')) && t'.Node? && RedAtFocus(ctx', t') && t'.elem == next
    ensures Inorder(Plug(ctx', t')) == Inorder(Plug(ctx, t))
    ensures Depth(ctx') < Depth(ctx)
  {
    hide RbHead.Is, RbHead.At;
    RedParent(ctx, t);
    hide RedAtFocus, RedPair, CtxRedOk, CtxBalanced, RedOk, Balanced;
    ghost var up, p, u := ctx.up.up, Rise(ctx, t), ctx.up.right;
    head.Peek(ctx, t);
    head.PeekUp(ctx, t);
    var parent := elm.parent;
    head.PeekUp(ctx.up, p);
    var gparent := parent.parent;
    ghost var start := Node(Black, p, gparent, u);
    var tmp := gparent.right;
    if tmp != null { head.Peek(RightOf(up, Black, p, gparent), u); }
    if tmp != null && tmp.color == Red {
      head.SetColor(tmp, Black, RightOf(up, Black, p, gparent), u);
      head.SetColor(parent, Black, LeftOf(up, Black, gparent, Painted(u, Black)), p);
      head.SetColor(gparent, Red, up, Node(Black, Painted(p, Black), gparent, Painted(u, Black)));
      next, ctx', t' := gparent, up, Node(Red, Painted(p, Black), gparent, Painted(u, Black));
      Recolored(up, p, gparent, u);
      SameInorder(up, start, t');
      return;
    }
    next := elm;
    if parent.right == elm {
      RotatedLeftInorder(p);
      TurnedOut(up, p, u);
      tmp := head.RotateLeft(parent, ctx.up, p);
      p := RotatedLeft(p);
      tmp := parent;
      parent := elm;
      next := tmp;
    }
    head.SetColor(parent, Black, LeftOf(up, Black, gparent, u), p);
    head.SetColor(gparent, Red, up, Node(Black, Painted(p, Black), gparent, u));
    tmp := head.RotateRight(gparent, up, Node(Red, Painted(p, Black), gparent, u));
    ctx', t' := LeftOf(up, Black, parent, Node(Red, p.right, gparent, u)), p.left;
    TurnedRight(up, p, gparent, u);
    RotatedRightInorder(Node(Red, Painted(p, Black), gparent, u));
    SameInorder(up, start, Rise(ctx', t'));
  }

  /** One round of the fix-up at a red focus whose parent is red and a right child. */
  method FixRight<K(!new)>(head: RbHead<K>, elm: RbEntry<K>, ghost ctx: RbPath<K>, ghost t: RbShape<K>)
    returns (next: RbEntry<K>, ghost ctx': RbPath<K>, ghost t': RbShape<K>)
    requires head.Is(Plug(ctx, t)) && RedAtFocus(ctx, t) && t.elem == elm
    requires CtxIsRed(ctx) && ctx.up.RightOf?
    modifies head`root, head.nodes
    ensures head.Is(Plug(ctx', t')) && t'.Node? && RedAtFocus(ctx', t') && t'.elem == next
    ensures Inorder(Plug(ctx', t')) == Inorder(Plug(ctx, t))
    ensures Depth(ctx') < Depth(ctx)
  {
    hide RbHead.Is, RbHead.At;
    RedParent(ctx, t);
    hide RedAtFocus, RedPair, CtxRedOk, CtxBalanced, RedOk, Balanced;
    ghost var up, p, u := ctx.up.up, Rise(ctx, t), ctx.up.left;
    head.Peek(ctx, t);
    head.PeekUp(ctx, t);
    var parent := elm.parent;
    head.PeekUp(ctx.up, p);
    var gparent := parent.parent;
    ghost var start := Node(Black, u, gparent, p);
    var tmp := gparent.left;
    if tmp != null { head.Peek(LeftOf(up, Black, gparent, p), u); }
    if tmp != null && tmp.color == Red {
      head.SetColor(tmp, Black, LeftOf(up, Black, gparent, p), u);
      head.SetColor(parent, Black, RightOf(up, Black, Painted(u, Black), gparent), p);
      head.SetColor(gparent, Red, up, Node(Black, Painted(u, Black), gparent, Painted(p, Black)));
      next, ctx', t' := gparent, up, Node(Red, Painted(u, Black), gparent, Painted(p, Black));
      Recolored(up, p, gparent, u);
      SameInorder(up, start, t');
      return;
    }
    next := elm;
    if parent.left == elm {
      RotatedRightInorder(p);
      TurnedOut(up, p, u);
      tmp := head.RotateRight(parent, ctx.up, p);
      p := RotatedRight(p);
      tmp := parent;
      parent := elm;
      next := tmp;
    }
    head.SetColor(parent, Black, RightOf(up, Black, u, gparent), p);
    head.SetColor(gparent, Red, up, Node(Black, u, gparent, Painted(p, Black)));
    tmp := head.RotateLeft(gparent, up, Node(Red, u, gparent, Painted(p, Black)));
    ctx', t' := RightOf(up, Black, Node(Red, u, gparent, p.left), parent), p.right;
    TurnedLeft(up, p, gparent, u);
    RotatedLeftInorder(Node(Red, u, gparent, Painted(p, Black)));
    SameInorder(up, start, Rise(ctx', t'));
  }

  /** RB_INSERT_COLOR: repairs a tree whose only fault is a red `elm` below a red parent. */
  method InsertColor<K(!new)>(head: RbHead<K>, elm: RbEntry<K>, ghost ctx0: RbPath<K>, ghost t0: RbShape<K>)
    returns (ghost tree: RbShape<K>)
    requires head.Is(Plug(ctx0, t0)) && t0.Node? && RedAtFocus(ctx0, t0) && t0.elem == elm
    modifies head`root, head.nodes
    ensures head.Is(tree) && IsRedBlack(tree) && Inorder(tree) == Inorder(Plug(ctx0, t0))
  {
    hide RbHead.Is, RbHead.At, RedAtFocus, Plug;
    var elm := elm;
    ghost var ctx, t := ctx0, t0;
    head.Peek(ctx, t);
    if !ctx.Top? { head.PeekUp(ctx, t); }
    while elm.parent != null && elm.parent.color == Red
      invariant head.Is(Plug(ctx, t)) && t.Node? && RedAtFocus(ctx, t) && t.elem == elm
      invariant elm in head.nodes && elm.parent == HoleParent(ctx)
      invariant !ctx.Top? ==> ctx.elem in head.nodes && ctx.elem.color == ctx.color
      invariant Inorder(Plug(ctx, t)) == Inorder(Plug(ctx0, t0))
      decreases Depth(ctx)
    {
      var parent := elm.parent;
      RedParent(ctx, t);
      head.PeekUp(ctx, t);
      PlugRise(ctx, t);
      head.PeekUp(ctx.up, Rise(ctx, t));
      var gparent := parent.parent;
      if parent == gparent.left {
        elm, ctx, t := FixLeft(head, elm, ctx, t);
      } else {
        elm, ctx, t := FixRight(head, elm, ctx, t);
      }
      head.Peek(ctx, t);
      if !ctx.Top? { head.PeekUp(ctx, t); }
    }
    tree := BlackenRoot(head, ctx, t);
  }

  /** The last step: the root becomes black, which leaves no red node below a red one. */
  method BlackenRoot<K(!new)>(head: RbHead<K>, ghost ctx: RbPath<K>, ghost t: RbShape<K>)
    returns (ghost tree: RbShape<K>)
    requires head.Is(Plug(ctx, t)) && RedAtFocus(ctx, t) && !CtxIsRed(ctx)
    modifies head.nodes
    ensures head.Is(tree) && IsRedBlack(tree) && Inorder(tree) == Inorder(Plug(ctx, t))
  {
    ghost var whole := Plug(ctx, t);
    PlugNode(ctx, t);
    head.Peek(Top, whole);
    assert head.root == whole.elem;
    head.SetColor(head.root, Black, Top, whole);
    tree := Painted(whole, Black);
    if ctx.Top? {
      assert IsRedBlack(tree);
    } else {
      PlugIsRedBlack(ctx, t);
      assert tree == whole;
    }
  }

  lemma PlugRise<E>(ctx: Ctx<E>, t: Tree<E>)
    requires !ctx.Top?
    ensures Plug(ctx, t) == Plug(ctx.up, Rise(ctx, t))
  {
  }

  lemma {:induction false} PlugNode<E>(ctx: Ctx<E>, t: Tree<E>)
    requires t.Node?
    ensures Plug(ctx, t).Node?
    decreases ctx
  {
    if !ctx.Top? { PlugNode(ctx.up, Rise(ctx, t)); }
  }

  /** Where the search for `key` has led, all before the focus is below `key`, all after it above. */
  ghost predicate Aims<K>(cmp: (K, K) -> int, key: K, ctx: RbPath<K>) {
    Fits(cmp, key, Keys(Before(ctx)), Keys(After(ctx)))
  }

  lemma Descend<K(!new)>(cmp: (K, K) -> int, key: K, ctx: RbPath<K>, t: RbShape<K>)
    requires Comparator(cmp) && Aims(cmp, key, ctx) && t.Node?
    requires Ascending(Keys(Inorder(Plug(ctx, t))), cmp)
    ensures cmp(key, t.elem.key) < 0 ==> Aims(cmp, key, LeftOf(ctx, t.color, t.elem, t.right))
    ensures cmp(key, t.elem.key) > 0 ==> Aims(cmp, key, RightOf(ctx, t.color, t.left, t.elem))
  {
    var a, l, r, b := Before(ctx), Inorder(t.left), Inorder(t.right), After(ctx);
    PlugInorder(ctx, t);
    Regroup(a, l, t.elem, r, b);
    KeysAround(a + l, t.elem, r + b);
    Narrow(cmp, key, Keys(a + l), t.elem.key, Keys(r + b));
    hide Fits, Comparator, Ascending;
    if cmp(key, t.elem.key) < 0 {
      FitsJoin(cmp, key, Keys(a), Keys(b), [], [t.elem.key] + Keys(r + b));
    }
    if cmp(key, t.elem.key) > 0 {
      FitsJoin(cmp, key, Keys(a), Keys(b), Keys(a + l) + [t.elem.key], []);
    }
  }

  lemma KeysAround<K>(a: seq<RbEntry<K>>, x: RbEntry<K>, b: seq<RbEntry<K>>)
    ensures Keys(a + [x] + b) == Keys(a) + [x.key] + Keys(b)
    ensures Keys([x] + b) == [x.key] + Keys(b) && Keys(a + [x]) == Keys(a) + [x.key]
  {
  }

  lemma PlacedAt<K(!new)>(cmp: (K, K) -> int, before: seq<RbEntry<K>>, x: RbEntry<K>, after: seq<RbEntry<K>>)
    requires Comparator(cmp) && Fits(cmp, x.key, Keys(before), Keys(after)) && Ascending(Keys(before + after), cmp)
    ensures Ascending(Keys(before + [x] + after), cmp)
    ensures forall e :: e in before + after ==> cmp(x.key, e.key) != 0
  {
    KeysConcat(before, after);
    KeysAround(before, x, after);
    Placed(cmp, Keys(before), x.key, Keys(after));
    forall e | e in before + after
      ensures cmp(x.key, e.key) != 0
    {
      var i :| 0 <= i < |before + after| && (before + after)[i] == e;
      assert Keys(before + after)[i] == e.key;
    }
  }

  /** A red leaf in an empty hole breaks no rule but, perhaps, the one about red parents. */
  lemma LeafInsert<E>(tree: Tree<E>, ctx: Ctx<E>, e: E)
    requires IsRedBlack(tree) && tree == Plug(ctx, Leaf)
    ensures RedAtFocus(ctx, Node(Red, Leaf, e, Leaf))
    ensures Before(ctx) + After(ctx) == Inorder(tree)
    ensures Inorder(Plug(ctx, Node(Red, Leaf, e, Leaf))) == Before(ctx) + [e] + After(ctx)
  {
    PlugIsRedBlack(ctx, Leaf);
    PlugInorder(ctx, Leaf);
    PlugInorder(ctx, Node(Red, Leaf, e, Leaf));
    assert Before(ctx) + [] + After(ctx) == Before(ctx) + After(ctx);
  }

  lemma LeafFields<K>(ctx: RbPath<K>, elm: RbEntry<K>, e: RbEntry<K>)
    requires CtxDistinct(ctx) && elm !in CtxElems(ctx) && e in CtxElems(ctx) + {elm}
    ensures FieldsAt(ctx, Node(Red, Leaf, elm, Leaf), e) ==
      var f := FieldsAt(ctx, Leaf, e);
      if e == elm then Fields(null, null, HoleParent(ctx), Red)
      else if e != HoleParent(ctx) then f
      else if ctx.LeftOf? then f.(left := elm) else f.(right := elm)
  {
    if e != elm { SlotFields(ctx, null, elm, e); }
  }

  /** Hangs the red leaf `elm` in the empty hole of `ctx`, as RB_SET and the link after it do. */
  method LinkLeaf<K(!new)>(head: RbHead<K>, elm: RbEntry<K>, parent: RbEntry?<K>, comp: int, ghost ctx: RbPath<K>)
    requires head.Is(Plug(ctx, Leaf)) && elm !in head.nodes && parent == HoleParent(ctx)
    requires !ctx.Top? ==> (comp < 0 <==> ctx.LeftOf?)
    modifies head`root, head`nodes, elm, if parent != null then {parent} else {}
    ensures head.nodes == old(head.nodes) + {elm}
    ensures head.Is(Plug(ctx, Node(Red, Leaf, elm, Leaf)))
  {
    hide RbHead.Is, Plug;
    head.Focus(ctx, Leaf);
    forall e | e in head.nodes + {elm} { LeafFields(ctx, elm, e); }
    ghost var leaf := Node(Red, Leaf, elm, Leaf);
    assert Separate(ctx, leaf) && CtxElems(ctx) + Elems(leaf) == head.nodes + {elm};
    assert parent != null ==> parent in head.nodes;
    assert CtxRoot(ctx, elm) == if ctx.Top? then elm else CtxRoot(ctx, null);
    hide FieldsAt, CtxFields, FieldsIn, Separate, CtxRoot, Elems, CtxElems;
    elm.parent := parent;
    elm.left, elm.right := null, null;
    elm.color := Red;
    if parent != null {
      if comp < 0 {
        parent.left := elm;
      } else {
        parent.right := elm;
      }
    } else {
      head.root := elm;
    }
    head.nodes := head.nodes + {elm};
    assert head.At(ctx, leaf);
    head.Focus(ctx, leaf);
  }

  /** The part of RB_INSERT after the search: link at the slot found, then repair. */
  method InsertAt<K(!new)>(head: RbHead<K>, elm: RbEntry<K>, parent: RbEntry?<K>, comp: int, ghost ctx: RbPath<K>)
    requires head.Valid() && elm !in head.nodes && parent == HoleParent(ctx)
    requires head.tree == Plug(ctx, Leaf) && Aims(head.cmp, elm.key, ctx)
    requires !ctx.Top? ==> (comp < 0 <==> ctx.LeftOf?)
    modifies head`root, head`nodes, head`tree, head.nodes, elm
    ensures head.Valid() && head.nodes == old(head.nodes) + {elm}
    ensures forall e :: e in old(head.Contents()) ==> head.cmp(elm.key, e.key) != 0
    ensures InsertedInto(head.Contents(), old(head.Contents()), elm)
  {
    hide RbHead.Is, RbHead.At, Comparator, Ascending, Fits, IsRedBlack, RedAtFocus, Plug, Inorder, Before, After;
    LeafInsert(head.tree, ctx, elm);
    assert Fits(head.cmp, elm.key, Keys(Before(ctx)), Keys(After(ctx)));
    PlacedAt(head.cmp, Before(ctx), elm, After(ctx));
    if !ctx.Top? { head.PeekUp(ctx, Leaf); }
    LinkLeaf(head, elm, parent, comp, ctx);
    ghost var tree := InsertColor(head, elm, ctx, Node(Red, Leaf, elm, Leaf));
    head.tree := tree;
    assert head.Contents() == old(head.Contents())[..|Before(ctx)|] + [elm] + old(head.Contents())[|Before(ctx)|..];
  }

  /** No two elements of a tree compare equal. */
  lemma OnlyOne<K(!new)>(head: RbHead<K>, d: RbEntry<K>, e: RbEntry<K>)
    requires head.Valid() && d in head.nodes && e in head.nodes && head.cmp(d.key, e.key) == 0
    ensures d == e
  {
    hide RbHead.Is, IsRedBlack, Inorder;
    head.PeekRoot(head.tree);
    InorderElems(head.tree);
    var s := Inorder(head.tree);
    var i :| 0 <= i < |s| && s[i] == d;
    var j :| 0 <= j < |s| && s[j] == e;
    assert Keys(s)[i] == d.key && Keys(s)[j] == e.key;
  }

  /** An element that fits a hole is not in the tree. */
  lemma NotThere<K(!new)>(head: RbHead<K>, elm: RbEntry<K>, ctx: RbPath<K>)
    requires head.Valid() && head.tree == Plug(ctx, Leaf) && Aims(head.cmp, elm.key, ctx)
    ensures elm !in head.nodes
  {
    hide RbHead.Is, IsRedBlack, Inorder, Plug, RedAtFocus, Before, After;
    head.PeekRoot(head.tree);
    InorderElems(head.tree);
    LeafInsert(head.tree, ctx, elm);
    PlacedAt(head.cmp, Before(ctx), elm, After(ctx));
  }

  /** RB_INSERT: adds `elm` unless an element comparing equal is there, which is then returned; an
      element of the tree is itself returned. */
  method Insert<K(!new)>(head: RbHead<K>, elm: RbEntry<K>) returns (found: RbEntry?<K>)
    requires head.Valid()
    modifies head`root, head`nodes, head`tree, head.nodes, elm
    ensures head.Valid() && (elm in old(head.nodes) ==> found == elm)
    ensures found != null ==>
      found in head.nodes && head.cmp(elm.key, found.key) == 0 &&
      unchanged(head) && unchanged(elm) && unchanged(old(head.nodes))
    ensures found == null ==>
      head.nodes == old(head.nodes) + {elm} &&
      (forall e :: e in old(head.Contents()) ==> head.cmp(elm.key, e.key) != 0) &&
      InsertedInto(head.Contents(), old(head.Contents()), elm)
  {
    head.PeekRoot(head.tree);
    ghost var ctx: RbPath<K>, t := Top, head.tree;
    assert Aims(head.cmp, elm.key, ctx) && Plug(ctx, t) == t;
    hide RbHead.Is, RbHead.At, Comparator, Ascending, Aims, IsRedBlack, RedAtFocus, Plug, Inorder, Before, After;
    var tmp := head.root;
    var parent: RbEntry?<K> := null;
    var comp := 0;
    while tmp != null
      invariant head.Is(head.tree) && head.tree == Plug(ctx, t) && tmp == RootOf(t)
      invariant Aims(head.cmp, elm.key, ctx) && parent == HoleParent(ctx)
      invariant !ctx.Top? ==> (comp < 0 <==> ctx.LeftOf?)
      invariant unchanged(head) && unchanged(elm) && unchanged(head.nodes)
      decreases t
    {
      head.Peek(ctx, t);
      Descend(head.cmp, elm.key, ctx, t);
      parent := tmp;
      comp := head.cmp(elm.key, parent.key);
      if comp < 0 {
        tmp := tmp.left;
        ctx, t := LeftOf(ctx, t.color, t.elem, t.right), t.left;
      } else if comp > 0 {
        tmp := tmp.right;
        ctx, t := RightOf(ctx, t.color, t.left, t.elem), t.right;
      } else {
        if elm in head.nodes { OnlyOne(head, elm, tmp); }
        return tmp;
      }
    }
    NotThere(head, elm, ctx);
    InsertAt(head, elm, parent, comp, ctx);
    return null;
  }
}
