/** RB_REMOVE: unlinks a node, standing its successor in for it when it has two
    children, and repairs the colours. */
module RbRemove {
  import opened RedBlack
  import opened Order
  import opened RbTree
  import opened RbInsert
  import opened RbRemoveColor

  /** The only child of a node that has at most one. */
  ghost function OnlyChild<E>(t: Tree<E>): Tree<E>
    requires t.Node?
  {
    if t.left.Leaf? then t.right else t.left
  }

  lemma SpliceNodes<K>(ctx: RbPath<K>, t: RbShape<K>)
    requires Separate(ctx, t) && t.Node? && (t.left.Leaf? || t.right.Leaf?)
    ensures var u := OnlyChild(t);
      Separate(ctx, u) && CtxElems(ctx) + Elems(u) == CtxElems(ctx) + Elems(t) - {t.elem} &&
      t.elem !in CtxElems(ctx) + Elems(u) && Elems(t) == Elems(u) + {t.elem} &&
      CtxRoot(ctx, RootOf(u)) == if ctx.Top? then RootOf(u) else CtxRoot(ctx, RootOf(t))
    ensures var nodes, parent, child := CtxElems(ctx) + Elems(t), HoleParent(ctx), RootOf(OnlyChild(t));
      t.elem in nodes && (child != null ==> child in nodes - {t.elem}) &&
      (parent != null ==> parent in nodes - {t.elem} && parent != child)
  {
  }

  /** Fields before and after a node with at most one child is cut out. */
  lemma SpliceFields<K>(ctx: RbPath<K>, t: RbShape<K>, e: RbEntry<K>)
    requires Separate(ctx, t) && t.Node? && (t.left.Leaf? || t.right.Leaf?)
    requires e in CtxElems(ctx) + Elems(OnlyChild(t))
    ensures e == HoleParent(ctx) ==> (FieldsAt(ctx, t, e).left == t.elem <==> ctx.LeftOf?)
    ensures FieldsAt(ctx, OnlyChild(t), e) ==
      var child, f := RootOf(OnlyChild(t)), FieldsAt(ctx, t, e);
      if e == child then f.(parent := HoleParent(ctx))
      else if e != HoleParent(ctx) then f
      else if ctx.LeftOf? then f.(left := child) else f.(right := child)
  {
    var u := OnlyChild(t);
    SpliceNodes(ctx, t);
    if e in CtxElems(ctx) {
      SlotFields(ctx, t.elem, RootOf(u), e);
    } else {
      assert FieldsIn(t, HoleParent(ctx), e) == FieldsIn(u, t.elem, e);
    }
  }

  /** Hangs `child` where `elm` was, below `parent`. */
  method Splice<K(!new)>(head: RbHead<K>, elm: RbEntry<K>, child: RbEntry?<K>, parent: RbEntry?<K>,
                         ghost ctx: RbPath<K>, ghost t: RbShape<K>)
    requires head.Is(Plug(ctx, t)) && t.Node? && t.elem == elm && (t.left.Leaf? || t.right.Leaf?)
    requires child == RootOf(OnlyChild(t)) && parent == HoleParent(ctx)
    modifies head`root, head`nodes, head.nodes
    ensures head.nodes == old(head.nodes) - {elm}
    ensures head.Is(Plug(ctx, OnlyChild(t)))
    ensures unchanged(elm)
  {
    hide RbHead.Is, Plug, FieldsAt, CtxFields, FieldsIn, Separate, CtxRoot, Elems, CtxElems;
    head.Focus(ctx, t);
    ghost var u := OnlyChild(t);
    SpliceNodes(ctx, t);
    forall e | e in head.nodes - {elm} { SpliceFields(ctx, t, e); }
    if child != null {
      child.parent := parent;
    }
    if parent != null {
      if parent.left == elm {
        parent.left := child;
      } else {
        parent.right := child;
      }
    } else {
      head.root := child;
    }
    head.nodes := head.nodes - {elm};
    assert head.At(ctx, u);
    head.Focus(ctx, u);
  }

  lemma SubstituteNodes<K>(ctx: RbPath<K>, t: RbShape<K>, m: RbEntry<K>)
    requires Separate(ctx, t) && t.Node? && m !in CtxElems(ctx) + Elems(t)
    ensures var u := Node(t.color, t.left, m, t.right);
      Separate(ctx, u) && CtxElems(ctx) + Elems(u) == CtxElems(ctx) + Elems(t) - {t.elem} + {m} &&
      CtxRoot(ctx, m) == if ctx.Top? then m else CtxRoot(ctx, t.elem)
    ensures var nodes, parent, l, r := CtxElems(ctx) + Elems(t), HoleParent(ctx), RootOf(t.left), RootOf(t.right);
      t.elem in nodes &&
      (l != null ==> l in nodes - {t.elem} && l != r) && (r != null ==> r in nodes - {t.elem}) &&
      (parent != null ==> parent in nodes - {t.elem} && parent != l && parent != r)
  {
    assert Elems(t) == Elems(t.left) + {t.elem} + Elems(t.right);
  }

  /** Fields before and after `m` has taken the place of the root of `t`. */
  lemma SubstituteFields<K>(ctx: RbPath<K>, t: RbShape<K>, m: RbEntry<K>, e: RbEntry<K>)
    requires Separate(ctx, t) && t.Node? && m !in CtxElems(ctx) + Elems(t)
    requires e in CtxElems(ctx) + Elems(t)
    ensures e == HoleParent(ctx) ==> (FieldsAt(ctx, t, e).left == t.elem <==> ctx.LeftOf?)
    ensures e == t.elem ==> FieldsAt(ctx, t, e) == Fields(RootOf(t.left), RootOf(t.right), HoleParent(ctx), t.color)
    ensures e != t.elem ==>
      (FieldsAt(ctx, Node(t.color, t.left, m, t.right), e) ==
        var f := FieldsAt(ctx, t, e);
        if e == RootOf(t.left) || e == RootOf(t.right) then f.(parent := m)
        else if e != HoleParent(ctx) then f
        else if ctx.LeftOf? then f.(left := m) else f.(right := m))
    ensures FieldsAt(ctx, Node(t.color, t.left, m, t.right), m) ==
      Fields(RootOf(t.left), RootOf(t.right), HoleParent(ctx), t.color)
  {
    var u := Node(t.color, t.left, m, t.right);
    assert Elems(u) == Elems(t.left) + {m} + Elems(t.right);
    if e in CtxElems(ctx) {
      SlotFields(ctx, t.elem, m, e);
    } else if e in Elems(t.left) {
      assert FieldsAt(ctx, u, e) == FieldsIn(t.left, m, e);
      assert FieldsAt(ctx, t, e) == FieldsIn(t.left, t.elem, e);
    } else if e in Elems(t.right) {
      assert FieldsAt(ctx, u, e) == FieldsIn(t.right, m, e);
      assert FieldsAt(ctx, t, e) == FieldsIn(t.right, t.elem, e);
    }
  }

  /** The pointer surgery of the substitution, in terms of the fields alone. */
  method RelinkSubstitute<K(!new)>(head: RbHead<K>, old_: RbEntry<K>, elm: RbEntry<K>)
    requires old_ in head.nodes && elm !in head.nodes
    requires old_.left != null && old_.left in head.nodes - {old_} && old_.left != old_.right
    requires old_.right != null ==> old_.right in head.nodes - {old_}
    requires old_.parent != null ==> old_.parent in head.nodes - {old_, old_.left} && old_.parent != old_.right
    modifies head`root, head.nodes, elm
    ensures head.root == if old(old_.parent) == null then elm else old(head.root)
    ensures elm.left == old(old_.left) && elm.right == old(old_.right)
    ensures elm.parent == old(old_.parent) && elm.color == old(old_.color)
    ensures forall e :: e in head.nodes - {old_} ==>
      e.color == old(e.color) &&
      e.left == (if e == old(old_.parent) && old(e.left) == old_ then elm else old(e.left)) &&
      e.right == (if e == old(old_.parent) && old(e.left) != old_ then elm else old(e.right)) &&
      e.parent == (if e == old(old_.left) || e == old(old_.right) then elm else old(e.parent))
  {
    elm.left, elm.right, elm.parent, elm.color := old_.left, old_.right, old_.parent, old_.color;
    if old_.parent != null {
      if old_.parent.left == old_ {
        old_.parent.left := elm;
      } else {
        old_.parent.right := elm;
      }
    } else {
      head.root := elm;
    }
    old_.left.parent := elm;
    if old_.right != null {
      old_.right.parent := elm;
    }
  }

  /** Copies the fields of `old_` to `elm` and redirects its neighbours to `elm`. */
  method Substitute<K(!new)>(head: RbHead<K>, old_: RbEntry<K>, elm: RbEntry<K>,
      ghost ctx: RbPath<K>, ghost t: RbShape<K>)
    requires head.Is(Plug(ctx, t)) && t.Node? && t.elem == old_ && elm !in head.nodes && t.left.Node?
    modifies head`root, head`nodes, head.nodes, elm
    ensures head.nodes == old(head.nodes) - {old_} + {elm}
    ensures head.Is(Plug(ctx, Node(t.color, t.left, elm, t.right)))
  {
    hide RbHead.Is, Plug, FieldsAt, CtxFields, FieldsIn, Separate, CtxRoot, Elems, CtxElems;
    head.Focus(ctx, t);
    ghost var u := Node(t.color, t.left, elm, t.right);
    SubstituteNodes(ctx, t, elm);
    forall e | e in head.nodes { SubstituteFields(ctx, t, elm, e); }
    assert Matches(old_, FieldsAt(ctx, t, old_));
    RelinkSubstitute(head, old_, elm);
    head.nodes := head.nodes - {old_} + {elm};
    assert head.At(ctx, u);
    head.Focus(ctx, u);
  }

  lemma RemovedAscending<K>(now: seq<RbEntry<K>>, was: seq<RbEntry<K>>, e: RbEntry<K>, cmp: (K, K) -> int)
    requires RemovedFrom(now, was, e) && Ascending(Keys(was), cmp)
    ensures Ascending(Keys(now), cmp)
  {
    var i :| 0 <= i < |was| && was[i] == e && now == was[..i] + was[i + 1..];
    AscendingWithout(Keys(was), i, cmp);
    assert Keys(now) == Keys(was)[..i] + Keys(was)[i + 1..];
  }

  /** Cutting out a node with at most one child takes exactly that node out of the order. */
  lemma CutInorder<E>(ctx: Ctx<E>, t: Tree<E>)
    requires t.Node? && (t.left.Leaf? || t.right.Leaf?)
    ensures RemovedFrom(Inorder(Plug(ctx, OnlyChild(t))), Inorder(Plug(ctx, t)), t.elem)
  {
    PlugInorder(ctx, t);
    PlugInorder(ctx, OnlyChild(t));
    var a, b := Before(ctx) + Inorder(t.left), Inorder(t.right) + After(ctx);
    Regroup(Before(ctx), Inorder(t.left), t.elem, Inorder(t.right), After(ctx));
    assert Before(ctx) + Inorder(OnlyChild(t)) + After(ctx) == a + b;
    RemovedMiddle(Inorder(Plug(ctx, OnlyChild(t))), Inorder(Plug(ctx, t)), a, t.elem, b);
  }

  /** Cutting out a red node breaks no rule; a black one leaves a shortage. */
  lemma CutColors<E>(ctx: Ctx<E>, t: Tree<E>)
    requires t.Node? && (t.left.Leaf? || t.right.Leaf?) && IsRedBlack(Plug(ctx, t))
    ensures t.color == Red ==> IsRedBlack(Plug(ctx, OnlyChild(t)))
    ensures t.color == Black ==> Deficit(ctx, OnlyChild(t))
  {
    PlugIsRedBlack(ctx, t);
    PlugIsRedBlack(ctx, OnlyChild(t));
  }

  /** The end of RB_REMOVE: repair if a black node went, and record the new tree. */
  method Finish<K(!new)>(head: RbHead<K>, color: Color, parent: RbEntry?<K>, child: RbEntry?<K>,
                         ghost ctx: RbPath<K>, ghost t: RbShape<K>)
    requires head.Is(Plug(ctx, t)) && child == RootOf(t) && parent == HoleParent(ctx)
    requires if color == Red then IsRedBlack(Plug(ctx, t)) else Deficit(ctx, t)
    modifies head`root, head`tree, head.nodes
    ensures head.Is(head.tree) && IsRedBlack(head.tree) && head.Contents() == Inorder(Plug(ctx, t))
  {
    hide RbHead.Is, Deficit, IsRedBlack, Plug, Inorder;
    ghost var tree := Plug(ctx, t);
    if color == Black {
      tree := RemoveColor(head, parent, child, ctx, t);
    }
    head.tree := tree;
  }

  /** The case of a node with at most one child. */
  method RemoveSimple<K(!new)>(head: RbHead<K>, elm: RbEntry<K>, child: RbEntry?<K>,
                               ghost ctx: RbPath<K>, ghost t: RbShape<K>)
    requires head.Valid() && head.tree == Plug(ctx, t) && t.Node? && t.elem == elm
    requires (t.left.Leaf? || t.right.Leaf?) && child == RootOf(OnlyChild(t))
    modifies head`root, head`nodes, head`tree, head.nodes
    ensures head.Valid() && head.nodes == old(head.nodes) - {elm}
    ensures RemovedFrom(head.Contents(), old(head.Contents()), elm)
  {
    hide RbHead.Is, Deficit, IsRedBlack, Plug, Inorder, Ascending, RemovedFrom, Comparator;
    head.Peek(ctx, t);
    var parent, color := elm.parent, elm.color;
    CutInorder(ctx, t);
    CutColors(ctx, t);
    RemovedAscending(Inorder(Plug(ctx, OnlyChild(t))), head.Contents(), elm, head.cmp);
    Splice(head, elm, child, parent, ctx, t);
    Finish(head, color, parent, child, ctx, OnlyChild(t));
  }

  // ---------- the case of two children ----------

  /** The context of the successor: down the left spine of the right subtree. */
  ghost function Spine<E>(ctx: Ctx<E>, c: Color, l: Tree<E>, e: E, inner: Ctx<E>): Ctx<E> {
    Append(RightOf(ctx, c, l, e), inner)
  }

  ghost predicate OnlyLefts<E>(ctx: Ctx<E>) {
    ctx.Top? || (ctx.LeftOf? && OnlyLefts(ctx.up))
  }

  lemma {:induction false} OnlyLeftsBefore<E>(ctx: Ctx<E>)
    requires OnlyLefts(ctx)
    ensures Before(ctx) == []
    decreases ctx
  {
    if !ctx.Top? { OnlyLeftsBefore(ctx.up); }
  }

  /** Colour rules around the hole do not depend on which elements the context holds. */
  lemma {:induction false} SpineColors<E>(ctx: Ctx<E>, c: Color, l: Tree<E>, e: E, f: E, inner: Ctx<E>, k: nat)
    ensures CtxRedOk(Spine(ctx, c, l, e, inner)) <==> CtxRedOk(Spine(ctx, c, l, f, inner))
    ensures CtxBalanced(Spine(ctx, c, l, e, inner), k) <==> CtxBalanced(Spine(ctx, c, l, f, inner), k)
    ensures CtxIsRed(Spine(ctx, c, l, e, inner)) <==> CtxIsRed(Spine(ctx, c, l, f, inner))
    decreases inner
  {
    if !inner.Top? { SpineColors(ctx, c, l, e, f, inner.up, k + Weight(inner.color)); }
  }

  /** The trees before, between and after the two steps of the substitution. */
  lemma SpinePlug<E>(ctx: Ctx<E>, c: Color, l: Tree<E>, e: E, inner: Ctx<E>, t: Tree<E>)
    ensures Plug(Spine(ctx, c, l, e, inner), t) == Plug(ctx, Node(c, l, e, Plug(inner, t)))
  {
    PlugAppend(RightOf(ctx, c, l, e), inner, t);
  }

  lemma SuccessorInorder<E>(ctx: Ctx<E>, c: Color, l: Tree<E>, e: E, inner: Ctx<E>, t: Tree<E>)
    requires t.Node? && t.left.Leaf? && OnlyLefts(inner)
    ensures RemovedFrom(Inorder(Plug(Spine(ctx, c, l, t.elem, inner), t.right)),
                        Inorder(Plug(Spine(ctx, c, l, e, inner), t)), e)
  {
    var m, mr, ia := t.elem, Inorder(t.right), After(inner);
    SpinePlug(ctx, c, l, e, inner, t);
    SpinePlug(ctx, c, l, m, inner, t.right);
    OnlyLeftsBefore(inner);
    PlugInorder(inner, t);
    PlugInorder(inner, t.right);
    var r, r' := Plug(inner, t), Plug(inner, t.right);
    assert Inorder(t) == [m] + mr;
    LeadingRegroup(m, mr, ia);
    PlugInorder(ctx, Node(c, l, e, r));
    PlugInorder(ctx, Node(c, l, m, r'));
    assert Inorder(Node(c, l, e, r)) == Inorder(l) + [e] + Inorder(r);
    assert Inorder(Node(c, l, m, r')) == Inorder(l) + [m] + Inorder(r');
    hide Inorder, Before, After, Plug, Spine, OnlyLefts;
    ReplaceByNext(Before(ctx), Inorder(l), e, m, Inorder(r'), After(ctx), Inorder(Plug(ctx, Node(c, l, m, r'))),
                  Inorder(Plug(ctx, Node(c, l, e, r))));
  }

  lemma LeadingRegroup<E>(m: E, mr: seq<E>, ia: seq<E>)
    ensures [] + ([m] + mr) + ia == [m] + ([] + mr + ia)
  {
  }

  lemma ReplaceByNext<E>(a: seq<E>, l: seq<E>, e: E, m: E, rest: seq<E>, b: seq<E>, now: seq<E>, was: seq<E>)
    requires was == a + (l + [e] + ([m] + rest)) + b && now == a + (l + [m] + rest) + b
    ensures RemovedFrom(now, was, e)
  {
    assert was == (a + l) + [e] + ([m] + rest + b);
    assert now == (a + l) + ([m] + rest + b);
    RemovedMiddle(now, was, a + l, e, [m] + rest + b);
  }

  /** Cutting out the successor and giving it the place of `e` breaks the rules no more than the cut. */
  lemma SuccessorColors<E>(ctx: Ctx<E>, c: Color, l: Tree<E>, e: E, inner: Ctx<E>, t: Tree<E>)
    requires t.Node? && t.left.Leaf? && IsRedBlack(Plug(Spine(ctx, c, l, e, inner), t))
    ensures t.color == Red ==> IsRedBlack(Plug(Spine(ctx, c, l, t.elem, inner), t.right))
    ensures t.color == Black ==> Deficit(Spine(ctx, c, l, t.elem, inner), t.right)
  {
    var was, now := Spine(ctx, c, l, e, inner), Spine(ctx, c, l, t.elem, inner);
    PlugIsRedBlack(was, t);
    PlugIsRedBlack(now, t.right);
    SpineColors(ctx, c, l, e, t.elem, inner, BlackHeight(t));
    SpineColors(ctx, c, l, e, t.elem, inner, BlackHeight(t.right));
  }

  /** Walks to the leftmost node of the right subtree of the focus. */
  method Successor<K(!new)>(head: RbHead<K>, old_: RbEntry<K>, ghost ctx: RbPath<K>, ghost t: RbShape<K>)
    returns (elm: RbEntry<K>, ghost inner: RbPath<K>, ghost sub: RbShape<K>)
    requires head.Is(Plug(ctx, t)) && t.Node? && t.elem == old_ && t.right.Node?
    ensures sub.Node? && sub.elem == elm && sub.left.Leaf? && OnlyLefts(inner) && Plug(inner, sub) == t.right
    ensures elm.parent == HoleParent(Spine(ctx, t.color, t.left, old_, inner)) && elm.color == sub.color
    ensures elm.right == RootOf(sub.right) && elm in head.nodes && elm != old_
    ensures inner.Top? <==> elm.parent == old_
  {
    hide RbHead.Is;
    head.Peek(ctx, t);
    elm := old_.right;
    inner, sub := Top, t.right;
    SpinePlug(ctx, t.color, t.left, old_, inner, sub);
    head.Peek(Spine(ctx, t.color, t.left, old_, inner), sub);
    var left := elm.left;
    while left != null
      invariant sub.Node? && sub.elem == elm && OnlyLefts(inner) && Plug(inner, sub) == t.right
      invariant left == RootOf(sub.left) && elm in head.nodes
      decreases sub
    {
      elm := left;
      inner, sub := LeftOf(inner, sub.color, sub.elem, sub.right), sub.left;
      SpinePlug(ctx, t.color, t.left, old_, inner, sub);
      head.Peek(Spine(ctx, t.color, t.left, old_, inner), sub);
      left := elm.left;
    }
    SpinePlug(ctx, t.color, t.left, old_, inner, sub);
    head.Peek(Spine(ctx, t.color, t.left, old_, inner), sub);
    SpineApart(head, ctx, t, inner, sub);
  }

  /** The node to be removed is neither the successor nor on the way to it. */
  lemma SpineApart<K(!new)>(head: RbHead<K>, ctx: RbPath<K>, t: RbShape<K>, inner: RbPath<K>, sub: RbShape<K>)
    requires head.Is(Plug(ctx, t)) && t.Node? && sub.Node? && Plug(inner, sub) == t.right
    ensures sub.elem != t.elem && (!inner.Top? ==> inner.elem != t.elem)
  {
    head.Focus(ctx, t);
    PlugElems(inner, sub);
  }

  /** The case of two children: the successor is cut out and takes the place of `old_`. */
  method RemoveInner<K(!new)>(head: RbHead<K>, old_: RbEntry<K>, ghost ctx: RbPath<K>, ghost t: RbShape<K>)
    requires head.Valid() && head.tree == Plug(ctx, t) && t.Node? && t.elem == old_
    requires t.left.Node? && t.right.Node?
    modifies head`root, head`nodes, head`tree, head.nodes
    ensures head.Valid() && head.nodes == old(head.nodes) - {old_}
    ensures RemovedFrom(head.Contents(), old(head.Contents()), old_)
  {
    hide RbHead.Is, Deficit, IsRedBlack, Plug, Inorder, Ascending, RemovedFrom, Comparator, Elems, CtxElems, Spine;
    ghost var c, l := t.color, t.left;
    var elm, inner, sub := Successor(head, old_, ctx, t);
    var child, parent, color := elm.right, elm.parent, elm.color;
    ghost var was, now := Spine(ctx, c, l, old_, inner), Spine(ctx, c, l, elm, inner);
    SpinePlug(ctx, c, l, old_, inner, sub);
    SpinePlug(ctx, c, l, old_, inner, sub.right);
    SpinePlug(ctx, c, l, elm, inner, sub.right);
    SuccessorInorder(ctx, c, l, old_, inner, sub);
    SuccessorColors(ctx, c, l, old_, inner, sub);
    RemovedAscending(Inorder(Plug(now, sub.right)), head.Contents(), old_, head.cmp);
    SpineParent(ctx, c, l, old_, elm, inner);
    Splice(head, elm, child, parent, was, sub);
    if elm.parent == old_ {
      parent := elm;
    }
    Substitute(head, old_, elm, ctx, Node(c, l, old_, Plug(inner, sub.right)));
    Finish(head, color, parent, child, now, sub.right);
  }

  lemma SpineParent<K>(ctx: RbPath<K>, c: Color, l: RbShape<K>, e: RbEntry<K>, m: RbEntry<K>, inner: RbPath<K>)
    ensures HoleParent(Spine(ctx, c, l, m, inner)) ==
      if inner.Top? then m else HoleParent(Spine(ctx, c, l, e, inner))
  {
  }

  /** RB_REMOVE: takes exactly `elm` out of the tree. */
  method Remove<K(!new)>(head: RbHead<K>, elm: RbEntry<K>) returns (removed: RbEntry<K>)
    requires head.Valid() && elm in head.nodes
    modifies head`root, head`nodes, head`tree, head.nodes
    ensures removed == elm
    ensures head.Valid() && head.nodes == old(head.nodes) - {elm}
    ensures RemovedFrom(head.Contents(), old(head.Contents()), elm)
  {
    head.PeekRoot(head.tree);
    ghost var ctx, t := Locate(head.tree, elm);
    hide RbHead.Is, IsRedBlack, Plug, Inorder, Ascending, RemovedFrom, Comparator, Elems;
    head.Peek(ctx, t);
    if elm.left == null {
      RemoveSimple(head, elm, elm.right, ctx, t);
    } else if elm.right == null {
      RemoveSimple(head, elm, elm.left, ctx, t);
    } else {
      RemoveInner(head, elm, ctx, t);
    }
    return elm;
  }
}
