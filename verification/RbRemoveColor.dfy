/** RB_REMOVE_COLOR: the deletion fix-up.  The subtree under the focus is one
    black node short on every path; each round moves the shortage up or ends it. */
module RbRemoveColor {
  import opened RedBlack
  import opened RbTree
  import opened RbInsert

  /** All is well but for one black node missing on every path through `t`. */
  ghost predicate Deficit<E>(ctx: Ctx<E>, t: Tree<E>) {
    RedBelow(t) && Balanced(t) && CtxRedOk(ctx) && CtxBalanced(ctx, BlackHeight(t) + 1)
  }

  lemma NoDeficit<E>(t: Tree<E>)
    requires IsRedBlack(t)
    ensures Deficit(Top, t) && Plug(Top, t) == t
  {
  }

  /** The in-order contents do not depend on the colours of a node and its children. */
  lemma RepaintedInorder<E>(t: Tree<E>, u: Tree<E>)
    requires t.Node? && u.Node? && t.elem == u.elem
    requires t.left == u.left || (t.left.Node? && u.left.Node? && u.left == t.left.(color := u.left.color))
    requires t.right == u.right || (t.right.Node? && u.right.Node? && u.right == t.right.(color := u.right.color))
    ensures Inorder(u) == Inorder(t)
  {
  }

  lemma SiblingInorderLeft<E>(up: Ctx<E>, c: Color, e: E, t: Tree<E>, s: Tree<E>, s': Tree<E>)
    requires Inorder(s) == Inorder(s')
    ensures Inorder(Plug(LeftOf(up, c, e, s'), t)) == Inorder(Plug(LeftOf(up, c, e, s), t))
  {
    SameInorder(up, Node(c, t, e, s), Node(c, t, e, s'));
  }

  lemma SiblingInorderRight<E>(up: Ctx<E>, c: Color, e: E, t: Tree<E>, s: Tree<E>, s': Tree<E>)
    requires Inorder(s) == Inorder(s')
    ensures Inorder(Plug(RightOf(up, c, s', e), t)) == Inorder(Plug(RightOf(up, c, s, e), t))
  {
    SameInorder(up, Node(c, s, e, t), Node(c, s', e, t));
  }

  /** A red sibling gives a black one once it has been rotated above the parent. */
  lemma RedSiblingLeft<E>(ctx: Ctx<E>, t: Tree<E>)
    requires Deficit(ctx, t) && ctx.LeftOf? && IsRed(ctx.right)
    ensures ctx.color == Black && ctx.right.left.Node? && !IsRed(ctx.right.left)
    ensures Deficit(LeftOf(LeftOf(ctx.up, Black, ctx.right.elem, ctx.right.right), Red, ctx.elem, ctx.right.left), t)
  {
    var s := ctx.right;
    assert BlackHeight(s) == BlackHeight(s.left) == BlackHeight(s.right);
    var above := LeftOf(ctx.up, Black, s.elem, s.right);
    assert CtxBalanced(above, BlackHeight(t) + 1);
  }

  /** A black sibling without red children is painted red and the deficit moves to the parent. */
  lemma PassedUpLeft<E>(ctx: Ctx<E>, t: Tree<E>)
    requires Deficit(ctx, t) && !IsRed(t) && ctx.LeftOf? && ctx.right.Node? && ctx.right.color == Black
    requires !IsRed(ctx.right.left) && !IsRed(ctx.right.right)
    ensures Deficit(ctx.up, Node(ctx.color, t, ctx.elem, Painted(ctx.right, Red)))
  {
    var s := Painted(ctx.right, Red);
    assert Balanced(s) && RedOk(s) && BlackHeight(s) == BlackHeight(t);
  }

  /** With a red inner nephew only, a rotation at the sibling brings the red child outside. */
  lemma NephewTurnedLeft<E>(ctx: Ctx<E>, t: Tree<E>)
    requires Deficit(ctx, t) && !IsRed(t) && ctx.LeftOf? && ctx.right.Node? && ctx.right.color == Black
    requires IsRed(ctx.right.left) && !IsRed(ctx.right.right)
    ensures var s := RotatedRight(Node(Red, Painted(ctx.right.left, Black), ctx.right.elem, ctx.right.right));
      Deficit(LeftOf(ctx.up, ctx.color, ctx.elem, s), t) && s.color == Black && IsRed(s.right) &&
      Inorder(s) == Inorder(ctx.right)
  {
    var x, y := ctx.right.left, ctx.right;
    var s0 := Node(Red, Painted(x, Black), y.elem, y.right);
    RotatedRightInorder(s0);
    assert Inorder(Painted(x, Black)) == Inorder(x);
    assert Balanced(x) && RedOk(x) && Balanced(y.right) && RedOk(y.right);
    var r := Node(Red, x.right, y.elem, y.right);
    assert Balanced(r) && RedOk(r) && BlackHeight(r) == BlackHeight(x);
    var s := Node(Black, x.left, x.elem, r);
    assert RotatedRight(s0) == s;
    assert Balanced(s) && RedOk(s) && BlackHeight(s) == BlackHeight(y);
  }

  ghost function AbsorbedTreeLeft<E>(c: Color, t: Tree<E>, e: E, s: Tree<E>): Tree<E>
    requires s.Node? && s.right.Node?
  {
    Node(c, Node(Black, t, e, s.left), s.elem, Painted(s.right, Black))
  }

  /** A black sibling with a red outer nephew makes good the deficit. */
  lemma AbsorbedLeft<E>(ctx: Ctx<E>, t: Tree<E>)
    requires Deficit(ctx, t) && !IsRed(t) && ctx.LeftOf? && ctx.right.Node? && ctx.right.color == Black
    requires IsRed(ctx.right.right)
    ensures IsRedBlack(Plug(ctx.up, AbsorbedTreeLeft(ctx.color, t, ctx.elem, ctx.right)))
    ensures Inorder(Plug(ctx.up, AbsorbedTreeLeft(ctx.color, t, ctx.elem, ctx.right))) == Inorder(Plug(ctx, t))
  {
    var s, c := ctx.right, ctx.color;
    var u := AbsorbedTreeLeft(c, t, ctx.elem, s);
    assert Balanced(s.right) && RedOk(s.right) && Balanced(s.left) && RedOk(s.left);
    var v := Node(Black, t, ctx.elem, s.left);
    var w := Painted(s.right, Black);
    assert u == Node(c, v, s.elem, w);
    assert Balanced(v) && RedOk(v) && BlackHeight(v) == BlackHeight(t) + 1;
    assert Balanced(w) && RedOk(w) && BlackHeight(w) == BlackHeight(s.right) + 1;
    assert Balanced(u) && RedOk(u) && BlackHeight(u) == BlackHeight(t) + 1 + Weight(c);
    assert IsRed(u) ==> !ctx.up.Top? && !CtxIsRed(ctx.up);
    assert CtxRedOk(ctx.up) && CtxBalanced(ctx.up, BlackHeight(u));
    PlugIsRedBlack(ctx.up, u);
    RotatedLeftInorder(Rise(ctx, t));
    assert Inorder(u) == Inorder(RotatedLeft(Rise(ctx, t)));
    SameInorder(ctx.up, u, Rise(ctx, t));
  }

  /** The red-sibling step: afterwards the sibling is black and the parent red. */
  method LiftSiblingLeft<K(!new)>(head: RbHead<K>, parent: RbEntry<K>, sibling: RbEntry<K>,
                                  ghost ctx: RbPath<K>, ghost t: RbShape<K>)
    returns (tmp: RbEntry<K>, ghost ctx': RbPath<K>)
    requires head.Is(Plug(ctx, t)) && ctx.LeftOf? && ctx.elem == parent && RootOf(ctx.right) == sibling
    requires Deficit(ctx, t) && IsRed(ctx.right)
    modifies head`root, head.nodes
    ensures ctx'.LeftOf? && ctx'.elem == parent && RootOf(ctx'.right) == tmp && ctx'.color == Red
    ensures head.Is(Plug(ctx', t)) && Deficit(ctx', t) && !IsRed(ctx'.right)
    ensures Depth(ctx') == Depth(ctx) + 1
    ensures Inorder(Plug(ctx', t)) == Inorder(Plug(ctx, t))
  {
    hide RbHead.Is, RbHead.At;
    RedSiblingLeft(ctx, t);
    hide Deficit, RedOk, Balanced, CtxRedOk, CtxBalanced, Inorder;
    ghost var up, s := ctx.up, ctx.right;
    head.SetColor(sibling, Black, RightOf(up, Black, t, parent), s);
    head.SetColor(parent, Red, up, Node(Black, t, parent, Painted(s, Black)));
    ghost var turned := Node(Red, t, parent, Painted(s, Black));
    tmp := head.RotateLeft(parent, up, turned);
    ctx' := LeftOf(LeftOf(up, Black, s.elem, s.right), Red, parent, s.left);
    assert Inorder(turned) == Inorder(Rise(ctx, t)) by { RepaintedInorder(Rise(ctx, t), turned); }
    RotatedLeftInorder(turned);
    SameInorder(up, Rise(ctx, t), RotatedLeft(turned));
    head.PeekUp(ctx', t);
    tmp := parent.right;
  }

  /** The rotation that ends the fix-up: the sibling takes the parent's place and colour. */
  method AbsorbLeft<K(!new)>(head: RbHead<K>, parent: RbEntry<K>, tmp: RbEntry<K>,
                             ghost ctx: RbPath<K>, ghost t: RbShape<K>)
    requires head.Is(Plug(ctx, t)) && ctx.LeftOf? && ctx.elem == parent && RootOf(ctx.right) == tmp
    requires ctx.right.Node? && ctx.right.right.Node?
    modifies head`root, head.nodes
    ensures head.Is(Plug(ctx.up, AbsorbedTreeLeft(ctx.color, t, parent, ctx.right)))
  {
    hide RbHead.Is, RbHead.At;
    ghost var up, c, s := ctx.up, ctx.color, ctx.right;
    head.PeekUp(ctx, t);
    head.SetColor(tmp, parent.color, RightOf(up, c, t, parent), s);
    head.SetColor(parent, Black, up, Node(c, t, parent, Painted(s, c)));
    head.Peek(RightOf(up, Black, t, parent), Painted(s, c));
    ghost var hole := RightOf(RightOf(up, Black, t, parent), c, s.left, tmp);
    assert Plug(hole, s.right) == Plug(up, Node(Black, t, parent, Painted(s, c)));
    if tmp.right != null {
      head.SetColor(tmp.right, Black, hole, s.right);
    }
    assert head.Is(Plug(hole, Painted(s.right, Black)));
    assert Plug(hole, Painted(s.right, Black)) ==
      Plug(RightOf(up, Black, t, parent), Node(c, s.left, tmp, Painted(s.right, Black)));
    var _ := head.RotateLeft(parent, up, Node(Black, t, parent, Node(c, s.left, tmp, Painted(s.right, Black))));
  }

  /** The black-sibling step: the deficit moves up to the parent, or is made good (`done`). */
  method ResolveLeft<K(!new)>(head: RbHead<K>, parent: RbEntry<K>, sibling: RbEntry<K>,
                              ghost ctx0: RbPath<K>, ghost t: RbShape<K>)
    returns (done: bool, ghost ctx': RbPath<K>, ghost t': RbShape<K>)
    requires head.Is(Plug(ctx0, t)) && ctx0.LeftOf? && ctx0.elem == parent && RootOf(ctx0.right) == sibling
    requires Deficit(ctx0, t) && !IsRed(t) && ctx0.right.Node? && !IsRed(ctx0.right)
    modifies head`root, head.nodes
    ensures head.Is(Plug(ctx', t')) && Deficit(ctx', t')
    ensures Inorder(Plug(ctx', t')) == Inorder(Plug(ctx0, t))
    ensures done ==> ctx'.Top?
    ensures !done ==> ctx' == ctx0.up && RootOf(t') == parent && (ctx0.color == Red ==> IsRed(t'))
  {
    hide RbHead.Is, RbHead.At, Deficit, Inorder, IsRedBlack;
    var tmp := sibling;
    ghost var ctx, up, c, s := ctx0, ctx0.up, ctx0.color, ctx0.right;
    ghost var hole := RightOf(up, c, t, parent);
    head.Peek(hole, s);
    if s.left.Node? { head.Peek(LeftOf(hole, Black, tmp, s.right), s.left); }
    if s.right.Node? { head.Peek(RightOf(hole, Black, s.left, tmp), s.right); }
    if (tmp.left == null || tmp.left.color == Black) && (tmp.right == null || tmp.right.color == Black) {
      head.SetColor(tmp, Red, hole, s);
      done, ctx', t' := false, up, Node(c, t, parent, Painted(s, Red));
      PassedUpLeft(ctx, t);
      RepaintedInorder(Rise(ctx, t), t');
      SameInorder(up, Rise(ctx, t), t');
      return;
    }
    if tmp.right == null || tmp.right.color == Black {
      NephewTurnedLeft(ctx, t);
      var oleft := tmp.left;
      if oleft != null {
        head.SetColor(oleft, Black, LeftOf(hole, Black, tmp, s.right), s.left);
      }
      head.SetColor(tmp, Red, hole, Node(Black, Painted(s.left, Black), tmp, s.right));
      ghost var inner := Node(Red, Painted(s.left, Black), tmp, s.right);
      oleft := head.RotateRight(tmp, hole, inner);
      s := RotatedRight(inner);
      ctx := LeftOf(up, c, parent, s);
      SiblingInorderLeft(up, c, parent, t, ctx0.right, s);
      head.PeekUp(ctx, t);
      tmp := parent.right;
    }
    AbsorbedLeft(ctx, t);
    AbsorbLeft(head, parent, tmp, ctx, t);
    done, ctx', t' := true, Top, Plug(up, AbsorbedTreeLeft(c, t, parent, s));
    NoDeficit(t');
  }

  /** A red sibling gives a black one once it has been rotated above the parent. */
  lemma RedSiblingRight<E>(ctx: Ctx<E>, t: Tree<E>)
    requires Deficit(ctx, t) && ctx.RightOf? && IsRed(ctx.left)
    ensures ctx.color == Black && ctx.left.right.Node? && !IsRed(ctx.left.right)
    ensures Deficit(RightOf(RightOf(ctx.up, Black, ctx.left.left, ctx.left.elem), Red, ctx.left.right, ctx.elem), t)
  {
    var s := ctx.left;
    assert BlackHeight(s) == BlackHeight(s.right) == BlackHeight(s.left);
    var above := RightOf(ctx.up, Black, s.left, s.elem);
    assert CtxBalanced(above, BlackHeight(t) + 1);
  }

  /** A black sibling without red children is painted red and the deficit moves to the parent. */
  lemma PassedUpRight<E>(ctx: Ctx<E>, t: Tree<E>)
    requires Deficit(ctx, t) && !IsRed(t) && ctx.RightOf? && ctx.left.Node? && ctx.left.color == Black
    requires !IsRed(ctx.left.right) && !IsRed(ctx.left.left)
    ensures Deficit(ctx.up, Node(ctx.color, Painted(ctx.left, Red), ctx.elem, t))
  {
    var s := Painted(ctx.left, Red);
    assert Balanced(s) && RedOk(s) && BlackHeight(s) == BlackHeight(t);
  }

  /** With a red inner nephew only, a rotation at the sibling brings the red child outside. */
  lemma NephewTurnedRight<E>(ctx: Ctx<E>, t: Tree<E>)
    requires Deficit(ctx, t) && !IsRed(t) && ctx.RightOf? && ctx.left.Node? && ctx.left.color == Black
    requires IsRed(ctx.left.right) && !IsRed(ctx.left.left)
    ensures var s := RotatedLeft(Node(Red, ctx.left.left, ctx.left.elem, Painted(ctx.left.right, Black)));
      Deficit(RightOf(ctx.up, ctx.color, s, ctx.elem), t) && s.color == Black && IsRed(s.left) &&
      Inorder(s) == Inorder(ctx.left)
  {
    var x, y := ctx.left.right, ctx.left;
    var s0 := Node(Red, y.left, y.elem, Painted(x, Black));
    RotatedLeftInorder(s0);
    assert Inorder(Painted(x, Black)) == Inorder(x);
    assert Balanced(x) && RedOk(x) && Balanced(y.left) && RedOk(y.left);
    var r := Node(Red, y.left, y.elem, x.left);
    assert Balanced(r) && RedOk(r) && BlackHeight(r) == BlackHeight(x);
    var s := Node(Black, r, x.elem, x.right);
    assert RotatedLeft(s0) == s;
    assert Balanced(s) && RedOk(s) && BlackHeight(s) == BlackHeight(y);
  }

  ghost function AbsorbedTreeRight<E>(c: Color, t: Tree<E>, e: E, s: Tree<E>): Tree<E>
    requires s.Node? && s.left.Node?
  {
    Node(c, Painted(s.left, Black), s.elem, Node(Black, s.right, e, t))
  }

  /** A black sibling with a red outer nephew makes good the deficit. */
  lemma AbsorbedRight<E>(ctx: Ctx<E>, t: Tree<E>)
    requires Deficit(ctx, t) && !IsRed(t) && ctx.RightOf? && ctx.left.Node? && ctx.left.color == Black
    requires IsRed(ctx.left.left)
    ensures IsRedBlack(Plug(ctx.up, AbsorbedTreeRight(ctx.color, t, ctx.elem, ctx.left)))
    ensures Inorder(Plug(ctx.up, AbsorbedTreeRight(ctx.color, t, ctx.elem, ctx.left))) == Inorder(Plug(ctx, t))
  {
    var s, c := ctx.left, ctx.color;
    var u := AbsorbedTreeRight(c, t, ctx.elem, s);
    assert Balanced(s.left) && RedOk(s.left) && Balanced(s.right) && RedOk(s.right);
    var v := Node(Black, s.right, ctx.elem, t);
    var w := Painted(s.left, Black);
    assert u == Node(c, w, s.elem, v);
    assert Balanced(v) && RedOk(v) && BlackHeight(v) == BlackHeight(t) + 1;
    assert Balanced(w) && RedOk(w) && BlackHeight(w) == BlackHeight(s.left) + 1;
    assert Balanced(u) && RedOk(u) && BlackHeight(u) == BlackHeight(t) + 1 + Weight(c);
    assert IsRed(u) ==> !ctx.up.Top? && !CtxIsRed(ctx.up);
    assert CtxRedOk(ctx.up) && CtxBalanced(ctx.up, BlackHeight(u));
    PlugIsRedBlack(ctx.up, u);
    RotatedRightInorder(Rise(ctx, t));
    assert Inorder(u) == Inorder(RotatedRight(Rise(ctx, t)));
    SameInorder(ctx.up, u, Rise(ctx, t));
  }

  /** The red-sibling step: afterwards the sibling is black and the parent red. */
  method LiftSiblingRight<K(!new)>(head: RbHead<K>, parent: RbEntry<K>, sibling: RbEntry<K>,
                                  ghost ctx: RbPath<K>, ghost t: RbShape<K>)
    returns (tmp: RbEntry<K>, ghost ctx': RbPath<K>)
    requires head.Is(Plug(ctx, t)) && ctx.RightOf? && ctx.elem == parent && RootOf(ctx.left) == sibling
    requires Deficit(ctx, t) && IsRed(ctx.left)
    modifies head`root, head.nodes
    ensures ctx'.RightOf? && ctx'.elem == parent && RootOf(ctx'.left) == tmp && ctx'.color == Red
    ensures head.Is(Plug(ctx', t)) && Deficit(ctx', t) && !IsRed(ctx'.left)
    ensures Depth(ctx') == Depth(ctx) + 1
    ensures Inorder(Plug(ctx', t)) == Inorder(Plug(ctx, t))
  {
    hide RbHead.Is, RbHead.At;
    RedSiblingRight(ctx, t);
    hide Deficit, RedOk, Balanced, CtxRedOk, CtxBalanced, Inorder;
    ghost var up, s := ctx.up, ctx.left;
    head.SetColor(sibling, Black, LeftOf(up, Black, parent, t), s);
    head.SetColor(parent, Red, up, Node(Black, Painted(s, Black), parent, t));
    ghost var turned := Node(Red, Painted(s, Black), parent, t);
    tmp := head.RotateRight(parent, up, turned);
    ctx' := RightOf(RightOf(up, Black, s.left, s.elem), Red, s.right, parent);
    assert Inorder(turned) == Inorder(Rise(ctx, t)) by { RepaintedInorder(Rise(ctx, t), turned); }
    RotatedRightInorder(turned);
    SameInorder(up, Rise(ctx, t), RotatedRight(turned));
    head.PeekUp(ctx', t);
    tmp := parent.left;
  }

  /** The rotation that ends the fix-up: the sibling takes the parent's place and colour. */
  method AbsorbRight<K(!new)>(head: RbHead<K>, parent: RbEntry<K>, tmp: RbEntry<K>,
                             ghost ctx: RbPath<K>, ghost t: RbShape<K>)
    requires head.Is(Plug(ctx, t)) && ctx.RightOf? && ctx.elem == parent && RootOf(ctx.left) == tmp
    requires ctx.left.Node? && ctx.left.left.Node?
    modifies head`root, head.nodes
    ensures head.Is(Plug(ctx.up, AbsorbedTreeRight(ctx.color, t, parent, ctx.left)))
  {
    hide RbHead.Is, RbHead.At;
    ghost var up, c, s := ctx.up, ctx.color, ctx.left;
    head.PeekUp(ctx, t);
    head.SetColor(tmp, parent.color, LeftOf(up, c, parent, t), s);
    head.SetColor(parent, Black, up, Node(c, Painted(s, c), parent, t));
    head.Peek(LeftOf(up, Black, parent, t), Painted(s, c));
    ghost var hole := LeftOf(LeftOf(up, Black, parent, t), c, tmp, s.right);
    assert Plug(hole, s.left) == Plug(up, Node(Black, Painted(s, c), parent, t));
    if tmp.left != null {
      head.SetColor(tmp.left, Black, hole, s.left);
    }
    assert head.Is(Plug(hole, Painted(s.left, Black)));
    assert Plug(hole, Painted(s.left, Black)) ==
      Plug(LeftOf(up, Black, parent, t), Node(c, Painted(s.left, Black), tmp, s.right));
    var _ := head.RotateRight(parent, up, Node(Black, Node(c, Painted(s.left, Black), tmp, s.right), parent, t));
  }

  /** The black-sibling step: the deficit moves up to the parent, or is made good (`done`). */
  method ResolveRight<K(!new)>(head: RbHead<K>, parent: RbEntry<K>, sibling: RbEntry<K>,
                              ghost ctx0: RbPath<K>, ghost t: RbShape<K>)
    returns (done: bool, ghost ctx': RbPath<K>, ghost t': RbShape<K>)
    requires head.Is(Plug(ctx0, t)) && ctx0.RightOf? && ctx0.elem == parent && RootOf(ctx0.left) == sibling
    requires Deficit(ctx0, t) && !IsRed(t) && ctx0.left.Node? && !IsRed(ctx0.left)
    modifies head`root, head.nodes
    ensures head.Is(Plug(ctx', t')) && Deficit(ctx', t')
    ensures Inorder(Plug(ctx', t')) == Inorder(Plug(ctx0, t))
    ensures done ==> ctx'.Top?
    ensures !done ==> ctx' == ctx0.up && RootOf(t') == parent && (ctx0.color == Red ==> IsRed(t'))
  {
    hide RbHead.Is, RbHead.At, Deficit, Inorder, IsRedBlack;
    var tmp := sibling;
    ghost var ctx, up, c, s := ctx0, ctx0.up, ctx0.color, ctx0.left;
    ghost var hole := LeftOf(up, c, parent, t);
    head.Peek(hole, s);
    if s.right.Node? { head.Peek(RightOf(hole, Black, s.left, tmp), s.right); }
    if s.left.Node? { head.Peek(LeftOf(hole, Black, tmp, s.right), s.left); }
    if (tmp.left == null || tmp.left.color == Black) && (tmp.right == null || tmp.right.color == Black) {
      head.SetColor(tmp, Red, hole, s);
      done, ctx', t' := false, up, Node(c, Painted(s, Red), parent, t);
      PassedUpRight(ctx, t);
      RepaintedInorder(Rise(ctx, t), t');
      SameInorder(up, Rise(ctx, t), t');
      return;
    }
    if tmp.left == null || tmp.left.color == Black {
      NephewTurnedRight(ctx, t);
      var oright := tmp.right;
      if oright != null {
        head.SetColor(oright, Black, RightOf(hole, Black, s.left, tmp), s.right);
      }
      head.SetColor(tmp, Red, hole, Node(Black, s.left, tmp, Painted(s.right, Black)));
      ghost var inner := Node(Red, s.left, tmp, Painted(s.right, Black));
      oright := head.RotateLeft(tmp, hole, inner);
      s := RotatedLeft(inner);
      ctx := RightOf(up, c, s, parent);
      SiblingInorderRight(up, c, parent, t, ctx0.left, s);
      head.PeekUp(ctx, t);
      tmp := parent.left;
    }
    AbsorbedRight(ctx, t);
    AbsorbRight(head, parent, tmp, ctx, t);
    done, ctx', t' := true, Top, Plug(up, AbsorbedTreeRight(c, t, parent, s));
    NoDeficit(t');
  }

  /** The root is the focus exactly when nothing is above it. */
  lemma AtRoot<K(!new)>(head: RbHead<K>, ctx: RbPath<K>, t: RbShape<K>)
    requires head.Is(Plug(ctx, t))
    ensures head.root == RootOf(t) <==> ctx.Top?
  {
    head.Focus(ctx, t);
    if !ctx.Top? { RootAbove(ctx, RootOf(t)); }
  }

  lemma {:induction false} RootAbove<K>(ctx: RbPath<K>, hole: RbEntry?<K>)
    requires !ctx.Top?
    ensures CtxRoot(ctx, hole) in CtxElems(ctx)
    decreases ctx
  {
    if !ctx.up.Top? { RootAbove(ctx.up, ctx.elem); }
  }

  /** Below a shortage the sibling cannot be empty. */
  lemma SiblingExists<E>(ctx: Ctx<E>, t: Tree<E>)
    requires Deficit(ctx, t) && !ctx.Top?
    ensures Sibling(ctx).Node?
  {
  }

  /** One round of the loop at a focus that is a left child. */
  method RoundLeft<K(!new)>(head: RbHead<K>, elm0: RbEntry?<K>, parent0: RbEntry<K>,
                            ghost ctx0: RbPath<K>, ghost t0: RbShape<K>)
    returns (done: bool, elm: RbEntry?<K>, parent: RbEntry?<K>, ghost ctx: RbPath<K>, ghost t: RbShape<K>)
    requires head.Is(Plug(ctx0, t0)) && ctx0.LeftOf? && ctx0.elem == parent0 && RootOf(t0) == elm0
    requires Deficit(ctx0, t0) && !IsRed(t0)
    modifies head`root, head.nodes
    ensures head.Is(Plug(ctx, t)) && Deficit(ctx, t) && elm == RootOf(t)
    ensures Inorder(Plug(ctx, t)) == Inorder(Plug(ctx0, t0))
    ensures if done then ctx.Top? else
      parent == HoleParent(ctx) && (Depth(ctx) < Depth(ctx0) || (Depth(ctx) == Depth(ctx0) && IsRed(t)))
  {
    hide RbHead.Is, RbHead.At, Inorder;
    SiblingExists(ctx0, t0);
    hide Deficit;
    head.PeekUp(ctx0, t0);
    head.Peek(RightOf(ctx0.up, ctx0.color, t0, parent0), ctx0.right);
    var tmp := parent0.right;
    ctx := ctx0;
    if tmp.color == Red {
      tmp, ctx := LiftSiblingLeft(head, parent0, tmp, ctx, t0);
      SiblingExists(ctx, t0);
    }
    done, ctx, t := ResolveLeft(head, parent0, tmp, ctx, t0);
    if done {
      elm, parent := head.root, parent0;
      AtRoot(head, ctx, t);
    } else {
      elm := parent0;
      head.Peek(ctx, t);
      parent := elm.parent;
    }
  }

  /** One round of the loop at a focus that is a right child. */
  method RoundRight<K(!new)>(head: RbHead<K>, elm0: RbEntry?<K>, parent0: RbEntry<K>,
                            ghost ctx0: RbPath<K>, ghost t0: RbShape<K>)
    returns (done: bool, elm: RbEntry?<K>, parent: RbEntry?<K>, ghost ctx: RbPath<K>, ghost t: RbShape<K>)
    requires head.Is(Plug(ctx0, t0)) && ctx0.RightOf? && ctx0.elem == parent0 && RootOf(t0) == elm0
    requires Deficit(ctx0, t0) && !IsRed(t0)
    modifies head`root, head.nodes
    ensures head.Is(Plug(ctx, t)) && Deficit(ctx, t) && elm == RootOf(t)
    ensures Inorder(Plug(ctx, t)) == Inorder(Plug(ctx0, t0))
    ensures if done then ctx.Top? else
      parent == HoleParent(ctx) && (Depth(ctx) < Depth(ctx0) || (Depth(ctx) == Depth(ctx0) && IsRed(t)))
  {
    hide RbHead.Is, RbHead.At, Inorder;
    SiblingExists(ctx0, t0);
    hide Deficit;
    head.PeekUp(ctx0, t0);
    head.Peek(LeftOf(ctx0.up, ctx0.color, parent0, t0), ctx0.left);
    var tmp := parent0.left;
    ctx := ctx0;
    if tmp.color == Red {
      tmp, ctx := LiftSiblingRight(head, parent0, tmp, ctx, t0);
      SiblingExists(ctx, t0);
    }
    done, ctx, t := ResolveRight(head, parent0, tmp, ctx, t0);
    if done {
      elm, parent := head.root, parent0;
      AtRoot(head, ctx, t);
    } else {
      elm := parent0;
      head.Peek(ctx, t);
      parent := elm.parent;
    }
  }

  /** RB_REMOVE_COLOR: repairs a tree with a shortage at the focus. */
  method RemoveColor<K(!new)>(head: RbHead<K>, parent0: RbEntry?<K>, elm0: RbEntry?<K>,
                              ghost ctx0: RbPath<K>, ghost t0: RbShape<K>)
    returns (ghost tree: RbShape<K>)
    requires head.Is(Plug(ctx0, t0)) && Deficit(ctx0, t0)
    requires elm0 == RootOf(t0) && parent0 == HoleParent(ctx0)
    modifies head`root, head.nodes
    ensures head.Is(tree) && IsRedBlack(tree) && Inorder(tree) == Inorder(Plug(ctx0, t0))
  {
    hide RbHead.Is, RbHead.At, Deficit, Inorder, IsRedBlack, Plug;
    var parent, elm := parent0, elm0;
    ghost var ctx, t := ctx0, t0;
    var done := false;
    if t.Node? { head.Peek(ctx, t); }
    AtRoot(head, ctx, t);
    while !done && (elm == null || elm.color == Black) && elm != head.root
      invariant head.Is(Plug(ctx, t)) && Deficit(ctx, t) && elm == RootOf(t)
      invariant elm != null ==> elm in head.nodes && elm.color == t.color
      invariant head.root == elm <==> ctx.Top?
      invariant if done then ctx.Top? else parent == HoleParent(ctx)
      invariant Inorder(Plug(ctx, t)) == Inorder(Plug(ctx0, t0))
      decreases !done, Depth(ctx), !IsRed(t)
    {
      head.PeekUp(ctx, t);
      SiblingExists(ctx, t);
      if parent.left == elm {
        done, elm, parent, ctx, t := RoundLeft(head, elm, parent, ctx, t);
      } else {
        done, elm, parent, ctx, t := RoundRight(head, elm, parent, ctx, t);
      }
      if t.Node? { head.Peek(ctx, t); }
      AtRoot(head, ctx, t);
    }
    tree := Plug(ctx, t);
    if elm != null {
      head.SetColor(elm, Black, ctx, t);
      tree := Plug(ctx, Painted(t, Black));
    }
    Settled(ctx, t);
  }

  /** A focus that is red, or at the root, is repaired by painting it black. */
  lemma Settled<E>(ctx: Ctx<E>, t: Tree<E>)
    requires Deficit(ctx, t) && (ctx.Top? || IsRed(t))
    ensures var u := if t.Node? then Painted(t, Black) else t;
      IsRedBlack(Plug(ctx, u)) && Inorder(Plug(ctx, u)) == Inorder(Plug(ctx, t))
  {
    var u := if t.Node? then Painted(t, Black) else t;
    PlugIsRedBlack(ctx, u);
    SameInorder(ctx, t, u);
  }
}
