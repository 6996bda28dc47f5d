/** The pointer red-black tree: nodes with left, right, parent and colour fields,
    rewritten in place.  `At(ctx, t)` says that the fields of all nodes spell out
    the tree `Plug(ctx, t)`; every method says how it changes that tree. */
module RbTree {
  import opened RedBlack
  import opened Order

  class RbEntry<K> {
    const key: K
    var left: RbEntry?<K>
    var right: RbEntry?<K>
    var parent: RbEntry?<K>
    var color: Color

    constructor (key: K)
      ensures this.key == key
    {
      this.key := key;
      left, right, parent, color := null, null, null, Red;
    }
  }

  type RbShape<!K> = Tree<RbEntry<K>>
  type RbPath<!K> = Ctx<RbEntry<K>>

  datatype Fields<!K> = Fields(left: RbEntry?<K>, right: RbEntry?<K>, parent: RbEntry?<K>, color: Color)

  ghost function RootOf<K>(t: RbShape<K>): RbEntry?<K> {
    if t.Leaf? then null else t.elem
  }

  ghost function HoleParent<K>(ctx: RbPath<K>): RbEntry?<K> {
    if ctx.Top? then null else ctx.elem
  }

  /** The pointer stored in the head when `hole` is stored in the hole of `ctx`. */
  ghost function CtxRoot<K>(ctx: RbPath<K>, hole: RbEntry?<K>): RbEntry?<K> {
    if ctx.Top? then hole else CtxRoot(ctx.up, ctx.elem)
  }

  /** What the fields of `e` must be inside `t`, hanging below `parent`. */
  ghost function FieldsIn<K>(t: RbShape<K>, parent: RbEntry?<K>, e: RbEntry<K>): Fields<K> {
    match t
    case Leaf => Fields(null, null, null, Black)
    case Node(c, l, x, r) =>
      if e == x then Fields(RootOf(l), RootOf(r), parent, c)
      else if e in Elems(l) then FieldsIn(l, x, e)
      else FieldsIn(r, x, e)
  }

  /** What the fields of `e` must be inside `ctx`, with `hole` stored in its hole. */
  ghost function CtxFields<K>(ctx: RbPath<K>, hole: RbEntry?<K>, e: RbEntry<K>): Fields<K> {
    match ctx
    case Top => Fields(null, null, null, Black)
    case LeftOf(up, c, x, r) =>
      if e == x then Fields(hole, RootOf(r), HoleParent(up), c)
      else if e in Elems(r) then FieldsIn(r, x, e)
      else CtxFields(up, x, e)
    case RightOf(up, c, l, x) =>
      if e == x then Fields(RootOf(l), hole, HoleParent(up), c)
      else if e in Elems(l) then FieldsIn(l, x, e)
      else CtxFields(up, x, e)
  }

  ghost function FieldsAt<K>(ctx: RbPath<K>, t: RbShape<K>, e: RbEntry<K>): Fields<K> {
    if e in Elems(t) then FieldsIn(t, HoleParent(ctx), e) else CtxFields(ctx, RootOf(t), e)
  }

  ghost predicate Matches<K>(e: RbEntry<K>, f: Fields<K>)
    reads e
  {
    e.left == f.left && e.right == f.right && e.parent == f.parent && e.color == f.color
  }

  ghost predicate Separate<K>(ctx: RbPath<K>, t: RbShape<K>) {
    CtxDistinct(ctx) && Distinct(t) && CtxElems(ctx) !! Elems(t)
  }

  /** Fields of `e` before and after rotating left at `elm`, whose right child is `tmp`. */
  lemma RotateLeftFields<K>(ctx: RbPath<K>, cx: Color, a: RbShape<K>, elm: RbEntry<K>,
                            cy: Color, b: RbShape<K>, tmp: RbEntry<K>, c: RbShape<K>, e: RbEntry<K>)
    requires Separate(ctx, Node(cx, a, elm, Node(cy, b, tmp, c)))
    requires e in CtxElems(ctx) + Elems(Node(cx, a, elm, Node(cy, b, tmp, c)))
    ensures Separate(ctx, Node(cy, Node(cx, a, elm, b), tmp, c))
    ensures Elems(Node(cy, Node(cx, a, elm, b), tmp, c)) == Elems(Node(cx, a, elm, Node(cy, b, tmp, c)))
    ensures CtxRoot(ctx, tmp) == if ctx.Top? then tmp else CtxRoot(ctx, elm)
    ensures var f := FieldsAt(ctx, Node(cx, a, elm, Node(cy, b, tmp, c)), e);
            (e == elm ==> f == Fields(RootOf(a), tmp, HoleParent(ctx), cx)) &&
            (e == tmp ==> f == Fields(RootOf(b), RootOf(c), elm, cy)) &&
            (e == HoleParent(ctx) ==> (f.left == elm <==> ctx.LeftOf?)) &&
            FieldsAt(ctx, Node(cy, Node(cx, a, elm, b), tmp, c), e) ==
              if e == elm then Fields(RootOf(a), RootOf(b), tmp, cx)
              else if e == tmp then Fields(elm, RootOf(c), HoleParent(ctx), cy)
              else if e == RootOf(b) then f.(parent := elm)
              else if e != HoleParent(ctx) then f
              else if ctx.LeftOf? then f.(left := tmp) else f.(right := tmp)
  {
    var y, x := Node(cy, b, tmp, c), Node(cx, a, elm, b);
    assert Distinct(y) && Elems(y) == Elems(b) + {tmp} + Elems(c);
    assert Distinct(x) && Elems(x) == Elems(a) + {elm} + Elems(b);
    assert FieldsIn(y, elm, e) == if e == tmp then Fields(RootOf(b), RootOf(c), elm, cy)
                                  else if e in Elems(b) then FieldsIn(b, tmp, e) else FieldsIn(c, tmp, e);
    assert FieldsIn(x, tmp, e) == if e == elm then Fields(RootOf(a), RootOf(b), tmp, cx)
                                  else if e in Elems(a) then FieldsIn(a, elm, e) else FieldsIn(b, elm, e);
  }

  /** Fields of `e` before and after rotating right at `elm`, whose left child is `tmp`. */
  lemma RotateRightFields<K>(ctx: RbPath<K>, cx: Color, cy: Color, a: RbShape<K>, tmp: RbEntry<K>,
                             b: RbShape<K>, elm: RbEntry<K>, c: RbShape<K>, e: RbEntry<K>)
    requires Separate(ctx, Node(cx, Node(cy, a, tmp, b), elm, c))
    requires e in CtxElems(ctx) + Elems(Node(cx, Node(cy, a, tmp, b), elm, c))
    ensures Separate(ctx, Node(cy, a, tmp, Node(cx, b, elm, c)))
    ensures Elems(Node(cy, a, tmp, Node(cx, b, elm, c))) == Elems(Node(cx, Node(cy, a, tmp, b), elm, c))
    ensures CtxRoot(ctx, tmp) == if ctx.Top? then tmp else CtxRoot(ctx, elm)
    ensures var f := FieldsAt(ctx, Node(cx, Node(cy, a, tmp, b), elm, c), e);
            (e == elm ==> f == Fields(tmp, RootOf(c), HoleParent(ctx), cx)) &&
            (e == tmp ==> f == Fields(RootOf(a), RootOf(b), elm, cy)) &&
            (e == HoleParent(ctx) ==> (f.left == elm <==> ctx.LeftOf?)) &&
            FieldsAt(ctx, Node(cy, a, tmp, Node(cx, b, elm, c)), e) ==
              if e == elm then Fields(RootOf(b), RootOf(c), tmp, cx)
              else if e == tmp then Fields(RootOf(a), elm, HoleParent(ctx), cy)
              else if e == RootOf(b) then f.(parent := elm)
              else if e != HoleParent(ctx) then f
              else if ctx.LeftOf? then f.(left := tmp) else f.(right := tmp)
  {
    var y, x := Node(cy, a, tmp, b), Node(cx, b, elm, c);
    assert Distinct(y) && Elems(y) == Elems(a) + {tmp} + Elems(b);
    assert Distinct(x) && Elems(x) == Elems(b) + {elm} + Elems(c);
    assert FieldsIn(y, elm, e) == if e == tmp then Fields(RootOf(a), RootOf(b), elm, cy)
                                  else if e in Elems(a) then FieldsIn(a, tmp, e) else FieldsIn(b, tmp, e);
    assert FieldsIn(x, tmp, e) == if e == elm then Fields(RootOf(b), RootOf(c), tmp, cx)
                                  else if e in Elems(b) then FieldsIn(b, elm, e) else FieldsIn(c, elm, e);
  }

  ghost function RotatedLeft<E>(t: Tree<E>): Tree<E>
    requires t.Node? && t.right.Node?
  {
    Node(t.right.color, Node(t.color, t.left, t.elem, t.right.left), t.right.elem, t.right.right)
  }

  ghost function RotatedRight<E>(t: Tree<E>): Tree<E>
    requires t.Node? && t.left.Node?
  {
    Node(t.left.color, t.left.left, t.left.elem, Node(t.color, t.left.right, t.elem, t.right))
  }

  /** Storing another pointer in the hole changes one field of the hole's parent, or the head. */
  lemma SlotFields<K>(ctx: RbPath<K>, hole: RbEntry?<K>, repl: RbEntry?<K>, e: RbEntry<K>)
    requires CtxDistinct(ctx) && e in CtxElems(ctx)
    ensures CtxFields(ctx, repl, e) ==
      var f := CtxFields(ctx, hole, e);
      if e != HoleParent(ctx) then f else if ctx.LeftOf? then f.(left := repl) else f.(right := repl)
    ensures CtxRoot(ctx, repl) == if ctx.Top? then repl else CtxRoot(ctx, hole)
  {
  }

  /** Moving the focus one level up changes no field. */
  lemma {:induction false} FocusUp<K>(ctx: RbPath<K>, t: RbShape<K>)
    requires !ctx.Top?
    ensures Separate(ctx, t) <==> Separate(ctx.up, Rise(ctx, t))
    ensures CtxElems(ctx) + Elems(t) == CtxElems(ctx.up) + Elems(Rise(ctx, t))
    ensures CtxRoot(ctx, RootOf(t)) == CtxRoot(ctx.up, RootOf(Rise(ctx, t)))
    ensures Separate(ctx, t) ==> forall e :: e in CtxElems(ctx) + Elems(t) ==>
              FieldsAt(ctx, t, e) == FieldsAt(ctx.up, Rise(ctx, t), e)
  {
  }

  /** The subtree that fills the hole left when `t` and its parent frame are taken together. */
  ghost function Rise<E>(ctx: Ctx<E>, t: Tree<E>): Tree<E>
    requires !ctx.Top?
  {
    match ctx
    case LeftOf(_, c, e, r) => Node(c, t, e, r)
    case RightOf(_, c, l, e) => Node(c, l, e, t)
  }

  ghost function Keys<K>(s: seq<RbEntry<K>>): (keys: seq<K>)
    ensures |keys| == |s| && forall i :: 0 <= i < |s| ==> keys[i] == s[i].key
  {
    seq(|s|, i requires 0 <= i < |s| => s[i].key)
  }

  lemma KeysConcat<K>(s: seq<RbEntry<K>>, t: seq<RbEntry<K>>)
    ensures Keys(s + t) == Keys(s) + Keys(t)
  {
  }

  class RbHead<K(!new)> {
    const cmp: (K, K) -> int
    var root: RbEntry?<K>
    ghost var nodes: set<RbEntry<K>>
    ghost var tree: RbShape<K>

    constructor (cmp: (K, K) -> int)
      requires Comparator(cmp)
      ensures Valid() && Contents() == [] && nodes == {} && this.cmp == cmp
    {
      this.cmp := cmp;
      root, nodes, tree := null, {}, Leaf;
    }

    /** A search tree under `cmp`, well linked and obeying every colour rule. */
    ghost predicate Valid()
      reads this, nodes
    {
      Comparator(cmp) && Is(tree) && IsRedBlack(tree) && Ascending(Keys(Inorder(tree)), cmp)
    }

    ghost function Contents(): seq<RbEntry<K>>
      reads this`tree
    {
      Inorder(tree)
    }

    /** The heap holds the tree `t`. */
    ghost predicate Is(t: RbShape<K>)
      reads this`root, this`nodes, nodes
    {
      At(Top, t)
    }

    /** The heap holds the tree `Plug(ctx, t)`, whose nodes are `nodes`. */
    ghost predicate At(ctx: RbPath<K>, t: RbShape<K>)
      reads this`root, this`nodes, nodes
    {
      Separate(ctx, t) && nodes == CtxElems(ctx) + Elems(t) && root == CtxRoot(ctx, RootOf(t)) &&
      forall e :: e in nodes ==> Matches(e, FieldsAt(ctx, t, e))
    }

    lemma {:induction false} Focus(ctx: RbPath<K>, t: RbShape<K>)
      ensures At(ctx, t) <==> Is(Plug(ctx, t))
      decreases ctx
    {
      if !ctx.Top? {
        Focus(ctx.up, Rise(ctx, t));
        FocusUp(ctx, t);
      }
    }

    lemma PeekRoot(t: RbShape<K>)
      requires Is(t)
      ensures root == RootOf(t) && nodes == Elems(t) && Distinct(t)
    {
    }

    /** What the fields of the node under the focus hold. */
    lemma Peek(ctx: RbPath<K>, t: RbShape<K>)
      requires Is(Plug(ctx, t)) && t.Node?
      ensures t.elem in nodes && t.elem.color == t.color && t.elem.parent == HoleParent(ctx)
      ensures t.elem.left == RootOf(t.left) && t.elem.right == RootOf(t.right)
    {
      Focus(ctx, t);
      assert Matches(t.elem, FieldsAt(ctx, t, t.elem));
    }

    /** What the fields of the parent of the focus hold. */
    lemma PeekUp(ctx: RbPath<K>, t: RbShape<K>)
      requires Is(Plug(ctx, t)) && !ctx.Top?
      ensures ctx.elem in nodes && ctx.elem.color == ctx.color && ctx.elem.parent == HoleParent(ctx.up)
      ensures ctx.LeftOf? ==> ctx.elem.left == RootOf(t) && ctx.elem.right == RootOf(ctx.right)
      ensures ctx.RightOf? ==> ctx.elem.right == RootOf(t) && ctx.elem.left == RootOf(ctx.left)
      ensures t.Node? || (ctx.RightOf? && ctx.left.Node?) ==> (ctx.elem.left == RootOf(t) <==> ctx.LeftOf?)
      ensures t.Node? || (ctx.LeftOf? && ctx.right.Node?) ==> (ctx.elem.right == RootOf(t) <==> ctx.RightOf?)
    {
      Peek(ctx.up, Rise(ctx, t));
      Focus(ctx, t);
    }

    /** The pointer surgery of a left rotation, in terms of the fields alone. */
    method RelinkLeft(elm: RbEntry<K>) returns (tmp: RbEntry<K>)
      requires elm in nodes && elm.right != null && elm.right in nodes && elm.right != elm
      requires elm.right.left != null ==> elm.right.left in nodes - {elm, elm.right}
      requires elm.parent != null ==> elm.parent in nodes - {elm, elm.right} && elm.parent != elm.right.left
      modifies this`root, nodes
      ensures tmp == old(elm.right)
      ensures root == if old(elm.parent) == null then tmp else old(root)
      ensures forall e :: e in nodes ==>
        e.color == old(e.color) &&
        e.left == (if e == tmp then elm
                   else if e == old(elm.parent) && old(e.left) == elm then tmp else old(e.left)) &&
        e.right == (if e == elm then old(elm.right.left)
                    else if e == old(elm.parent) && old(e.left) != elm then tmp else old(e.right)) &&
        e.parent == (if e == elm then tmp else if e == tmp then old(elm.parent)
                     else if e == old(elm.right.left) then elm else old(e.parent))
    {
      tmp := elm.right;
      elm.right := tmp.left;
      if elm.right != null {
        tmp.left.parent := elm;
      }
      tmp.parent := elm.parent;
      if tmp.parent != null {
        if elm == elm.parent.left {
          elm.parent.left := tmp;
        } else {
          elm.parent.right := tmp;
        }
      } else {
        root := tmp;
      }
      tmp.left := elm;
      elm.parent := tmp;
    }

    /** The pointer surgery of a right rotation, in terms of the fields alone. */
    method RelinkRight(elm: RbEntry<K>) returns (tmp: RbEntry<K>)
      requires elm in nodes && elm.left != null && elm.left in nodes && elm.left != elm
      requires elm.left.right != null ==> elm.left.right in nodes - {elm, elm.left}
      requires elm.parent != null ==> elm.parent in nodes - {elm, elm.left} && elm.parent != elm.left.right
      modifies this`root, nodes
      ensures tmp == old(elm.left)
      ensures root == if old(elm.parent) == null then tmp else old(root)
      ensures forall e :: e in nodes ==>
        e.color == old(e.color) &&
        e.left == (if e == elm then old(elm.left.right)
                   else if e == old(elm.parent) && old(e.left) == elm then tmp else old(e.left)) &&
        e.right == (if e == tmp then elm
                    else if e == old(elm.parent) && old(e.left) != elm then tmp else old(e.right)) &&
        e.parent == (if e == elm then tmp else if e == tmp then old(elm.parent)
                     else if e == old(elm.left.right) then elm else old(e.parent))
    {
      tmp := elm.left;
      elm.left := tmp.right;
      if elm.left != null {
        tmp.right.parent := elm;
      }
      tmp.parent := elm.parent;
      if tmp.parent != null {
        if elm == elm.parent.left {
          elm.parent.left := tmp;
        } else {
          elm.parent.right := tmp;
        }
      } else {
        root := tmp;
      }
      tmp.right := elm;
      elm.parent := tmp;
    }

    method RotateLeft(elm: RbEntry<K>, ghost ctx: RbPath<K>, ghost t: RbShape<K>)
      returns (tmp: RbEntry<K>)
      requires Is(Plug(ctx, t)) && t.Node? && t.elem == elm && t.right.Node?
      modifies this`root, nodes
      ensures tmp == t.right.elem
      ensures Is(Plug(ctx, RotatedLeft(t)))
    {
      ghost var a, y, b, c := t.left, t.right.elem, t.right.left, t.right.right;
      Focus(ctx, t);
      forall e | e in nodes {
        RotateLeftFields(ctx, t.color, a, elm, t.right.color, b, y, c, e);
      }
      assert Elems(t.right) == Elems(b) + {y} + Elems(c);
      assert y in nodes && Matches(elm, FieldsAt(ctx, t, elm)) && Matches(y, FieldsAt(ctx, t, y));
      hide FieldsAt, FieldsIn, CtxFields, Elems, CtxElems, Separate, CtxRoot;
      tmp := RelinkLeft(elm);
      assert At(ctx, RotatedLeft(t));
      Focus(ctx, RotatedLeft(t));
    }

    method RotateRight(elm: RbEntry<K>, ghost ctx: RbPath<K>, ghost t: RbShape<K>)
      returns (tmp: RbEntry<K>)
      requires Is(Plug(ctx, t)) && t.Node? && t.elem == elm && t.left.Node?
      modifies this`root, nodes
      ensures tmp == t.left.elem
      ensures Is(Plug(ctx, RotatedRight(t)))
    {
      ghost var a, y, b, c := t.left.left, t.left.elem, t.left.right, t.right;
      Focus(ctx, t);
      forall e | e in nodes {
        RotateRightFields(ctx, t.color, t.left.color, a, y, b, elm, c, e);
      }
      assert Elems(t.left) == Elems(a) + {y} + Elems(b);
      assert y in nodes && Matches(elm, FieldsAt(ctx, t, elm)) && Matches(y, FieldsAt(ctx, t, y));
      hide FieldsAt, FieldsIn, CtxFields, Elems, CtxElems, Separate, CtxRoot;
      tmp := RelinkRight(elm);
      assert At(ctx, RotatedRight(t));
      Focus(ctx, RotatedRight(t));
    }

    method SetColor(e: RbEntry<K>, c: Color, ghost ctx: RbPath<K>, ghost t: RbShape<K>)
      requires Is(Plug(ctx, t)) && t.Node? && t.elem == e
      modifies nodes
      ensures Is(Plug(ctx, t.(color := c)))
    {
      Focus(ctx, t);
      e.color := c;
      assert At(ctx, t.(color := c));
      Focus(ctx, t.(color := c));
    }
  }
}
