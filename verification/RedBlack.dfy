/** Red-black trees as values: the shape every pointer operation of the tree
    header is proved against.  A tree with a hole (`Ctx`) records the path from
    the node under repair up to the root. */
module RedBlack {
  import opened Powers

  datatype Color = Black | Red

  datatype Tree<E> =
    | Leaf
    | Node(color: Color, left: Tree<E>, elem: E, right: Tree<E>)

  /** The path from a hole to the root: the hole is the left (right) child of `elem`. */
  datatype Ctx<E> =
    | Top
    | LeftOf(up: Ctx<E>, color: Color, elem: E, right: Tree<E>)
    | RightOf(up: Ctx<E>, color: Color, left: Tree<E>, elem: E)

  // ---------- contents ----------

  ghost function Inorder<E>(t: Tree<E>): seq<E> {
    match t
    case Leaf => []
    case Node(_, l, e, r) => Inorder(l) + [e] + Inorder(r)
  }

  ghost function Elems<E>(t: Tree<E>): set<E> {
    match t
    case Leaf => {}
    case Node(_, l, e, r) => Elems(l) + {e} + Elems(r)
  }

  ghost function Size<E>(t: Tree<E>): nat {
    match t
    case Leaf => 0
    case Node(_, l, _, r) => Size(l) + 1 + Size(r)
  }

  ghost function Height<E>(t: Tree<E>): nat {
    match t
    case Leaf => 0
    case Node(_, l, _, r) => 1 + if Height(l) < Height(r) then Height(r) else Height(l)
  }

  ghost predicate Distinct<E>(t: Tree<E>) {
    match t
    case Leaf => true
    case Node(_, l, e, r) =>
      Distinct(l) && Distinct(r) && e !in Elems(l) && e !in Elems(r) && Elems(l) !! Elems(r)
  }

  // ---------- colour rules ----------

  ghost predicate IsRed<E>(t: Tree<E>) { t.Node? && t.color == Red }

  /** No red node has a red child. */
  ghost predicate RedOk<E>(t: Tree<E>) {
    match t
    case Leaf => true
    case Node(c, l, _, r) => RedOk(l) && RedOk(r) && (c == Red ==> !IsRed(l) && !IsRed(r))
  }

  /** Like RedOk, but a red root may have red children. */
  ghost predicate RedBelow<E>(t: Tree<E>) {
    t.Leaf? || (RedOk(t.left) && RedOk(t.right) && (t.color == Red || RedOk(t)))
  }

  ghost function Weight(c: Color): nat { if c == Black then 1 else 0 }

  /** Black nodes on the leftmost path; on every path when `Balanced`. */
  ghost function BlackHeight<E>(t: Tree<E>): nat {
    match t
    case Leaf => 0
    case Node(c, l, _, _) => BlackHeight(l) + Weight(c)
  }

  ghost predicate Balanced<E>(t: Tree<E>) {
    match t
    case Leaf => true
    case Node(_, l, _, r) => Balanced(l) && Balanced(r) && BlackHeight(l) == BlackHeight(r)
  }

  ghost predicate IsRedBlack<E>(t: Tree<E>) {
    RedOk(t) && Balanced(t) && !IsRed(t)
  }

  // ---------- trees with a hole ----------

  ghost function Plug<E>(ctx: Ctx<E>, t: Tree<E>): Tree<E> {
    match ctx
    case Top => t
    case LeftOf(up, c, e, r) => Plug(up, Node(c, t, e, r))
    case RightOf(up, c, l, e) => Plug(up, Node(c, l, e, t))
  }

  ghost function Before<E>(ctx: Ctx<E>): seq<E> {
    match ctx
    case Top => []
    case LeftOf(up, _, _, _) => Before(up)
    case RightOf(up, _, l, e) => Before(up) + Inorder(l) + [e]
  }

  ghost function After<E>(ctx: Ctx<E>): seq<E> {
    match ctx
    case Top => []
    case LeftOf(up, _, e, r) => [e] + Inorder(r) + After(up)
    case RightOf(up, _, _, _) => After(up)
  }

  ghost function CtxElems<E>(ctx: Ctx<E>): set<E> {
    match ctx
    case Top => {}
    case LeftOf(up, _, e, r) => CtxElems(up) + {e} + Elems(r)
    case RightOf(up, _, l, e) => CtxElems(up) + {e} + Elems(l)
  }

  ghost predicate CtxDistinct<E>(ctx: Ctx<E>) {
    match ctx
    case Top => true
    case LeftOf(up, _, e, r) =>
      CtxDistinct(up) && Distinct(r) && e !in CtxElems(up) && e !in Elems(r) && CtxElems(up) !! Elems(r)
    case RightOf(up, _, l, e) =>
      CtxDistinct(up) && Distinct(l) && e !in CtxElems(up) && e !in Elems(l) && CtxElems(up) !! Elems(l)
  }

  ghost function Depth<E>(ctx: Ctx<E>): nat {
    if ctx.Top? then 0 else 1 + Depth(ctx.up)
  }

  /** `inner` hung in the hole of `outer`. */
  ghost function Append<E>(outer: Ctx<E>, inner: Ctx<E>): Ctx<E> {
    match inner
    case Top => outer
    case LeftOf(up, c, e, r) => LeftOf(Append(outer, up), c, e, r)
    case RightOf(up, c, l, e) => RightOf(Append(outer, up), c, l, e)
  }

  ghost predicate CtxIsRed<E>(ctx: Ctx<E>) { !ctx.Top? && ctx.color == Red }

  /** Around the hole no red node has a red child, and the root is black. */
  ghost predicate CtxRedOk<E>(ctx: Ctx<E>) {
    match ctx
    case Top => true
    case LeftOf(up, c, _, r) =>
      CtxRedOk(up) && RedOk(r) && (c == Red ==> !IsRed(r) && !up.Top? && !CtxIsRed(up))
    case RightOf(up, c, l, _) =>
      CtxRedOk(up) && RedOk(l) && (c == Red ==> !IsRed(l) && !up.Top? && !CtxIsRed(up))
  }

  /** All paths agree once a tree of black height `k` is put in the hole. */
  ghost predicate CtxBalanced<E>(ctx: Ctx<E>, k: nat) {
    match ctx
    case Top => true
    case LeftOf(up, c, _, r) => Balanced(r) && BlackHeight(r) == k && CtxBalanced(up, k + Weight(c))
    case RightOf(up, c, l, _) => Balanced(l) && BlackHeight(l) == k && CtxBalanced(up, k + Weight(c))
  }

  // ---------- lemmas ----------

  lemma Reassociate<T>(a: seq<T>, l: seq<T>, x: T, r: seq<T>, b: seq<T>)
    ensures a + (l + [x] + r) + b == a + l + ([x] + r + b)
    ensures a + (l + [x] + r) + b == (a + l + [x]) + r + b
  {
  }

  lemma {:induction false} PlugInorder<E>(ctx: Ctx<E>, t: Tree<E>)
    ensures Inorder(Plug(ctx, t)) == Before(ctx) + Inorder(t) + After(ctx)
    decreases ctx
  {
    match ctx
    case Top =>
    case LeftOf(up, c, e, r) =>
      PlugInorder(up, Node(c, t, e, r));
      Reassociate(Before(up), Inorder(t), e, Inorder(r), After(up));
    case RightOf(up, c, l, e) =>
      PlugInorder(up, Node(c, l, e, t));
      Reassociate(Before(up), Inorder(l), e, Inorder(t), After(up));
  }

  lemma {:induction false} PlugElems<E>(ctx: Ctx<E>, t: Tree<E>)
    ensures Elems(Plug(ctx, t)) == CtxElems(ctx) + Elems(t)
    ensures Distinct(Plug(ctx, t)) <==> CtxDistinct(ctx) && Distinct(t) && CtxElems(ctx) !! Elems(t)
    decreases ctx
  {
    match ctx
    case Top =>
    case LeftOf(up, c, e, r) => PlugElems(up, Node(c, t, e, r));
    case RightOf(up, c, l, e) => PlugElems(up, Node(c, l, e, t));
  }

  lemma {:induction false} PlugAppend<E>(outer: Ctx<E>, inner: Ctx<E>, t: Tree<E>)
    ensures Plug(Append(outer, inner), t) == Plug(outer, Plug(inner, t))
    decreases inner
  {
    match inner
    case Top =>
    case LeftOf(up, c, e, r) => PlugAppend(outer, up, Node(c, t, e, r));
    case RightOf(up, c, l, e) => PlugAppend(outer, up, Node(c, l, e, t));
  }

  /** A tree is balanced exactly when its context is, around a balanced subtree. */
  lemma {:induction false} PlugBalanced<E>(ctx: Ctx<E>, t: Tree<E>)
    ensures Balanced(Plug(ctx, t)) <==> Balanced(t) && CtxBalanced(ctx, BlackHeight(t))
    decreases ctx
  {
    match ctx
    case Top =>
    case LeftOf(up, c, e, r) => PlugBalanced(up, Node(c, t, e, r));
    case RightOf(up, c, l, e) => PlugBalanced(up, Node(c, l, e, t));
  }

  /** Colour rules of a plugged tree with a black root, read off the two parts. */
  lemma {:induction false} PlugRedOk<E>(ctx: Ctx<E>, t: Tree<E>)
    ensures RedOk(Plug(ctx, t)) && !IsRed(Plug(ctx, t)) <==>
            RedOk(t) && CtxRedOk(ctx) && (IsRed(t) ==> !ctx.Top? && !CtxIsRed(ctx))
    decreases ctx
  {
    match ctx
    case Top =>
    case LeftOf(up, c, e, r) => PlugRedOk(up, Node(c, t, e, r));
    case RightOf(up, c, l, e) => PlugRedOk(up, Node(c, l, e, t));
  }

  lemma PlugIsRedBlack<E>(ctx: Ctx<E>, t: Tree<E>)
    ensures IsRedBlack(Plug(ctx, t)) <==>
            RedOk(t) && CtxRedOk(ctx) && (IsRed(t) ==> !ctx.Top? && !CtxIsRed(ctx)) &&
            Balanced(t) && CtxBalanced(ctx, BlackHeight(t))
  {
    PlugBalanced(ctx, t);
    PlugRedOk(ctx, t);
  }

  lemma {:induction false} InorderElems<E>(t: Tree<E>)
    ensures forall e :: e in Inorder(t) <==> e in Elems(t)
    ensures |Inorder(t)| == Size(t)
    decreases t
  {
    match t
    case Leaf =>
    case Node(_, l, _, r) => InorderElems(l); InorderElems(r);
  }

  /** Every element sits at the root of some subtree. */
  lemma {:induction false} Locate<E>(t: Tree<E>, e: E) returns (ctx: Ctx<E>, sub: Tree<E>)
    requires e in Elems(t)
    ensures t == Plug(ctx, sub) && sub.Node? && sub.elem == e
    decreases t
  {
    if t.elem == e {
      ctx, sub := Top, t;
    } else if e in Elems(t.left) {
      var inner;
      inner, sub := Locate(t.left, e);
      ctx := Append(LeftOf(Top, t.color, t.elem, t.right), inner);
      PlugAppend(LeftOf(Top, t.color, t.elem, t.right), inner, sub);
    } else {
      var inner;
      inner, sub := Locate(t.right, e);
      ctx := Append(RightOf(Top, t.color, t.left, t.elem), inner);
      PlugAppend(RightOf(Top, t.color, t.left, t.elem), inner, sub);
    }
  }

  // ---------- height ----------

  lemma {:induction false} SizeBound<E>(t: Tree<E>)
    requires Balanced(t)
    ensures Pow2(BlackHeight(t)) <= Size(t) + 1
    decreases t
  {
    match t
    case Leaf =>
    case Node(_, l, _, r) => SizeBound(l); SizeBound(r);
  }

  lemma {:induction false} HeightBound<E>(t: Tree<E>)
    requires Balanced(t) && RedOk(t)
    ensures Height(t) <= 2 * BlackHeight(t) + if IsRed(t) then 1 else 0
    decreases t
  {
    match t
    case Leaf =>
    case Node(_, l, _, r) => HeightBound(l); HeightBound(r);
  }

  /** The promise of the header: n nodes give height at most 2 lg (n+1). */
  lemma HeightIsLogarithmic<E>(t: Tree<E>)
    requires IsRedBlack(t)
    ensures Pow2(Height(t)) <= (Size(t) + 1) * (Size(t) + 1)
  {
    var b := BlackHeight(t);
    HeightBound(t);
    SizeBound(t);
    Pow2Mono(Height(t), b + b);
    Pow2Add(b, b);
    SquareMono(Pow2(b), Size(t) + 1);
  }

  lemma SquareMono(p: nat, n: nat)
    requires p <= n
    ensures p * p <= n * n
  {
    assert p * p <= p * n;
    assert p * n <= n * n;
  }
}
