/** Splay trees with top-down splaying: the nodes passed on the way down are hung on
    two spines, one of smaller and one of larger elements, and assembled at the end. */
module Splay {
  import opened Order

  class SplayEntry<K> {
    const key: K
    var left: SplayEntry?<K>
    var right: SplayEntry?<K>

    constructor (key: K)
      ensures this.key == key && left == null && right == null
    {
      this.key := key;
      left, right := null, null;
    }
  }

  datatype Shape<!K> = Leaf | Node(left: Shape<K>, elem: SplayEntry<K>, right: Shape<K>)

  /** Nodes split off during the descent, the last one first; `sub` is the subtree each keeps:
      its left one on the spine of smaller elements, its right one on the other. */
  datatype Spine<!K> = Nil | Link(up: Spine<K>, elem: SplayEntry<K>, sub: Shape<K>)

  // ---------- contents ----------

  ghost function Inorder<K>(t: Shape<K>): seq<SplayEntry<K>> {
    match t
    case Leaf => []
    case Node(l, e, r) => Inorder(l) + [e] + Inorder(r)
  }

  ghost function Smaller<K>(s: Spine<K>): seq<SplayEntry<K>> {
    match s
    case Nil => []
    case Link(up, e, sub) => Smaller(up) + (Inorder(sub) + [e])
  }

  ghost function Larger<K>(s: Spine<K>): seq<SplayEntry<K>> {
    match s
    case Nil => []
    case Link(up, e, sub) => ([e] + Inorder(sub)) + Larger(up)
  }

  ghost function Elems<K>(t: Shape<K>): set<SplayEntry<K>> {
    match t
    case Leaf => {}
    case Node(l, e, r) => Elems(l) + {e} + Elems(r)
  }

  ghost function SpineElems<K>(s: Spine<K>): set<SplayEntry<K>> {
    match s
    case Nil => {}
    case Link(up, e, sub) => SpineElems(up) + {e} + Elems(sub)
  }

  ghost predicate Distinct<K>(t: Shape<K>) {
    match t
    case Leaf => true
    case Node(l, e, r) => Distinct(l) && Distinct(r) && e !in Elems(l) + Elems(r) && Elems(l) !! Elems(r)
  }

  ghost predicate SpineDistinct<K>(s: Spine<K>) {
    match s
    case Nil => true
    case Link(up, e, sub) =>
      SpineDistinct(up) && Distinct(sub) && e !in SpineElems(up) + Elems(sub) && SpineElems(up) !! Elems(sub)
  }

  /** The spine of smaller elements with `t` hung at its end; and the mirror image. */
  ghost function PlugSmaller<K>(s: Spine<K>, t: Shape<K>): Shape<K> {
    if s.Nil? then t else PlugSmaller(s.up, Node(s.sub, s.elem, t))
  }

  ghost function PlugLarger<K>(s: Spine<K>, t: Shape<K>): Shape<K> {
    if s.Nil? then t else PlugLarger(s.up, Node(t, s.elem, s.sub))
  }

  lemma {:induction false} PlugSmallerInorder<K>(s: Spine<K>, t: Shape<K>)
    ensures Inorder(PlugSmaller(s, t)) == Smaller(s) + Inorder(t)
    decreases s
  {
    if s.Link? {
      PlugSmallerInorder(s.up, Node(s.sub, s.elem, t));
      assert Smaller(s.up) + (Inorder(s.sub) + [s.elem] + Inorder(t))
          == Smaller(s.up) + (Inorder(s.sub) + [s.elem]) + Inorder(t);
    }
  }

  lemma {:induction false} PlugLargerInorder<K>(s: Spine<K>, t: Shape<K>)
    ensures Inorder(PlugLarger(s, t)) == Inorder(t) + Larger(s)
    decreases s
  {
    if s.Link? {
      PlugLargerInorder(s.up, Node(t, s.elem, s.sub));
      assert (Inorder(t) + [s.elem] + Inorder(s.sub)) + Larger(s.up)
          == Inorder(t) + (([s.elem] + Inorder(s.sub)) + Larger(s.up));
    }
  }

  // ---------- linking ----------

  datatype Fields<!K> = Fields(left: SplayEntry?<K>, right: SplayEntry?<K>)

  ghost function RootOf<K>(t: Shape<K>): SplayEntry?<K> { if t.Leaf? then null else t.elem }

  ghost function FieldsIn<K>(t: Shape<K>, e: SplayEntry<K>): Fields<K> {
    match t
    case Leaf => Fields(null, null)
    case Node(l, x, r) =>
      if e == x then Fields(RootOf(l), RootOf(r))
      else if e in Elems(l) then FieldsIn(l, e)
      else FieldsIn(r, e)
  }

  /** Fields on the spine of smaller elements; `hole` is what the right link of its end holds. */
  ghost function SmallerFields<K>(s: Spine<K>, hole: SplayEntry?<K>, e: SplayEntry<K>): Fields<K> {
    match s
    case Nil => Fields(null, null)
    case Link(up, x, sub) =>
      if e == x then Fields(RootOf(sub), hole)
      else if e in Elems(sub) then FieldsIn(sub, e)
      else SmallerFields(up, x, e)
  }

  ghost function LargerFields<K>(s: Spine<K>, hole: SplayEntry?<K>, e: SplayEntry<K>): Fields<K> {
    match s
    case Nil => Fields(null, null)
    case Link(up, x, sub) =>
      if e == x then Fields(hole, RootOf(sub))
      else if e in Elems(sub) then FieldsIn(sub, e)
      else LargerFields(up, x, e)
  }

  /** The first node of a spine, which the header node points to; `hole` if there is none. */
  ghost function FirstOf<K>(s: Spine<K>, hole: SplayEntry?<K>): SplayEntry?<K> {
    if s.Nil? then hole else FirstOf(s.up, s.elem)
  }

  ghost function LastOf<K>(s: Spine<K>, node: SplayEntry<K>): SplayEntry<K> {
    if s.Nil? then node else s.elem
  }

  ghost predicate Matches<K>(e: SplayEntry<K>, f: Fields<K>)
    reads e
  {
    e.left == f.left && e.right == f.right
  }

  /** Fields of any node in the middle of a descent; `lh` and `rh` are what the free links at
      the ends of the two spines hold. */
  ghost function PartFields<K>(ls: Spine<K>, t: Shape<K>, rs: Spine<K>, lh: SplayEntry?<K>, rh: SplayEntry?<K>,
                               e: SplayEntry<K>): Fields<K> {
    if e in Elems(t) then FieldsIn(t, e)
    else if e in SpineElems(ls) then SmallerFields(ls, lh, e)
    else LargerFields(rs, rh, e)
  }

  class SplayHead<K(!new)> {
    const cmp: (K, K) -> int
    var root: SplayEntry?<K>
    ghost var nodes: set<SplayEntry<K>>
    ghost var tree: Shape<K>

    constructor (cmp: (K, K) -> int)
      requires Comparator(cmp)
      ensures Valid() && Contents() == [] && nodes == {} && this.cmp == cmp
    {
      this.cmp := cmp;
      root, nodes, tree := null, {}, Leaf;
    }

    ghost predicate Is(t: Shape<K>)
      reads this`root, this`nodes, nodes
    {
      Distinct(t) && nodes == Elems(t) && root == RootOf(t) && forall e :: e in nodes ==> Matches(e, FieldsIn(t, e))
    }

    ghost predicate Valid()
      reads this, nodes
    {
      Comparator(cmp) && Is(tree) && Ascending(Keys(Inorder(tree)), cmp)
    }

    ghost function Contents(): seq<SplayEntry<K>>
      reads this`tree
    {
      Inorder(tree)
    }

    /** In the middle of a descent: `t` is what is left below the root, `ls` and `rs` are the
        spines hanging from the header node `node`, `left` and `right` their ends. */
    ghost predicate Split(ls: Spine<K>, t: Shape<K>, rs: Spine<K>,
                          node: SplayEntry<K>, left: SplayEntry<K>, right: SplayEntry<K>)
      reads this`root, this`nodes, nodes, node
    {
      Apart(ls, t, rs) && nodes == SpineElems(ls) + Elems(t) + SpineElems(rs) && node !in nodes &&
      root == RootOf(t) && left == LastOf(ls, node) && right == LastOf(rs, node) &&
      node.right == FirstOf(ls, left.right) && node.left == FirstOf(rs, right.left) &&
      forall e :: e in nodes ==> Matches(e, PartFields(ls, t, rs, left.right, right.left, e))
    }

    /** What the root and its fields hold during a descent. */
    lemma PeekSplit(ls: Spine<K>, t: Shape<K>, rs: Spine<K>,
                    node: SplayEntry<K>, left: SplayEntry<K>, right: SplayEntry<K>)
      requires Split(ls, t, rs, node, left, right)
      ensures root == RootOf(t)
      ensures t.Node? ==> root in nodes && root.left == RootOf(t.left) && root.right == RootOf(t.right)
    {
      if t.Node? {
        assert Matches(root, PartFields(ls, t, rs, left.right, right.left, root));
      }
    }
  }

  ghost predicate Apart<K>(ls: Spine<K>, t: Shape<K>, rs: Spine<K>) {
    SpineDistinct(ls) && Distinct(t) && SpineDistinct(rs) &&
    SpineElems(ls) !! Elems(t) && SpineElems(ls) !! SpineElems(rs) && Elems(t) !! SpineElems(rs)
  }

  ghost function Keys<K>(s: seq<SplayEntry<K>>): (keys: seq<K>)
    ensures |keys| == |s| && forall i :: 0 <= i < |s| ==> keys[i] == s[i].key
  {
    seq(|s|, i requires 0 <= i < |s| => s[i].key)
  }
  // ---------- steps of the descent ----------

  lemma RootIn<K>(t: Shape<K>)
    requires t.Node?
    ensures t.elem in Elems(t)
  {
  }

  lemma EndsApart<K>(ls: Spine<K>, t: Shape<K>, rs: Spine<K>, node: SplayEntry<K>)
    requires Apart(ls, t, rs) && node !in SpineElems(ls) + Elems(t) + SpineElems(rs)
    ensures LastOf(ls, node) !in Elems(t) + SpineElems(rs) && LastOf(rs, node) !in Elems(t) + SpineElems(ls)
    ensures ls.Link? ==> LastOf(ls, node) in SpineElems(ls)
    ensures rs.Link? ==> LastOf(rs, node) in SpineElems(rs)
  {
  }

  lemma RotateRightFields<K>(a: Shape<K>, y: SplayEntry<K>, b: Shape<K>, x: SplayEntry<K>, c: Shape<K>,
      e: SplayEntry<K>)
    requires Distinct(Node(Node(a, y, b), x, c)) && e in Elems(Node(Node(a, y, b), x, c))
    ensures Distinct(Node(a, y, Node(b, x, c))) && Elems(Node(a, y, Node(b, x, c))) == Elems(Node(Node(a, y, b), x, c))
    ensures var f := FieldsIn(Node(Node(a, y, b), x, c), e);
      (e == x ==> f == Fields(y, RootOf(c))) && (e == y ==> f == Fields(RootOf(a), RootOf(b))) && x != y &&
      FieldsIn(Node(a, y, Node(b, x, c)), e) ==
        if e == x then Fields(RootOf(b), RootOf(c)) else if e == y then Fields(RootOf(a), x) else f
  {
    var l, r := Node(a, y, b), Node(b, x, c);
    assert Distinct(l) && Distinct(r) && Elems(l) == Elems(a) + {y} + Elems(b) && Elems(r) == Elems(b) + {x} + Elems(c);
  }

  lemma RotateRightParts<K>(ls: Spine<K>, t: Shape<K>, rs: Spine<K>, lh: SplayEntry?<K>, rh: SplayEntry?<K>,
      e: SplayEntry<K>)
    requires Apart(ls, t, rs) && t.Node? && t.left.Node? && e in SpineElems(ls) + Elems(t) + SpineElems(rs)
    ensures var a, y, b, x, c := t.left.left, t.left.elem, t.left.right, t.elem, t.right;
      var u, f := Node(a, y, Node(b, x, c)), PartFields(ls, t, rs, lh, rh, e);
      Apart(ls, u, rs) && Elems(u) == Elems(t) && x != y && x in Elems(t) && y in Elems(t) &&
      (e == x ==> f == Fields(y, RootOf(c))) && (e == y ==> f == Fields(RootOf(a), RootOf(b))) &&
      PartFields(ls, u, rs, lh, rh, e) ==
        if e == x then Fields(RootOf(b), RootOf(c)) else if e == y then Fields(RootOf(a), x) else f
  {
    var a, y, b, x, c := t.left.left, t.left.elem, t.left.right, t.elem, t.right;
    RotateRightFields(a, y, b, x, c, x);
    assert y in Elems(t.left);
    if e in Elems(t) { RotateRightFields(a, y, b, x, c, e); }
  }

  lemma RotatedRightInorder<K>(t: Shape<K>)
    requires t.Node? && t.left.Node?
    ensures Inorder(Node(t.left.left, t.left.elem, Node(t.left.right, t.elem, t.right))) == Inorder(t)
  {
    var a, y, b, x, c := t.left.left, t.left.elem, t.left.right, t.elem, t.right;
    assert Inorder(a) + [y] + (Inorder(b) + [x] + Inorder(c)) == (Inorder(a) + [y] + Inorder(b)) + [x] + Inorder(c);
  }

  /** SPLAY_ROTATE_RIGHT: `tmp`, the left child, becomes the root of what is left below. */
  method RotateRight<K(!new)>(head: SplayHead<K>, tmp: SplayEntry<K>,
      ghost ls: Spine<K>, ghost t: Shape<K>, ghost rs: Spine<K>,
                              ghost node: SplayEntry<K>, ghost left: SplayEntry<K>, ghost right: SplayEntry<K>)
    returns (ghost t': Shape<K>)
    requires head.Split(ls, t, rs, node, left, right) && t.Node? && t.left.Node? && tmp == t.left.elem
    modifies head`root, head.nodes
    ensures t' == Node(t.left.left, t.left.elem, Node(t.left.right, t.elem, t.right))
    ensures head.Split(ls, t', rs, node, left, right) && Inorder(t') == Inorder(t)
  {
    hide PartFields, Elems, SpineElems, Inorder, FirstOf, Apart;
    RootIn(t);
    t' := Node(t.left.left, t.left.elem, Node(t.left.right, t.elem, t.right));
    RotatedRightInorder(t);
    EndsApart(ls, t, rs, node);
    forall e | e in head.nodes { RotateRightParts(ls, t, rs, left.right, right.left, e); }
    RotateRightParts(ls, t, rs, left.right, right.left, t.elem);
    head.root.left := tmp.right;
    tmp.right := head.root;
    head.root := tmp;
  }

  /** Only the former end of the spine changes when a link is added. */
  lemma LinkLeftParts<K>(ls: Spine<K>, t: Shape<K>, rs: Spine<K>, lh: SplayEntry?<K>, rh: SplayEntry?<K>,
      e: SplayEntry<K>)
    requires Apart(ls, t, rs) && t.Node? && e in SpineElems(ls) + Elems(t) + SpineElems(rs)
    ensures Apart(ls, t.left, Link(rs, t.elem, t.right))
    ensures SpineElems(ls) + Elems(t) + SpineElems(rs) ==
            SpineElems(ls) + Elems(t.left) + SpineElems(Link(rs, t.elem, t.right))
    ensures t.elem in Elems(t) && PartFields(ls, t, rs, lh, rh, t.elem) == Fields(RootOf(t.left), RootOf(t.right))
    ensures FirstOf(Link(rs, t.elem, t.right), RootOf(t.left)) == if rs.Nil? then t.elem else FirstOf(rs, rh)
    ensures PartFields(ls, t.left, Link(rs, t.elem, t.right), lh, RootOf(t.left), e) ==
      var f := PartFields(ls, t, rs, lh, rh, e);
      if rs.Link? && e == rs.elem then f.(left := t.elem) else f
  {
    assert Elems(t) == Elems(t.left) + {t.elem} + Elems(t.right);
    assert SpineElems(Link(rs, t.elem, t.right)) == SpineElems(rs) + {t.elem} + Elems(t.right);
    SpineEnd(rs, t.elem, rh, e);
    if e in Elems(t.left) {
      assert FieldsIn(t, e) == FieldsIn(t.left, e);
    } else if e in Elems(t.right) {
      assert FieldsIn(t, e) == FieldsIn(t.right, e);
    }
  }

  /** SPLAY_LINKLEFT: the root goes to the spine of larger elements, its left child becomes the root. */
  method LinkLeft<K(!new)>(head: SplayHead<K>, tmp: SplayEntry<K>,
      ghost ls: Spine<K>, ghost t: Shape<K>, ghost rs: Spine<K>,
                           ghost node: SplayEntry<K>, ghost left: SplayEntry<K>)
    returns (right: SplayEntry<K>)
    requires head.Split(ls, t, rs, node, left, tmp) && t.Node? && t.left.Node?
    modifies head`root, head.nodes, node
    ensures right == t.elem && head.Split(ls, t.left, Link(rs, t.elem, t.right), node, left, right)
  {
    hide PartFields, Elems, SpineElems, FirstOf, Apart;
    RootIn(t);
    EndsApart(ls, t, rs, node);
    LinkLeftParts(ls, t, rs, left.right, tmp.left, t.elem);
    forall e | e in head.nodes { LinkLeftParts(ls, t, rs, left.right, tmp.left, e); }
    tmp.left := head.root;
    right := head.root;
    head.root := head.root.left;
  }

  lemma RotateLeftFields<K>(a: Shape<K>, y: SplayEntry<K>, b: Shape<K>, x: SplayEntry<K>, c: Shape<K>, e: SplayEntry<K>)
    requires Distinct(Node(c, x, Node(b, y, a))) && e in Elems(Node(c, x, Node(b, y, a)))
    ensures Distinct(Node(Node(c, x, b), y, a)) && Elems(Node(Node(c, x, b), y, a)) == Elems(Node(c, x, Node(b, y, a)))
    ensures var f := FieldsIn(Node(c, x, Node(b, y, a)), e);
      (e == x ==> f == Fields(RootOf(c), y)) && (e == y ==> f == Fields(RootOf(b), RootOf(a))) && x != y &&
      FieldsIn(Node(Node(c, x, b), y, a), e) ==
        if e == x then Fields(RootOf(c), RootOf(b)) else if e == y then Fields(x, RootOf(a)) else f
  {
    var l, r := Node(b, y, a), Node(c, x, b);
    assert Distinct(l) && Distinct(r) && Elems(l) == Elems(a) + {y} + Elems(b) && Elems(r) == Elems(b) + {x} + Elems(c);
  }

  lemma RotateLeftParts<K>(ls: Spine<K>, t: Shape<K>, rs: Spine<K>, lh: SplayEntry?<K>, rh: SplayEntry?<K>,
      e: SplayEntry<K>)
    requires Apart(ls, t, rs) && t.Node? && t.right.Node? && e in SpineElems(rs) + Elems(t) + SpineElems(ls)
    ensures var a, y, b, x, c := t.right.right, t.right.elem, t.right.left, t.elem, t.left;
      var u, f := Node(Node(c, x, b), y, a), PartFields(ls, t, rs, lh, rh, e);
      Apart(ls, u, rs) && Elems(u) == Elems(t) && x != y && x in Elems(t) && y in Elems(t) &&
      (e == x ==> f == Fields(RootOf(c), y)) && (e == y ==> f == Fields(RootOf(b), RootOf(a))) &&
      PartFields(ls, u, rs, lh, rh, e) ==
        if e == x then Fields(RootOf(c), RootOf(b)) else if e == y then Fields(x, RootOf(a)) else f
  {
    var a, y, b, x, c := t.right.right, t.right.elem, t.right.left, t.elem, t.left;
    RotateLeftFields(a, y, b, x, c, x);
    assert y in Elems(t.right);
    if e in Elems(t) { RotateLeftFields(a, y, b, x, c, e); }
  }

  lemma RotatedLeftInorder<K>(t: Shape<K>)
    requires t.Node? && t.right.Node?
    ensures Inorder(Node(Node(t.left, t.elem, t.right.left), t.right.elem, t.right.right)) == Inorder(t)
  {
    var a, y, b, x, c := t.right.right, t.right.elem, t.right.left, t.elem, t.left;
    assert Inorder(c) + [x] + (Inorder(b) + [y] + Inorder(a)) == (Inorder(c) + [x] + Inorder(b)) + [y] + Inorder(a);
  }

  /** SPLAY_ROTATE_LEFT: `tmp`, the right child, becomes the root of what is right below. */
  method RotateLeft<K(!new)>(head: SplayHead<K>, tmp: SplayEntry<K>,
      ghost ls: Spine<K>, ghost t: Shape<K>, ghost rs: Spine<K>,
                              ghost node: SplayEntry<K>, ghost left: SplayEntry<K>, ghost right: SplayEntry<K>)
    returns (ghost t': Shape<K>)
    requires head.Split(ls, t, rs, node, left, right) && t.Node? && t.right.Node? && tmp == t.right.elem
    modifies head`root, head.nodes
    ensures t' == Node(Node(t.left, t.elem, t.right.left), t.right.elem, t.right.right)
    ensures head.Split(ls, t', rs, node, left, right) && Inorder(t') == Inorder(t)
  {
    hide PartFields, Elems, SpineElems, Inorder, FirstOf, Apart;
    RootIn(t);
    t' := Node(Node(t.left, t.elem, t.right.left), t.right.elem, t.right.right);
    RotatedLeftInorder(t);
    EndsApart(ls, t, rs, node);
    forall e | e in head.nodes { RotateLeftParts(ls, t, rs, left.right, right.left, e); }
    RotateLeftParts(ls, t, rs, left.right, right.left, t.elem);
    head.root.right := tmp.left;
    tmp.left := head.root;
    head.root := tmp;
  }

  /** Only the former end of the spine changes when a link is added. */
  lemma LinkRightParts<K>(ls: Spine<K>, t: Shape<K>, rs: Spine<K>, lh: SplayEntry?<K>, rh: SplayEntry?<K>,
      e: SplayEntry<K>)
    requires Apart(ls, t, rs) && t.Node? && e in SpineElems(rs) + Elems(t) + SpineElems(ls)
    ensures Apart(Link(ls, t.elem, t.left), t.right, rs)
    ensures SpineElems(rs) + Elems(t) + SpineElems(ls) ==
            SpineElems(rs) + Elems(t.right) + SpineElems(Link(ls, t.elem, t.left))
    ensures t.elem in Elems(t) && PartFields(ls, t, rs, lh, rh, t.elem) == Fields(RootOf(t.left), RootOf(t.right))
    ensures FirstOf(Link(ls, t.elem, t.left), RootOf(t.right)) == if ls.Nil? then t.elem else FirstOf(ls, lh)
    ensures PartFields(Link(ls, t.elem, t.left), t.right, rs, RootOf(t.right), rh, e) ==
      var f := PartFields(ls, t, rs, lh, rh, e);
      if ls.Link? && e == ls.elem then f.(right := t.elem) else f
  {
    assert Elems(t) == Elems(t.right) + {t.elem} + Elems(t.left);
    assert SpineElems(Link(ls, t.elem, t.left)) == SpineElems(ls) + {t.elem} + Elems(t.left);
    SpineEnd(ls, t.elem, lh, e);
    if e in Elems(t.right) {
      assert FieldsIn(t, e) == FieldsIn(t.right, e);
    } else if e in Elems(t.left) {
      assert FieldsIn(t, e) == FieldsIn(t.left, e);
    }
  }

  /** SPLAY_LINKRIGHT: the root goes to the spine of smaller elements, its right child becomes the root. */
  method LinkRight<K(!new)>(head: SplayHead<K>, tmp: SplayEntry<K>,
      ghost ls: Spine<K>, ghost t: Shape<K>, ghost rs: Spine<K>,
                           ghost node: SplayEntry<K>, ghost right: SplayEntry<K>)
    returns (left: SplayEntry<K>)
    requires head.Split(ls, t, rs, node, tmp, right) && t.Node? && t.right.Node?
    modifies head`root, head.nodes, node
    ensures left == t.elem && head.Split(Link(ls, t.elem, t.left), t.right, rs, node, left, right)
  {
    hide PartFields, Elems, SpineElems, FirstOf, Apart;
    RootIn(t);
    EndsApart(ls, t, rs, node);
    LinkRightParts(ls, t, rs, tmp.right, right.left, t.elem);
    forall e | e in head.nodes { LinkRightParts(ls, t, rs, tmp.right, right.left, e); }
    tmp.right := head.root;
    left := head.root;
    head.root := head.root.right;
  }

  // ---------- assembly ----------

  ghost function Assembled<K>(ls: Spine<K>, t: Shape<K>, rs: Spine<K>): Shape<K>
    requires t.Node?
  {
    Node(PlugSmaller(ls, t.left), t.elem, PlugLarger(rs, t.right))
  }

  lemma {:induction false} PlugSmallerFields<K>(s: Spine<K>, t: Shape<K>)
    requires SpineDistinct(s) && Distinct(t) && SpineElems(s) !! Elems(t)
    ensures var u := PlugSmaller(s, t);
      Distinct(u) && Elems(u) == SpineElems(s) + Elems(t) && RootOf(u) == FirstOf(s, RootOf(t)) &&
      forall e :: e in Elems(u) ==>
        FieldsIn(u, e) == if e in Elems(t) then FieldsIn(t, e) else SmallerFields(s, RootOf(t), e)
    decreases s
  {
    if s.Link? { PlugSmallerFields(s.up, Node(s.sub, s.elem, t)); }
  }

  lemma {:induction false} PlugLargerFields<K>(s: Spine<K>, t: Shape<K>)
    requires SpineDistinct(s) && Distinct(t) && SpineElems(s) !! Elems(t)
    ensures var u := PlugLarger(s, t);
      Distinct(u) && Elems(u) == SpineElems(s) + Elems(t) && RootOf(u) == FirstOf(s, RootOf(t)) &&
      forall e :: e in Elems(u) ==>
        FieldsIn(u, e) == if e in Elems(t) then FieldsIn(t, e) else LargerFields(s, RootOf(t), e)
    decreases s
  {
    if s.Link? { PlugLargerFields(s.up, Node(t, s.elem, s.sub)); }
  }

  /** What a spine's fields and first node are once its end has been given another link. */
  lemma SpineEnd<K>(s: Spine<K>, hole: SplayEntry?<K>, was: SplayEntry?<K>, e: SplayEntry<K>)
    requires SpineDistinct(s)
    ensures SmallerFields(s, hole, e) ==
      if s.Link? && e == s.elem then SmallerFields(s, was, e).(right := hole) else SmallerFields(s, was, e)
    ensures LargerFields(s, hole, e) ==
      if s.Link? && e == s.elem then LargerFields(s, was, e).(left := hole) else LargerFields(s, was, e)
    ensures FirstOf(s, hole) == if s.Nil? then hole else FirstOf(s, was)
  {
  }

  /** The assembled tree changes the root and the free links at the ends of the spines. */
  lemma AssembledFields<K>(ls: Spine<K>, t: Shape<K>, rs: Spine<K>, lh: SplayEntry?<K>, rh: SplayEntry?<K>,
      e: SplayEntry<K>)
    requires Apart(ls, t, rs) && t.Node? && e in SpineElems(ls) + Elems(t) + SpineElems(rs)
    ensures var u := Assembled(ls, t, rs);
      Distinct(u) && Elems(u) == SpineElems(ls) + Elems(t) + SpineElems(rs) &&
      FieldsIn(u, e) ==
        var f := PartFields(ls, t, rs, lh, rh, e);
        if e == t.elem then
          Fields(if ls.Nil? then RootOf(t.left) else FirstOf(ls, lh),
                 if rs.Nil? then RootOf(t.right) else FirstOf(rs, rh))
        else if ls.Link? && e == ls.elem then f.(right := RootOf(t.left))
        else if rs.Link? && e == rs.elem then f.(left := RootOf(t.right))
        else f
    ensures t.elem in Elems(t) && PartFields(ls, t, rs, lh, rh, t.elem) == Fields(RootOf(t.left), RootOf(t.right))
  {
    PlugSmallerFields(ls, t.left);
    PlugLargerFields(rs, t.right);
    SpineEnd(ls, RootOf(t.left), lh, e);
    SpineEnd(rs, RootOf(t.right), rh, e);
  }

  lemma AssembledInorder<K>(ls: Spine<K>, t: Shape<K>, rs: Spine<K>)
    requires t.Node?
    ensures Inorder(Assembled(ls, t, rs)) == Smaller(ls) + Inorder(t) + Larger(rs)
    ensures Inorder(Assembled(ls, t, rs).left) == Smaller(ls) + Inorder(t.left)
    ensures Inorder(Assembled(ls, t, rs).right) == Inorder(t.right) + Larger(rs)
  {
    PlugSmallerInorder(ls, t.left);
    PlugLargerInorder(rs, t.right);
    assert (Smaller(ls) + Inorder(t.left)) + [t.elem] + (Inorder(t.right) + Larger(rs))
        == Smaller(ls) + (Inorder(t.left) + [t.elem] + Inorder(t.right)) + Larger(rs);
  }

  /** SPLAY_ASSEMBLE: the spines become the subtrees of the root. */
  method Assemble<K(!new)>(head: SplayHead<K>, node: SplayEntry<K>, left: SplayEntry<K>, right: SplayEntry<K>,
                           ghost ls: Spine<K>, ghost t: Shape<K>, ghost rs: Spine<K>)
    requires head.Split(ls, t, rs, node, left, right) && t.Node?
    modifies head.nodes, node
    ensures head.Is(Assembled(ls, t, rs))
  {
    hide PartFields, FieldsIn, Elems, SpineElems, FirstOf, Apart, Distinct;
    EndsApart(ls, t, rs, node);
    RootIn(t);
    AssembledFields(ls, t, rs, left.right, right.left, t.elem);
    forall e | e in head.nodes { AssembledFields(ls, t, rs, left.right, right.left, e); }
    left.right := head.root.left;
    right.left := head.root.right;
    head.root.left := node.right;
    head.root.right := node.left;
  }

  // ---------- the operations ----------

  ghost function Size<K>(t: Shape<K>): nat {
    if t.Leaf? then 0 else Size(t.left) + 1 + Size(t.right)
  }

  lemma KeysAround<K>(a: seq<SplayEntry<K>>, x: SplayEntry<K>, b: seq<SplayEntry<K>>)
    ensures Keys(a + [x] + b) == Keys(a) + [x.key] + Keys(b)
    ensures Keys([x] + b) == [x.key] + Keys(b) && Keys(a + [x]) == Keys(a) + [x.key]
  {
  }

  lemma KeysConcat<K>(a: seq<SplayEntry<K>>, b: seq<SplayEntry<K>>)
    ensures Keys(a + b) == Keys(a) + Keys(b)
  {
  }

  /** `key` lies between the two spines. */
  ghost predicate Between<K>(cmp: (K, K) -> int, key: K, ls: Spine<K>, rs: Spine<K>) {
    Fits(cmp, key, Keys(Smaller(ls)), Keys(Larger(rs)))
  }

  /** `key` lies between the two subtrees of the root. */
  ghost predicate AtTop<K>(cmp: (K, K) -> int, key: K, t: Shape<K>) {
    t.Node? && Fits(cmp, key, Keys(Inorder(t.left)), Keys(Inorder(t.right)))
  }

  /** The order of all the parts of a descent. */
  ghost function Whole<K>(ls: Spine<K>, t: Shape<K>, rs: Spine<K>): seq<SplayEntry<K>> {
    Smaller(ls) + Inorder(t) + Larger(rs)
  }

  lemma WholeAround<K>(ls: Spine<K>, t: Shape<K>, rs: Spine<K>)
    requires t.Node?
    ensures Keys(Whole(ls, t, rs)) ==
      Keys(Smaller(ls) + Inorder(t.left)) + [t.elem.key] + Keys(Inorder(t.right) + Larger(rs))
  {
    Regroup(Smaller(ls), Inorder(t.left), t.elem, Inorder(t.right), Larger(rs));
    KeysAround(Smaller(ls) + Inorder(t.left), t.elem, Inorder(t.right) + Larger(rs));
  }

  lemma LinkLeftWhole<K(!new)>(cmp: (K, K) -> int, key: K, ls: Spine<K>, t: Shape<K>, rs: Spine<K>)
    requires Comparator(cmp) && t.Node? && cmp(key, t.elem.key) < 0
    requires Between(cmp, key, ls, rs) && Ascending(Keys(Whole(ls, t, rs)), cmp)
    ensures Between(cmp, key, ls, Link(rs, t.elem, t.right))
    ensures Whole(ls, t.left, Link(rs, t.elem, t.right)) == Whole(ls, t, rs)
  {
    var a, b := Smaller(ls) + Inorder(t.left), Inorder(t.right) + Larger(rs);
    WholeAround(ls, t, rs);
    Narrow(cmp, key, Keys(a), t.elem.key, Keys(b));
    Reorder(Smaller(ls), Inorder(t.left), t.elem, Inorder(t.right), Larger(rs));
    KeysAround([], t.elem, b);
    FitsJoin(cmp, key, Keys(Smaller(ls)), Keys(Larger(rs)), [], [t.elem.key] + Keys(b));
  }

  lemma LinkRightWhole<K(!new)>(cmp: (K, K) -> int, key: K, ls: Spine<K>, t: Shape<K>, rs: Spine<K>)
    requires Comparator(cmp) && t.Node? && cmp(key, t.elem.key) > 0
    requires Between(cmp, key, ls, rs) && Ascending(Keys(Whole(ls, t, rs)), cmp)
    ensures Between(cmp, key, Link(ls, t.elem, t.left), rs)
    ensures Whole(Link(ls, t.elem, t.left), t.right, rs) == Whole(ls, t, rs)
  {
    var a, b := Smaller(ls) + Inorder(t.left), Inorder(t.right) + Larger(rs);
    WholeAround(ls, t, rs);
    Narrow(cmp, key, Keys(a), t.elem.key, Keys(b));
    Reorder(Smaller(ls), Inorder(t.left), t.elem, Inorder(t.right), Larger(rs));
    KeysAround(a, t.elem, []);
    FitsJoin(cmp, key, Keys(Smaller(ls)), Keys(Larger(rs)), Keys(a) + [t.elem.key], []);
  }

  lemma Reorder<T>(a: seq<T>, l: seq<T>, x: T, r: seq<T>, b: seq<T>)
    ensures a + (l + [x] + r) + b == a + l + (([x] + r) + b)
    ensures a + (l + [x] + r) + b == (a + (l + [x])) + r + b
    ensures ([x] + r) + b == [x] + (r + b) && a + (l + [x]) == (a + l) + [x]
  {
  }

  /** When the descent stops, `key` lies between the two sides of the root. */
  lemma StopsAtTop<K(!new)>(cmp: (K, K) -> int, key: K, ls: Spine<K>, t: Shape<K>, rs: Spine<K>)
    requires Comparator(cmp) && t.Node? && Between(cmp, key, ls, rs) && Ascending(Keys(Whole(ls, t, rs)), cmp)
    requires cmp(key, t.elem.key) == 0 || (cmp(key, t.elem.key) < 0 && t.left.Leaf?) ||
             (cmp(key, t.elem.key) > 0 && t.right.Leaf?)
    ensures AtTop(cmp, key, Assembled(ls, t, rs)) && Inorder(Assembled(ls, t, rs)) == Whole(ls, t, rs)
  {
    var a, b, x := Smaller(ls) + Inorder(t.left), Inorder(t.right) + Larger(rs), t.elem.key;
    AssembledInorder(ls, t, rs);
    WholeAround(ls, t, rs);
    assert t.left.Leaf? ==> a == Smaller(ls);
    assert t.right.Leaf? ==> b == Larger(rs);
    if cmp(key, x) == 0 {
      Matched(cmp, key, Keys(a), x, Keys(b));
    } else {
      Narrow(cmp, key, Keys(a), x, Keys(b));
      Tail(cmp, key, Keys(a), x, Keys(b));
      if cmp(key, x) < 0 {
        FitsJoin(cmp, key, Keys(Smaller(ls)), Keys(Larger(rs)), [], Keys(b));
      } else {
        FitsJoin(cmp, key, Keys(Smaller(ls)), Keys(Larger(rs)), Keys(a), []);
      }
    }
  }

  lemma Tail<K>(cmp: (K, K) -> int, key: K, a: seq<K>, x: K, b: seq<K>)
    ensures Fits(cmp, key, [], [x] + b) ==> Fits(cmp, key, [], b)
    ensures Fits(cmp, key, a + [x], []) ==> Fits(cmp, key, a, [])
  {
    forall k | k in a
      ensures k in a + [x]
    {
    }
  }

  /** One round of the descent to the left; `stop` when there is nothing further left. */
  method StepLeft<K(!new)>(head: SplayHead<K>, key: K, right0: SplayEntry<K>, ghost ls: Spine<K>, ghost t0: Shape<K>,
                           ghost rs0: Spine<K>, ghost node: SplayEntry<K>, ghost left: SplayEntry<K>)
    returns (stop: bool, right: SplayEntry<K>, ghost t: Shape<K>, ghost rs: Spine<K>)
    requires Comparator(head.cmp) && head.Split(ls, t0, rs0, node, left, right0) && t0.Node?
    requires Ascending(Keys(Whole(ls, t0, rs0)), head.cmp) && Between(head.cmp, key, ls, rs0)
    requires head.cmp(key, t0.elem.key) < 0
    modifies head`root, head.nodes, node
    ensures head.Split(ls, t, rs, node, left, right) && t.Node?
    ensures Whole(ls, t, rs) == Whole(ls, t0, rs0) && Between(head.cmp, key, ls, rs)
    ensures if stop then t.left.Leaf? && head.cmp(key, t.elem.key) < 0 else Size(t) < Size(t0)
  {
    hide SplayHead.Is, SplayHead.Split, Between, Whole, Comparator, Ascending, Inorder;
    t, rs, right := t0, rs0, right0;
    head.PeekSplit(ls, t, rs, node, left, right);
    var tmp := head.root.left;
    if tmp == null {
      return true, right, t, rs;
    }
    if head.cmp(key, tmp.key) < 0 {
      t := RotateRight(head, tmp, ls, t, rs, node, left, right);
      SameWhole(ls, t0, t, rs);
      head.PeekSplit(ls, t, rs, node, left, right);
      if head.root.left == null {
        return true, right, t, rs;
      }
    }
    LinkLeftWhole(head.cmp, key, ls, t, rs);
    right := LinkLeft(head, right, ls, t, rs, node, left);
    rs, t := Link(rs, t.elem, t.right), t.left;
    stop := false;
  }

  /** The mirror image of StepLeft. */
  method StepRight<K(!new)>(head: SplayHead<K>, key: K, left0: SplayEntry<K>, ghost ls0: Spine<K>, ghost t0: Shape<K>,
                            ghost rs: Spine<K>, ghost node: SplayEntry<K>, ghost right: SplayEntry<K>)
    returns (stop: bool, left: SplayEntry<K>, ghost t: Shape<K>, ghost ls: Spine<K>)
    requires Comparator(head.cmp) && head.Split(ls0, t0, rs, node, left0, right) && t0.Node?
    requires Ascending(Keys(Whole(ls0, t0, rs)), head.cmp) && Between(head.cmp, key, ls0, rs)
    requires head.cmp(key, t0.elem.key) > 0
    modifies head`root, head.nodes, node
    ensures head.Split(ls, t, rs, node, left, right) && t.Node?
    ensures Whole(ls, t, rs) == Whole(ls0, t0, rs) && Between(head.cmp, key, ls, rs)
    ensures if stop then t.right.Leaf? && head.cmp(key, t.elem.key) > 0 else Size(t) < Size(t0)
  {
    hide SplayHead.Is, SplayHead.Split, Between, Whole, Comparator, Ascending, Inorder;
    t, ls, left := t0, ls0, left0;
    head.PeekSplit(ls, t, rs, node, left, right);
    var tmp := head.root.right;
    if tmp == null {
      return true, left, t, ls;
    }
    if head.cmp(key, tmp.key) > 0 {
      t := RotateLeft(head, tmp, ls, t, rs, node, left, right);
      SameWhole(ls, t0, t, rs);
      head.PeekSplit(ls, t, rs, node, left, right);
      if head.root.right == null {
        return true, left, t, ls;
      }
    }
    LinkRightWhole(head.cmp, key, ls, t, rs);
    left := LinkRight(head, left, ls, t, rs, node, right);
    ls, t := Link(ls, t.elem, t.left), t.right;
    stop := false;
  }

  /** Before the first round the spines are empty. */
  lemma StartsSplit<K(!new)>(head: SplayHead<K>, t: Shape<K>, node: SplayEntry<K>)
    requires head.Is(t) && node !in head.nodes
    ensures head.Split(Nil, t, Nil, node, node, node) && Whole(Nil, t, Nil) == Inorder(t)
    ensures forall cmp: (K, K) -> int, key: K :: Between(cmp, key, Nil, Nil)
  {
  }

  /** SPLAY: brings `key`, or a neighbour of where it would be, to the root. */
  method SplayTo<K(!new)>(head: SplayHead<K>, key: K, ghost t0: Shape<K>) returns (ghost t1: Shape<K>)
    requires Comparator(head.cmp) && head.Is(t0) && t0.Node? && Ascending(Keys(Inorder(t0)), head.cmp)
    modifies head`root, head.nodes
    ensures head.Is(t1) && Inorder(t1) == Inorder(t0) && AtTop(head.cmp, key, t1)
  {
    var node := new SplayEntry(key);
    var left, right := node, node;
    ghost var ls: Spine<K>, t, rs: Spine<K> := Nil, t0, Nil;
    StartsSplit(head, t0, node);
    hide SplayHead.Is, SplayHead.Split, Between, AtTop, Whole, Comparator, Ascending, Inorder, Size;
    head.PeekSplit(ls, t, rs, node, left, right);
    var comp := head.cmp(key, head.root.key);
    while comp != 0
      invariant head.Split(ls, t, rs, node, left, right) && fresh(node) && t.Node? && head.root == t.elem
      invariant Between(head.cmp, key, ls, rs) && Whole(ls, t, rs) == Inorder(t0)
      invariant comp == head.cmp(key, t.elem.key)
      decreases Size(t)
    {
      var stop;
      if comp < 0 {
        stop, right, t, rs := StepLeft(head, key, right, ls, t, rs, node, left);
      } else {
        stop, left, t, ls := StepRight(head, key, left, ls, t, rs, node, right);
      }
      if stop {
        break;
      }
      head.PeekSplit(ls, t, rs, node, left, right);
      comp := head.cmp(key, head.root.key);
    }
    StopsAtTop(head.cmp, key, ls, t, rs);
    Assemble(head, node, left, right, ls, t, rs);
    t1 := Assembled(ls, t, rs);
  }

  lemma SameWhole<K>(ls: Spine<K>, t: Shape<K>, u: Shape<K>, rs: Spine<K>)
    requires Inorder(t) == Inorder(u)
    ensures Whole(ls, t, rs) == Whole(ls, u, rs)
  {
  }
}
