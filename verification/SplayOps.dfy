/** The operations of the splay tree: each splays first, then works at the root. */
module SplayOps {
  import opened Order
  import opened Splay

  lemma SingleAscending<K>(cmp: (K, K) -> int, e: SplayEntry<K>)
    ensures Ascending(Keys([e]), cmp)
  {
  }

  /** After a splay, an element comparing equal to `key` can only be the root. */
  lemma OnlyTheRoot<K(!new)>(cmp: (K, K) -> int, key: K, t: Shape<K>)
    requires AtTop(cmp, key, t)
    ensures forall e :: e in Inorder(t) && cmp(key, e.key) == 0 ==> e == t.elem
    ensures t.elem in Inorder(t)
  {
    var a, b := Inorder(t.left), Inorder(t.right);
    forall i | 0 <= i < |a|
      ensures cmp(key, a[i].key) > 0
    {
      assert Keys(a)[i] == a[i].key;
    }
    forall i | 0 <= i < |b|
      ensures cmp(key, b[i].key) < 0
    {
      assert Keys(b)[i] == b[i].key;
    }
  }

  lemma OrderBelow<K(!new)>(cmp: (K, K) -> int,
      a: seq<SplayEntry<K>>, x: SplayEntry<K>, y: SplayEntry<K>, b: seq<SplayEntry<K>>)
    requires Comparator(cmp) && Ascending(Keys(a + [y] + b), cmp) && Fits(cmp, x.key, Keys(a), Keys(b))
    requires cmp(x.key, y.key) < 0
    ensures Ascending(Keys(a + [x] + ([y] + b)), cmp) && InsertedInto(a + [x] + ([y] + b), a + [y] + b, x)
  {
    KeysAround(a, y, b);
    Narrow(cmp, x.key, Keys(a), y.key, Keys(b));
    FitsJoin(cmp, x.key, Keys(a), Keys(b), [], [y.key] + Keys(b));
    hide Comparator, Ascending, Fits, InsertedInto, Keys;
    assert a + [y] + b == a + ([y] + b);
    InsertBetween(cmp, a, x, [y] + b, a + [y] + b);
  }

  lemma OrderAbove<K(!new)>(cmp: (K, K) -> int,
      a: seq<SplayEntry<K>>, y: SplayEntry<K>, x: SplayEntry<K>, b: seq<SplayEntry<K>>)
    requires Comparator(cmp) && Ascending(Keys(a + [y] + b), cmp) && Fits(cmp, x.key, Keys(a), Keys(b))
    requires cmp(x.key, y.key) > 0
    ensures Ascending(Keys((a + [y]) + [x] + b), cmp) && InsertedInto((a + [y]) + [x] + b, a + [y] + b, x)
  {
    KeysAround(a, y, b);
    Narrow(cmp, x.key, Keys(a), y.key, Keys(b));
    FitsJoin(cmp, x.key, Keys(a), Keys(b), Keys(a) + [y.key], []);
    hide Comparator, Ascending, Fits, InsertedInto, Keys;
    InsertBetween(cmp, a + [y], x, b, a + [y] + b);
  }

  /** The order after a new root `x` has split the tree at a root above it. */
  lemma SplitBelow<K(!new)>(cmp: (K, K) -> int, t: Shape<K>, x: SplayEntry<K>)
    requires Comparator(cmp) && AtTop(cmp, x.key, t) && Ascending(Keys(Inorder(t)), cmp) && cmp(x.key, t.elem.key) < 0
    ensures var u := Node(t.left, x, Node(Leaf, t.elem, t.right));
      Ascending(Keys(Inorder(u)), cmp) && InsertedInto(Inorder(u), Inorder(t), x)
  {
    hide Comparator, Ascending, Fits, Keys, InsertedInto;
    var r := Node(Leaf, t.elem, t.right);
    assert Inorder(r) == [t.elem] + Inorder(t.right);
    OrderBelow(cmp, Inorder(t.left), x, t.elem, Inorder(t.right));
    assert Inorder(Node(t.left, x, r)) == Inorder(t.left) + [x] + Inorder(r);
  }

  /** The order after a new root `x` has split the tree at a root below it. */
  lemma SplitAbove<K(!new)>(cmp: (K, K) -> int, t: Shape<K>, x: SplayEntry<K>)
    requires Comparator(cmp) && AtTop(cmp, x.key, t) && Ascending(Keys(Inorder(t)), cmp) && cmp(x.key, t.elem.key) > 0
    ensures var u := Node(Node(t.left, t.elem, Leaf), x, t.right);
      Ascending(Keys(Inorder(u)), cmp) && InsertedInto(Inorder(u), Inorder(t), x)
  {
    hide Comparator, Ascending, Fits, Keys, InsertedInto;
    var l := Node(t.left, t.elem, Leaf);
    assert Inorder(l) == Inorder(t.left) + [t.elem];
    OrderAbove(cmp, Inorder(t.left), t.elem, x, Inorder(t.right));
    assert Inorder(Node(l, x, t.right)) == Inorder(l) + [x] + Inorder(t.right);
  }

  lemma InsertBetween<K(!new)>(cmp: (K, K) -> int, a: seq<SplayEntry<K>>, x: SplayEntry<K>, b: seq<SplayEntry<K>>,
                               was: seq<SplayEntry<K>>)
    requires Comparator(cmp) && was == a + b && Ascending(Keys(was), cmp) && Fits(cmp, x.key, Keys(a), Keys(b))
    ensures Ascending(Keys(a + [x] + b), cmp) && InsertedInto(a + [x] + b, was, x)
  {
    KeysConcat(a, b);
    KeysAround(a, x, b);
    Placed(cmp, Keys(a), x.key, Keys(b));
    InsertedMiddle(a + [x] + b, was, a, x, b);
  }

  /** Fields before and after `x` has split the tree at a root above it. */
  lemma SplitBelowFields<K>(t: Shape<K>, x: SplayEntry<K>, e: SplayEntry<K>)
    requires Distinct(t) && t.Node? && x !in Elems(t)
    ensures var u := Node(t.left, x, Node(Leaf, t.elem, t.right));
      Distinct(u) && Elems(u) == Elems(t) + {x} && FieldsIn(u, x) == Fields(RootOf(t.left), t.elem) &&
      FieldsIn(t, t.elem) == Fields(RootOf(t.left), RootOf(t.right)) && t.elem in Elems(t) &&
      (e in Elems(t) ==>
        FieldsIn(u, e) == if e == t.elem then FieldsIn(t, e).(left := null) else FieldsIn(t, e))
  {
    var r := Node(Leaf, t.elem, t.right);
    assert Distinct(r) && Elems(r) == {t.elem} + Elems(t.right);
  }

  /** Fields before and after `x` has split the tree at a root below it. */
  lemma SplitAboveFields<K>(t: Shape<K>, x: SplayEntry<K>, e: SplayEntry<K>)
    requires Distinct(t) && t.Node? && x !in Elems(t)
    ensures var u := Node(Node(t.left, t.elem, Leaf), x, t.right);
      Distinct(u) && Elems(u) == Elems(t) + {x} && FieldsIn(u, x) == Fields(t.elem, RootOf(t.right)) &&
      FieldsIn(t, t.elem) == Fields(RootOf(t.left), RootOf(t.right)) && t.elem in Elems(t) &&
      (e in Elems(t) ==>
        FieldsIn(u, e) == if e == t.elem then FieldsIn(t, e).(right := null) else FieldsIn(t, e))
  {
    var l := Node(t.left, t.elem, Leaf);
    assert Distinct(l) && Elems(l) == {t.elem} + Elems(t.left);
  }

  /** Puts `elm` on top of a splayed tree, splitting it at the root. */
  method SplitAtRoot<K(!new)>(head: SplayHead<K>, elm: SplayEntry<K>, comp: int, ghost t: Shape<K>)
    requires head.Is(t) && t.Node? && elm !in head.nodes && comp != 0
    modifies head`root, head`nodes, head.nodes, elm
    ensures head.nodes == old(head.nodes) + {elm}
    ensures head.Is(if comp < 0 then Node(t.left, elm, Node(Leaf, t.elem, t.right))
                    else Node(Node(t.left, t.elem, Leaf), elm, t.right))
  {
    forall e | e in head.nodes { SplitBelowFields(t, elm, e); }
    forall e | e in head.nodes { SplitAboveFields(t, elm, e); }
    SplitBelowFields(t, elm, t.elem);
    SplitAboveFields(t, elm, t.elem);
    assert Matches(head.root, FieldsIn(t, head.root));
    hide FieldsIn, Elems, Distinct;
    if comp < 0 {
      elm.left := head.root.left;
      elm.right := head.root;
      head.root.left := null;
    } else {
      elm.right := head.root.right;
      elm.left := head.root;
      head.root.right := null;
    }
    head.root := elm;
    head.nodes := head.nodes + {elm};
  }

  lemma EqualsItself<K(!new)>(cmp: (K, K) -> int, key: K)
    requires Comparator(cmp)
    ensures cmp(key, key) == 0
  {
  }

  lemma {:induction false} InorderElems<K>(t: Shape<K>)
    ensures forall e :: e in Inorder(t) <==> e in Elems(t)
    decreases t
  {
    if t.Node? {
      InorderElems(t.left);
      InorderElems(t.right);
    }
  }

  /** An element that does not compare equal to the root splayed to it is not in the tree. */
  lemma NotThere<K(!new)>(head: SplayHead<K>, elm: SplayEntry<K>, t: Shape<K>)
    requires head.Is(t) && Comparator(head.cmp) && AtTop(head.cmp, elm.key, t)
    requires head.cmp(elm.key, t.elem.key) != 0
    ensures elm !in head.nodes
  {
    InorderElems(t);
    OnlyTheRoot(head.cmp, elm.key, t);
    EqualsItself(head.cmp, elm.key);
  }

  /** SPLAY_INSERT: set insertion; an element comparing equal is returned instead, and an element of the
      tree is itself returned. */
  method Insert<K(!new)>(head: SplayHead<K>, elm: SplayEntry<K>) returns (found: SplayEntry?<K>)
    requires head.Valid()
    modifies head`root, head`nodes, head`tree, head.nodes, elm
    ensures head.Valid() && (elm in old(head.nodes) ==> found == elm)
    ensures found != null ==>
      found in head.Contents() && head.cmp(elm.key, found.key) == 0 &&
      head.Contents() == old(head.Contents()) && head.nodes == old(head.nodes)
    ensures found == null ==>
      InsertedInto(head.Contents(), old(head.Contents()), elm) && head.nodes == old(head.nodes) + {elm} &&
      forall e :: e in old(head.Contents()) ==> head.cmp(elm.key, e.key) != 0
  {
    if head.root == null {
      elm.left, elm.right := null, null;
      head.root := elm;
      head.tree, head.nodes := Node(Leaf, elm, Leaf), {elm};
      SingleAscending(head.cmp, elm);
      InsertedMiddle(head.Contents(), old(head.Contents()), [], elm, []);
      return null;
    }
    ghost var t := SplayTo(head, elm.key, head.tree);
    head.tree := t;
    OnlyTheRoot(head.cmp, elm.key, t);
    EqualsItself(head.cmp, elm.key);
    var comp := head.cmp(elm.key, head.root.key);
    if comp == 0 {
      InorderElems(t);
      return head.root;
    }
    NotThere(head, elm, t);
    if comp < 0 { SplitBelow(head.cmp, t, elm); } else { SplitAbove(head.cmp, t, elm); }
    hide SplayHead.Is, AtTop, Ascending, Comparator, Inorder;
    SplitAtRoot(head, elm, comp, t);
    head.tree := if comp < 0 then Node(t.left, elm, Node(Leaf, t.elem, t.right))
                 else Node(Node(t.left, t.elem, Leaf), elm, t.right);
    return null;
  }

  /** SPLAY_FIND: the element comparing equal to `key`, which is then the root. */
  method Find<K(!new)>(head: SplayHead<K>, key: K) returns (found: SplayEntry?<K>)
    requires head.Valid()
    modifies head`root, head`tree, head.nodes
    ensures head.Valid() && head.Contents() == old(head.Contents())
    ensures found != null ==> found == head.root && found in head.Contents() && head.cmp(key, found.key) == 0
    ensures found == null ==> forall e :: e in head.Contents() ==> head.cmp(key, e.key) != 0
  {
    if head.root == null {
      return null;
    }
    ghost var t := SplayTo(head, key, head.tree);
    head.tree := t;
    OnlyTheRoot(head.cmp, key, t);
    if head.cmp(key, head.root.key) == 0 {
      return head.root;
    }
    return null;
  }

  // ---------- removal ----------

  /** A tree that lies wholly below `key` has no right subtree once splayed to `key`. */
  lemma NothingAbove<K>(cmp: (K, K) -> int, key: K, t: Shape<K>, u: Shape<K>)
    requires AtTop(cmp, key, u) && Inorder(u) == Inorder(t) && Fits(cmp, key, Keys(Inorder(t)), [])
    ensures u.right.Leaf?
  {
    if u.right.Node? {
      var e := u.right.elem;
      assert e in Inorder(u.right) && e in Inorder(u);
      KeyAmong(Inorder(u.right), e);
      KeyAmong(Inorder(t), e);
      assert false;
    }
  }

  lemma KeyAmong<K>(s: seq<SplayEntry<K>>, e: SplayEntry<K>)
    requires e in s
    ensures e.key in Keys(s)
  {
    var i :| 0 <= i < |s| && s[i] == e;
    assert Keys(s)[i] == e.key;
  }

  /** The subtrees of the root as trees of their own. */
  lemma Subtrees<K>(t: Shape<K>, e: SplayEntry<K>)
    requires Distinct(t) && t.Node?
    ensures Distinct(t.left) && Distinct(t.right) && Elems(t.left) !! Elems(t.right)
    ensures t.elem !in Elems(t.left) + Elems(t.right) && Elems(t) == Elems(t.left) + {t.elem} + Elems(t.right)
    ensures FieldsIn(t, t.elem) == Fields(RootOf(t.left), RootOf(t.right))
    ensures e in Elems(t.left) ==> FieldsIn(t, e) == FieldsIn(t.left, e)
    ensures e in Elems(t.right) ==> FieldsIn(t, e) == FieldsIn(t.right, e)
  {
  }

  lemma AscendingParts<K>(cmp: (K, K) -> int, a: seq<SplayEntry<K>>, x: SplayEntry<K>, b: seq<SplayEntry<K>>)
    requires Ascending(Keys(a + [x] + b), cmp)
    ensures Ascending(Keys(a), cmp) && Ascending(Keys(b), cmp) && Ascending(Keys(a + b), cmp)
  {
    AscendingWithout(Keys(a + [x] + b), |a|, cmp);
    assert Keys(a + b) == Keys(a + [x] + b)[..|a|] + Keys(a + [x] + b)[|a| + 1..];
    KeysConcat(a, b);
    forall i, j | 0 <= i < j < |a|
      ensures cmp(Keys(a)[i], Keys(a)[j]) < 0
    {
      assert Keys(a)[i] == Keys(a + b)[i] && Keys(a)[j] == Keys(a + b)[j];
    }
    forall i, j | 0 <= i < j < |b|
      ensures cmp(Keys(b)[i], Keys(b)[j]) < 0
    {
      assert Keys(b)[i] == Keys(a + b)[|a| + i] && Keys(b)[j] == Keys(a + b)[|a| + j];
    }
  }

  /** The nodes of `t` spell out `t`. */
  ghost predicate Linked<K>(t: Shape<K>)
    reads Elems(t)
  {
    forall e :: e in Elems(t) ==> Matches(e, FieldsIn(t, e))
  }

  /** Leaves the left subtree of the root as the whole tree and hands back the right one. */
  method DropRoot<K(!new)>(head: SplayHead<K>, ghost t: Shape<K>) returns (tmp: SplayEntry?<K>)
    requires head.Is(t) && t.Node?
    modifies head`root, head`nodes
    ensures head.Is(t.left) && head.nodes == Elems(t.left) && tmp == RootOf(t.right) && Linked(t.right)
  {
    forall e | e in head.nodes { Subtrees(t, e); }
    Subtrees(t, t.elem);
    assert Matches(head.root, FieldsIn(t, head.root));
    hide FieldsIn;
    tmp := head.root.right;
    head.root := head.root.left;
    head.nodes := Elems(t.left);
  }

  /** Hangs the subtree `r` to the right of a root that has nothing there. */
  method HangRight<K(!new)>(head: SplayHead<K>, tmp: SplayEntry?<K>, ghost l: Shape<K>, ghost r: Shape<K>)
    requires head.Is(l) && l.Node? && l.right.Leaf?
    requires Linked(r) && Distinct(r) && Elems(l) !! Elems(r) && tmp == RootOf(r)
    modifies head`nodes, head.nodes
    ensures head.Is(Node(l.left, l.elem, r)) && head.nodes == Elems(l) + Elems(r)
  {
    JoinFields(l, r);
    assert Matches(head.root, FieldsIn(l, head.root));
    hide FieldsIn, Distinct;
    head.root.right := tmp;
    head.nodes := head.nodes + Elems(r);
  }

  /** Takes the root off a splayed tree with a left subtree, joining the two subtrees. */
  method JoinSubtrees<K(!new)>(head: SplayHead<K>, key: K, ghost t: Shape<K>) returns (ghost u: Shape<K>)
    requires head.Is(t) && AtTop(head.cmp, key, t) && t.left.Node?
    requires Comparator(head.cmp) && Ascending(Keys(Inorder(t)), head.cmp)
    modifies head`root, head`nodes, head.nodes
    ensures head.Is(u) && Inorder(u) == Inorder(t.left) + Inorder(t.right) && head.nodes == old(head.nodes) - {t.elem}
  {
    AscendingParts(head.cmp, Inorder(t.left), t.elem, Inorder(t.right));
    FitsJoin(head.cmp, key, Keys(Inorder(t.left)), Keys(Inorder(t.right)), [], []);
    Subtrees(t, t.elem);
    assert head.nodes == Elems(t);
    var tmp := DropRoot(head, t);
    hide Comparator, Ascending, Fits, Linked;
    ghost var l := SplayTo(head, key, t.left);
    NothingAbove(head.cmp, key, t.left, l);
    assert l.Node? && Elems(l) == Elems(t.left) by { IsFacts(head, l); }
    hide SplayHead.Is, AtTop, Inorder, Elems;
    JoinFields(l, t.right);
    HangRight(head, tmp, l, t.right);
    u := Node(l.left, l.elem, t.right);
  }

  lemma IsFacts<K(!new)>(head: SplayHead<K>, t: Shape<K>)
    requires head.Is(t)
    ensures head.nodes == Elems(t) && Distinct(t) && head.root == RootOf(t)
  {
  }

  lemma JoinParts<K>(l: Shape<K>, r: Shape<K>)
    requires Distinct(l) && Distinct(r) && Elems(l) !! Elems(r) && l.Node? && l.right.Leaf?
    ensures var u := Node(l.left, l.elem, r);
      Distinct(u) && Elems(u) == Elems(l) + Elems(r) && Inorder(u) == Inorder(l) + Inorder(r) && l.elem in Elems(l)
  {
  }

  lemma JoinFieldsAt<K>(l: Shape<K>, r: Shape<K>, e: SplayEntry<K>)
    requires Distinct(l) && Elems(l) !! Elems(r) && l.Node? && l.right.Leaf? && e in Elems(l) + Elems(r)
    ensures FieldsIn(Node(l.left, l.elem, r), e) ==
      if e == l.elem then FieldsIn(l, e).(right := RootOf(r))
      else if e in Elems(l) then FieldsIn(l, e) else FieldsIn(r, e)
  {
  }

  lemma JoinFields<K>(l: Shape<K>, r: Shape<K>)
    requires Distinct(l) && Distinct(r) && Elems(l) !! Elems(r) && l.Node? && l.right.Leaf?
    ensures var u := Node(l.left, l.elem, r);
      Distinct(u) && Elems(u) == Elems(l) + Elems(r) && Inorder(u) == Inorder(l) + Inorder(r) && l.elem in Elems(l) &&
      forall e :: e in Elems(u) ==>
        FieldsIn(u, e) == if e == l.elem then FieldsIn(l, e).(right := RootOf(r))
                          else if e in Elems(l) then FieldsIn(l, e) else FieldsIn(r, e)
  {
    hide Distinct, Elems, Inorder, FieldsIn;
    JoinParts(l, r);
    forall e | e in Elems(l) + Elems(r) { JoinFieldsAt(l, r, e); }
  }

  /** SPLAY_REMOVE: set deletion of the element comparing equal to `elm`; null if there is none. */
  method Remove<K(!new)>(head: SplayHead<K>, elm: SplayEntry<K>)
    returns (res: SplayEntry?<K>, ghost gone: SplayEntry?<K>)
    requires head.Valid()
    modifies head`root, head`nodes, head`tree, head.nodes
    ensures head.Valid()
    ensures res == null ==>
      gone == null && head.Contents() == old(head.Contents()) && head.nodes == old(head.nodes) &&
      forall e :: e in head.Contents() ==> head.cmp(elm.key, e.key) != 0
    ensures res != null ==>
      res == elm && gone != null && head.cmp(elm.key, gone.key) == 0 &&
      RemovedFrom(head.Contents(), old(head.Contents()), gone) && head.nodes == old(head.nodes) - {gone}
  {
    gone := null;
    if head.root == null {
      return null, null;
    }
    ghost var t := SplayTo(head, elm.key, head.tree);
    head.tree := t;
    OnlyTheRoot(head.cmp, elm.key, t);
    if head.cmp(elm.key, head.root.key) != 0 {
      return null, null;
    }
    gone := t.elem;
    WithoutTop(head.cmp, t);
    RootLinks(head, t);
    hide SplayHead.Is, AtTop, Comparator, Ascending, Inorder, RemovedFrom, Elems;
    if head.root.left == null {
      RemoveTop(head, t);
    } else {
      ghost var u := JoinSubtrees(head, elm.key, t);
      head.tree := u;
    }
    return elm, gone;
  }

  /** The order without the root is the joined order of its subtrees. */
  lemma WithoutTop<K>(cmp: (K, K) -> int, t: Shape<K>)
    requires t.Node? && Ascending(Keys(Inorder(t)), cmp)
    ensures var now := Inorder(t.left) + Inorder(t.right);
      Ascending(Keys(now), cmp) && RemovedFrom(now, Inorder(t), t.elem)
  {
    AscendingParts(cmp, Inorder(t.left), t.elem, Inorder(t.right));
    RemovedMiddle(Inorder(t.left) + Inorder(t.right), Inorder(t), Inorder(t.left), t.elem, Inorder(t.right));
  }

  lemma RootLinks<K(!new)>(head: SplayHead<K>, t: Shape<K>)
    requires head.Is(t) && t.Node?
    ensures head.root == t.elem && head.root.left == RootOf(t.left) && head.root.right == RootOf(t.right)
    ensures Linked(t) && Distinct(t)
  {
    Subtrees(t, t.elem);
    assert Matches(head.root, FieldsIn(t, head.root));
  }

  /** The case of a root without a left subtree. */
  method RemoveTop<K(!new)>(head: SplayHead<K>, ghost t: Shape<K>)
    requires head.Is(t) && t.Node? && t.left.Leaf?
    modifies head`root, head`nodes, head`tree
    ensures head.Is(head.tree) && head.nodes == old(head.nodes) - {t.elem}
    ensures head.Contents() == Inorder(t.left) + Inorder(t.right)
  {
    forall e | e in head.nodes { Subtrees(t, e); }
    Subtrees(t, t.elem);
    assert Matches(head.root, FieldsIn(t, head.root));
    hide FieldsIn;
    head.root := head.root.right;
    head.tree, head.nodes := t.right, Elems(t.right);
  }

  /** SPLAY_NEXT: the element after `elm` in the order, or null at the end. */
  method Next<K(!new)>(head: SplayHead<K>, elm0: SplayEntry<K>, ghost i: nat) returns (elm: SplayEntry?<K>)
    requires head.Valid() && i < |head.Contents()| && head.Contents()[i] == elm0
    modifies head`root, head`tree, head.nodes
    ensures head.Valid() && head.Contents() == old(head.Contents())
    ensures if i + 1 < |head.Contents()| then elm == head.Contents()[i + 1] else elm == null
  {
    ghost var t := SplayTo(head, elm0.key, head.tree);
    head.tree := t;
    SelfEqual(head.cmp, elm0.key);
    OnlyTheRoot(head.cmp, elm0.key, t);
    RootPosition(head.cmp, t, elm0, i);
    RootLinks(head, t);
    LinkedBelow(t);
    hide SplayHead.Is, AtTop, Comparator, Ascending, Linked, Distinct, Inorder;
    elm := elm0.right;
    if elm != null {
      elm := LeftEnd(elm, t.right);
    }
  }

  /** The loop of SPLAY_NEXT: down the left links to the first element of a subtree. */
  method LeftEnd<K>(elm0: SplayEntry<K>, ghost r0: Shape<K>) returns (elm: SplayEntry<K>)
    requires Linked(r0) && Distinct(r0) && r0.Node? && r0.elem == elm0
    ensures |Inorder(r0)| > 0 && elm == Inorder(r0)[0]
  {
    hide Linked, Distinct, Inorder;
    elm := elm0;
    ghost var r := r0;
    LinkedBelow(r);
    while elm.left != null
      invariant r.Node? && elm == r.elem && elm.left == RootOf(r.left)
      invariant Linked(r) && Distinct(r) && Inorder(r) <= Inorder(r0)
      decreases r
    {
      LinkedBelow(r);
      elm := elm.left;
      r := r.left;
      LinkedBelow(r);
    }
    LinkedBelow(r);
  }

  lemma SelfEqual<K(!new)>(cmp: (K, K) -> int, k: K)
    requires Comparator(cmp)
    ensures cmp(k, k) == 0
  {
  }

  lemma LinkedBelow<K>(r: Shape<K>)
    requires Linked(r) && r.Node? && Distinct(r)
    ensures r.elem.left == RootOf(r.left) && r.elem.right == RootOf(r.right)
    ensures Linked(r.left) && Distinct(r.left) && Linked(r.right) && Distinct(r.right)
    ensures |Inorder(r)| > 0 && Inorder(r.left) <= Inorder(r) && (r.left.Leaf? ==> Inorder(r)[0] == r.elem)
    ensures r.right.Node? ==> |Inorder(r.right)| > 0
  {
    Subtrees(r, r.elem);
    assert Matches(r.elem, FieldsIn(r, r.elem));
    forall e | e in Elems(r.left) + Elems(r.right) { Subtrees(r, e); }
    forall e | e in Elems(r.left)
      ensures Matches(e, FieldsIn(r.left, e))
    {
      assert Matches(e, FieldsIn(r, e));
    }
    forall e | e in Elems(r.right)
      ensures Matches(e, FieldsIn(r.right, e))
    {
      assert Matches(e, FieldsIn(r, e));
    }
  }

  lemma AscendingOnce<K(!new)>(cmp: (K, K) -> int, s: seq<SplayEntry<K>>, i: nat, k: nat)
    requires Comparator(cmp) && Ascending(Keys(s), cmp) && i < |s| && k < |s| && s[i] == s[k]
    ensures i == k
  {
    SelfEqual(cmp, s[i].key);
    var a, b := Keys(s)[i], Keys(s)[k];
    assert cmp(a, b) == 0 && cmp(b, a) == 0;
  }

  /** An element at the root stands right after the left subtree. */
  lemma RootPosition<K(!new)>(cmp: (K, K) -> int, t: Shape<K>, e: SplayEntry<K>, i: nat)
    requires Ascending(Keys(Inorder(t)), cmp) && t.Node? && t.elem == e && Comparator(cmp)
    requires i < |Inorder(t)| && Inorder(t)[i] == e
    ensures |Inorder(t)| == i + 1 + |Inorder(t.right)|
    ensures |Inorder(t.right)| > 0 ==> Inorder(t)[i + 1] == Inorder(t.right)[0]
    ensures t.right.Leaf? ==> |Inorder(t.right)| == 0
  {
    AscendingOnce(cmp, Inorder(t), i, |Inorder(t.left)|);
  }

  /** The descent of SPLAY_MINMAX and its assembly. */
  method SplayToEdge<K(!new)>(head: SplayHead<K>, comp: int, ghost t0: Shape<K>) returns (ghost t1: Shape<K>)
    requires head.Is(t0) && t0.Node? && head.root != null && comp != 0
    modifies head`root, head.nodes
    ensures head.Is(t1) && Inorder(t1) == Inorder(t0) && t1.Node? && |Inorder(t1)| > 0
    ensures comp < 0 ==> t1.elem == Inorder(t1)[0]
    ensures comp > 0 ==> t1.elem == Inorder(t1)[|Inorder(t1)| - 1]
  {
    var node := new SplayEntry(head.root.key);
    var left, right := node, node;
    ghost var ls: Spine<K>, t, rs: Spine<K> := Nil, t0, Nil;
    StartsSplit(head, t0, node);
    hide SplayHead.Is, SplayHead.Split, Whole, Inorder, Size, Assembled;
    var stop := false;
    while !stop
      invariant head.Split(ls, t, rs, node, left, right) && fresh(node) && t.Node?
      invariant Whole(ls, t, rs) == Inorder(t0)
      invariant comp < 0 ==> ls.Nil? && (stop ==> t.left.Leaf?)
      invariant comp > 0 ==> rs.Nil? && (stop ==> t.right.Leaf?)
      decreases Size(t), !stop
    {
      if comp < 0 {
        stop, right, t, rs := EdgeLeft(head, right, ls, t, rs, node, left);
      } else {
        stop, left, t, ls := EdgeRight(head, left, ls, t, rs, node, right);
      }
    }
    EdgeAtTop(ls, t, rs);
    Assemble(head, node, left, right, ls, t, rs);
    t1 := Assembled(ls, t, rs);
  }

  /** SPLAY_MINMAX: brings the least (`comp` negative) or the greatest element to the root. */
  method MinMax<K(!new)>(head: SplayHead<K>, comp: int)
    requires head.Valid() && head.root != null && comp != 0
    modifies head`root, head`tree, head.nodes
    ensures head.Valid() && head.Contents() == old(head.Contents()) && |head.Contents()| > 0
    ensures comp < 0 ==> head.root == head.Contents()[0]
    ensures comp > 0 ==> head.root == head.Contents()[|head.Contents()| - 1]
  {
    IsFacts(head, head.tree);
    hide SplayHead.Is, Comparator, Ascending, Inorder;
    ghost var t := SplayToEdge(head, comp, head.tree);
    head.tree := t;
    IsFacts(head, head.tree);
  }

  lemma EdgeAtTop<K>(ls: Spine<K>, t: Shape<K>, rs: Spine<K>)
    requires t.Node?
    ensures Inorder(Assembled(ls, t, rs)) == Whole(ls, t, rs) && |Whole(ls, t, rs)| > 0
    ensures Assembled(ls, t, rs).Node? && Assembled(ls, t, rs).elem == t.elem
    ensures ls.Nil? && t.left.Leaf? ==> Whole(ls, t, rs)[0] == t.elem
    ensures rs.Nil? && t.right.Leaf? ==> Whole(ls, t, rs)[|Whole(ls, t, rs)| - 1] == t.elem
  {
    AssembledInorder(ls, t, rs);
  }

  /** One round towards the least element. */
  method EdgeLeft<K(!new)>(head: SplayHead<K>, right0: SplayEntry<K>, ghost ls: Spine<K>, ghost t0: Shape<K>,
                           ghost rs0: Spine<K>, ghost node: SplayEntry<K>, ghost left: SplayEntry<K>)
    returns (stop: bool, right: SplayEntry<K>, ghost t: Shape<K>, ghost rs: Spine<K>)
    requires head.Split(ls, t0, rs0, node, left, right0) && t0.Node?
    modifies head`root, head.nodes, node
    ensures head.Split(ls, t, rs, node, left, right) && t.Node? && Whole(ls, t, rs) == Whole(ls, t0, rs0)
    ensures if stop then t.left.Leaf? && Size(t) <= Size(t0) else Size(t) < Size(t0)
  {
    hide SplayHead.Is, SplayHead.Split, Whole, Inorder;
    t, rs, right := t0, rs0, right0;
    head.PeekSplit(ls, t, rs, node, left, right);
    var tmp := head.root.left;
    if tmp == null {
      return true, right, t, rs;
    }
    t := RotateRight(head, tmp, ls, t, rs, node, left, right);
    SameWhole(ls, t0, t, rs);
    head.PeekSplit(ls, t, rs, node, left, right);
    if head.root.left == null {
      return true, right, t, rs;
    }
    LinkWhole(ls, t, rs);
    right := LinkLeft(head, right, ls, t, rs, node, left);
    rs, t := Link(rs, t.elem, t.right), t.left;
    stop := false;
  }

  /** One round towards the greatest element. */
  method EdgeRight<K(!new)>(head: SplayHead<K>, left0: SplayEntry<K>, ghost ls0: Spine<K>, ghost t0: Shape<K>,
                            ghost rs: Spine<K>, ghost node: SplayEntry<K>, ghost right: SplayEntry<K>)
    returns (stop: bool, left: SplayEntry<K>, ghost t: Shape<K>, ghost ls: Spine<K>)
    requires head.Split(ls0, t0, rs, node, left0, right) && t0.Node?
    modifies head`root, head.nodes, node
    ensures head.Split(ls, t, rs, node, left, right) && t.Node? && Whole(ls, t, rs) == Whole(ls0, t0, rs)
    ensures if stop then t.right.Leaf? && Size(t) <= Size(t0) else Size(t) < Size(t0)
  {
    hide SplayHead.Is, SplayHead.Split, Whole, Inorder;
    t, ls, left := t0, ls0, left0;
    head.PeekSplit(ls, t, rs, node, left, right);
    var tmp := head.root.right;
    if tmp == null {
      return true, left, t, ls;
    }
    t := RotateLeft(head, tmp, ls, t, rs, node, left, right);
    SameWhole(ls, t0, t, rs);
    head.PeekSplit(ls, t, rs, node, left, right);
    if head.root.right == null {
      return true, left, t, ls;
    }
    LinkWhole(ls, t, rs);
    left := LinkRight(head, left, ls, t, rs, node, right);
    ls, t := Link(ls, t.elem, t.left), t.right;
    stop := false;
  }

  /** Moving the root to either spine leaves the whole order as it was. */
  lemma LinkWhole<K>(ls: Spine<K>, t: Shape<K>, rs: Spine<K>)
    requires t.Node?
    ensures Whole(ls, t.left, Link(rs, t.elem, t.right)) == Whole(ls, t, rs)
    ensures Whole(Link(ls, t.elem, t.left), t.right, rs) == Whole(ls, t, rs)
  {
    Reorder(Smaller(ls), Inorder(t.left), t.elem, Inorder(t.right), Larger(rs));
  }
}
