/** The chained hash table of jsw_hlib.c, refining a finite map.  `C` is the type of the classes
    of keys that the comparison function tells apart. */
module HashTable {
  import opened Wrappers
  import opened Sequences

  class Node<K, V> {
    const key: K
    const item: V
    var next: Node?<K, V>

    constructor (key: K, item: V)
      ensures this.key == key && this.item == item && next == null
    {
      this.key, this.item, next := key, item, null;
    }
  }

  class Head<K, V> {
    var first: Node?<K, V>
    var size: nat

    constructor ()
      ensures first == null && size == 0
    {
      first, size := null, 0;
    }
  }

  // ---------- chains as values ----------

  ghost function Class<K, C, V>(canon: K -> C, n: Node<K, V>): C {
    canon(n.key)
  }

  ghost predicate KeysApart<K, C, V>(canon: K -> C, s: seq<Node<K, V>>) {
    forall a, b :: 0 <= a < b < |s| ==> Class(canon, s[a]) != Class(canon, s[b])
  }

  /** The items of the nodes by key class. */
  ghost function MapOf<K, C, V>(canon: K -> C, s: seq<Node<K, V>>): map<C, V> {
    if s == [] then map[] else MapOf(canon, s[1..])[Class(canon, s[0]) := s[0].item]
  }

  /** The map holds exactly the nodes' items, one entry a node. */
  lemma {:induction false} MapOfIs<K, C, V>(canon: K -> C, s: seq<Node<K, V>>)
    requires KeysApart(canon, s)
    ensures forall n :: n in s ==> Class(canon, n) in MapOf(canon, s) && MapOf(canon, s)[Class(canon, n)] == n.item
    ensures forall c :: c in MapOf(canon, s) ==> exists n :: n in s && Class(canon, n) == c
    ensures |MapOf(canon, s)| == |s|
    decreases s
  {
    if s != [] {
      var rest := s[1..];
      assert KeysApart(canon, rest);
      MapOfIs(canon, rest);
      assert s == [s[0]] + rest;
      assert Class(canon, s[0]) !in MapOf(canon, rest) by {
        assert forall n :: n in rest ==> Class(canon, n) != Class(canon, s[0]);
      }
    }
  }

  lemma ApartWithout<K, C, V>(canon: K -> C, a: seq<Node<K, V>>, n: Node<K, V>, b: seq<Node<K, V>>)
    requires KeysApart(canon, a + [n] + b)
    ensures KeysApart(canon, a + b) && forall m :: m in a + b ==> Class(canon, m) != Class(canon, n)
  {
    var s, t := a + [n] + b, a + b;
    assert forall i :: 0 <= i < |t| ==> t[i] == s[if i < |a| then i else i + 1];
    assert s[|a|] == n;
  }

  lemma ApartTail<K, C, V>(canon: K -> C, s: seq<Node<K, V>>)
    requires KeysApart(canon, s) && s != []
    ensures KeysApart(canon, s[1..]) && forall m :: m in s[1..] ==> Class(canon, m) != Class(canon, s[0])
  {
  }

  /** Taking one node out of the middle. */
  lemma {:induction false} MapOfWithout<K, C, V>(canon: K -> C, a: seq<Node<K, V>>, n: Node<K, V>, b: seq<Node<K, V>>)
    requires KeysApart(canon, a + [n] + b)
    ensures MapOf(canon, a + [n] + b) == MapOf(canon, a + b)[Class(canon, n) := n.item]
    decreases a
  {
    hide KeysApart, Class;
    var s, t := a + [n] + b, a + b;
    if a == [] {
      assert t == b && s[0] == n && s[1..] == b;
    } else {
      assert s[1..] == a[1..] + [n] + b && t[1..] == a[1..] + b && s[0] == a[0] && t[0] == a[0];
      ApartTail(canon, s);
      MapOfWithout(canon, a[1..], n, b);
      assert n in s[1..];
    }
  }

  lemma NewClass<K, C, V>(canon: K -> C, s: seq<Node<K, V>>, c: C)
    requires KeysApart(canon, s)
    ensures c in MapOf(canon, s) <==> exists n :: n in s && Class(canon, n) == c
  {
    MapOfIs(canon, s);
  }

  lemma ApartWith<K, C, V>(canon: K -> C, a: seq<Node<K, V>>, n: Node<K, V>, b: seq<Node<K, V>>)
    requires KeysApart(canon, a + b) && forall m :: m in a + b ==> Class(canon, m) != Class(canon, n)
    ensures KeysApart(canon, a + [n] + b)
  {
    var s, t := a + [n] + b, a + b;
    assert forall i :: 0 <= i < |s| && i != |a| ==> s[i] == t[if i < |a| then i else i - 1] && s[i] in t;
  }

  /** The slot of a key. */
  function Slot<K>(hash: K -> nat, key: K, capacity: nat): nat
    requires capacity > 0
  {
    hash(key) % capacity
  }

  ghost predicate Placed<K, V>(hash: K -> nat, chains: seq<seq<Node<K, V>>>) {
    forall i, n :: 0 <= i < |chains| && n in chains[i] ==> Slot(hash, n.key, |chains|) == i
  }

  ghost predicate Linked<K, V>(chain: seq<Node<K, V>>)
    reads chain`next
  {
    forall i {:trigger chain[i].next} :: 0 <= i < |chain| ==>
      chain[i].next == if i + 1 < |chain| then chain[i + 1] else null
  }

  /** A bucket has a head exactly when its chain is not empty. */
  ghost predicate Bucket<K, V>(head: Head?<K, V>, chain: seq<Node<K, V>>)
    reads head, chain`next
  {
    (head == null <==> chain == []) &&
    (head != null ==> head.first == chain[0] && head.size == |chain| && Linked(chain))
  }

  lemma NoHead<K, V>(head: Head?<K, V>, chain: seq<Node<K, V>>)
    requires Bucket(head, chain)
    ensures head == null <==> chain == []
  {
  }

  function Lookup<C, V>(m: map<C, V>, c: C): Option<V> {
    if c in m then Some(m[c]) else None
  }

  class Table<K(!new), C, V> {
    const hash: K -> nat
    const cmp: (K, K) -> int
    ghost const canon: K -> C
    const capacity: nat
    const table: array<Head?<K, V>>
    var size: nat
    var curri: nat
    var currl: Node?<K, V>
    ghost var chains: seq<seq<Node<K, V>>>
    ghost var repr: set<object>

    /** The hash respects the comparison, which tells the classes of `canon` apart. */
    static ghost predicate Sound(hash: K -> nat, cmp: (K, K) -> int, canon: K -> C) {
      (forall a, b :: cmp(a, b) == 0 <==> canon(a) == canon(b)) &&
      (forall a, b :: canon(a) == canon(b) ==> hash(a) == hash(b))
    }

    /** Buckets, heads and nodes spell out the chains. */
    ghost predicate Shape()
      reads this, repr
    {
      this !in repr && table in repr && table.Length == |chains| == capacity > 0 &&
      (forall i :: 0 <= i < capacity && table[i] != null ==> table[i] in repr) &&
      (forall i, n :: 0 <= i < capacity && n in chains[i] ==> n in repr) &&
      (forall i, j :: 0 <= i < j < capacity && table[i] != null ==> table[i] != table[j]) &&
      (forall i :: 0 <= i < capacity ==> Bucket(table[i], chains[i]))
    }

    ghost predicate Valid()
      reads this, repr
    {
      Sound(hash, cmp, canon) && Shape() &&
      Placed(hash, chains) && KeysApart(canon, Flat(chains)) && size == |Flat(chains)|
    }

    /** The map the table stands for. */
    ghost function Contents(): map<C, V>
      reads this
    {
      MapOf(canon, Flat(chains))
    }

    /** jsw_hnew: an empty table. */
    constructor (capacity: nat, hash: K -> nat, cmp: (K, K) -> int, ghost canon: K -> C)
      requires capacity > 0 && Sound(hash, cmp, canon)
      ensures Valid() && fresh(repr) && Contents() == map[] && this.capacity == capacity
      ensures this.hash == hash && this.cmp == cmp && this.canon == canon
    {
      this.hash, this.cmp, this.canon, this.capacity := hash, cmp, canon, capacity;
      var heads := new Head?<K, V>[capacity](_ => null);
      table, size, curri, currl := heads, 0, 0, null;
      chains := seq(capacity, _ => []);
      repr := {heads};
      new;
      AllEmpty(chains);
    }

    /** A key's class is in the map exactly when its bucket has a node of that class. */
    lemma InBucket(key: K)
      requires Valid()
      ensures var chain := chains[Slot(hash, key, capacity)];
        (canon(key) in Contents() <==> exists n :: n in chain && Class(canon, n) == canon(key)) &&
        (forall n :: n in chain && Class(canon, n) == canon(key) ==> Contents()[canon(key)] == n.item)
    {
      var h, s := Slot(hash, key, capacity), Flat(chains);
      MapOfIs(canon, s);
      forall n: Node<K, V> | n in s && Class(canon, n) == canon(key)
        ensures n in chains[h]
      {
        FlatMembers(chains, n);
      }
      forall n: Node<K, V> | n in chains[h]
        ensures n in s
      {
        FlatMembers(chains, n);
      }
    }

    /** jsw_hfind */
    method Find(key: K) returns (item: Option<V>)
      requires Valid()
      ensures item == Lookup(Contents(), canon(key))
    {
      InBucket(key);
      var h := Slot(hash, key, capacity);
      assert Bucket(table[h], chains[h]);
      if table[h] != null {
        var it := table[h].first;
        ghost var j := 0;
        while it != null
          invariant j <= |chains[h]| && it == if j < |chains[h]| then chains[h][j] else null
          invariant forall k :: 0 <= k < j ==> Class(canon, chains[h][k]) != canon(key)
          decreases |chains[h]| - j
        {
          assert it in chains[h];
          if cmp(key, it.key) == 0 {
            return Some(it.item);
          }
          it := it.next;
          j := j + 1;
        }
      }
      item := None;
    }

    /** Links a node in front of a chain, whose head is fresh when the chain is empty. */
    static method LinkFront(head: Head<K, V>, node: Node<K, V>, ghost chain: seq<Node<K, V>>)
      requires node !in chain
      requires if chain == [] then head.first == null && head.size == 0 else Bucket(head, chain)
      modifies head, node`next
      ensures Bucket(head, [node] + chain)
    {
      node.next := head.first;
      head.first := node;
      head.size := head.size + 1;
    }

    /** Links a new node into bucket `h`. */
    method LinkNode(node: Node<K, V>, h: nat)
      requires Shape() && h < capacity && node !in repr && (node as object) != this
      modifies `chains, `repr, table, repr, node`next
      ensures Shape() && fresh(repr - old(repr) - {node})
      ensures chains == old(chains)[h := [node] + old(chains)[h]]
    {
      NoHead(table[h], chains[h]);
      hide Bucket;
      if table[h] == null {
        var head := new Head();
        table[h] := head;
      }
      LinkFront(table[h], node, chains[h]);
      chains := chains[h := [node] + chains[h]];
      repr := repr + {node, table[h]};
    }

    /** jsw_hinsert: refuses a key of a class already present. */
    method Insert(key: K, item: V) returns (ok: bool)
      requires Valid()
      modifies `size, `chains, `repr, table, repr
      ensures Valid() && fresh(repr - old(repr))
      ensures ok <==> canon(key) !in old(Contents())
      ensures Contents() == if ok then old(Contents())[canon(key) := item] else old(Contents())
    {
      var h := Slot(hash, key, capacity);
      var found := Find(key);
      if found.Some? {
        return false;
      }
      var node := new Node(key, item);
      FrontAdded(hash, canon, chains, node);
      hide MapOf, Flat, KeysApart, Class, Placed, Table.Sound;
      LinkNode(node, h);
      size := size + 1;
      ok := true;
    }

    /** What remains to be visited from the traversal markers. */
    ghost predicate Marks(rest: seq<Node<K, V>>)
      reads `curri, `currl, `chains
    {
      |chains| == capacity &&
      if currl == null then rest == []
      else curri < capacity && exists j: nat :: Marked(j, rest)
    }

    ghost predicate Marked(j: nat, rest: seq<Node<K, V>>)
      reads `curri, `currl, `chains
      requires |chains| == capacity && curri < capacity
    {
      j < |chains[curri]| && currl == chains[curri][j] && rest == chains[curri][j..] + Flat(chains[curri + 1..])
    }

    lemma FromHere(i: nat)
      requires Shape() && i <= capacity
      ensures i == capacity ==> Flat(chains[i..]) == []
      ensures i < capacity && table[i] == null ==> Flat(chains[i..]) == Flat(chains[i + 1..])
      ensures i < capacity && table[i] != null ==>
        chains[i] != [] && table[i].first == chains[i][0] &&
        Flat(chains[i..]) == chains[i][0..] + Flat(chains[i + 1..])
    {
      if i < capacity {
        assert Bucket(table[i], chains[i]);
        assert chains[i..][1..] == chains[i + 1..] && chains[i..][0] == chains[i] == chains[i][0..];
      }
    }

    lemma NextInChain(i: nat, j: nat)
      requires Shape() && i < capacity && j < |chains[i]|
      ensures chains[i][j].next == if j + 1 < |chains[i]| then chains[i][j + 1] else null
      ensures (chains[i][j..] + Flat(chains[i + 1..]))[1..] == chains[i][j + 1..] + Flat(chains[i + 1..])
    {
      assert Bucket(table[i], chains[i]);
      assert chains[i][j..][1..] == chains[i][j + 1..];
    }

    /** The scanning loops of both traversal functions: the first bucket in use from `from` on. */
    method FindHead(from: nat) returns (i: nat)
      requires Shape() && from <= capacity
      ensures i <= capacity && (i == capacity ==> Flat(chains[from..]) == [])
      ensures i < capacity ==>
        table[i] != null && chains[i] != [] && table[i].first == chains[i][0] &&
        Flat(chains[from..]) == chains[i][0..] + Flat(chains[i + 1..])
    {
      hide Flat, Bucket;
      i := from;
      while i < capacity && table[i] == null
        invariant i <= capacity && Flat(chains[i..]) == Flat(chains[from..])
      {
        FromHere(i);
        i := i + 1;
      }
      FromHere(i);
    }

    /** The node the markers are at. */
    lemma Current(rest: seq<Node<K, V>>) returns (j: nat)
      requires Marks(rest) && currl != null
      ensures |chains| == capacity && curri < capacity && j < |chains[curri]| && currl == chains[curri][j]
      ensures rest == chains[curri][j..] + Flat(chains[curri + 1..])
    {
      j :| Marked(j, rest);
    }

    lemma AtNode(j: nat, rest: seq<Node<K, V>>)
      requires |chains| == capacity && curri < capacity && j < |chains[curri]| && currl == chains[curri][j]
      requires rest == chains[curri][j..] + Flat(chains[curri + 1..])
      ensures Marks(rest) && rest != []
    {
      assert Marked(j, rest);
    }

    lemma AtEnd()
      requires |chains| == capacity && currl == null
      ensures Marks([]) && forall rest :: Marks(rest) ==> rest == []
    {
    }

    /** jsw_hreset: everything is still to be visited. */
    method Reset()
      requires Shape()
      modifies `curri, `currl
      ensures Shape() && Marks(Flat(chains))
    {
      hide Flat, Bucket, Table.Marks;
      curri := 0;
      currl := null;
      var i := FindHead(0);
      curri := i;
      assert chains[0..] == chains;
      if i != capacity {
        currl := table[i].first;
        AtNode(0, Flat(chains));
      } else {
        AtEnd();
      }
    }

    /** jsw_hnext: moves past the first of the nodes still to be visited, and returns 0 exactly when
        that was the last; with no node left it returns 1. */
    method Next(ghost rest: seq<Node<K, V>>) returns (more: int)
      requires Shape() && Marks(rest)
      modifies `curri, `currl
      ensures Shape() && Marks(if rest == [] then [] else rest[1..])
      ensures more == if |rest| == 1 then 0 else 1
    {
      hide Flat, Bucket, Table.Marks;
      if currl == null {
        AtEnd();
        return 1;
      }
      ghost var j := Current(rest);
      NextInChain(curri, j);
      currl := currl.next;
      if currl == null {
        assert rest[1..] == Flat(chains[curri + 1..]);
        curri := FindHead(curri + 1);
        if curri == capacity {
          AtEnd();
          return 0;
        }
        currl := table[curri].first;
        AtNode(0, rest[1..]);
      } else {
        AtNode(j + 1, rest[1..]);
      }
      more := 1;
    }

    /** The nodes of chain `h` are no others' and come once. */
    ghost predicate OwnNodes(h: nat)
      reads this
      requires h < |chains|
    {
      (forall a, b :: 0 <= a < b < |chains[h]| ==> chains[h][a] != chains[h][b]) &&
      (forall i, k, l :: 0 <= i < |chains| && i != h && 0 <= k < |chains[i]| && 0 <= l < |chains[h]| ==>
        chains[i][k] != chains[h][l])
    }

    lemma NodesAreOwn(h: nat)
      requires Valid() && h < capacity
      ensures OwnNodes(h)
    {
      FlatAt(chains, h);
      var a, s := |Flat(chains[..h])|, Flat(chains);
      assert forall k :: 0 <= k < |chains[h]| ==> s[a + k] == chains[h][k];
      forall i, k, l | 0 <= i < |chains| && i != h && 0 <= k < |chains[i]| && 0 <= l < |chains[h]|
        ensures chains[i][k] != chains[h][l]
      {
        assert chains[i][k] in chains[i] && Slot(hash, chains[i][k].key, |chains|) == i;
        assert chains[h][l] in chains[h] && Slot(hash, chains[h][l].key, |chains|) == h;
      }
      forall k, l | 0 <= k < l < |chains[h]|
        ensures chains[h][k] != chains[h][l]
      {
        assert Class(canon, s[a + k]) != Class(canon, s[a + l]);
      }
    }

    /** Takes node `j` out of bucket `h`: the unlinking of jsw_herase. */
    method UnlinkNode(h: nat, ghost j: nat, prev: Node?<K, V>)
      requires Shape() && h < capacity && j < |chains[h]| && OwnNodes(h)
      requires prev == if j == 0 then null else chains[h][j - 1]
      modifies `chains, table, repr
      ensures Shape() && repr == old(repr) && chains == old(chains)[h := old(chains)[h][..j] + old(chains)[h][j + 1..]]
    {
      assert Bucket(table[h], chains[h]);
      if prev == null {
        table[h].first := table[h].first.next;
        if table[h].first == null {
          table[h] := null;
        } else {
          table[h].size := table[h].size - 1;
        }
      } else {
        prev.next := prev.next.next;
        table[h].size := table[h].size - 1;
      }
      chains := chains[h := chains[h][..j] + chains[h][j + 1..]];
      assert table[h] == null ==> chains[h] == [];
      assert Bucket(table[h], chains[h]);
    }

    /** The search of jsw_herase for the node of a key in a non-empty bucket, and the node before it. */
    method Search(key: K, h: nat) returns (found: bool, prev: Node?<K, V>, ghost j: nat)
      requires Shape() && Sound(hash, cmp, canon) && h < capacity && table[h] != null
      ensures found <==> exists n :: n in chains[h] && Class(canon, n) == canon(key)
      ensures found ==> j < |chains[h]| && Class(canon, chains[h][j]) == canon(key)
      ensures found ==> prev == if j == 0 then null else chains[h][j - 1]
    {
      assert Bucket(table[h], chains[h]);
      var it := table[h].first;
      prev, j := null, 0;
      if cmp(key, it.key) == 0 {
        assert it in chains[h];
        return true, null, 0;
      }
      while it.next != null && cmp(key, it.next.key) != 0
        invariant j < |chains[h]| && it == chains[h][j]
        invariant forall k :: 0 <= k <= j ==> Class(canon, chains[h][k]) != canon(key)
        decreases |chains[h]| - j
      {
        it := it.next;
        j := j + 1;
      }
      found := it.next != null;
      prev := it;
      assert found ==> it.next in chains[h];
      j := j + 1;
    }

    /** Unlinks a node found; erasure invalidates the traversal markers. */
    method EraseNode(h: nat, ghost j: nat, prev: Node?<K, V>)
      requires Valid() && h < capacity && j < |chains[h]| && OwnNodes(h)
      requires prev == if j == 0 then null else chains[h][j - 1]
      modifies `size, `chains, `curri, `currl, table, repr
      ensures Valid() && repr == old(repr) && Marks(Flat(chains))
      ensures Class(canon, old(chains)[h][j]) in old(Contents())
      ensures Contents() == old(Contents()) - {Class(canon, old(chains)[h][j])}
    {
      hide Bucket, KeysApart, Flat, MapOf, Class, Table.OwnNodes, Placed, Table.Marks, Table.Sound, Slot;
      OneRemoved(hash, canon, chains, h, j);
      UnlinkNode(h, j, prev);
      Reset();
      size := size - 1;
    }

    /** jsw_herase */
    method Erase(key: K) returns (ok: bool)
      requires Valid()
      modifies `size, `chains, `curri, `currl, table, repr
      ensures Valid() && repr == old(repr)
      ensures ok <==> canon(key) in old(Contents())
      ensures Contents() == old(Contents()) - {canon(key)}
      ensures ok ==> Marks(Flat(chains))
    {
      var h := Slot(hash, key, capacity);
      InBucket(key);
      NodesAreOwn(h);
      NoHead(table[h], chains[h]);
      hide Bucket, KeysApart, Flat, MapOf, Class, Table.OwnNodes, Placed, Table.Marks, Table.Shape, Table.Sound;
      if table[h] == null {
        return false;
      }
      var found, prev, j := Search(key, h);
      if !found {
        return false;
      }
      EraseNode(h, j, prev);
      ok := true;
    }

    /** One more node of the table: its class is not among those before it. */
    lemma Another(before: seq<Node<K, V>>, n: Node<K, V>, after: seq<Node<K, V>>)
      requires Valid() && Flat(chains) == before + ([n] + after)
      ensures canon(n.key) !in MapOf(canon, before)
      ensures MapOf(canon, before + [n]) == MapOf(canon, before)[canon(n.key) := n.item]
    {
      var s := Flat(chains);
      assert forall k :: 0 <= k <= |before| ==> s[k] == (before + [n] + [])[k];
      MapOfWithout(canon, before, n, []);
      assert before + [n] + [] == before + [n] && before + [] == before;
      ApartWithout(canon, before, n, []);
      NewClass(canon, before, canon(n.key));
    }

    lemma FlatEnds()
      requires |chains| == capacity
      ensures Flat(chains[0..]) == Flat(chains) && Flat(chains[capacity..]) == [] && MapOf<K, C, V>(canon, []) == map[]
    {
      assert chains[0..] == chains;
    }

    /** The inner loop of the rebuilding: the nodes of one chain go into `t`. */
    method CopyChain(t: Table<K, C, V>, i: nat, ghost before: seq<Node<K, V>>)
      requires Valid() && i < capacity && table[i] != null && t.canon == canon
      requires Flat(chains) == before + (chains[i][0..] + Flat(chains[i + 1..]))
      requires t != this && t.Valid() && t !in repr && t.repr !! repr && this !in t.repr
      requires t.Contents() == MapOf(canon, before)
      modifies t, t.repr
      ensures t.Valid() && fresh(t.repr - old(t.repr)) && t.Contents() == MapOf(canon, before + chains[i])
    {
      hide MapOf, Flat, KeysApart, Placed, Bucket, Table.Sound;
      FromHere(i);
      var it := table[i].first;
      ghost var j, done, rest := 0, before, Flat(chains[i + 1..]);
      while it != null
        invariant j <= |chains[i]| && it == if j < |chains[i]| then chains[i][j] else null
        invariant done == before + chains[i][..j] && Flat(chains) == done + (chains[i][j..] + rest)
        invariant Valid() && t.Valid() && fresh(t.repr - old(t.repr)) && this !in t.repr && t.repr !! repr
        invariant t.Contents() == MapOf(canon, done)
        decreases |chains[i]| - j
      {
        NextInChain(i, j);
        assert chains[i][j..] + rest == [chains[i][j]] + (chains[i][j + 1..] + rest);
        Another(done, it, chains[i][j + 1..] + rest);
        var ok := t.Insert(it.key, it.item);
        assert done + ([chains[i][j]] + (chains[i][j + 1..] + rest)) ==
          (done + [chains[i][j]]) + (chains[i][j + 1..] + rest);
        done := done + [chains[i][j]];
        it := it.next;
        j := j + 1;
      }
      assert chains[i][..j] == chains[i];
    }

    /** The rebuilding loop of jsw_hresize: a table of the new capacity with the same map. */
    method Resize(newSize: nat) returns (t: Table<K, C, V>)
      requires Valid() && newSize > 0
      ensures fresh(t) && fresh(t.repr) && t.Valid() && t.capacity == newSize
      ensures t.canon == canon && t.Contents() == Contents()
    {
      hide MapOf, Flat, KeysApart, Placed, Bucket, Table.Sound;
      t := new Table(newSize, hash, cmp, canon);
      ghost var done: seq<Node<K, V>> := [];
      var i := 0;
      FlatEnds();
      while i < capacity
        invariant i <= capacity && Flat(chains) == done + Flat(chains[i..])
        invariant fresh(t) && fresh(t.repr) && t.Valid() && t.canon == canon && t.Contents() == MapOf(canon, done)
      {
        FromHere(i);
        if table[i] != null {
          CopyChain(t, i, done);
          assert done + (chains[i][0..] + Flat(chains[i + 1..])) == (done + chains[i]) + Flat(chains[i + 1..]);
          done := done + chains[i];
        }
        i := i + 1;
      }
      assert done + [] == done;
    }

    lemma MarkHead(rest: seq<Node<K, V>>)
      requires Marks(rest)
      ensures rest != [] ==> currl != null && currl == rest[0]
    {
    }

    /** hreset, then hnext until it returns 0: every key is met exactly once. */
    method Visit() returns (visited: seq<K>)
      requires Valid() && size > 0
      modifies `curri, `currl
      ensures Valid() && |visited| == |Contents()|
      ensures forall a :: 0 <= a < |visited| ==> canon(visited[a]) in Contents()
      ensures forall a, b :: 0 <= a < b < |visited| ==> canon(visited[a]) != canon(visited[b])
    {
      hide MapOf, Flat, KeysApart, Placed, Bucket, Table.Sound, Table.Shape, Table.Marks;
      Reset();
      ghost var s, rest := Flat(chains), Flat(chains);
      MarkHead(rest);
      visited := [currl.key];
      var more := Next(rest);
      rest := rest[1..];
      while more != 0
        invariant Valid() && Flat(chains) == s && Marks(rest)
        invariant |visited| + |rest| == |s| && more == (if rest == [] then 0 else 1)
        invariant forall a :: 0 <= a < |visited| ==> visited[a] == s[a].key
        invariant rest == s[|visited|..]
        decreases |rest|
      {
        MarkHead(rest);
        visited := visited + [currl.key];
        more := Next(rest);
        rest := rest[1..];
      }
      VisitedOnce(canon, visited, s);
    }
  }

  lemma VisitedOnce<K, C, V>(canon: K -> C, visited: seq<K>, s: seq<Node<K, V>>)
    requires KeysApart(canon, s) && |visited| == |s| && forall a :: 0 <= a < |visited| ==> visited[a] == s[a].key
    ensures |visited| == |MapOf(canon, s)|
    ensures forall a :: 0 <= a < |visited| ==> canon(visited[a]) in MapOf(canon, s)
    ensures forall a, b :: 0 <= a < b < |visited| ==> canon(visited[a]) != canon(visited[b])
  {
    MapOfIs(canon, s);
    assert forall a :: 0 <= a < |visited| ==> canon(visited[a]) == Class(canon, s[a]) && s[a] in s;
  }

  /** A node of a new class at the front of its chain. */
  lemma FrontAdded<K, C, V>(hash: K -> nat, canon: K -> C, chains: seq<seq<Node<K, V>>>, n: Node<K, V>)
    requires chains != [] && Placed(hash, chains) && KeysApart(canon, Flat(chains))
    requires Class(canon, n) !in MapOf(canon, Flat(chains))
    ensures var h := Slot(hash, n.key, |chains|); var chains' := chains[h := [n] + chains[h]];
      Placed(hash, chains') && KeysApart(canon, Flat(chains')) && |Flat(chains')| == |Flat(chains)| + 1 &&
      MapOf(canon, Flat(chains')) == MapOf(canon, Flat(chains))[Class(canon, n) := n.item]
  {
    hide KeysApart, Class, Flat;
    var h := Slot(hash, n.key, |chains|);
    var a, b := Flat(chains[..h]), chains[h] + Flat(chains[h + 1..]);
    FlatAt(chains, h);
    assert Flat(chains) == a + b;
    FlatReplace(chains, h, [n] + chains[h]);
    assert Flat(chains[h := [n] + chains[h]]) == a + [n] + b;
    MapOfIs(canon, a + b);
    ApartWith(canon, a, n, b);
    MapOfWithout(canon, a, n, b);
  }

  /** A node taken out of its chain. */
  lemma OneRemoved<K, C, V>(hash: K -> nat, canon: K -> C, chains: seq<seq<Node<K, V>>>, h: nat, j: nat)
    requires h < |chains| && j < |chains[h]| && Placed(hash, chains) && KeysApart(canon, Flat(chains))
    ensures var n := chains[h][j]; var chains' := chains[h := chains[h][..j] + chains[h][j + 1..]];
      Placed(hash, chains') && KeysApart(canon, Flat(chains')) && |Flat(chains')| == |Flat(chains)| - 1 &&
      Class(canon, n) in MapOf(canon, Flat(chains)) &&
      MapOf(canon, Flat(chains')) == MapOf(canon, Flat(chains)) - {Class(canon, n)}
  {
    hide KeysApart, Class, Flat;
    var n, rest := chains[h][j], chains[h][..j] + chains[h][j + 1..];
    var a, b := Flat(chains[..h]) + chains[h][..j], chains[h][j + 1..] + Flat(chains[h + 1..]);
    FlatAt(chains, h);
    assert Flat(chains) == a + [n] + b;
    FlatReplace(chains, h, rest);
    assert Flat(chains[h := rest]) == a + b;
    ApartWithout(canon, a, n, b);
    MapOfWithout(canon, a, n, b);
    NewClass(canon, a + b, Class(canon, n));
    var m := MapOf(canon, a + b);
    assert m[Class(canon, n) := n.item] - {Class(canon, n)} == m;
  }
}
