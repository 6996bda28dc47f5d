/** One virtual network of the switch as a value: its listed sessions with their ids and
    learned addresses, the id pool, the link states, the forwarding table and the access
    table; and the operations of the switch on it.  `S` is the identity of a session. */
module NetworkSpec {
  import opened Bits
  import opened Linkst

  const MAX_NODE: nat := 1024

  // ---------- frames ----------

  /** A hardware address: six octets. */
  type Mac = m: seq<bv8> | |m| == 6 witness [0, 0, 0, 0, 0, 0]

  datatype Frame = Frame(dst: Mac, src: Mac, payload: seq<bv8>)

  datatype AddrType = Unicast | Multicast | Broadcast

  /** inet_get_mac_addr_type */
  function AddrTypeOf(mac: Mac): AddrType {
    if mac == [0xff, 0xff, 0xff, 0xff, 0xff, 0xff] then Broadcast
    else if mac[..3] == [0x01, 0x00, 0x5e] then Multicast
    else Unicast
  }

  /** An address of one station: not six octets 0xff, and not beginning 01 00 5e. */
  ghost predicate Station(mac: Mac) {
    (exists i :: 0 <= i < 6 && mac[i] != 0xff) && !(mac[0] == 0x01 && mac[1] == 0x00 && mac[2] == 0x5e)
  }

  lemma AddrTypes(mac: Mac)
    ensures AddrTypeOf(mac) == Unicast <==> Station(mac)
    ensures AddrTypeOf(mac) == Broadcast <==> forall i :: 0 <= i < 6 ==> mac[i] == 0xff
  {
    assert mac[..3] == [mac[0], mac[1], mac[2]];
    assert mac == [mac[0], mac[1], mac[2], mac[3], mac[4], mac[5]];
  }

  datatype Message<S> = Ethernet(frame: Frame) | P2pRequest(peer: S) | AuthResponse(success: bool) | SecureStepUp

  /** One message handed to the connection of session `to`. */
  datatype Send<S> = Send(to: S, msg: Message<S>)

  // ---------- networks ----------

  datatype Net<S> = Net(
    list: seq<S>,
    ids: map<S, nat>,
    macs: map<S, seq<Mac>>,
    bits: set<int>,
    active: int,
    links: set<(nat, nat)>,
    ftable: map<Mac, S>,
    atable: set<string>)

  ghost predicate NoDup<T>(s: seq<T>) {
    forall i, j :: 0 <= i < j < |s| ==> s[i] != s[j]
  }

  /** `m` has an entry for exactly the elements of `list`. */
  ghost predicate Covers<S, T>(m: map<S, T>, list: seq<S>) {
    (forall s :: s in list ==> s in m) && (forall s :: s in m ==> s in list)
  }

  /** Ids are in range and tell the listed sessions apart. */
  ghost predicate IdsOk<S>(ids: map<S, nat>) {
    (forall s :: s in ids ==> 1 <= ids[s] <= MAX_NODE) &&
    (forall s, r :: s in ids && r in ids && s != r ==> ids[s] != ids[r])
  }

  /** The set bits of the pool for these ids. */
  ghost function PoolOf<S>(ids: map<S, nat>): set<int> {
    set s | s in ids :: BitOf(ids[s])
  }

  /** The bit that stands for an id. */
  function BitOf(id: nat): int { id - 1 }

  /** The pair names two listed sessions. */
  ghost predicate NamesTwo<S>(ids: map<S, nat>, p: (nat, nat)) {
    exists s, r :: s in ids && r in ids && s != r && p == Pair(ids[s], ids[r])
  }

  ghost predicate LinksOk<S>(ids: map<S, nat>, links: set<(nat, nat)>) {
    forall p :: p in links ==> NamesTwo(ids, p)
  }

  /** The forwarding table is the disjoint union of the address lists. */
  ghost predicate TableOk<S>(macs: map<S, seq<Mac>>, ftable: map<Mac, S>) {
    (forall s :: s in macs ==> NoDup(macs[s])) &&
    (forall s, m :: s in macs && m in macs[s] ==> m in ftable && ftable[m] == s) &&
    (forall m :: m in ftable ==> ftable[m] in macs && m in macs[ftable[m]])
  }

  /** The listed sessions have distinct ids, the set bits of the pool; the counter, the links and
      the forwarding table agree with them. */
  ghost predicate NetInv<S>(net: Net<S>) {
    NoDup(net.list) && net.active == |net.list| && Covers(net.ids, net.list) && Covers(net.macs, net.list) &&
    IdsOk(net.ids) && net.bits == PoolOf(net.ids) && LinksOk(net.ids, net.links) && TableOk(net.macs, net.ftable)
  }

  // ---------- joining and leaving ----------

  /** vnetwork_add_session: the session goes to the front of the list with the lowest free id.
      The allocator's failure is ignored: from a full pool the session gets id 0 + 1. */
  ghost function AddSession<S>(net: Net<S>, s: S): Net<S> {
    var bit := LowestFrom(net.bits, 0, MAX_NODE);
    net.(list := [s] + net.list, ids := net.ids[s := if bit < MAX_NODE then bit + 1 else 1], macs := net.macs[s := []],
         bits := if bit < MAX_NODE then net.bits + {bit} else net.bits, active := net.active + 1)
  }

  ghost function Dropped<T>(s: seq<T>, x: T): seq<T> {
    if s == [] then [] else if s[0] == x then s[1..] else [s[0]] + Dropped(s[1..], x)
  }

  /** The first half of on_disconnect: links and learned addresses go. */
  ghost function Clear<S>(net: Net<S>, s: S): Net<S>
    requires s in net.ids && s in net.macs
  {
    var id := net.ids[s];
    net.(macs := net.macs[s := []], links := (set p | p in net.links && p.0 != id && p.1 != id),
         ftable := net.ftable - (set m | m in net.macs[s]))
  }

  /** vnetwork_del_session: list entry and id go. */
  ghost function Unlist<S>(net: Net<S>, s: S): Net<S>
    requires s in net.ids
  {
    net.(list := Dropped(net.list, s), ids := net.ids - {s}, macs := net.macs - {s},
         bits := net.bits - {BitOf(net.ids[s])}, active := net.active - 1)
  }

  /** on_disconnect: links, learned addresses, list entry and id of the session all go. */
  ghost function DropSession<S>(net: Net<S>, s: S): Net<S>
    requires s in net.ids && s in net.macs
  {
    Unlist(Clear(net, s), s)
  }

  /** on_disconnect of a session that was never listed: its links are null, so the unlinking code
      takes it for the only one and empties the list; its id 0 names no bit and no link. */
  ghost function DropUnlisted<S>(net: Net<S>): Net<S> {
    net.(list := [], ids := map[], macs := map[], active := net.active - 1)
  }

  /** What is left of a list when `x` is unlinked: all but `x`, or nothing when `x` is not on it. */
  ghost function Left<T>(list: seq<T>, x: T): seq<T> {
    if x in list then Dropped(list, x) else []
  }

  ghost function MapLeft<S, T>(m: map<S, T>, x: S): map<S, T> {
    if x in m then m - {x} else map[]
  }

  ghost function Emptied<S, T>(m: map<S, seq<T>>, x: S): map<S, seq<T>> {
    if x in m then m[x := []] else m
  }

  /** The first half of on_disconnect for any session with this id and these addresses. */
  ghost function ClearOf<S>(net: Net<S>, s: S, id: nat, macs: seq<Mac>): Net<S> {
    net.(macs := Emptied(net.macs, s), links := (set p | p in net.links && p.0 != id && p.1 != id),
         ftable := net.ftable - (set m | m in macs))
  }

  lemma ClearCases<S>(net: Net<S>, s: S, id: nat, macs: seq<Mac>)
    requires (s in net.list <==> s in net.ids) && (s in net.list <==> s in net.macs)
    requires s in net.list ==> net.ids[s] == id && net.macs[s] == macs
    requires s !in net.list ==> id == 0 && macs == []
    requires Ordered(net.links)
    ensures s in net.list ==> ClearOf(net, s, id, macs) == Clear(net, s)
    ensures s !in net.list ==> ClearOf(net, s, id, macs) == net
  {
  }

  /** vnetwork_del_session of any session, listed or not. */
  ghost function Remove<S>(net: Net<S>, s: S, id: nat): Net<S> {
    net.(list := Left(net.list, s), ids := MapLeft(net.ids, s), macs := MapLeft(net.macs, s),
         bits := net.bits - {BitOf(id)}, active := net.active - 1)
  }

  lemma RemoveCases<S>(net: Net<S>, s: S, id: nat)
    requires (s in net.list <==> s in net.ids) && (s in net.list <==> s in net.macs)
    requires s in net.list ==> net.ids[s] == id
    requires s !in net.list ==> id == 0 && BitOf(0) !in net.bits
    ensures s in net.list ==> Remove(net, s, id) == Unlist(net, s)
    ensures s !in net.list ==> Remove(net, s, id) == DropUnlisted(net)
  {
  }

  // ---------- forwarding ----------

  /** A source address not in the table is learned for the sender. */
  ghost function Learn<S>(net: Net<S>, s: S, mac: Mac): Net<S>
    requires s in net.macs
  {
    if mac in net.ftable then net
    else net.(ftable := net.ftable[mac := s], macs := net.macs[s := [mac] + net.macs[s]])
  }

  ghost function Flood<S>(list: seq<S>, frame: Frame): seq<Send<S>> {
    if list == [] then [] else [Send(list[0], Ethernet(frame))] + Flood(list[1..], frame)
  }

  /** Every owner in the table has an id. */
  ghost predicate OwnersListed<S>(net: Net<S>) {
    forall m :: m in net.ftable ==> net.ftable[m] in net.ids
  }

  /** The listed session `s` is known to its network. */
  ghost predicate Known<S>(net: Net<S>, s: S) {
    s in net.ids && s in net.macs && OwnersListed(net)
  }

  /** What becomes of a frame whose source address is in the table. */
  ghost function Deliver<S>(net: Net<S>, frame: Frame): (Net<S>, seq<Send<S>>)
    requires frame.src in net.ftable && OwnersListed(net)
  {
    var src := net.ftable[frame.src];
    if frame.dst !in net.ftable then (net, Flood(net.list, frame))
    else
      var dst := net.ftable[frame.dst];
      if dst == src then (net, [])
      else if AddrTypeOf(frame.dst) == Unicast then
        var link := Pair(net.ids[src], net.ids[dst]);
        (net.(links := net.links + {link}),
         [Send(dst, Ethernet(frame))] +
         if link in net.links then [] else [Send(src, P2pRequest(dst)), Send(dst, P2pRequest(src))])
      else (net, Flood(net.list, frame))
  }

  lemma DeliverCases<S>(net: Net<S>, frame: Frame)
    requires frame.src in net.ftable && OwnersListed(net)
    ensures net.ftable[frame.src] in net.ids && (frame.dst in net.ftable ==> net.ftable[frame.dst] in net.ids)
    ensures frame.dst in net.ftable && net.ftable[frame.dst] == net.ftable[frame.src] ==>
      Deliver(net, frame) == (net, [])
    ensures frame.dst in net.ftable && net.ftable[frame.dst] != net.ftable[frame.src] &&
            AddrTypeOf(frame.dst) == Unicast ==>
      var src, dst := net.ftable[frame.src], net.ftable[frame.dst];
      var link := Pair(net.ids[src], net.ids[dst]);
      Deliver(net, frame) == (net.(links := net.links + {link}), [Send(dst, Ethernet(frame))] +
        if link in net.links then [] else [Send(src, P2pRequest(dst)), Send(dst, P2pRequest(src))])
    ensures frame.dst !in net.ftable ||
            (net.ftable[frame.dst] != net.ftable[frame.src] && AddrTypeOf(frame.dst) != Unicast) ==>
      Deliver(net, frame) == (net, Flood(net.list, frame))
  {
  }

  /** forward_ethernet for a frame of the listed session `s`: the new network and what is sent. */
  ghost function Forward<S>(net: Net<S>, s: S, frame: Frame): (Net<S>, seq<Send<S>>)
    requires Known(net, s)
  {
    Deliver(Learn(net, s, frame.src), frame)
  }

  lemma NoDupCons<T>(x: T, s: seq<T>)
    requires NoDup(s) && x !in s
    ensures NoDup([x] + s)
  {
    forall i, j | 0 <= i < j < |[x] + s|
      ensures ([x] + s)[i] != ([x] + s)[j]
    {
      assert ([x] + s)[j] == s[j - 1];
      if i > 0 { assert ([x] + s)[i] == s[i - 1]; }
    }
  }

  lemma LearnTable<S>(macs: map<S, seq<Mac>>, ftable: map<Mac, S>, s: S, mac: Mac)
    requires TableOk(macs, ftable) && s in macs
    ensures mac !in ftable ==> TableOk(macs[s := [mac] + macs[s]], ftable[mac := s])
  {
    if mac !in ftable {
      assert mac !in macs[s];
      NoDupCons(mac, macs[s]);
    }
  }

  // ---------- what every operation keeps ----------

  lemma GrowPool<S>(ids: map<S, nat>, s: S, id: nat)
    requires s !in ids
    ensures PoolOf(ids[s := id]) == PoolOf(ids) + {BitOf(id)}
  {
    var ids' := ids[s := id];
    forall n
      ensures n in PoolOf(ids') <==> n in PoolOf(ids) || n == BitOf(id)
    {
      if n in PoolOf(ids) {
        var r :| r in ids && BitOf(ids[r]) == n;
        assert r in ids' && BitOf(ids'[r]) == n;
      }
      if n == BitOf(id) { assert BitOf(ids'[s]) == n; }
    }
  }

  lemma AddIds<S>(ids: map<S, nat>, s: S)
    requires IdsOk(ids) && s !in ids && LowestFrom(PoolOf(ids), 0, MAX_NODE) < MAX_NODE
    ensures var bit := LowestFrom(PoolOf(ids), 0, MAX_NODE);
      IdsOk(ids[s := bit + 1]) && PoolOf(ids[s := bit + 1]) == PoolOf(ids) + {bit} &&
      forall r :: r in ids ==> ids[r] != bit + 1
  {
    hide LowestFrom;
    LowestFromIsLowest(PoolOf(ids), 0, MAX_NODE);
    var bit := LowestFrom(PoolOf(ids), 0, MAX_NODE);
    forall r | r in ids
      ensures ids[r] != bit + 1
    {
      assert BitOf(ids[r]) in PoolOf(ids);
    }
    GrowPool(ids, s, bit + 1);
  }

  lemma GrowLinks<S>(ids: map<S, nat>, links: set<(nat, nat)>, s: S, id: nat)
    requires LinksOk(ids, links) && s !in ids && forall r :: r in ids ==> ids[r] != id
    ensures LinksOk(ids[s := id], links) && forall p :: p in links ==> p.0 != id && p.1 != id
  {
    forall p | p in links
      ensures NamesTwo(ids[s := id], p) && p.0 != id && p.1 != id
    {
      assert NamesTwo(ids, p);
      var q, r :| q in ids && r in ids && q != r && p == Pair(ids[q], ids[r]);
      assert ids[s := id][q] == ids[q] && ids[s := id][r] == ids[r];
    }
  }

  /** A session that joins keeps the invariant; its id is new, so it starts with no links. */
  lemma AddKeeps<S>(net: Net<S>, s: S)
    requires NetInv(net) && s !in net.list && LowestFrom(net.bits, 0, MAX_NODE) < MAX_NODE
    ensures NetInv(AddSession(net, s))
    ensures var id := AddSession(net, s).ids[s]; forall p :: p in net.links ==> p.0 != id && p.1 != id
    ensures var id := AddSession(net, s).ids[s];
      id > 0 && id - 1 !in net.bits && forall n :: 0 <= n < id - 1 ==> n in net.bits
  {
    hide IdsOk, PoolOf, LinksOk, TableOk, NoDup, LowestFrom;
    LowestFromIsLowest(net.bits, 0, MAX_NODE);
    AddIds(net.ids, s);
    GrowLinks(net.ids, net.links, s, LowestFrom(net.bits, 0, MAX_NODE) + 1);
    NoDupCons(s, net.list);
    AddTable(net.macs, net.ftable, s);
  }

  lemma AddTable<S>(macs: map<S, seq<Mac>>, ftable: map<Mac, S>, s: S)
    requires TableOk(macs, ftable) && s !in macs
    ensures TableOk(macs[s := []], ftable)
  {
  }

  /** There is a free id as long as fewer than MAX_NODE sessions are listed. */
  lemma RoomForOne<S>(net: Net<S>)
    requires NetInv(net) && |net.list| < MAX_NODE
    ensures LowestFrom(net.bits, 0, MAX_NODE) < MAX_NODE
  {
    hide IdsOk, PoolOf, LinksOk, TableOk, Range, LowestFrom, NoDup;
    LowestFromIsLowest(net.bits, 0, MAX_NODE);
    if LowestFrom(net.bits, 0, MAX_NODE) == MAX_NODE {
      RangeSize(MAX_NODE);
      SubsetSize(Range(MAX_NODE), net.bits);
      PoolSize(net.ids);
      ListSize(net.list, net.ids.Keys);
      assert false;
    }
  }

  lemma FullPool<S>(net: Net<S>)
    requires NetInv(net) && |net.list| >= MAX_NODE
    ensures net.bits == Range(MAX_NODE)
  {
    ListSizeExact(net.list, net.ids.Keys);
    PoolSizeExact(net.ids);
    RangeSize(MAX_NODE);
    PoolInRange(net.ids);
    FullSet(net.bits, Range(MAX_NODE));
    hide IdsOk, PoolOf, LinksOk, TableOk, Range;
  }

  lemma HasIdOne<S>(ids: map<S, nat>)
    requires PoolOf(ids) == Range(MAX_NODE)
    ensures exists r :: r in ids && ids[r] == 1
  {
    RangeSize(MAX_NODE);
    hide Range;
    assert 0 in PoolOf(ids);
    var r :| r in ids && BitOf(ids[r]) == 0;
    assert ids[r] == 1;
  }

  lemma NoneFree()
    ensures LowestFrom(Range(MAX_NODE), 0, MAX_NODE) == MAX_NODE
  {
    RangeSize(MAX_NODE);
    LowestFromIsLowest(Range(MAX_NODE), 0, MAX_NODE);
    hide Range, LowestFrom;
  }

  /** Without a free id the newcomer shares id 1 with a listed session. */
  lemma NoRoom<S>(net: Net<S>, s: S)
    requires NetInv(net) && s !in net.list && |net.list| >= MAX_NODE
    ensures !NetInv(AddSession(net, s))
  {
    hide PoolOf, LinksOk, TableOk, Range, LowestFrom, NoDup;
    FullPool(net);
    HasIdOne(net.ids);
    NoneFree();
    var r :| r in net.ids && net.ids[r] == 1;
    var ids := AddSession(net, s).ids;
    assert ids[s] == 1 && ids[r] == 1 && r != s;
  }

  /** A newcomer keeps the invariant exactly when there is room. */
  lemma AddKeepsExactly<S>(net: Net<S>, s: S)
    requires NetInv(net) && s !in net.list
    ensures NetInv(AddSession(net, s)) <==> |net.list| < MAX_NODE
  {
    if |net.list| < MAX_NODE {
      RoomForOne(net);
      AddKeeps(net, s);
    } else {
      NoRoom(net, s);
    }
  }

  /** Disconnecting an unlisted session empties the list, which always breaks the network. */
  lemma DropUnlistedBreaks<S>(net: Net<S>)
    requires NetInv(net)
    ensures !NetInv(DropUnlisted(net)) && DropUnlisted(net).list == []
  {
    if |net.list| == 1 {
      assert BitOf(net.ids[net.list[0]]) in net.bits;
    }
  }

  lemma PoolInRange<S>(ids: map<S, nat>)
    requires IdsOk(ids)
    ensures PoolOf(ids) <= Range(MAX_NODE)
  {
    RangeSize(MAX_NODE);
  }

  lemma FullSet<T>(a: set<T>, b: set<T>)
    requires a <= b && |a| >= |b|
    ensures a == b
  {
    if x :| x in b && x !in a {
      SubsetSize(a, b - {x});
    }
  }

  ghost function Range(k: nat): set<int> {
    if k == 0 then {} else Range(k - 1) + {k - 1}
  }

  lemma {:induction false} RangeSize(k: nat)
    ensures |Range(k)| == k
    ensures forall n :: n in Range(k) <==> 0 <= n < k
  {
    if k > 0 { RangeSize(k - 1); }
  }

  lemma {:induction false} SubsetSize<T>(a: set<T>, b: set<T>)
    requires a <= b
    ensures |a| <= |b|
    decreases a
  {
    if a != {} {
      var x :| x in a;
      SubsetSize(a - {x}, b - {x});
    }
  }

  lemma {:induction false} PoolSize<S>(ids: map<S, nat>)
    ensures |PoolOf(ids)| <= |ids.Keys|
    decreases ids.Keys
  {
    if ids.Keys != {} {
      var s :| s in ids.Keys;
      var rest := ids - {s};
      PoolSize(rest);
      assert rest.Keys == ids.Keys - {s};
      assert PoolOf(ids) <= PoolOf(rest) + {BitOf(ids[s])} by {
        forall n | n in PoolOf(ids)
          ensures n in PoolOf(rest) + {BitOf(ids[s])}
        {
          var r :| r in ids && n == BitOf(ids[r]);
          assert r == s || r in rest;
        }
      }
      SubsetSize(PoolOf(ids), PoolOf(rest) + {BitOf(ids[s])});
    }
  }

  lemma {:induction false} ListSize<S>(list: seq<S>, keys: set<S>)
    requires forall s :: s in keys ==> s in list
    ensures |keys| <= |list|
    decreases list
  {
    if list != [] {
      assert list == [list[0]] + list[1..];
      ListSize(list[1..], keys - {list[0]});
      SubsetSize(keys, (keys - {list[0]}) + {list[0]});
    } else {
      assert keys == {};
    }
  }

  lemma {:induction false} PoolSizeExact<S>(ids: map<S, nat>)
    requires IdsOk(ids)
    ensures |PoolOf(ids)| == |ids.Keys|
    decreases ids.Keys
  {
    if ids.Keys == {} {
      assert PoolOf(ids) == {};
    } else {
      var s :| s in ids.Keys;
      DropIds(ids, s);
      PoolSizeExact(ids - {s});
      assert (ids - {s}).Keys == ids.Keys - {s};
      assert BitOf(ids[s]) in PoolOf(ids);
    }
  }

  lemma {:induction false} ListSizeExact<S>(list: seq<S>, keys: set<S>)
    requires NoDup(list) && (forall s :: s in keys <==> s in list)
    ensures |keys| == |list|
    decreases list
  {
    if list == [] {
      assert keys == {};
    } else {
      assert list == [list[0]] + list[1..] && list[0] !in list[1..];
      ListSizeExact(list[1..], keys - {list[0]});
    }
  }

  lemma {:induction false} DroppedMembers<T>(s: seq<T>, x: T)
    requires NoDup(s)
    ensures forall y :: y in Dropped(s, x) ==> y in s && y != x
    ensures forall y :: y in s && y != x ==> y in Dropped(s, x)
    ensures NoDup(Dropped(s, x)) && |Dropped(s, x)| == if x in s then |s| - 1 else |s|
    decreases s
  {
    if s != [] {
      assert NoDup(s[1..]) && s[0] !in s[1..];
      assert s == [s[0]] + s[1..];
      DroppedMembers(s[1..], x);
      if s[0] != x { NoDupCons(s[0], Dropped(s[1..], x)); }
    }
  }

  lemma DropIds<S>(ids: map<S, nat>, s: S)
    requires IdsOk(ids) && s in ids
    ensures IdsOk(ids - {s}) && PoolOf(ids - {s}) == PoolOf(ids) - {BitOf(ids[s])}
  {
    var ids' := ids - {s};
    forall n
      ensures n in PoolOf(ids') <==> n in PoolOf(ids) && n != BitOf(ids[s])
    {
      if n in PoolOf(ids') {
        var r :| r in ids' && BitOf(ids'[r]) == n;
        assert r in ids && BitOf(ids[r]) == n;
      }
      if n in PoolOf(ids) && n != BitOf(ids[s]) {
        var r :| r in ids && BitOf(ids[r]) == n;
        assert r in ids' && BitOf(ids'[r]) == n;
      }
    }
  }

  lemma DropLinks<S>(ids: map<S, nat>, links: set<(nat, nat)>, s: S)
    requires IdsOk(ids) && LinksOk(ids, links) && s in ids
    ensures LinksOk(ids - {s}, set p | p in links && p.0 != ids[s] && p.1 != ids[s])
  {
    var ids' := ids - {s};
    forall p | p in links && p.0 != ids[s] && p.1 != ids[s]
      ensures NamesTwo(ids', p)
    {
      assert NamesTwo(ids, p);
      var q, r :| q in ids && r in ids && q != r && p == Pair(ids[q], ids[r]);
      assert ids'[q] == ids[q] && ids'[r] == ids[r];
    }
  }

  lemma DropTable<S>(macs: map<S, seq<Mac>>, ftable: map<Mac, S>, s: S)
    requires TableOk(macs, ftable) && s in macs
    ensures TableOk(macs - {s}, ftable - (set m | m in macs[s]))
    ensures forall m :: m in ftable - (set n | n in macs[s]) ==> ftable[m] != s
  {
    var f := ftable - (set m | m in macs[s]);
    forall m | m in f
      ensures f[m] != s && f[m] in macs - {s} && m in (macs - {s})[f[m]]
    {
      assert m in ftable && f[m] == ftable[m] && m in macs[ftable[m]];
    }
    forall r, m | r in macs - {s} && m in (macs - {s})[r]
      ensures m in f && f[m] == r
    {
      assert m in macs[r] && m in ftable && ftable[m] == r;
    }
  }

  lemma DropAll<S>(net: Net<S>, s: S)
    requires s in net.ids && s in net.macs
    ensures var id := net.ids[s];
      DropSession(net, s) == net.(list := Dropped(net.list, s), ids := net.ids - {s}, macs := net.macs - {s},
        bits := net.bits - {BitOf(id)}, active := net.active - 1,
        links := (set p | p in net.links && p.0 != id && p.1 != id),
        ftable := net.ftable - (set m | m in net.macs[s]))
  {
    assert net.macs[s := []] - {s} == net.macs - {s};
  }

  /** After a disconnect nothing refers to the departed session or its id. */
  lemma DropKeeps<S>(net: Net<S>, s: S)
    requires NetInv(net) && s in net.list
    ensures s in net.ids && s in net.macs && NetInv(DropSession(net, s))
    ensures var d := DropSession(net, s); s !in d.list && (forall m :: m in d.ftable ==> d.ftable[m] != s)
    ensures var d := DropSession(net, s); forall p :: p in d.links ==> p.0 != net.ids[s] && p.1 != net.ids[s]
  {
    hide IdsOk, PoolOf, LinksOk, TableOk, NoDup, DropSession, Dropped;
    DropIds(net.ids, s);
    DropLinks(net.ids, net.links, s);
    DropTable(net.macs, net.ftable, s);
    DroppedMembers(net.list, s);
    DropAll(net, s);
  }

  lemma LearnKeeps<S>(net: Net<S>, s: S, mac: Mac)
    requires NetInv(net) && s in net.list
    ensures NetInv(Learn(net, s, mac)) && mac in Learn(net, s, mac).ftable
  {
    LearnTable(net.macs, net.ftable, s, mac);
    hide IdsOk, PoolOf, LinksOk, TableOk, NoDup;
  }

  lemma AddLink<S>(ids: map<S, nat>, links: set<(nat, nat)>, s: S, r: S)
    requires LinksOk(ids, links) && s in ids && r in ids && s != r
    ensures LinksOk(ids, links + {Pair(ids[s], ids[r])})
  {
    assert NamesTwo(ids, Pair(ids[s], ids[r]));
  }

  lemma OwnersAreListed<S>(net: Net<S>)
    requires NetInv(net)
    ensures OwnersListed(net) && net.ids.Keys == net.macs.Keys
  {
  }

  lemma DeliverKeeps<S>(net: Net<S>, frame: Frame)
    requires NetInv(net) && frame.src in net.ftable && OwnersListed(net)
    ensures NetInv(Deliver(net, frame).0)
    ensures Deliver(net, frame).0.list == net.list && Deliver(net, frame).0.atable == net.atable
  {
    if frame.dst in net.ftable && net.ftable[frame.src] != net.ftable[frame.dst] {
      AddLink(net.ids, net.links, net.ftable[frame.src], net.ftable[frame.dst]);
    }
    hide IdsOk, PoolOf, LinksOk, TableOk, NoDup, Covers, Flood;
  }

  lemma ForwardKeeps<S>(net: Net<S>, s: S, frame: Frame)
    requires NetInv(net) && s in net.list
    ensures Known(net, s) && NetInv(Forward(net, s, frame).0)
    ensures Forward(net, s, frame).0.list == net.list && Forward(net, s, frame).0.atable == net.atable
  {
    LearnKeeps(net, s, frame.src);
    OwnersAreListed(net);
    OwnersAreListed(Learn(net, s, frame.src));
    DeliverKeeps(Learn(net, s, frame.src), frame);
    hide NetInv, Deliver;
  }

  // ---------- who receives what ----------

  /** How often `r` is sent the frame itself. */
  ghost function Copies<S>(out: seq<Send<S>>, r: S, frame: Frame): nat {
    if out == [] then 0
    else (if out[0] == Send(r, Ethernet(frame)) then 1 else 0) + Copies(out[1..], r, frame)
  }

  lemma FloodCons<S>(list: seq<S>, frame: Frame)
    ensures Flood(list, frame) ==
      if list == [] then [] else [Send(list[0], Ethernet(frame))] + Flood(list[1..], frame)
  {
  }

  lemma CopiesCons<S>(out: seq<Send<S>>, r: S, frame: Frame)
    ensures Copies(out, r, frame) ==
      if out == [] then 0 else (if out[0] == Send(r, Ethernet(frame)) then 1 else 0) + Copies(out[1..], r, frame)
  {
  }

  lemma NoDupTail<T>(s: seq<T>)
    requires NoDup(s) && s != []
    ensures NoDup(s[1..]) && s[0] !in s[1..] && s == [s[0]] + s[1..]
  {
  }

  lemma {:induction false} FloodCopies<S>(list: seq<S>, r: S, frame: Frame)
    requires NoDup(list)
    ensures Copies(Flood(list, frame), r, frame) == if r in list then 1 else 0
    ensures forall x :: x in Flood(list, frame) ==> x.to in list && x.msg == Ethernet(frame)
    decreases list
  {
    hide Flood, Copies, NoDup;
    FloodCons(list, frame);
    CopiesCons(Flood(list, frame), r, frame);
    if list != [] {
      NoDupTail(list);
      assert Flood(list, frame)[1..] == Flood(list[1..], frame);
      FloodCopies(list[1..], r, frame);
    }
  }

  /** The owner of an address once the source address of the frame has been learned. */
  ghost function OwnerOf<S>(net: Net<S>, s: S, frame: Frame, mac: Mac): set<S> {
    if mac in net.ftable then {net.ftable[mac]} else if mac == frame.src then {s} else {}
  }

  /** Some owner of the one address is joined with some owner of the other. */
  ghost predicate Joined<S>(net: Net<S>, src: set<S>, dst: set<S>) {
    exists q, r :: q in src && r in dst && q in net.ids && r in net.ids && Pair(net.ids[q], net.ids[r]) in net.links
  }

  /** Each of the two owners is told once of the other, and nothing but the frame is sent besides. */
  ghost predicate Introduced<S>(src: set<S>, dst: set<S>, out: seq<Send<S>>) {
    |out| == 3 && forall q, r :: q in src && r in dst ==> Send(q, P2pRequest(r)) in out && Send(r, P2pRequest(q)) in out
  }

  /** A known unicast goes to the owner alone, a frame to its own sender's owner to nobody,
      anything else once to every listed session; introductions go to the two owners of a known
      unicast, exactly when they are not joined yet.  A known unicast is one to a station in the table. */
  ghost predicate Delivered<S>(list: seq<S>, src: set<S>, dst: set<S>, joined: bool, frame: Frame, out: seq<Send<S>>) {
    if dst == src then out == []
    else if dst != {} && Station(frame.dst) then
      (forall r :: r in list ==> Copies(out, r, frame) == if {r} == dst then 1 else 0) &&
      (if joined then |out| == 1 else Introduced(src, dst, out))
    else
      (forall r :: r in list ==> Copies(out, r, frame) == 1) && (forall x :: x in out ==> x.msg == Ethernet(frame))
  }

  lemma UnicastCopies<S>(src: S, dst: S, frame: Frame, r: S)
    ensures Copies([Send(dst, Ethernet(frame))] + [], r, frame) == if r == dst then 1 else 0
    ensures Copies([Send(dst, Ethernet(frame))] + [Send(src, P2pRequest(dst)), Send(dst, P2pRequest(src))], r, frame)
         == if r == dst then 1 else 0
  {
    var a, b, c := Send(dst, Ethernet(frame)), Send(src, P2pRequest(dst)), Send(dst, P2pRequest(src));
    assert [c][1..] == [] && [b, c][1..] == [c] && ([a] + [b, c])[1..] == [b, c] && ([a] + [])[1..] == [];
    assert Copies([c], r, frame) == 0;
    assert Copies([b, c], r, frame) == 0;
  }

  lemma MemberListed<S>(net: Net<S>, s: S)
    requires NetInv(net) && (s in net.ids || s in net.macs)
    ensures s in net.list
  {
  }

  lemma FloodDelivered<S>(list: seq<S>, src: set<S>, dst: set<S>, joined: bool, frame: Frame)
    requires NoDup(list) && dst != src && (dst == {} || !Station(frame.dst))
    ensures Delivered(list, src, dst, joined, frame, Flood(list, frame))
    ensures forall x :: x in Flood(list, frame) ==> x.to in list && x.msg.Ethernet?
  {
    forall r | r in list { FloodCopies(list, r, frame); }
    if list != [] { FloodCopies(list, list[0], frame); }
  }

  lemma UnicastDelivered<S>(list: seq<S>, src: S, dst: S, frame: Frame, introduce: bool)
    requires src != dst && Station(frame.dst)
    ensures Delivered(list, {src}, {dst}, !introduce, frame, [Send(dst, Ethernet(frame))] +
      if introduce then [Send(src, P2pRequest(dst)), Send(dst, P2pRequest(src))] else [])
  {
    forall r | r in list { UnicastCopies(src, dst, frame, r); }
    ThreeSent(src, dst, frame);
    hide Copies, Introduced;
  }

  lemma ThreeSent<S>(src: S, dst: S, frame: Frame)
    ensures Introduced({src}, {dst},
                       [Send(dst, Ethernet(frame))] + [Send(src, P2pRequest(dst)), Send(dst, P2pRequest(src))])
  {
    var out := [Send(dst, Ethernet(frame))] + [Send(src, P2pRequest(dst)), Send(dst, P2pRequest(src))];
    assert out[1] == Send(src, P2pRequest(dst)) && out[2] == Send(dst, P2pRequest(src));
  }

  lemma JoinedOwners<S>(net: Net<S>, q: S, r: S)
    requires q in net.ids && r in net.ids
    ensures Joined(net, {q}, {r}) <==> Pair(net.ids[q], net.ids[r]) in net.links
  {
  }

  lemma NoneDelivered<S>(list: seq<S>, src: set<S>, joined: bool, frame: Frame)
    ensures Delivered(list, src, src, joined, frame, [])
  {
  }

  lemma DeliverDelivered<S>(net: Net<S>, frame: Frame)
    requires NetInv(net) && frame.src in net.ftable && OwnersListed(net)
    ensures var dst := if frame.dst in net.ftable then {net.ftable[frame.dst]} else {};
      Delivered(net.list, {net.ftable[frame.src]}, dst, Joined(net, {net.ftable[frame.src]}, dst), frame,
                Deliver(net, frame).1)
    ensures forall x :: x in Deliver(net, frame).1 ==> x.to in net.list && (x.msg.Ethernet? || x.msg.P2pRequest?)
  {
    hide NetInv, Flood, Copies, Delivered, Joined, Station, AddrTypeOf, NoDup, Pair;
    var src := net.ftable[frame.src];
    AddrTypes(frame.dst);
    MemberListed(net, src);
    NoDupList(net);
    if frame.dst !in net.ftable {
      FloodDelivered(net.list, {src}, {}, Joined(net, {src}, {}), frame);
    } else {
      var dst := net.ftable[frame.dst];
      MemberListed(net, dst);
      if dst != src {
        if AddrTypeOf(frame.dst) == Unicast {
          JoinedOwners(net, src, dst);
          UnicastDelivered(net.list, src, dst, frame, Pair(net.ids[src], net.ids[dst]) !in net.links);
        } else {
          FloodDelivered(net.list, {src}, {dst}, Joined(net, {src}, {dst}), frame);
        }
      } else {
        NoneDelivered(net.list, {src}, Joined(net, {src}, {dst}), frame);
      }
    }
  }

  lemma NoDupList<S>(net: Net<S>)
    requires NetInv(net)
    ensures NoDup(net.list)
  {
  }

  /** Deliveries of forward_ethernet, in terms of the table before the frame. */
  lemma Deliveries<S>(net: Net<S>, s: S, frame: Frame)
    requires NetInv(net) && s in net.list
    ensures Known(net, s)
    ensures var src, dst := OwnerOf(net, s, frame, frame.src), OwnerOf(net, s, frame, frame.dst);
      Delivered(net.list, src, dst, Joined(net, src, dst), frame, Forward(net, s, frame).1)
    ensures forall x :: x in Forward(net, s, frame).1 ==> x.to in net.list && (x.msg.Ethernet? || x.msg.P2pRequest?)
  {
    hide NetInv, Delivered, Deliver, OwnerOf, Joined, OwnersListed;
    LearnKeeps(net, s, frame.src);
    OwnersAreListed(net);
    MemberHeld(net, s);
    var l := Learn(net, s, frame.src);
    OwnersAreListed(l);
    DeliverDelivered(l, frame);
    LearnedOwner(net, s, frame, frame.src);
    LearnedOwner(net, s, frame, frame.dst);
    JoinedSame(l, net, OwnerOf(net, s, frame, frame.src), OwnerOf(net, s, frame, frame.dst));
  }

  lemma MemberHeld<S>(net: Net<S>, s: S)
    requires NetInv(net) && s in net.list
    ensures s in net.ids && s in net.macs
  {
  }

  lemma JoinedSame<S>(a: Net<S>, b: Net<S>, src: set<S>, dst: set<S>)
    requires a.ids == b.ids && a.links == b.links
    ensures Joined(a, src, dst) == Joined(b, src, dst)
  {
  }

  lemma LearnedOwner<S>(net: Net<S>, s: S, frame: Frame, mac: Mac)
    requires s in net.macs
    ensures var l := Learn(net, s, frame.src);
      OwnerOf(net, s, frame, mac) == if mac in l.ftable then {l.ftable[mac]} else {}
  {
  }

  // ---------- introductions and links ----------

  /** Both sessions have an id, and these are joined. */
  ghost predicate Linked<S>(net: Net<S>, q: S, r: S) {
    q in net.ids && r in net.ids && Pair(net.ids[q], net.ids[r]) in net.links
  }

  lemma FloodOnlyFrames<S>(list: seq<S>, frame: Frame, x: Send<S>)
    ensures x in Flood(list, frame) ==> x.msg == Ethernet(frame)
    decreases list
  {
    if list != [] { FloodOnlyFrames(list[1..], frame, x); }
  }

  lemma DeliverLinks<S>(net: Net<S>, frame: Frame, q: S, r: S)
    requires frame.src in net.ftable && OwnersListed(net) && Send(q, P2pRequest(r)) in Deliver(net, frame).1
    ensures q in net.ids && r in net.ids && !Linked(net, q, r) && Linked(Deliver(net, frame).0, q, r)
  {
    FloodOnlyFrames(net.list, frame, Send(q, P2pRequest(r)));
    hide Flood;
  }

  /** An introduction goes to two listed sessions that are not joined before the frame and are after it. */
  lemma IntroductionLinks<S>(net: Net<S>, s: S, frame: Frame, q: S, r: S)
    requires NetInv(net) && s in net.list && Known(net, s) && Send(q, P2pRequest(r)) in Forward(net, s, frame).1
    ensures q in net.list && r in net.list && !Linked(net, q, r) && Linked(Forward(net, s, frame).0, q, r)
  {
    hide NetInv, Deliver, OwnersListed;
    var l := Learn(net, s, frame.src);
    LearnKeeps(net, s, frame.src);
    OwnersAreListed(l);
    DeliverLinks(l, frame, q, r);
    if q in net.ids { MemberListed(net, q); }
    if r in net.ids { MemberListed(net, r); }
  }

  lemma ForwardLinks<S>(net: Net<S>, s: S, frame: Frame, q: S, r: S)
    requires Known(net, s)
    ensures Linked(net, q, r) ==> Linked(Forward(net, s, frame).0, q, r)
  {
    hide Flood;
  }

  /** Another session that leaves takes no link of these two with it. */
  lemma DropLinked<S>(net: Net<S>, s: S, q: S, r: S)
    requires NetInv(net) && s in net.list && s in net.ids && s in net.macs
    requires Linked(net, q, r) && q != s && r != s && q in net.list && r in net.list
    ensures Linked(DropSession(net, s), q, r) && q in DropSession(net, s).list && r in DropSession(net, s).list
  {
    hide PoolOf, LinksOk, TableOk, NoDup, DropSession, Dropped;
    DropAll(net, s);
    DroppedMembers(net.list, s);
  }

  /** After a frame the table has its source address, for the sender when it was unknown, and is as
      before otherwise. */
  lemma ForwardTable<S>(net: Net<S>, s: S, frame: Frame, m: Mac)
    requires Known(net, s)
    ensures var was, now := net.ftable, Forward(net, s, frame).0.ftable;
      if m in was then m in now && now[m] == was[m]
      else m in now <==> m == frame.src
    ensures var now := Forward(net, s, frame).0.ftable;
      frame.src in now && (frame.src !in net.ftable ==> now[frame.src] == s)
  {
    hide Flood;
  }

  /** The entries of a departed session are gone, those of the others stay. */
  lemma DropEntries<S>(net: Net<S>, s: S, m: Mac)
    requires NetInv(net) && s in net.list && s in net.ids && s in net.macs
    ensures var now := DropSession(net, s).ftable;
      (m in now <==> m in net.ftable && net.ftable[m] != s) && (m in now ==> now[m] == net.ftable[m])
  {
    DropAll(net, s);
    hide IdsOk, PoolOf, LinksOk, NoDup, DropSession, Dropped;
  }

  /** A frame joins no two sessions but those it introduces. */
  lemma NewLinks<S>(net: Net<S>, s: S, frame: Frame, q: S, r: S)
    requires NetInv(net) && s in net.list && Known(net, s)
    requires Linked(Forward(net, s, frame).0, q, r) && !Linked(net, q, r)
    ensures Send(q, P2pRequest(r)) in Forward(net, s, frame).1
  {
    hide Flood, PoolOf, LinksOk, TableOk, NoDup;
    var l := Learn(net, s, frame.src);
    assert l.ids == net.ids && l.links == net.links;
    assert frame.src in l.ftable && frame.dst in l.ftable;
    var a, b := l.ftable[frame.src], l.ftable[frame.dst];
    SamePair(net.ids[q], net.ids[r], net.ids[a], net.ids[b]);
    var out := [Send(b, Ethernet(frame))] + [Send(a, P2pRequest(b)), Send(b, P2pRequest(a))];
    assert out[1] == Send(a, P2pRequest(b)) && out[2] == Send(b, P2pRequest(a));
  }

  /** A newcomer is joined with nobody. */
  lemma AddLinked<S>(net: Net<S>, s: S, q: S, r: S)
    requires NetInv(net) && s !in net.list && |net.list| < MAX_NODE
    ensures Linked(AddSession(net, s), q, r) <==> Linked(net, q, r)
  {
    hide NetInv, LowestFrom;
    RoomForOne(net);
    AddKeeps(net, s);
    MembersHeld(net);
  }

  lemma MembersHeld<S>(net: Net<S>)
    requires NetInv(net)
    ensures forall s :: s in net.ids <==> s in net.list
  {
  }

  lemma DropLinkedBefore<S>(net: Net<S>, s: S, q: S, r: S)
    requires s in net.ids && s in net.macs && Linked(DropSession(net, s), q, r)
    ensures Linked(net, q, r)
  {
    DropAll(net, s);
    hide DropSession, Dropped;
  }

  lemma LinkedListed<S>(net: Net<S>, q: S, r: S)
    requires NetInv(net) && Linked(net, q, r)
    ensures q in net.list && r in net.list
  {
    MembersHeld(net);
    hide NetInv;
  }
}
