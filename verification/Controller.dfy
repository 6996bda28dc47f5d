/** The controller's database steps: networks with their saved address pools, nodes with their
    addresses, and requests whose every database call may fail. */
module Controller {
  import opened Wrappers
  import opened Powers
  import opened Bits
  import opened IpPool

  /** How a deletion ends: it takes effect; it fails and says so; or the statement is refused and the
      call still returns 0, since its status is not looked at. */
  datatype Outcome = Done | Reported | Unnoticed

  /** A request and how its database calls end; for all calls but the deletions, whether they succeed. */
  datatype Request =
    | AddNetwork(net: string, insert: bool)
    | AddNode(net: string, uuid: string, fetch: bool, serial: bool, insert: bool, write: bool)
    | DelNode(net: string, uuid: string, fetchIp: bool, delete: Outcome, fetch: bool, write: bool)
    | DelNetwork(net: string, delNodes: Outcome, delContext: Outcome)

  /** Saved pools as sets of bits, and the address of each node of each network. */
  datatype Db = Db(pools: map<string, set<nat>>, nodes: map<(string, string), nat>)

  /** 44.128.0.0/16 */
  const FIRST: nat := 0x2c80_0001
  const HOSTS: nat := 65533

  /** The bit of an address. */
  function BitAt(ip: nat): int { ip - FIRST }

  /** The bit the pool gives next; above HOSTS there is none. */
  ghost function Lowest(bits: set<nat>): nat { LowestFrom(bits, 0, HOSTS + 1) }

  /** One request. */
  ghost function Next(db: Db, r: Request): Db {
    match r
    case AddNetwork(net, insert) =>
      if insert && net !in db.pools then db.(pools := db.pools[net := {}]) else db
    case AddNode(net, uuid, fetch, serial, insert, write) =>
      if net !in db.pools || !fetch || !serial then db
      else
        var bit := Lowest(db.pools[net]);
        if bit > HOSTS || !insert || (net, uuid) in db.nodes then db
        else
          var db' := db.(nodes := db.nodes[(net, uuid) := FIRST + bit]);
          if write then db'.(pools := db.pools[net := db.pools[net] + {bit}]) else db'
    case DelNode(net, uuid, fetchIp, delete, fetch, write) =>
      if (net, uuid) !in db.nodes || !fetchIp || delete == Reported then db
      else
        var db' := if delete == Done then db.(nodes := db.nodes - {(net, uuid)}) else db;
        if net !in db.pools || !fetch || !write then db'
        else db'.(pools := db.pools[net := Released(db.pools[net], db.nodes[(net, uuid)])])
    case DelNetwork(net, delNodes, delContext) =>
      if delNodes == Reported then db
      else
        var db' := if delNodes == Done then db.(nodes := Without(db.nodes, net)) else db;
        if delContext == Done then db'.(pools := db.pools - {net}) else db'
  }

  /** An address outside the range releases nothing. */
  ghost function Released(bits: set<nat>, ip: nat): set<nat> {
    if FIRST <= ip <= FIRST + HOSTS then bits - {BitAt(ip)} else bits
  }

  ghost predicate IpsApart(db: Db) {
    forall j, k :: j in db.nodes && k in db.nodes && j != k && j.0 == k.0 ==> db.nodes[j] != db.nodes[k]
  }

  ghost predicate BitsSaved(db: Db) {
    forall k :: k in db.nodes && k.0 in db.pools ==>
      FIRST <= db.nodes[k] <= FIRST + HOSTS && BitAt(db.nodes[k]) in db.pools[k.0]
  }

  /** No two stored nodes of a network share an address, and every stored address has its bit set in the
      saved pool of its network. */
  ghost predicate Inv(db: Db) {
    IpsApart(db) && BitsSaved(db)
  }

  /** The two failures that lose the agreement: a pool not written after its node was stored, and a
      deletion that is refused unnoticed while the address is released. */
  ghost predicate Loses(db: Db, r: Request) {
    match r
    case AddNode(net, uuid, fetch, serial, insert, write) =>
      net in db.pools && fetch && serial && Lowest(db.pools[net]) <= HOSTS &&
      insert && (net, uuid) !in db.nodes && !write
    case DelNode(net, uuid, fetchIp, delete, fetch, write) =>
      (net, uuid) in db.nodes && fetchIp && delete == Unnoticed &&
      net in db.pools && fetch && write
    case _ => false
  }

  /** The database gives a new network a name no stored node has. */
  ghost predicate Fresh(db: Db, r: Request) {
    r.AddNetwork? && r.net !in db.pools ==> forall k :: k in db.nodes ==> k.0 != r.net
  }

  /** A request keeps the agreement exactly when neither failure happens. */
  lemma NextKeepsExactly(db: Db, r: Request)
    requires Inv(db) && Fresh(db, r)
    ensures Inv(Next(db, r)) <==> !Loses(db, r)
  {
    match r
    case AddNetwork(net, insert) =>
    case AddNode(net, uuid, fetch, serial, insert, write) => AddNodeKeeps(db, r);
    case DelNode(net, uuid, fetchIp, delete, fetch, write) => DelNodeKeeps(db, r);
    case DelNetwork(net, delNodes, delContext) =>
  }

  lemma AddNodeKeeps(db: Db, r: Request)
    requires Inv(db) && r.AddNode?
    ensures Inv(Next(db, r)) <==> !Loses(db, r)
  {
    hide LowestFrom;
    if r.net in db.pools {
      LowestFromIsLowest(db.pools[r.net], 0, HOSTS + 1);
      var bit, key := Lowest(db.pools[r.net]), (r.net, r.uuid);
      var db' := Next(db, r);
      if db' != db {
        assert key in db'.nodes && BitAt(db'.nodes[key]) == bit;
        assert forall k :: k in db.nodes && k.0 == r.net ==> BitAt(db.nodes[k]) != bit;
      }
    }
  }

  lemma DelNodeKeeps(db: Db, r: Request)
    requires Inv(db) && r.DelNode?
    ensures Inv(Next(db, r)) <==> !Loses(db, r)
  {
    var key, db' := (r.net, r.uuid), Next(db, r);
    if key in db.nodes && r.net in db.pools && db' != db {
      assert forall k :: k in db.nodes && k.0 == r.net && k != key ==> BitAt(db.nodes[k]) != BitAt(db.nodes[key]);
      if Loses(db, r) {
        assert key in db'.nodes && BitAt(db'.nodes[key]) !in db'.pools[r.net];
      }
    }
  }

  // ---------- what a request does when its calls succeed ----------

  /** The requests with no call failing. */
  function Adding(net: string, uuid: string): Request {
    AddNode(net, uuid, true, true, true, true)
  }

  function Deleting(net: string, uuid: string): Request {
    DelNode(net, uuid, true, Done, true, true)
  }

  /** Nothing but the node and its address differs between the two. */
  ghost predicate DiffersAt(db: Db, db': Db, key: (string, string)) {
    (forall k :: k != key ==> (k in db'.nodes <==> k in db.nodes)) &&
    (forall k :: k != key && k in db.nodes ==> db'.nodes[k] == db.nodes[k]) &&
    db'.pools.Keys == db.pools.Keys && forall n :: n in db.pools && n != key.0 ==> db'.pools[n] == db.pools[n]
  }

  /** A node is stored with the lowest address whose bit is free, and that bit is saved, exactly when it
      is new, its network exists and has a free address; otherwise nothing changes. */
  lemma AddsNode(db: Db, net: string, uuid: string)
    ensures var db', key := Next(db, Adding(net, uuid)), (net, uuid);
      if net !in db.pools || key in db.nodes || (forall b :: 0 <= b <= HOSTS ==> b in db.pools[net]) then db' == db
      else
        DiffersAt(db, db', key) && key in db'.nodes && FIRST <= db'.nodes[key] <= FIRST + HOSTS &&
        var bit := BitAt(db'.nodes[key]);
        bit !in db.pools[net] && db'.pools[net] == db.pools[net] + {bit} &&
        forall b :: 0 <= b < bit ==> b in db.pools[net]
  {
    hide LowestFrom;
    if net in db.pools { LowestFromIsLowest(db.pools[net], 0, HOSTS + 1); }
  }

  /** A stored node is gone afterwards and its bit out of the saved pool, with nothing else changed; a
      node that is not stored changes nothing. */
  lemma DeletesNode(db: Db, net: string, uuid: string)
    requires Inv(db) && net in db.pools
    ensures var db', key := Next(db, Deleting(net, uuid)), (net, uuid);
      if key !in db.nodes then db' == db
      else
        DiffersAt(db, db', key) && key !in db'.nodes &&
        BitAt(db.nodes[key]) in db.pools[net] && db'.pools[net] == db.pools[net] - {BitAt(db.nodes[key])}
  {
  }

  /** Deleting the node just added restores the database. */
  lemma AddThenDelete(db: Db, net: string, uuid: string)
    requires Inv(db) && (net, uuid) !in db.nodes
    ensures Next(Next(db, Adding(net, uuid)), Deleting(net, uuid)) == db
  {
    hide LowestFrom;
    if net in db.pools {
      LowestFromIsLowest(db.pools[net], 0, HOSTS + 1);
      var key, bit := (net, uuid), Lowest(db.pools[net]);
      if bit <= HOSTS {
        var db1 := Next(db, Adding(net, uuid));
        assert db1.nodes - {key} == db.nodes;
        assert db1.pools[net] - {bit} == db.pools[net];
        assert db1.pools[net := db.pools[net]] == db.pools;
      }
    }
  }

  /** A new network has an empty pool; one that is known stays as it is. */
  lemma AddsNetwork(db: Db, net: string)
    ensures var db' := Next(db, AddNetwork(net, true));
      net in db'.pools && db'.nodes == db.nodes &&
      (net !in db.pools ==> db'.pools[net] == {}) &&
      forall n :: n in db.pools ==> n in db'.pools && db'.pools[n] == db.pools[n]
  {
  }

  /** No node and no pool of the network is left, and all others are as before. */
  lemma DeletesNetwork(db: Db, net: string)
    ensures var db' := Next(db, DelNetwork(net, Done, Done));
      net !in db'.pools && (forall k :: k in db'.nodes <==> k in db.nodes && k.0 != net) &&
      (forall k :: k in db'.nodes ==> db'.nodes[k] == db.nodes[k]) &&
      (forall n :: n in db'.pools <==> n in db.pools && n != net) &&
      forall n :: n in db'.pools ==> db'.pools[n] == db.pools[n]
  {
  }

  /** Deleting a network just added, whatever has been stored in it since, restores the database. */
  lemma {:induction false} NetworkComesAndGoes(db: Db, net: string, uuids: seq<string>)
    requires net !in db.pools && forall k :: k in db.nodes ==> k.0 != net
    ensures Next(AddAll(Next(db, AddNetwork(net, true)), net, uuids), DelNetwork(net, Done, Done)) == db
  {
    hide LowestFrom;
    var created := Next(db, AddNetwork(net, true));
    OnlyIn(created, net, uuids);
    var full := AddAll(created, net, uuids);
    assert Without(full.nodes, net) == db.nodes;
    assert full.pools - {net} == db.pools;
  }

  ghost function AddAll(db: Db, net: string, uuids: seq<string>): Db
    decreases uuids
  {
    if uuids == [] then db else AddAll(Next(db, Adding(net, uuids[0])), net, uuids[1..])
  }

  lemma {:induction false} OnlyIn(db: Db, net: string, uuids: seq<string>)
    ensures var db' := AddAll(db, net, uuids);
      Without(db'.nodes, net) == Without(db.nodes, net) && db'.pools - {net} == db.pools - {net} &&
      db'.pools.Keys == db.pools.Keys
    decreases uuids
  {
    hide LowestFrom;
    if uuids != [] {
      var db1 := Next(db, Adding(net, uuids[0]));
      OnlyIn(db1, net, uuids[1..]);
      assert Without(db1.nodes, net) == Without(db.nodes, net);
      assert db1.pools - {net} == db.pools - {net};
    }
  }

  /** A call that fails and says so leaves what the calls before it have done: before the node is stored
      or deleted nothing changes, and afterwards only its address stays as it was. */
  lemma FailedCalls(db: Db, r: Request)
    ensures r.AddNode? && !(r.fetch && r.serial && r.insert) ==> Next(db, r) == db
    ensures r.AddNode? && r.fetch && r.serial && r.insert && !r.write ==>
      Next(db, r).pools == db.pools && Next(db, r).nodes == Next(db, Adding(r.net, r.uuid)).nodes
    ensures r.DelNode? && (!r.fetchIp || r.delete == Reported) ==> Next(db, r) == db
    ensures r.DelNode? && r.fetchIp && r.delete == Done && !(r.fetch && r.write) ==>
      Next(db, r).pools == db.pools && Next(db, r).nodes == Next(db, Deleting(r.net, r.uuid)).nodes
    ensures r.DelNode? && r.delete == Unnoticed ==> Next(db, r).nodes == db.nodes
    ensures r.AddNetwork? && !r.insert ==> Next(db, r) == db
    ensures r.DelNetwork? && r.delNodes == Reported ==> Next(db, r) == db
    ensures r.DelNetwork? && r.delContext != Done ==> Next(db, r).pools == db.pools
    ensures r.DelNetwork? && r.delNodes == Unnoticed ==> Next(db, r).nodes == db.nodes
  {
    hide LowestFrom;
  }

  // ---------- whole runs ----------

  ghost function StateAt(requests: seq<Request>, i: nat): Db
    requires i <= |requests|
  {
    if i == 0 then Db(map[], map[]) else Next(StateAt(requests, i - 1), requests[i - 1])
  }

  /** In every run with neither of the two failures, every state keeps the agreement. */
  lemma {:induction false} InvAlways(requests: seq<Request>, i: nat)
    requires i <= |requests|
    requires forall j :: 0 <= j < i ==>
      Fresh(StateAt(requests, j), requests[j]) && !Loses(StateAt(requests, j), requests[j])
    ensures Inv(StateAt(requests, i))
  {
    hide Next, Loses, Fresh;
    if i > 0 {
      InvAlways(requests, i - 1);
      NextKeepsExactly(StateAt(requests, i - 1), requests[i - 1]);
    }
  }

  /** Two nodes of a network are stored with one address. */
  ghost predicate Shares(db: Db, net: string, a: string, b: string) {
    (net, a) in db.nodes && (net, b) in db.nodes && db.nodes[(net, a)] == db.nodes[(net, b)]
  }

  /** After a pool write fails behind a stored node, the next node is given the same address. */
  lemma LostWriteShares(db: Db, r: Request, uuid: string)
    requires r.AddNode? && Loses(db, r) && (r.net, uuid) !in db.nodes && uuid != r.uuid
    ensures Shares(Next(Next(db, r), Adding(r.net, uuid)), r.net, r.uuid, uuid)
  {
    hide LowestFrom;
    assert Next(db, r).pools[r.net] == db.pools[r.net];
  }

  /** After a refused deletion goes unnoticed, the next node is given the address of the one still
      stored exactly when no lower address is free. */
  lemma RefusedDeletionShares(db: Db, r: Request, uuid: string)
    requires Inv(db) && r.DelNode? && Loses(db, r) && (r.net, uuid) !in db.nodes
    ensures Shares(Next(Next(db, r), Adding(r.net, uuid)), r.net, r.uuid, uuid) <==>
            Lowest(db.pools[r.net]) > BitAt(db.nodes[(r.net, r.uuid)])
  {
    hide LowestFrom;
    var bits, bit := db.pools[r.net], BitAt(db.nodes[(r.net, r.uuid)]);
    LowestFromIsLowest(bits, 0, HOSTS + 1);
    if Lowest(bits) > bit { LowestIs(bits - {bit}, bit); } else { LowestIs(bits - {bit}, Lowest(bits)); }
    assert Next(db, r).pools[r.net] == bits - {bit};
  }

  /** Both happen in runs from the empty database. */
  lemma RunsThatShare(net: string, a: string, b: string)
    requires a != b
    ensures var lost := [AddNetwork(net, true), AddNode(net, a, true, true, true, false), Adding(net, b)];
      Shares(StateAt(lost, 3), net, a, b)
    ensures var refusal := DelNode(net, a, true, Unnoticed, true, true);
      var refused := [AddNetwork(net, true), Adding(net, a), refusal, Adding(net, b)];
      Shares(StateAt(refused, 4), net, a, b)
  {
    hide LowestFrom;
    var lost := [AddNetwork(net, true), AddNode(net, a, true, true, true, false), Adding(net, b)];
    var refusal := DelNode(net, a, true, Unnoticed, true, true);
    var refused := [AddNetwork(net, true), Adding(net, a), refusal, Adding(net, b)];
    var empty := Db(map[], map[]);
    assert StateAt(lost, 0) == StateAt(refused, 0) == empty;
    var db := Next(empty, AddNetwork(net, true));
    assert StateAt(lost, 1) == StateAt(refused, 1) == db;
    LowestIs({}, 0);
    LowestIs({0}, 1);
    LostWriteShares(db, lost[1], b);
    assert StateAt(lost, 2) == Next(db, lost[1]);
    NextKeepsExactly(db, refused[1]);
    var one := Next(db, refused[1]);
    assert db.pools == map[net := {}] && Lowest(db.pools[net]) == 0;
    assert one.nodes == map[(net, a) := FIRST] && one.pools[net] == {0};
    assert StateAt(refused, 2) == one;
    RefusedDeletionShares(one, refused[2], b);
    assert StateAt(refused, 3) == Next(one, refused[2]);
  }

  // ---------- the requests as code ----------

  ghost function PoolBits(pools: map<string, seq<bv8>>): map<string, set<nat>> {
    map net | net in pools :: BitsOf(pools[net])
  }

  lemma PoolBitsSaved(pools: map<string, seq<bv8>>, net: string, blob: seq<bv8>)
    ensures PoolBits(pools[net := blob]) == PoolBits(pools)[net := BitsOf(blob)]
    ensures PoolBits(pools - {net}) == PoolBits(pools) - {net}
  {
    hide BitsOf;
  }

  /** ippool_new("44.128.0.0", "255.255.0.0"), its bitmap replaced by a saved one. */
  method LoadPool(blob: seq<bv8>) returns (p: Pool)
    requires |blob| == 8192
    ensures fresh(p) && fresh(p.pool) && p.Valid() && p.pool[..] == blob && p.first == FIRST && p.last == FIRST + HOSTS
  {
    p := NewPool();
    p.pool := new bv8[8192](i requires 0 <= i < 8192 => blob[i]);
  }

  /** ippool_new("44.128.0.0", "255.255.0.0"). */
  method NewPool() returns (p: Pool)
    ensures fresh(p) && fresh(p.pool) && p.Valid() && p.first == FIRST && p.last == FIRST + HOSTS
    ensures BitsOf(p.pool[..]) == {}
  {
    hide Pow2, Swap, Or;
    Slash16();
    p := new Pool(44 + 128 * 256, 0xffff, 11392, 0, 16);
  }

  /** The words of 44.128.0.0 and 255.255.0.0, and the range of the network. */
  lemma Slash16()
    ensures Pow2(16) == 0x1_0000
    ensures Swap(Host(11392, 0, 16)) == 44 + 128 * 256 && Swap(Mask32(16)) == 0xffff
    ensures Host(11392, 1, 16) == FIRST && Host(11392, 0xfffe, 16) == FIRST + HOSTS
  {
    hide Pow2;
    Pow8();
    Pow2Add(8, 8);
  }

  /** The numbers of stored addresses. */
  ghost function NodeIps(nodes: map<(string, string), Word>): map<(string, string), nat> {
    map k | k in nodes :: Swap(nodes[k])
  }

  lemma NodeIpsSaved(nodes: map<(string, string), Word>, key: (string, string), ip: Word, net: string)
    ensures NodeIps(nodes[key := ip]) == NodeIps(nodes)[key := Swap(ip)]
    ensures NodeIps(nodes - {key}) == NodeIps(nodes) - {key}
    ensures NodeIps(Without(nodes, net)) == Without(NodeIps(nodes), net)
  {
    hide Swap;
  }

  /** The rows of all networks but one. */
  function Without<T>(nodes: map<(string, string), T>, net: string): map<(string, string), T> {
    map k | k in nodes && k.0 != net :: nodes[k]
  }

  lemma LowestIs(bits: set<nat>, bit: nat)
    requires (bit <= HOSTS && bit !in bits) || bit == HOSTS + 1
    requires forall m: nat :: m < bit ==> m in bits
    ensures Lowest(bits) == bit
  {
    LowestFromIsLowest(bits, 0, HOSTS + 1);
  }

  /** ippool_get_ip on a loaded pool, in terms of bits. */
  method TakeIp(p: Pool) returns (ip: Option<Word>)
    requires p.Valid() && p.first == FIRST && p.last == FIRST + HOSTS
    modifies p.pool
    ensures p.Valid() && p.pool == old(p.pool)
    ensures var bit := Lowest(old(BitsOf(p.pool[..])));
      if bit > HOSTS then ip == None
      else ip.Some? && Swap(ip.value) == FIRST + bit && BitsOf(p.pool[..]) == old(BitsOf(p.pool[..])) + {bit}
  {
    hide Swap, BitsOf, Lowest;
    ghost var bits, taken := BitsOf(p.pool[..]), p.Taken();
    ip := p.GetIp();
    ghost var bit := if ip.Some? then Swap(ip.value) - FIRST else HOSTS + 1;
    forall m: nat | m < bit
      ensures m in bits
    {
      assert p.Usable(FIRST + m) && p.Bit(FIRST + m) == m;
      assert FIRST + m in taken;
    }
    LowestIs(bits, bit);
  }

  class Store {
    var pools: map<string, seq<bv8>>
    var nodes: map<(string, string), Word>

    ghost predicate Valid()
      reads this
    {
      forall net :: net in pools ==> |pools[net]| == 8192
    }

    ghost function Contents(): Db
      reads this
    {
      Db(PoolBits(pools), NodeIps(nodes))
    }

    constructor ()
      ensures Valid() && Contents() == Db(map[], map[])
    {
      pools, nodes := map[], map[];
    }

    /** add_network: `net` is the name the database gives. */
    method AddNetwork(net: string, insert: bool)
      requires Valid()
      modifies this
      ensures Valid() && Contents() == Next(old(Contents()), Request.AddNetwork(net, insert))
    {
      hide BitsOf, Lowest;
      var p := NewPool();
      if insert && net !in pools {
        PoolBitsSaved(pools, net, p.pool[..]);
        pools := pools[net := p.pool[..]];
      }
    }

    /** add_node; the insertion refuses a missing address and a name already stored. */
    method AddNode(net: string, uuid: string, fetch: bool, serial: bool, insert: bool, write: bool)
      requires Valid()
      modifies this
      ensures Valid() && Contents() == Next(old(Contents()), Request.AddNode(net, uuid, fetch, serial, insert, write))
    {
      hide BitsOf, Lowest, Swap;
      if net !in pools || !fetch {
        return;
      }
      if !serial {
        return;
      }
      var p := LoadPool(pools[net]);
      var ip := TakeIp(p);
      if ip == None || !insert || (net, uuid) in nodes {
        return;
      }
      NodeIpsSaved(nodes, (net, uuid), ip.value, net);
      nodes := nodes[(net, uuid) := ip.value];
      if !write {
        return;
      }
      PoolBitsSaved(pools, net, p.pool[..]);
      pools := pools[net := p.pool[..]];
    }

    /** del_node */
    method DelNode(net: string, uuid: string, fetchIp: bool, delete: Outcome, fetch: bool, write: bool)
      requires Valid()
      modifies this
      ensures Valid() && Contents() == Next(old(Contents()), Request.DelNode(net, uuid, fetchIp, delete, fetch, write))
    {
      hide BitsOf, Lowest, Swap;
      if (net, uuid) !in nodes || !fetchIp {
        return;
      }
      var ip := nodes[(net, uuid)];
      if delete == Reported {
        return;
      }
      if delete == Done {
        NodeIpsSaved(nodes, (net, uuid), ip, net);
        nodes := nodes - {(net, uuid)};
      }
      if net !in pools || !fetch {
        return;
      }
      var p := LoadPool(pools[net]);
      p.ReleaseIp(Some(ip));
      if write {
        PoolBitsSaved(pools, net, p.pool[..]);
        pools := pools[net := p.pool[..]];
      }
    }

    /** del_network */
    method DelNetwork(net: string, delNodes: Outcome, delContext: Outcome)
      requires Valid()
      modifies this
      ensures Valid() && Contents() == Next(old(Contents()), Request.DelNetwork(net, delNodes, delContext))
    {
      hide BitsOf, Lowest, Swap;
      if delNodes == Reported {
        return;
      }
      if delNodes == Done {
        NodeIpsSaved(nodes, ("", ""), 0, net);
        nodes := Without(nodes, net);
      }
      if delContext == Done {
        PoolBitsSaved(pools, net, []);
        pools := pools - {net};
      }
    }
  }
}
