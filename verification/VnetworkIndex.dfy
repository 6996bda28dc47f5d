/** The two red-black indexes over the networks: one by uuid, one by id. */
module VnetworkIndex {
  import opened Order
  import opened RedBlack
  import opened RbTree
  import RbInsert
  import RbRemove
  import RbWalk

  /** strcmp on strings without a terminator: the shorter of two equal prefixes is smaller. */
  function StrCmp(a: string, b: string): int {
    if a == [] && b == [] then 0
    else if a == [] then -1
    else if b == [] then 1
    else if a[0] != b[0] then (if a[0] < b[0] then -1 else 1)
    else StrCmp(a[1..], b[1..])
  }

  /** The two agree on k characters, and then the first has ended or has the smaller character. */
  ghost predicate PrecedesAt(a: string, b: string, k: nat) {
    k < |b| && k <= |a| && a[..k] == b[..k] && (k == |a| || a[k] < b[k])
  }

  /** The order of strings: a proper prefix first, otherwise by the first character that differs. */
  ghost predicate Precedes(a: string, b: string) {
    exists k: nat :: PrecedesAt(a, b, k)
  }

  lemma PrecedesAfter(a: string, b: string, k: nat)
    requires a != "" && b != "" && a[0] == b[0]
    ensures PrecedesAt(a, b, k + 1) <==> PrecedesAt(a[1..], b[1..], k)
  {
    if k < |b| - 1 && k <= |a| - 1 {
      assert a[..k + 1] == [a[0]] + a[1..][..k] && b[..k + 1] == [b[0]] + b[1..][..k];
      assert a[1..][..k] == a[..k + 1][1..] && b[1..][..k] == b[..k + 1][1..];
    }
  }

  lemma PrecedesTail(a: string, b: string)
    requires a != "" && b != "" && a[0] == b[0]
    ensures Precedes(a, b) <==> Precedes(a[1..], b[1..])
  {
    if Precedes(a, b) {
      var k: nat :| PrecedesAt(a, b, k);
      PrecedesAfter(a, b, k - 1);
    }
    if Precedes(a[1..], b[1..]) {
      var k: nat :| PrecedesAt(a[1..], b[1..], k);
      PrecedesAfter(a, b, k);
    }
  }

  lemma PrecedesHere(a: string, b: string)
    requires a == "" || b == "" || a[0] != b[0]
    ensures Precedes(a, b) <==> b != "" && (a == "" || a[0] < b[0])
  {
    assert PrecedesAt(a, b, 0) <==> b != "" && (a == "" || a[0] < b[0]);
    if Precedes(a, b) {
      var k: nat :| PrecedesAt(a, b, k);
      assert k > 0 ==> a[..k][0] == b[..k][0];
    }
  }

  lemma {:induction false} StrCmpOrders(a: string, b: string)
    ensures StrCmp(a, b) < 0 <==> Precedes(a, b)
    decreases a
  {
    hide Precedes;
    if a != "" && b != "" && a[0] == b[0] {
      StrCmpOrders(a[1..], b[1..]);
      PrecedesTail(a, b);
    } else {
      PrecedesHere(a, b);
    }
  }

  lemma {:induction false} StrCmpAntisymmetric(a: string, b: string)
    ensures StrCmp(a, b) == -StrCmp(b, a)
    ensures StrCmp(a, b) == 0 <==> a == b
  {
    if a != [] && b != [] && a[0] == b[0] {
      StrCmpAntisymmetric(a[1..], b[1..]);
      assert a == [a[0]] + a[1..] && b == [b[0]] + b[1..];
    }
  }

  lemma {:induction false} StrCmpTransitive(a: string, b: string, c: string)
    requires StrCmp(a, b) <= 0 && StrCmp(b, c) <= 0
    ensures StrCmp(a, c) <= 0
  {
    if a != [] && b != [] && c != [] && a[0] == b[0] && b[0] == c[0] {
      StrCmpTransitive(a[1..], b[1..], c[1..]);
    }
  }

  lemma StrCmpComparator()
    ensures Comparator(StrCmp)
    ensures forall a, b :: StrCmp(a, b) == 0 <==> a == b
  {
    forall a, b
      ensures StrCmp(a, b) < 0 <==> StrCmp(b, a) > 0
      ensures StrCmp(a, b) == 0 <==> a == b
    {
      StrCmpAntisymmetric(a, b);
    }
    forall a, b, c | StrCmp(a, b) <= 0 && StrCmp(b, c) <= 0
      ensures StrCmp(a, c) <= 0
    {
      StrCmpTransitive(a, b, c);
    }
  }

  /** A network record with its two embedded tree entries. */
  class Vnetwork {
    const uuid: string
    const id: string
    const entry: RbEntry<string>
    const entryId: RbEntry<string>

    constructor (id: string, uuid: string)
      ensures this.id == id && this.uuid == uuid && entry.key == uuid && entryId.key == id
      ensures fresh(entry) && fresh(entryId) && entry != entryId
    {
      this.id, this.uuid := id, uuid;
      entry := new RbEntry(uuid);
      entryId := new RbEntry(id);
    }
  }

  class Table {
    const vnetworks: RbHead<string>
    const vnetworksId: RbHead<string>
    /** From an embedded entry back to its record. */
    var owner: map<RbEntry<string>, Vnetwork>

    constructor ()
      ensures Valid() && ByUuid() == {} && ById() == {}
      ensures fresh(vnetworks) && fresh(vnetworksId)
    {
      StrCmpComparator();
      vnetworks := new RbHead(StrCmp);
      vnetworksId := new RbHead(StrCmp);
      owner := map[];
    }

    /** Both trees are red-black search trees, made of the entries of records. */
    ghost predicate Valid()
      reads this, vnetworks, vnetworksId, vnetworks.nodes, vnetworksId.nodes
    {
      vnetworks != vnetworksId && vnetworks.nodes !! vnetworksId.nodes &&
      vnetworks.Valid() && vnetworksId.Valid() && vnetworks.cmp == StrCmp && vnetworksId.cmp == StrCmp &&
      (forall e :: e in vnetworks.nodes ==> e in owner && owner[e].entry == e && e.key == owner[e].uuid) &&
      (forall e :: e in vnetworksId.nodes ==> e in owner && owner[e].entryId == e && e.key == owner[e].id)
    }

    ghost function ByUuid(): set<Vnetwork>
      reads this, vnetworks, vnetworksId, vnetworks.nodes, vnetworksId.nodes
      requires Valid()
    {
      set e | e in vnetworks.nodes :: owner[e]
    }

    ghost function ById(): set<Vnetwork>
      reads this, vnetworks, vnetworksId, vnetworks.nodes, vnetworksId.nodes
      requires Valid()
    {
      set e | e in vnetworksId.nodes :: owner[e]
    }

    /** vnetwork_lookup: the record with that uuid, if there is one. */
    method Lookup(uuid: string) returns (vnet: Vnetwork?)
      requires Valid()
      ensures vnet != null ==> vnet in ByUuid() && vnet.uuid == uuid && vnet.entry in vnetworks.nodes
      ensures vnet == null ==> forall v :: v in ByUuid() ==> v.uuid != uuid
    {
      hide RbHead.Valid, StrCmp;
      Members(vnetworks);
      forall e | e in vnetworks.nodes { StrCmpAntisymmetric(uuid, e.key); }
      var found, _ := RbWalk.Find(vnetworks, uuid);
      if found == null {
        return null;
      }
      assert found in vnetworks.Contents();
      Members(vnetworks);
      assert found in vnetworks.nodes;
      return owner[found];
    }

    /** vnetwork_lookup_id: the record with that id, if there is one. */
    method LookupId(id: string) returns (vnet: Vnetwork?)
      requires Valid()
      ensures vnet != null ==> vnet in ById() && vnet.id == id && vnet.entryId in vnetworksId.nodes
      ensures vnet == null ==> forall v :: v in ById() ==> v.id != id
    {
      hide RbHead.Valid, StrCmp;
      Members(vnetworksId);
      forall e | e in vnetworksId.nodes { StrCmpAntisymmetric(id, e.key); }
      var found, _ := RbWalk.Find(vnetworksId, id);
      if found == null {
        return null;
      }
      assert found in vnetworksId.Contents();
      Members(vnetworksId);
      assert found in vnetworksId.nodes;
      return owner[found];
    }

    ghost predicate KnownUuid(uuid: string)
      requires Valid()
      reads this, vnetworks, vnetworksId, vnetworks.nodes, vnetworksId.nodes
    {
      exists v :: v in ByUuid() && v.uuid == uuid
    }

    ghost predicate KnownId(id: string)
      requires Valid()
      reads this, vnetworks, vnetworksId, vnetworks.nodes, vnetworksId.nodes
    {
      exists v :: v in ById() && v.id == id
    }

    /** The two trees index the same records. */
    ghost predicate Agree()
      requires Valid()
      reads this, vnetworks, vnetworksId, vnetworks.nodes, vnetworksId.nodes
    {
      ByUuid() == ById()
    }

    /** The insertion into the uuid tree. */
    method InsertByUuid(vnet: Vnetwork)
      requires Valid() && vnet.entry !in vnetworks.nodes + vnetworksId.nodes && vnet.entry in owner
      requires owner[vnet.entry] == vnet && vnet.entry.key == vnet.uuid
      modifies vnetworks`root, vnetworks`nodes, vnetworks`tree, vnetworks.nodes, vnet.entry
      ensures Valid() && ById() == old(ById()) && vnetworksId.nodes == old(vnetworksId.nodes)
      ensures vnetworks.nodes <= old(vnetworks.nodes) + {vnet.entry}
      ensures ByUuid() == if old(KnownUuid(vnet.uuid)) then old(ByUuid()) else old(ByUuid()) + {vnet}
    {
      hide RbHead.Valid, StrCmp;
      Members(vnetworks);
      forall e | e in vnetworks.nodes { StrCmpAntisymmetric(vnet.uuid, e.key); }
      assert KnownUuid(vnet.uuid) <==> exists e :: e in vnetworks.nodes && e.key == vnet.uuid;
      var found := RbInsert.Insert(vnetworks, vnet.entry);
    }

    /** The insertion into the id tree. */
    method InsertById(vnet: Vnetwork)
      requires Valid() && vnet.entryId !in vnetworks.nodes + vnetworksId.nodes && vnet.entryId in owner
      requires owner[vnet.entryId] == vnet && vnet.entryId.key == vnet.id
      modifies vnetworksId`root, vnetworksId`nodes, vnetworksId`tree, vnetworksId.nodes, vnet.entryId
      ensures Valid() && ByUuid() == old(ByUuid()) && vnetworks.nodes == old(vnetworks.nodes)
      ensures vnetworksId.nodes <= old(vnetworksId.nodes) + {vnet.entryId}
      ensures ById() == if old(KnownId(vnet.id)) then old(ById()) else old(ById()) + {vnet}
    {
      hide RbHead.Valid, StrCmp;
      Members(vnetworksId);
      forall e | e in vnetworksId.nodes { StrCmpAntisymmetric(vnet.id, e.key); }
      assert KnownId(vnet.id) <==> exists e :: e in vnetworksId.nodes && e.key == vnet.id;
      var found := RbInsert.Insert(vnetworksId, vnet.entryId);
    }

    /** vnetwork_create: the new record enters each tree in which its key is not yet known. */
    method Create(id: string, uuid: string) returns (vnet: Vnetwork)
      requires Valid()
      modifies this`owner, vnetworks`root, vnetworks`nodes, vnetworks`tree, vnetworks.nodes,
        vnetworksId`root, vnetworksId`nodes, vnetworksId`tree, vnetworksId.nodes
      ensures fresh(vnetworks.nodes - old(vnetworks.nodes)) && fresh(vnetworksId.nodes - old(vnetworksId.nodes))
      ensures Valid() && vnet.id == id && vnet.uuid == uuid && vnet !in old(ByUuid()) + old(ById())
      ensures ByUuid() == if old(KnownUuid(uuid)) then old(ByUuid()) else old(ByUuid()) + {vnet}
      ensures ById() == if old(KnownId(id)) then old(ById()) else old(ById()) + {vnet}
      ensures old(Agree()) ==> (Agree() <==> (old(KnownUuid(uuid)) <==> old(KnownId(id))))
    {
      hide RbHead.Valid, StrCmp;
      vnet := new Vnetwork(id, uuid);
      owner := owner[vnet.entry := vnet][vnet.entryId := vnet];
      assert ByUuid() == old(ByUuid()) && ById() == old(ById());
      InsertByUuid(vnet);
      InsertById(vnet);
    }

    /** Two entries of one tree never carry equal keys. */
    lemma UniqueKeys(head: RbHead<string>, e: RbEntry<string>, f: RbEntry<string>)
      requires head.Valid() && head.cmp == StrCmp && e in head.nodes && f in head.nodes && e.key == f.key
      ensures e == f
    {
      hide RbHead.Valid;
      StrCmpAntisymmetric(e.key, f.key);
      RbInsert.OnlyOne(head, e, f);
    }

    /** The removal from the uuid tree. */
    method RemoveByUuid(vnet: Vnetwork)
      requires Valid() && vnet in ByUuid() && vnet.entry in vnetworks.nodes
      modifies vnetworks`root, vnetworks`nodes, vnetworks`tree, vnetworks.nodes
      ensures Valid() && ByUuid() == old(ByUuid()) - {vnet} && ById() == old(ById())
      ensures vnetworks.nodes <= old(vnetworks.nodes) && vnetworksId.nodes == old(vnetworksId.nodes)
    {
      hide RbHead.Valid, StrCmp;
      var _ := RbRemove.Remove(vnetworks, vnet.entry);
    }

    /** The removal from the id tree. */
    method RemoveById(vnet: Vnetwork)
      requires Valid() && vnet in ById() && vnet.entryId in vnetworksId.nodes
      modifies vnetworksId`root, vnetworksId`nodes, vnetworksId`tree, vnetworksId.nodes
      ensures Valid() && ById() == old(ById()) - {vnet} && ByUuid() == old(ByUuid())
      ensures vnetworksId.nodes <= old(vnetworksId.nodes) && vnetworks.nodes == old(vnetworks.nodes)
    {
      hide RbHead.Valid, StrCmp;
      var _ := RbRemove.Remove(vnetworksId, vnet.entryId);
    }

    /** Records of one index never share a key. */
    lemma UniqueRecords(v: Vnetwork, w: Vnetwork)
      requires Valid()
      ensures v in ByUuid() && w in ByUuid() && v.uuid == w.uuid ==> v == w
      ensures v in ById() && w in ById() && v.id == w.id ==> v == w
    {
      hide RbHead.Valid, StrCmp;
      if v in ByUuid() && w in ByUuid() && v.uuid == w.uuid {
        UniqueKeys(vnetworks, v.entry, w.entry);
      }
      if v in ById() && w in ById() && v.id == w.id {
        UniqueKeys(vnetworksId, v.entryId, w.entryId);
      }
    }

    /** vnetwork_disable: takes the record with that uuid out of both indexes. */
    method Disable(uuid: string) returns (vnet: Vnetwork?)
      requires Valid()
      modifies vnetworks`root, vnetworks`nodes, vnetworks`tree, vnetworks.nodes,
        vnetworksId`root, vnetworksId`nodes, vnetworksId`tree, vnetworksId.nodes
      ensures vnetworks.nodes <= old(vnetworks.nodes) && vnetworksId.nodes <= old(vnetworksId.nodes)
      ensures Valid()
      ensures vnet == null <==> !old(KnownUuid(uuid))
      ensures vnet == null ==> ByUuid() == old(ByUuid()) && ById() == old(ById())
      ensures vnet != null ==> vnet in old(ByUuid()) && vnet.uuid == uuid && ByUuid() == old(ByUuid()) - {vnet}
      ensures vnet != null ==> ById() == set v | v in old(ById()) && v.id != vnet.id
      ensures old(Agree()) ==> Agree() && !KnownUuid(uuid)
    {
      hide RbHead.Valid, StrCmp;
      vnet := Lookup(uuid);
      forall v, w | v in ByUuid() + ById() && w in ByUuid() + ById() { UniqueRecords(v, w); }
      if vnet != null {
        RemoveByUuid(vnet);
        var vnetId := LookupId(vnet.id);
        if vnetId != null {
          RemoveById(vnetId);
        }
      }
    }

    lemma Members(head: RbHead<string>)
      requires head.Valid()
      ensures forall e :: e in head.Contents() <==> e in head.nodes
    {
      head.PeekRoot(head.tree);
      RbTreeMembers(head.tree);
    }
  }

  lemma RbTreeMembers(t: RbShape<string>)
    ensures forall e :: e in Inorder(t) <==> e in Elems(t)
  {
    InorderElems(t);
  }

  // ---------- whole runs ----------

  datatype Command = Create(id: string, uuid: string) | Disable(uuid: string)

  /** A record as a value. */
  datatype Record = Record(id: string, uuid: string)

  ghost predicate HasUuid(records: set<Record>, uuid: string) {
    exists r :: r in records && r.uuid == uuid
  }

  ghost predicate HasId(records: set<Record>, id: string) {
    exists r :: r in records && r.id == id
  }

  /** Create keeps the records it finds: a known network is left as it is. */
  ghost function Step(records: set<Record>, c: Command): set<Record> {
    match c
    case Create(id, uuid) => if HasUuid(records, uuid) then records else records + {Record(id, uuid)}
    case Disable(uuid) => set r | r in records && r.uuid != uuid
  }

  ghost function StepAll(records: set<Record>, commands: seq<Command>): set<Record>
    decreases commands
  {
    if commands == [] then records else StepAll(Step(records, commands[0]), commands[1..])
  }

  /** A record is created with both keys known or with neither. */
  ghost predicate Coherent(records: set<Record>, c: Command) {
    c.Create? ==> (HasUuid(records, c.uuid) <==> HasId(records, c.id))
  }

  ghost predicate Proper(records: set<Record>, commands: seq<Command>)
    decreases commands
  {
    commands != [] ==> Coherent(records, commands[0]) && Proper(Step(records, commands[0]), commands[1..])
  }

  lemma {:induction false} OneMore(records: set<Record>, commands: seq<Command>, c: Command)
    ensures StepAll(records, commands + [c]) == Step(StepAll(records, commands), c)
    ensures Proper(records, commands + [c]) <==> Proper(records, commands) && Coherent(StepAll(records, commands), c)
    decreases commands
  {
    hide Step, Coherent;
    if commands == [] {
      assert ([] + [c])[1..] == [];
    } else {
      assert (commands + [c])[1..] == commands[1..] + [c];
      OneMore(Step(records, commands[0]), commands[1..], c);
    }
  }

  ghost function Records(table: Table): set<Record>
    requires table.Valid()
    reads table, table.vnetworks, table.vnetworksId, table.vnetworks.nodes, table.vnetworksId.nodes
  {
    set v | v in table.ByUuid() :: Record(v.id, v.uuid)
  }

  lemma KnownRecords(table: Table, id: string, uuid: string)
    requires table.Valid() && table.Agree()
    ensures table.KnownUuid(uuid) <==> HasUuid(Records(table), uuid)
    ensures table.KnownId(id) <==> HasId(Records(table), id)
  {
    hide Table.Valid;
    forall v | v in table.ByUuid()
      ensures Record(v.id, v.uuid) in Records(table)
    {
    }
  }

  /** One command keeps the agreement exactly when it is coherent. */
  method Apply(table: Table, c: Command)
    requires table.Valid() && table.Agree()
    modifies table`owner, table.vnetworks`root, table.vnetworks`nodes, table.vnetworks`tree, table.vnetworks.nodes,
      table.vnetworksId`root, table.vnetworksId`nodes, table.vnetworksId`tree, table.vnetworksId.nodes
    ensures table.Valid() && (table.Agree() <==> Coherent(old(Records(table)), c))
    ensures table.Agree() ==> Records(table) == Step(old(Records(table)), c)
    ensures fresh(table.vnetworks.nodes - old(table.vnetworks.nodes))
    ensures fresh(table.vnetworksId.nodes - old(table.vnetworksId.nodes))
  {
    hide RbHead.Valid;
    match c
    case Create(id, uuid) =>
      KnownRecords(table, id, uuid);
      var vnet := table.Create(id, uuid);
    case Disable(uuid) =>
      forall v, w | v in table.ByUuid() && w in table.ByUuid() { table.UniqueRecords(v, w); }
      var vnet := table.Disable(uuid);
  }

  /** Over every proper run the two trees keep the same records, namely those of a plain set. */
  method RunProper(table: Table, commands: seq<Command>)
    requires table.Valid() && table.Agree() && Proper(Records(table), commands)
    modifies table`owner, table.vnetworks`root, table.vnetworks`nodes, table.vnetworks`tree, table.vnetworks.nodes,
      table.vnetworksId`root, table.vnetworksId`nodes, table.vnetworksId`tree, table.vnetworksId.nodes
    ensures table.Valid() && table.Agree() && Records(table) == StepAll(old(Records(table)), commands)
    ensures fresh(table.vnetworks.nodes - old(table.vnetworks.nodes))
    ensures fresh(table.vnetworksId.nodes - old(table.vnetworksId.nodes))
  {
    hide RbHead.Valid, Table.Valid, Table.Agree, Records, Step, Coherent;
    var i := 0;
    while i < |commands|
      invariant 0 <= i <= |commands|
      invariant table.Valid() && table.Agree() && Proper(Records(table), commands[i..])
      invariant StepAll(Records(table), commands[i..]) == StepAll(old(Records(table)), commands)
      invariant fresh(table.vnetworks.nodes - old(table.vnetworks.nodes))
      invariant fresh(table.vnetworksId.nodes - old(table.vnetworksId.nodes))
    {
      assert commands[i..][1..] == commands[i + 1..];
      Apply(table, commands[i]);
      i := i + 1;
    }
  }

  /** Over every run the trees agree up to the first record created with one key known and the other
      not, and there they part. */
  method Run(table: Table, commands: seq<Command>, last: Command)
    requires table.Valid() && table.Agree() && Proper(Records(table), commands)
    modifies table`owner, table.vnetworks`root, table.vnetworks`nodes, table.vnetworks`tree, table.vnetworks.nodes,
      table.vnetworksId`root, table.vnetworksId`nodes, table.vnetworksId`tree, table.vnetworksId.nodes
    ensures table.Valid() && (table.Agree() <==> Proper(old(Records(table)), commands + [last]))
    ensures table.Agree() ==> Records(table) == StepAll(old(Records(table)), commands + [last])
  {
    hide RbHead.Valid, Table.Valid, Table.Agree, Records, Step, StepAll, Proper, Coherent;
    OneMore(Records(table), commands, last);
    RunProper(table, commands);
    Apply(table, last);
  }

  /** The second network without an id. */
  lemma TwoWithoutId(uuid: string, other: string)
    requires uuid != other
    ensures Proper({}, [Create("", uuid)]) && !Proper({}, [Create("", uuid)] + [Create("", other)])
  {
    var first := [Create("", uuid)];
    OneMore({}, first, Create("", other));
    assert first[1..] == [] && Step({}, first[0]) == {Record("", uuid)};
    assert Record("", uuid) in {Record("", uuid)};
  }
}
