/** A network of the switch on the heap: sessions on a doubly linked list, the id pool, the
    link matrix and the tables; every handler is proved against its operation on values. */
module Vnetwork {
  import opened Bits
  import opened Linkst
  import opened NetworkSpec

  /** struct mac_list; an element stays as it is once it is linked. `macs` is what is spelled out from
      here on. */
  class MacNode {
    const macAddr: Mac
    const next: MacNode?
    ghost const macs: seq<Mac>

    constructor (macAddr: Mac, next: MacNode?)
      ensures this.macAddr == macAddr && this.next == next && macs == [macAddr] + Spelled(next)
    {
      this.macAddr, this.next, macs := macAddr, next, [macAddr] + Spelled(next);
    }
  }

  ghost function Spelled(itr: MacNode?): seq<Mac> {
    if itr == null then [] else itr.macs
  }

  /** The chain of elements ends, and every element knows what follows it. */
  ghost predicate Spells(itr: MacNode?)
    decreases |Spelled(itr)|
  {
    itr != null ==> itr.macs == [itr.macAddr] + Spelled(itr.next) && Spells(itr.next)
  }

  type MacList = itr: MacNode? | Spells(itr) witness null

  class Session {
    var id: nat
    var macList: MacList
    var next: Session?
    var prev: Session?

    /** session_new: everything zero. */
    constructor ()
      ensures id == 0 && macList == null && next == null && prev == null
    {
      id, macList, next, prev := 0, null, null, null;
    }

    /** The learned addresses, the latest first. */
    ghost function Macs(): seq<Mac>
      reads `macList
    {
      Spelled(macList)
    }

    /** session_add_mac: prepends to the address list. */
    method AddMac(mac: Mac)
      modifies `macList
      ensures Macs() == [mac] + old(Macs())
    {
      macList := new MacNode(mac, macList);
    }
  }

  ghost function After(list: seq<Session>, i: nat): Session?
    requires i < |list|
  {
    if i + 1 < |list| then list[i + 1] else null
  }

  ghost function Before(list: seq<Session>, i: nat): Session?
    requires i < |list|
  {
    if i > 0 then list[i - 1] else null
  }

  /** The links of the sessions spell out the list, from its head to null and back. */
  ghost predicate Chain(list: seq<Session>, head: Session?)
    reads list`next, list`prev
  {
    NoDup(list) && head == (if list == [] then null else list[0]) &&
    (forall i {:trigger list[i].next} :: 0 <= i < |list| ==> list[i].next == After(list, i)) &&
    (forall i {:trigger list[i].prev} :: 0 <= i < |list| ==> list[i].prev == Before(list, i))
  }

  ghost predicate Held(net: Net<Session>, s: Session) {
    s in net.ids && s in net.macs
  }

  ghost function Ids(list: seq<Session>): map<Session, nat>
    reads list`id
  {
    map s | s in list :: s.id
  }

  ghost function Macs(list: seq<Session>): map<Session, seq<Mac>>
    reads list`macList
  {
    map s | s in list :: s.Macs()
  }

  lemma ConsMaps(s: Session, list: seq<Session>)
    ensures Ids([s] + list) == Ids(list)[s := s.id]
    ensures Macs([s] + list) == Macs(list)[s := s.Macs()]
  {
  }

  lemma NoDupOfChain(list: seq<Session>, head: Session?)
    requires Chain(list, head)
    ensures NoDup(list)
  {
  }

  lemma LeftMaps(list: seq<Session>, s: Session)
    requires NoDup(list)
    ensures Ids(Left(list, s)) == MapLeft(Ids(list), s) && Macs(Left(list, s)) == MapLeft(Macs(list), s)
  {
    if s in list { DroppedMembers(list, s); }
    hide Dropped;
  }

  lemma MacsMembers(list: seq<Session>)
    ensures forall r :: r in list ==> r in Macs(list) && Macs(list)[r] == r.Macs()
    ensures forall r :: r in Macs(list) ==> r in list
  {
  }

  /** The address lists after that of `s` has been emptied. */
  lemma MacsEmptied(list: seq<Session>, s: Session, was: map<Session, seq<Mac>>)
    requires forall r :: r in list ==> r in was && (r != s ==> r.Macs() == was[r])
    requires (forall r :: r in was ==> r in list) && s.Macs() == []
    ensures Macs(list) == Emptied(was, s)
  {
  }

  /** The address lists after that of the listed session `s` has grown. */
  lemma MacsGrown(list: seq<Session>, s: Session, was: map<Session, seq<Mac>>)
    requires forall r :: r in list ==> r in was && (r != s ==> r.Macs() == was[r])
    requires (forall r :: r in was ==> r in list) && s in list
    ensures Macs(list) == was[s := s.Macs()]
  {
  }

  lemma {:induction false} DroppedAt(list: seq<Session>, k: nat)
    requires NoDup(list) && k < |list|
    ensures Dropped(list, list[k]) == list[..k] + list[k + 1..]
    decreases k
  {
    if k > 0 {
      DroppedAt(list[1..], k - 1);
      assert list[1..][..k - 1] == list[1..k] && list[1..][k - 1 + 1..] == list[k + 1..];
      assert [list[0]] + list[1..k] == list[..k];
    }
  }

  /** What is left is the list without the session, in order, or nothing when it was not on it. */
  lemma LeftIs(list: seq<Session>, s: Session)
    requires NoDup(list)
    ensures s !in list ==> Left(list, s) == []
    ensures forall k :: 0 <= k < |list| && list[k] == s ==> Left(list, s) == list[..k] + list[k + 1..]
  {
    hide Dropped;
    forall k | 0 <= k < |list| && list[k] == s { DroppedAt(list, k); }
  }

  /** The links of `list` when those of its neighbours skip element `k`. */
  ghost predicate Skips(list: seq<Session>, k: nat)
    reads list`next, list`prev
    requires k < |list|
  {
    (forall i {:trigger list[i].next} :: 0 <= i < |list| && i != k ==>
       list[i].next == After(list, if i + 1 == k then k else i)) &&
    (forall i {:trigger list[i].prev} :: 0 <= i < |list| && i != k ==>
       list[i].prev == Before(list, if i == k + 1 then k else i))
  }

  lemma SkipsIs(list: seq<Session>, k: nat)
    requires k < |list|
    requires forall i {:trigger list[i].next} :: 0 <= i < |list| && i != k ==>
      list[i].next == After(list, if i + 1 == k then k else i)
    requires forall i {:trigger list[i].prev} :: 0 <= i < |list| && i != k ==>
      list[i].prev == Before(list, if i == k + 1 then k else i)
    ensures Skips(list, k)
  {
  }

  /** `rest` is `list` without element `k`. */
  ghost predicate IsWithout(rest: seq<Session>, list: seq<Session>, k: nat) {
    k < |list| && |rest| == |list| - 1 && forall j :: 0 <= j < |rest| ==> rest[j] == list[if j < k then j else j + 1]
  }

  lemma SkippedAt(list: seq<Session>, rest: seq<Session>, k: nat, i: nat)
    requires IsWithout(rest, list, k) && i < |rest| && Skips(list, k)
    ensures rest[i].next == After(rest, i) && rest[i].prev == Before(rest, i)
  {
    var j := if i < k then i else i + 1;
    assert list[j].next == After(list, if j + 1 == k then k else j);
    assert list[j].prev == Before(list, if j == k + 1 then k else j);
  }

  lemma SkippedChain(list: seq<Session>, k: nat, head: Session?)
    requires NoDup(list) && k < |list| && Skips(list, k)
    requires head == if k == 0 then After(list, 0) else list[0]
    ensures Chain(list[..k] + list[k + 1..], head) && Dropped(list, list[k]) == list[..k] + list[k + 1..]
  {
    hide Skips, NoDup, Dropped, IsWithout;
    DroppedAt(list, k);
    DroppedMembers(list, list[k]);
    var rest := list[..k] + list[k + 1..];
    WithoutAt(list, k);
    forall i | 0 <= i < |rest| { SkippedAt(list, rest, k, i); }
  }

  lemma WithoutAt(list: seq<Session>, k: nat)
    requires k < |list|
    ensures IsWithout(list[..k] + list[k + 1..], list, k)
  {
  }

  /** The table without these addresses. */
  ghost function Forgotten(ftable: map<Mac, Session>, macs: seq<Mac>): map<Mac, Session> {
    ftable - (set m | m in macs)
  }

  lemma ForgottenNone(ftable: map<Mac, Session>, macs: seq<Mac>)
    ensures Forgotten(ftable, macs[..0]) == ftable && Forgotten(ftable, macs[..|macs|]) == Forgotten(ftable, macs)
  {
    assert macs[..|macs|] == macs;
  }

  lemma ForgottenStep(ftable: map<Mac, Session>, macs: seq<Mac>, k: nat)
    requires k < |macs|
    ensures Forgotten(ftable, macs[..k + 1]) == Forgotten(ftable, macs[..k]) - {macs[k]}
  {
    assert macs[..k + 1] == macs[..k] + [macs[k]];
  }

  lemma NextMac(itr: MacList, macs: seq<Mac>, k: nat)
    requires itr != null && k <= |macs| && Spelled(itr) == macs[k..]
    ensures k < |macs| && itr.macAddr == macs[k] && Spells(itr.next) && Spelled(itr.next) == macs[k + 1..]
  {
    assert macs[k] == itr.macs[0] && macs[k + 1..] == itr.macs[1..];
  }

  ghost predicate Apart(pool: array<bv8>, matrix: seq<array<LinkInfo>>) {
    forall i :: 0 <= i < |matrix| ==> (matrix[i] as object) != pool
  }

  class Vnet {
    const linkst: LinkState
    const bitpool: array<bv8>
    var ftable: map<Mac, Session>
    var atable: set<string>
    var activeNode: int
    var sessionList: Session?
    ghost var listed: seq<Session>

    /** vnetwork_create: no session, no link, no id taken. */
    constructor ()
      ensures Valid() && View() == Net([], map[], map[], {}, 0, {}, map[], {})
      ensures fresh(linkst) && fresh(bitpool)
    {
      linkst := new LinkState(MAX_NODE);
      bitpool := new bv8[MAX_NODE / 8](_ => 0);
      ftable, atable, activeNode, sessionList, listed := map[], {}, 0, null, [];
    }

    ghost predicate Valid()
      reads this, linkst, linkst.adjacencyMatrix, listed
    {
      linkst.Valid() && linkst.upperLimit == MAX_NODE && Apart(bitpool, linkst.adjacencyMatrix) &&
      8 * bitpool.Length == MAX_NODE && Chain(listed, sessionList)
    }

    ghost function View(): Net<Session>
      reads this, linkst, linkst.adjacencyMatrix, bitpool, listed
      requires Valid()
    {
      Net(listed, Ids(listed), Macs(listed), BitsOf(bitpool[..]), activeNode, linkst.Pairs(), ftable, atable)
    }

    /** The list half of vnetwork_add_session. */
    method PushFront(session: Session)
      requires Chain(listed, sessionList) && session !in listed && session.next == null && session.prev == null
      modifies `sessionList, `listed, session`next, session`prev
      modifies (if sessionList != null then {sessionList} else {})`prev
      ensures listed == [session] + old(listed) && Chain(listed, sessionList)
    {
      if sessionList == null {
        sessionList := session;
        sessionList.next := null;
        sessionList.prev := null;
      } else {
        session.next := sessionList;
        sessionList.prev := session;
        sessionList := session;
      }
      NoDupCons(session, listed);
      ghost var was := listed;
      listed := [session] + listed;
      assert forall i :: 0 < i < |listed| ==> listed[i] == was[i - 1];
    }

    /** The other half: the lowest free id. */
    method TakeId(session: Session)
      requires session in listed && session.id == 0 && 8 * bitpool.Length == MAX_NODE
      modifies bitpool, session`id, `activeNode
      ensures var bit := LowestFrom(old(BitsOf(bitpool[..])), 0, MAX_NODE);
        Ids(listed) == old(Ids(listed))[session := if bit < MAX_NODE then bit + 1 else 1] &&
        BitsOf(bitpool[..]) == old(BitsOf(bitpool[..])) + if bit < MAX_NODE then {bit} else {}
      ensures activeNode == old(activeNode) + 1
    {
      ghost var taken := BitsOf(bitpool[..]);
      hide BitsOf;
      var ret, bit := AllocateBit(bitpool, MAX_NODE, session.id);
      AllocatedLowest(taken, ret, bit);
      session.id := bit;
      session.id := session.id + 1;
      activeNode := activeNode + 1;
    }

    /** vnetwork_add_session */
    method AddSession(session: Session)
      requires Valid() && session !in listed
      requires session.next == null && session.prev == null && session.id == 0 && session.macList == null
      modifies `sessionList, `listed, `activeNode, bitpool, session
      modifies (if sessionList != null then {sessionList} else {})`prev
      ensures Valid() && View() == NetworkSpec.AddSession(old(View()), session)
    {
      hide NetInv, Chain, BitsOf, Ids, Macs, LinkState.Pairs, LinkState.Valid, LowestFrom;
      PushFront(session);
      ConsMaps(session, old(listed));
      TakeId(session);
    }

    /** vnetwork_del_session, the list half; a session that is on no list empties the list. */
    method Unlink(session: Session)
      requires Chain(listed, sessionList)
      requires session in listed || (session.next == null && session.prev == null)
      modifies `sessionList, `listed, listed`next, listed`prev
      ensures listed == Left(old(listed), session)
      ensures Chain(listed, sessionList)
    {
      hide Dropped, Skips;
      ghost var k :| k < |listed| && (session in listed ==> 0 <= k && listed[k] == session);
      ghost var list, mine := listed, session in listed;
      assert mine ==> session.next == After(list, k) && session.prev == Before(list, k);
      if session.next == null {
        if session.prev == null {
          sessionList := null;
        } else {
          session.prev.next := null;
        }
      } else {
        if session.prev == null {
          sessionList := session.next;
          session.next.prev := null;
        } else {
          session.prev.next := session.next;
          session.next.prev := session.prev;
        }
      }
      if mine {
        forall i {:trigger list[i].next} | 0 <= i < |list| && i != k
          ensures list[i].next == After(list, if i + 1 == k then k else i)
        {
          assert old(list[i].next) == After(list, i);
        }
        forall i {:trigger list[i].prev} | 0 <= i < |list| && i != k
          ensures list[i].prev == Before(list, if i == k + 1 then k else i)
        {
          assert old(list[i].prev) == Before(list, i);
        }
        SkipsIs(list, k);
        SkippedChain(list, k, sessionList);
        listed := list[..k] + list[k + 1..];
      } else {
        listed := [];
      }
    }

    /** vnetwork_del_session: off the list, its bit freed, the counter down. */
    method DelSession(session: Session)
      requires Valid() && (session in listed || (session.next == null && session.prev == null))
      modifies `sessionList, `listed, `activeNode, bitpool, listed`next, listed`prev
      ensures Valid() && linkst.Pairs() == old(linkst.Pairs()) && activeNode == old(activeNode) - 1
      ensures listed == Left(old(listed), session)
      ensures BitsOf(bitpool[..]) == old(BitsOf(bitpool[..])) - {BitOf(session.id)}
    {
      hide Chain, BitsOf, LinkState.Pairs, LinkState.Valid;
      Unlink(session);
      // the subtraction wraps around for id 0
      var bit := if session.id == 0 then 0xffff_ffff else session.id - 1;
      InPool(bitpool[..], bit, session.id);
      var ret := ReleaseBit(bitpool, MAX_NODE, bit);
      activeNode := activeNode - 1;
    }

    /** What vnetwork_del_session does to a network, in terms of values. */
    method DelFrom(session: Session)
      requires Valid() && (session in listed || (session.next == null && session.prev == null))
      modifies `sessionList, `listed, `activeNode, bitpool, listed`next, listed`prev
      ensures Valid() && View() == Remove(old(View()), session, session.id)
    {
      hide Chain, BitsOf, LinkState.Pairs, LinkState.Valid, Ids, Macs, Left, MapLeft, Dropped, NoDup;
      ghost var list := listed;
      NoDupOfChain(list, sessionList);
      DelSession(session);
      LeftMaps(list, session);
    }

    /** The loop of on_disconnect over the learned addresses. */
    method ForgetMacs(session: Session)
      modifies `ftable, session`macList
      ensures session.macList == null
      ensures ftable == Forgotten(old(ftable), old(session.Macs()))
    {
      hide Forgotten;
      ghost var k, macs := 0, session.Macs();
      ForgottenNone(ftable, macs);
      while session.macList != null
        invariant k <= |macs| && session.Macs() == macs[k..]
        invariant ftable == Forgotten(old(ftable), macs[..k])
        decreases |macs| - k
      {
        var macItr: MacNode := session.macList;
        NextMac(macItr, macs, k);
        session.macList := macItr.next;
        ftable := ftable - {macItr.macAddr};
        ForgottenStep(old(ftable), macs, k);
        k := k + 1;
      }
    }

    /** on_disconnect up to the removal from the list. */
    method ClearSession(session: Session)
      requires Valid()
      modifies `ftable, linkst.adjacencyMatrix, session`macList
      ensures Valid() && View() == ClearOf(old(View()), session, session.id, old(session.Macs()))
    {
      MacsMembers(listed);
      hide Chain, BitsOf, LinkState.Pairs, LinkState.Valid, Ids, Macs, Emptied;
      ghost var macs := Macs(listed);
      var ret := linkst.Disjoin(session.id);
      ForgetMacs(session);
      MacsEmptied(listed, session, macs);
    }

    /** on_disconnect of a session of this network. */
    method OnDisconnect(session: Session)
      requires Valid()
      requires session in listed ||
        (session.next == null && session.prev == null && session.id == 0 && session.macList == null)
      modifies `sessionList, `listed, `activeNode, `ftable, bitpool, linkst.adjacencyMatrix
      modifies listed`next, listed`prev, session`macList
      ensures Valid()
      ensures session in old(listed) ==> Held(old(View()), session) && View() == DropSession(old(View()), session)
      ensures session !in old(listed) ==> View() == DropUnlisted(old(View()))
    {
      ViewFields();
      linkst.PairBounds();
      Membership(session);
      ClearCases(View(), session, session.id, session.Macs());
      ClearSession(session);
      ViewFields();
      Membership(session);
      RemoveCases(View(), session, session.id);
      hide Vnet.Valid, Vnet.View, Clear, ClearOf, Unlist, DropUnlisted, Remove;
      DelFrom(session);
    }

    lemma Membership(session: Session)
      requires Valid()
      ensures session in listed <==> session in View().ids
      ensures session in listed <==> session in View().macs
      ensures session in listed ==> View().ids[session] == session.id && View().macs[session] == session.Macs()
      ensures BitOf(0) !in View().bits
    {
    }

    lemma HoldsOwn(session: Session)
      requires Valid() && session in listed
      ensures Held(View(), session) && View().ids[session] == session.id && View().macs[session] == session.Macs()
    {
    }

    /** The learning step of forward_ethernet: the owner of a source address. */
    method LearnSource(session: Session, mac: Mac) returns (src: Session)
      requires Valid() && session in listed
      modifies `ftable, session`macList
      ensures Valid() && session in old(View()).macs && View() == Learn(old(View()), session, mac)
      ensures mac in ftable && src == ftable[mac]
    {
      hide Chain, BitsOf, LinkState.Pairs, LinkState.Valid, Ids, Macs, Session.Macs;
      HoldsOwn(session);
      MacsMembers(listed);
      if mac in ftable {
        return ftable[mac];
      }
      ghost var macs := Macs(listed);
      ftable := ftable[mac := session];
      session.AddMac(mac);
      MacsGrown(listed, session, macs);
      src := session;
    }

    /** The flooding loop: one copy to every session of the list. */
    method FloodAll(frame: Frame) returns (out: seq<Send<Session>>)
      requires Chain(listed, sessionList)
      ensures out == Flood(listed, frame)
    {
      out := [];
      var itr := sessionList;
      ghost var i := 0;
      while itr != null
        invariant i <= |listed| && itr == (if i < |listed| then listed[i] else null)
        invariant out + Flood(listed[i..], frame) == Flood(listed, frame)
        decreases |listed| - i
      {
        assert listed[i..][1..] == listed[i + 1..];
        out := out + [Send(itr, Ethernet(frame))];
        itr := itr.next;
        i := i + 1;
      }
    }

    /** Forwarding to the known owner; the two owners are introduced unless already joined. */
    method Unicasting(src: Session, dst: Session, frame: Frame, now: int) returns (out: seq<Send<Session>>)
      requires Valid() && 1 <= src.id <= MAX_NODE && 1 <= dst.id <= MAX_NODE
      modifies linkst, linkst.adjacencyMatrix
      ensures Valid() && View() == old(View()).(links := old(View()).links + {Pair(src.id, dst.id)})
      ensures out == [Send(dst, Ethernet(frame))] +
        if Pair(src.id, dst.id) in old(View()).links then []
        else [Send(src, P2pRequest(dst)), Send(dst, P2pRequest(src))]
    {
      hide Chain, BitsOf, Ids, Macs, LinkState.Pairs, LinkState.Valid;
      out := [Send(dst, Ethernet(frame))];
      var lnkState := linkst.Joined(src.id, dst.id);
      if lnkState != 1 {
        out := out + [Send(src, P2pRequest(dst)), Send(dst, P2pRequest(src))];
        var ret := linkst.Join(src.id, dst.id, now);
      }
    }

    /** The owner of an address is listed, under its own id, which is in range. */
    lemma OwnerFacts(mac: Mac)
      requires Valid() && NetInv(View()) && mac in ftable
      ensures ftable[mac] in View().ids && 1 <= View().ids[ftable[mac]] == ftable[mac].id <= MAX_NODE
    {
    }

    lemma ViewFields()
      requires Valid()
      ensures View().ftable == ftable && View().list == listed && View().ids == Ids(listed)
      ensures View().links == linkst.Pairs() && Chain(listed, sessionList)
    {
    }

    /** forward_ethernet from the destination lookup on. */
    method DeliverFrame(src: Session, frame: Frame, now: int) returns (out: seq<Send<Session>>)
      requires Valid() && NetInv(View()) && frame.src in ftable && src == ftable[frame.src]
      modifies linkst, linkst.adjacencyMatrix
      ensures Valid() && OwnersListed(old(View())) && (View(), out) == Deliver(old(View()), frame)
    {
      hide Vnet.Valid, Vnet.View, NetInv, Flood, OwnersListed, Pair, Deliver, Chain, AddrTypeOf;
      OwnersAreListed(View());
      OwnerFacts(frame.src);
      if frame.dst in ftable { OwnerFacts(frame.dst); }
      ViewFields();
      DeliverCases(View(), frame);
      if frame.dst in ftable && src == ftable[frame.dst] {
        return [];
      }
      if AddrTypeOf(frame.dst) == Unicast && frame.dst in ftable {
        out := Unicasting(src, ftable[frame.dst], frame, now);
      } else if AddrTypeOf(frame.dst) == Broadcast || AddrTypeOf(frame.dst) == Multicast || frame.dst !in ftable {
        out := FloodAll(frame);
      } else {
        out := [];
      }
    }

    /** forward_ethernet for a frame of an authenticated session of this network. */
    method ForwardEthernet(session: Session, frame: Frame, now: int) returns (out: seq<Send<Session>>)
      requires Valid() && NetInv(View()) && session in listed
      modifies `ftable, session`macList, linkst, linkst.adjacencyMatrix
      ensures Valid() && Known(old(View()), session) && (View(), out) == Forward(old(View()), session, frame)
    {
      ForwardKeeps(View(), session, frame);
      LearnKeeps(View(), session, frame.src);
      hide Vnet.Valid, NetInv, Deliver, Learn, OwnersListed;
      var src := LearnSource(session, frame.src);
      out := DeliverFrame(src, frame, now);
    }
  }

  lemma AllocatedLowest(taken: set<nat>, ret: int, bit: nat)
    requires ret == 0 ==> LowestFree(bit, taken, Whole(MAX_NODE))
    requires ret != 0 ==> forall n: nat :: n < Whole(MAX_NODE) ==> n in taken
    ensures LowestFrom(taken, 0, MAX_NODE) == if ret == 0 then bit else MAX_NODE
  {
    LowestFromIsLowest(taken, 0, MAX_NODE);
  }

  lemma InPool(pool: seq<bv8>, bit: nat, id: nat)
    requires 8 * |pool| == MAX_NODE && bit == if id == 0 then 0xffff_ffff else id - 1
    ensures BitsOf(pool) - (if bit < MAX_NODE then {bit} else {}) == BitsOf(pool) - {BitOf(id)}
  {
  }
}
