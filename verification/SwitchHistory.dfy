/** What the state of the switch has to do with the events before it: networks, access tables, lists,
    forwarding tables and links are each what the history of the run makes them. */
module SwitchHistory {
  import opened Wrappers
  import opened NetworkSpec
  import opened SwitchRuns

  // ---------- what one event switches ----------

  ghost predicate Exists<S>(sw: Switch<S>, n: string) {
    n in sw.nets
  }

  ghost predicate Allowed<S>(sw: Switch<S>, n: string, uuid: string) {
    n in sw.nets && uuid in sw.nets[n].atable
  }

  /** The session is authenticated in network `n`. */
  ghost predicate Active<S>(sw: Switch<S>, n: string, s: S) {
    s in sw.sessions && sw.sessions[s] == Session(Authed, Some(n))
  }

  /** The forwarding table of network `n` has address `m` for session `s`. */
  ghost predicate Maps<S>(sw: Switch<S>, n: string, m: Mac, s: S) {
    n in sw.nets && m in sw.nets[n].ftable && sw.nets[n].ftable[m] == s
  }

  /** The step-up by which session `s` joins network `n`: it waits for it, and the access table has the
      node of its certificate. */
  ghost predicate Joins<S>(sw: Switch<S>, e: Event<S>, n: string, s: S) {
    e.StepUp? && e.s == s && Waits(sw, n, s) && e.cert.Some? && Allowed(sw, n, e.cert.value)
  }

  lemma JoinsIs<S>(sw: Switch<S>, e: Event<S>, n: string, s: S)
    ensures Joins(sw, e, n, s) <==>
      e.StepUp? && e.s == s && s in sw.sessions && sw.sessions[s].net == Some(n) && Passes(sw, s, e.cert)
  {
  }

  /** The frame by which session `s` of network `n` teaches address `m`. */
  ghost predicate Teaches<S>(sw: Switch<S>, e: Event<S>, n: string, m: Mac, s: S) {
    e.Input? && e.s == s && e.frame.src == m && Active(sw, n, s) && n in sw.nets && m !in sw.nets[n].ftable
  }

  /** The deletion of node `uuid` of network `n`. */
  ghost predicate Deletes<S>(e: Event<S>, n: string, uuid: string) {
    e.DelNode? && e.network == n && e.uuid == uuid
  }

  /** The deletion of the node session `s` was opened for. */
  ghost predicate Purges<S>(e: Event<S>, s: S) {
    e.DelNode? && e.victim == Some(s)
  }

  ghost predicate Leaves<S>(e: Event<S>, n: string, s: S) {
    e == Disconnect(s) || e == DelNet(n)
  }

  /** The session waits for its step-up in network `n`. */
  ghost predicate Waits<S>(sw: Switch<S>, n: string, s: S) {
    s in sw.sessions && sw.sessions[s] == Session(WaitStepup, Some(n))
  }

  /** The request of a new session for an existing network. */
  ghost predicate Asks<S>(sw: Switch<S>, e: Event<S>, n: string, s: S) {
    e == AuthRequest(s, Some(n)) && s in sw.sessions && sw.sessions[s].state == NotAuthed && Exists(sw, n)
  }

  lemma ConnectedNext<S>(sw: Switch<S>, e: Event<S>, s: S)
    requires Enabled(sw, e)
    ensures s in Next(sw, e).0.sessions <==> e == Connect(s) || (s in sw.sessions && e != Disconnect(s))
  {
    hide Known, OwnersListed, Forward, AddSession, DropSession;
  }

  lemma NewcomerNext<S>(sw: Switch<S>, e: Event<S>, s: S)
    requires Inv(sw) && Enabled(sw, e)
    ensures Holds(Next(sw, e).0, Newcomer(s)) <==>
      e == Connect(s) || (Holds(sw, Newcomer(s)) && e != Disconnect(s) && !exists n :: Asks(sw, e, n, s))
  {
    hide NetInv, Known, OwnersListed, Forward, AddSession, DropSession;
    if s in sw.sessions { assert SessionOk(sw, s); }
    if e.AuthRequest? && e.wanted.Some? && Exists(sw, e.wanted.value) && Holds(sw, Newcomer(s)) && e.s == s {
      assert Asks(sw, e, e.wanted.value, s);
    }
  }

  lemma WaitingNext<S>(sw: Switch<S>, e: Event<S>, n: string, s: S)
    requires Inv(sw) && Enabled(sw, e)
    ensures Waits(Next(sw, e).0, n, s) <==>
      Asks(sw, e, n, s) || (Waits(sw, n, s) && e != Disconnect(s) && !Purges(e, s) && !Joins(sw, e, n, s))
  {
    hide NetInv, Known, OwnersListed, Forward, AddSession, DropSession;
    if Waits(sw, n, s) { assert SessionOk(sw, s); }
  }

  lemma ExistsNext<S>(sw: Switch<S>, e: Event<S>, n: string)
    ensures Exists(Next(sw, e).0, n) <==> e == CreateNet(n) || (Exists(sw, n) && e != DelNet(n))
  {
    hide AddSession, DropSession, Forward, Known;
  }

  lemma AllowedNext<S>(sw: Switch<S>, e: Event<S>, n: string, uuid: string)
    requires Inv(sw) && Enabled(sw, e)
    ensures Allowed(Next(sw, e).0, n, uuid) <==>
      (e == AddAccess(n, uuid) && Exists(sw, n)) || (Allowed(sw, n, uuid) && !Deletes(e, n, uuid) && e != DelNet(n))
  {
    hide NetInv, Known, OwnersListed, Forward;
    if e.Input? && e.s in sw.sessions && sw.sessions[e.s].state == Authed {
      assert SessionOk(sw, e.s);
      NetsInv(sw, sw.sessions[e.s].net.value);
      ForwardKeeps(NetOf(sw, e.s), e.s, e.frame);
    }
  }

  lemma ListedNext<S>(sw: Switch<S>, e: Event<S>, n: string, s: S)
    requires Inv(sw) && Enabled(sw, e)
    ensures Listed(Next(sw, e).0, n, s) <==> Joins(sw, e, n, s) || (Listed(sw, n, s) && !Leaves(e, n, s))
  {
    hide NetInv, Known, OwnersListed, Forward, AddSession, DropSession;
    if Listed(Next(sw, e).0, n, s) {
      NewlyListed(sw, e, n, s);
    }
    if Joins(sw, e, n, s) { AddedMembers(sw.nets[n], s); }
    if Listed(sw, n, s) && !Leaves(e, n, s) { StaysListed(sw, e, n, s); }
  }

  lemma StaysListed<S>(sw: Switch<S>, e: Event<S>, n: string, s: S)
    requires Inv(sw) && Enabled(sw, e) && Listed(sw, n, s) && !Leaves(e, n, s)
    ensures Listed(Next(sw, e).0, n, s)
  {
    hide NetInv, Known, OwnersListed, Forward, AddSession, DropSession;
    match e
    case StepUp(r, cert) => if Passes(sw, r, cert) { AddedMembers(NetOf(sw, r), r); }
    case Input(r, frame) =>
      if sw.sessions[r].state == Authed {
        assert SessionOk(sw, r);
        NetsInv(sw, sw.sessions[r].net.value);
        ForwardKeeps(NetOf(sw, r), r, frame);
      }
    case Disconnect(r) =>
      if InNet(sw, r) && r in NetOf(sw, r).list {
        ListedKnown(NetOf(sw, r), r);
        DropMembers(NetOf(sw, r), r);
      }
    case _ =>
  }

  lemma ActiveNext<S>(sw: Switch<S>, e: Event<S>, n: string, s: S)
    requires Inv(sw) && Enabled(sw, e)
    ensures Active(Next(sw, e).0, n, s) <==>
      Joins(sw, e, n, s) || (Active(sw, n, s) && !Leaves(e, n, s) && !Purges(e, s))
  {
    hide NetInv, Known, OwnersListed, Forward, AddSession, DropSession;
    if Active(sw, n, s) { assert SessionOk(sw, s); }
  }

  lemma MapsNext<S>(sw: Switch<S>, e: Event<S>, n: string, m: Mac, s: S)
    requires Inv(sw) && Enabled(sw, e)
    ensures Maps(Next(sw, e).0, n, m, s) <==> Teaches(sw, e, n, m, s) || (Maps(sw, n, m, s) && !Leaves(e, n, s))
  {
    hide NetInv, Known, OwnersListed, Forward, AddSession, DropSession, Inv, Enabled;
    match e
    case Input(r, frame) => InputMaps(sw, r, frame, n, m, s);
    case Disconnect(r) => DisconnectMaps(sw, r, n, m, s);
    case StepUp(r, cert) => if r in sw.sessions && Passes(sw, r, cert) { AddTableSame(NetOf(sw, r), r); }
    case _ =>
  }

  lemma AddTableSame<S>(net: Net<S>, s: S)
    ensures AddSession(net, s).ftable == net.ftable
  {
  }

  lemma InputMaps<S>(sw: Switch<S>, r: S, frame: Frame, n: string, m: Mac, s: S)
    requires Inv(sw) && Enabled(sw, Input(r, frame))
    ensures Maps(Next(sw, Input(r, frame)).0, n, m, s) <==> Teaches(sw, Input(r, frame), n, m, s) || Maps(sw, n, m, s)
  {
    hide NetInv, Known, OwnersListed, Forward;
    if sw.sessions[r].state == Authed {
      assert SessionOk(sw, r);
      NetsInv(sw, sw.sessions[r].net.value);
      ForwardKeeps(NetOf(sw, r), r, frame);
      ForwardTable(NetOf(sw, r), r, frame, m);
    }
  }

  lemma DisconnectMaps<S>(sw: Switch<S>, r: S, n: string, m: Mac, s: S)
    requires Inv(sw) && Enabled(sw, Disconnect(r))
    ensures Maps(Next(sw, Disconnect(r)).0, n, m, s) <==> Maps(sw, n, m, s) && s != r
  {
    hide NetInv, Known, OwnersListed, DropSession;
    if Maps(sw, n, m, s) { OwnerListed(sw.nets[n], m); }
    if InNet(sw, r) && r in NetOf(sw, r).list {
      ListedKnown(NetOf(sw, r), r);
      DropEntries(NetOf(sw, r), r, m);
    }
  }

  lemma OwnerListed<S>(net: Net<S>, m: Mac)
    requires NetInv(net) && m in net.ftable
    ensures net.ftable[m] in net.list
  {
  }

  /** A session is told of another by an event of their network. */
  ghost predicate Joining<S>(sw: Switch<S>, e: Event<S>, n: string, q: S, r: S) {
    Listed(sw, n, q) && Send(q, P2pRequest(r)) in Next(sw, e).1
  }

  lemma LinkedNext<S>(sw: Switch<S>, e: Event<S>, n: string, q: S, r: S)
    requires Inv(sw) && Enabled(sw, e)
    ensures LinkedIn(Next(sw, e).0, n, q, r) <==>
      Joining(sw, e, n, q, r) || (LinkedIn(sw, n, q, r) && !Leaves(e, n, q) && !Leaves(e, n, r))
  {
    hide NetInv, Known, OwnersListed, Forward, AddSession, DropSession, Linked, Inv, Enabled, Next;
    if Joining(sw, e, n, q, r) {
      IntroductionJoins(sw, e, q, r);
      OneList(sw, n, sw.sessions[e.s].net.value, q);
    }
    if LinkedIn(sw, n, q, r) && !Leaves(e, n, q) && !Leaves(e, n, r) { LinkedKeeps(sw, e, n, q, r); }
    if LinkedIn(Next(sw, e).0, n, q, r) {
      LinkedBefore(sw, e, n, q, r);
      NewlyListed(sw, e, n, q);
      NewlyListed(sw, e, n, r);
    }
  }

  lemma OtherAccess<S>(net: Net<S>, atable: set<string>, q: S, r: S)
    ensures Linked(net.(atable := atable), q, r) <==> Linked(net, q, r)
  {
  }

  lemma OneList<S>(sw: Switch<S>, n: string, m: string, q: S)
    requires Inv(sw) && Listed(sw, n, q) && Listed(sw, m, q)
    ensures m == n
  {
    hide NetInv;
    assert sw.sessions[q].net == Some(n);
  }

  /** Joined after an event: joined before it, or introduced by it. */
  lemma LinkedBefore<S>(sw: Switch<S>, e: Event<S>, n: string, q: S, r: S)
    requires Inv(sw) && Enabled(sw, e) && LinkedIn(Next(sw, e).0, n, q, r)
    ensures LinkedIn(sw, n, q, r) || Joining(sw, e, n, q, r)
  {
    hide NetInv, Known, OwnersListed, Forward, AddSession, DropSession, Linked;
    match e
    case Input(s, frame) =>
      if sw.sessions[s].state == Authed && sw.sessions[s].net == Some(n) {
        assert SessionOk(sw, s);
        NetsInv(sw, n);
        ForwardKeeps(sw.nets[n], s, frame);
        if !Linked(sw.nets[n], q, r) { NewLinks(sw.nets[n], s, frame, q, r); }
      }
    case StepUp(s, cert) =>
      if Passes(sw, s, cert) && sw.sessions[s].net == Some(n) {
        NetsInv(sw, n);
        AddLinked(sw.nets[n], s, q, r);
        LinkedListed(sw.nets[n], q, r);
      }
    case Disconnect(s) =>
      if InNet(sw, s) && s in NetOf(sw, s).list && sw.sessions[s].net == Some(n) {
        NetsInv(sw, n);
        ListedKnown(sw.nets[n], s);
        DropMembers(sw.nets[n], s);
        DropLinkedBefore(sw.nets[n], s, q, r);
      }
    case AddAccess(m, uuid) => if m == n && n in sw.nets { OtherAccess(sw.nets[n], sw.nets[n].atable + {uuid}, q, r); }
    case DelNode(m, uuid, _) => if m == n && n in sw.nets { OtherAccess(sw.nets[n], sw.nets[n].atable - {uuid}, q, r); }
    case _ =>
  }

  // ---------- facts ----------

  /** What may be true of a switch: that a session is connected, has not asked for a network yet, or waits
      for its step-up in one; that a network exists, that its access table has a node, that a session is
      listed or authenticated in it, that its forwarding table has an address for a session, that two of
      its sessions are joined. */
  datatype Fact<S> =
    | Connected(s: S)
    | Newcomer(s: S)
    | Waiting(n: string, s: S)
    | Network(n: string)
    | Access(n: string, uuid: string)
    | Member(n: string, s: S)
    | Forwards(n: string, s: S)
    | Entry(n: string, mac: Mac, s: S)
    | Link(n: string, s: S, peer: S)

  ghost predicate Holds<S>(sw: Switch<S>, f: Fact<S>) {
    match f
    case Connected(s) => s in sw.sessions
    case Newcomer(s) => s in sw.sessions && sw.sessions[s].state == NotAuthed
    case Waiting(n, s) => Waits(sw, n, s)
    case Network(n) => Exists(sw, n)
    case Access(n, uuid) => Allowed(sw, n, uuid)
    case Member(n, s) => Listed(sw, n, s)
    case Forwards(n, s) => Active(sw, n, s)
    case Entry(n, mac, s) => Maps(sw, n, mac, s)
    case Link(n, s, peer) => LinkedIn(sw, n, s, peer)
  }

  /** The event makes the fact true: the connection; a first request for an existing network; the creation
      of the network; an insertion in its access table; the step-up of the session; a frame with an
      unknown source; an introduction. */
  ghost predicate Starts<S>(sw: Switch<S>, e: Event<S>, f: Fact<S>) {
    match f
    case Connected(s) => e == Connect(s)
    case Newcomer(s) => e == Connect(s)
    case Waiting(n, s) => Asks(sw, e, n, s)
    case Network(n) => e == CreateNet(n)
    case Access(n, uuid) => e == AddAccess(n, uuid) && Exists(sw, n)
    case Member(n, s) => Joins(sw, e, n, s)
    case Forwards(n, s) => Joins(sw, e, n, s)
    case Entry(n, mac, s) => Teaches(sw, e, n, mac, s)
    case Link(n, s, peer) => Joining(sw, e, n, s, peer)
  }

  /** The event ends it: the deletion of the network or of the node, or a disconnect; a session waits
      until its step-up. */
  ghost predicate Ends<S>(sw: Switch<S>, e: Event<S>, f: Fact<S>) {
    match f
    case Connected(s) => e == Disconnect(s)
    case Newcomer(s) => e == Disconnect(s) || exists n :: Asks(sw, e, n, s)
    case Waiting(n, s) => e == Disconnect(s) || Purges(e, s) || Joins(sw, e, n, s)
    case Network(n) => e == DelNet(n)
    case Access(n, uuid) => Deletes(e, n, uuid) || e == DelNet(n)
    case Member(n, s) => Leaves(e, n, s)
    case Forwards(n, s) => Leaves(e, n, s) || Purges(e, s)
    case Entry(n, _, s) => Leaves(e, n, s)
    case Link(n, s, peer) => Leaves(e, n, s) || Leaves(e, n, peer)
  }

  /** What one event does to a fact. */
  lemma FactNext<S>(sw: Switch<S>, e: Event<S>, f: Fact<S>)
    requires Inv(sw) && Enabled(sw, e)
    ensures Holds(Next(sw, e).0, f) <==> Starts(sw, e, f) || (Holds(sw, f) && !Ends(sw, e, f))
  {
    hide Inv, Enabled, Next, Exists, Allowed, Listed, Active, Maps, LinkedIn, Joins, Teaches, Joining, Leaves;
    match f
    case Connected(s) => ConnectedNext(sw, e, s);
    case Newcomer(s) => NewcomerNext(sw, e, s);
    case Waiting(n, s) => WaitingNext(sw, e, n, s);
    case Network(n) => ExistsNext(sw, e, n);
    case Access(n, uuid) => AllowedNext(sw, e, n, uuid);
    case Member(n, s) => ListedNext(sw, e, n, s);
    case Forwards(n, s) => ActiveNext(sw, e, n, s);
    case Entry(n, mac, s) => MapsNext(sw, e, n, mac, s);
    case Link(n, s, peer) => LinkedNext(sw, e, n, s, peer);
  }

  // ---------- whole runs ----------

  ghost predicate StartsAt<S>(events: seq<Event<S>>, j: nat, f: Fact<S>) {
    j < |events| && Starts(StateAt(events, j), events[j], f)
  }

  /** No event after `j` and before `i` ends the fact. */
  ghost predicate Lasts<S>(events: seq<Event<S>>, j: nat, i: nat, f: Fact<S>) {
    i <= |events| && forall k: nat :: j < k < i ==> !Ends(StateAt(events, k), events[k], f)
  }

  lemma LastsMore<S>(events: seq<Event<S>>, j: nat, i: nat, f: Fact<S>)
    requires j < i < |events|
    ensures Lasts(events, j, i + 1, f) <==> Lasts(events, j, i, f) && !Ends(StateAt(events, i), events[i], f)
  {
    hide Ends;
  }

  lemma FactAt<S>(events: seq<Event<S>>, i: nat, f: Fact<S>)
    requires Run(events) && i < |events|
    ensures Holds(StateAt(events, i + 1), f) <==>
      StartsAt(events, i, f) || (Holds(StateAt(events, i), f) && !Ends(StateAt(events, i), events[i], f))
  {
    hide Inv, Enabled, Next, Holds, Starts, Ends;
    InvAlways(events, i);
    NextState(events, i);
    FactNext(StateAt(events, i), events[i], f);
  }

  lemma NothingYet<S>(f: Fact<S>)
    ensures !Holds(Switch(map[], map[]), f)
  {
  }

  /** In every run the switch is what the events before have made it: a fact is true exactly when an
      event has made it true and none has ended it since. */
  lemma {:induction false} History<S>(events: seq<Event<S>>, i: nat, f: Fact<S>)
    requires Run(events) && i <= |events|
    ensures Holds(StateAt(events, i), f) <==> exists j: nat :: j < i && StartsAt(events, j, f) && Lasts(events, j, i, f)
    decreases i
  {
    hide Run, Holds, StartsAt, Lasts, Ends;
    if i == 0 {
      NothingYet(f);
    } else {
      History(events, i - 1, f);
      FactAt(events, i - 1, f);
      forall j: nat | j < i - 1
        ensures Lasts(events, j, i, f) <==>
          Lasts(events, j, i - 1, f) && !Ends(StateAt(events, i - 1), events[i - 1], f)
      {
        LastsMore(events, j, i - 1, f);
      }
      LastsOne(events, i, f);
    }
  }

  lemma LastsOne<S>(events: seq<Event<S>>, i: nat, f: Fact<S>)
    requires 0 < i <= |events|
    ensures Lasts(events, i - 1, i, f)
  {
  }

  // ---------- what follows for frames and answers ----------

  /** Once session `s` has taught an address, a frame to it from another owner of the network goes to
      `s` alone, until it leaves or the network is deleted. */
  lemma LearnedUnicast<S>(events: seq<Event<S>>, j: nat, i: nat, n: string, m: Mac, s: S)
    requires Run(events) && j < i < |events|
    requires StartsAt(events, j, Entry(n, m, s)) && Lasts(events, j, i, Entry(n, m, s))
    requires events[i].Input? && Active(StateAt(events, i), n, events[i].s) && events[i].frame.dst == m && Station(m)
    ensures n in StateAt(events, i).nets
    ensures var net, frame := StateAt(events, i).nets[n], events[i].frame;
      OwnerOf(net, events[i].s, frame, frame.src) != {s} ==>
      forall r :: r in net.list ==> Copies(SentAt(events, i), r, frame) == if r == s then 1 else 0
  {
    hide Run, Starts, Ends, Inv, Known, Next, Copies, Joined, Station;
    History(events, i, Entry(n, m, s));
    RunDeliveries(events, i);
  }

  /** Whatever is sent on account of a frame goes to sessions of the sender's network that have joined it
      with a node its access table had, and not left since. */
  lemma AdmittedOnly<S>(events: seq<Event<S>>, i: nat, n: string, x: Send<S>)
    requires Run(events) && i < |events| && events[i].Input? && x in SentAt(events, i)
    requires events[i].s in StateAt(events, i).sessions && StateAt(events, i).sessions[events[i].s].net == Some(n)
    ensures exists j: nat ::
      j < i && StartsAt(events, j, Member(n, x.to)) && Lasts(events, j, i, Member(n, x.to))
  {
    hide Run, Starts, Ends, Inv, Next, HasPassed;
    Isolation(events, i, x);
    History(events, i, Member(n, x.to));
  }

  /** A session whose node has been deleted has no frame forwarded until it is gone. */
  lemma PurgedSilent<S>(events: seq<Event<S>>, j: nat, i: nat, s: S)
    requires Run(events) && j < i < |events| && Purges(events[j], s) && events[j].network in StateAt(events, j).nets
    requires events[i].Input? && events[i].s == s && forall k :: j < k < i ==> events[k] != Disconnect(s)
    ensures SentAt(events, i) == []
  {
    hide Run, Enabled, Next, Inv;
    StaysPurged(events, j, i, s);
    InvAlways(events, i);
    hide StateAt;
    Silent(StateAt(events, i), events[i]);
  }

  lemma Silent<S>(sw: Switch<S>, e: Event<S>)
    requires e.Input? && e.s in sw.sessions && sw.sessions[e.s].state == Purge
    ensures Next(sw, e).1 == []
  {
  }

  lemma {:induction false} StaysPurged<S>(events: seq<Event<S>>, j: nat, i: nat, s: S)
    requires Run(events) && j < i <= |events| && Purges(events[j], s) && events[j].network in StateAt(events, j).nets
    requires forall k :: j < k < i ==> events[k] != Disconnect(s)
    ensures s in StateAt(events, i).sessions && StateAt(events, i).sessions[s].state == Purge
    decreases i
  {
    hide Run, Enabled, Next, Inv;
    NextState(events, i - 1);
    InvAlways(events, i - 1);
    if j < i - 1 { StaysPurged(events, j, i - 1, s); }
    hide StateAt;
    PurgeNext(StateAt(events, i - 1), events[i - 1], s);
  }

  lemma PurgeNext<S>(sw: Switch<S>, e: Event<S>, s: S)
    requires Inv(sw) && Enabled(sw, e)
    requires (Purges(e, s) && e.network in sw.nets) ||
             (s in sw.sessions && sw.sessions[s].state == Purge && e != Disconnect(s))
    ensures s in Next(sw, e).0.sessions && Next(sw, e).0.sessions[s].state == Purge
  {
    hide NetInv, Known, OwnersListed, Forward, AddSession, DropSession;
  }

  /** Requests and step-ups are answered to the session alone: it is asked to step up exactly when it
      then waits, told of success exactly when it joins, and of failure exactly when it is new and asks
      for an unknown network, or waits and its node is not in the access table. */
  lemma Answers<S>(sw: Switch<S>, e: Event<S>, s: S)
    requires Inv(sw) && Enabled(sw, e)
    ensures Send(s, SecureStepUp) in Next(sw, e).1 <==> exists n :: Asks(sw, e, n, s)
    ensures Send(s, AuthResponse(true)) in Next(sw, e).1 <==> exists n :: Joins(sw, e, n, s)
    ensures Send(s, AuthResponse(false)) in Next(sw, e).1 <==> Refused(sw, e, s)
    ensures !e.Input? ==> |Next(sw, e).1| <= 1
  {
    hide NetInv, Known, OwnersListed, AddSession, DropSession, Forward, ListedOk;
    if s in sw.sessions { assert SessionOk(sw, s); }
    if e.Input? {
      FramesOnly(sw, e, Send(s, SecureStepUp));
      FramesOnly(sw, e, Send(s, AuthResponse(true)));
      FramesOnly(sw, e, Send(s, AuthResponse(false)));
    }
    if e.AuthRequest? && e.wanted.Some? && Exists(sw, e.wanted.value) && sw.sessions[e.s].state == NotAuthed {
      assert Asks(sw, e, e.wanted.value, e.s);
    }
    if e.StepUp? && Passes(sw, e.s, e.cert) { assert Joins(sw, e, sw.sessions[e.s].net.value, e.s); }
  }

  ghost predicate Refused<S>(sw: Switch<S>, e: Event<S>, s: S) {
    s in sw.sessions &&
    ((e.AuthRequest? && e.s == s && sw.sessions[s].state == NotAuthed && e.wanted.Some? &&
      !Exists(sw, e.wanted.value)) ||
     (e.StepUp? && e.s == s && sw.sessions[s].state == WaitStepup && e.cert.Some? && sw.sessions[s].net.Some? &&
      !Allowed(sw, sw.sessions[s].net.value, e.cert.value)))
  }

  lemma FramesOnly<S>(sw: Switch<S>, e: Event<S>, x: Send<S>)
    requires Inv(sw) && Enabled(sw, e) && e.Input?
    ensures x in Next(sw, e).1 ==> x.msg.Ethernet? || x.msg.P2pRequest?
  {
    hide NetInv, Known, OwnersListed, Forward, Delivered;
    if sw.sessions[e.s].state == Authed {
      assert SessionOk(sw, e.s);
      NetsInv(sw, sw.sessions[e.s].net.value);
      Deliveries(NetOf(sw, e.s), e.s, e.frame);
    }
  }
}
