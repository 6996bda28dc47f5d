/** The switch as a step machine over whole runs: connections, authentication, step-up,
    frames, disconnections, and the controller's changes to networks and access tables. */
module SwitchRuns {
  import opened Wrappers
  import opened NetworkSpec

  datatype State = NotAuthed | WaitStepup | Authed | Purge

  /** A connected session and the network it asked for. */
  datatype Session = Session(state: State, net: Option<string>)

  datatype Switch<S> = Switch(nets: map<string, Net<S>>, sessions: map<S, Session>)

  datatype Event<S> =
    | Connect(s: S)
    | AuthRequest(s: S, wanted: Option<string>)   // the network named in the request, if it can be parsed
    | StepUp(s: S, cert: Option<string>)           // the node uuid in the peer certificate, if any
    | Input(s: S, frame: Frame)
    | Disconnect(s: S)
    | AddAccess(network: string, uuid: string)
    | DelNode(network: string, uuid: string, victim: Option<S>)
    | CreateNet(network: string)
    | DelNet(network: string)

  ghost function EmptyNet<S>(): Net<S> {
    Net([], map[], map[], {}, 0, {}, map[], {})
  }

  /** One event: the new state and the messages sent. */
  ghost function Next<S>(sw: Switch<S>, e: Event<S>): (Switch<S>, seq<Send<S>>) {
    match e
    case Connect(s) =>
      (sw.(sessions := sw.sessions[s := Session(NotAuthed, None)]), [])
    case AuthRequest(s, network) =>
      if s !in sw.sessions || sw.sessions[s].state != NotAuthed || network.None? then (sw, [])
      else if network.value !in sw.nets then
        (sw.(sessions := sw.sessions[s := Session(NotAuthed, None)]), [Send(s, AuthResponse(false))])
      else
        (sw.(sessions := sw.sessions[s := Session(WaitStepup, network)]), [Send(s, SecureStepUp)])
    case StepUp(s, cert) =>
      if s !in sw.sessions || sw.sessions[s].state != WaitStepup || cert.None? || !InNet(sw, s) then (sw, [])
      else if !Passes(sw, s, cert) then (sw, [Send(s, AuthResponse(false))])
      else
        var n := sw.sessions[s].net.value;
        (Switch(sw.nets[n := AddSession(sw.nets[n], s)], sw.sessions[s := Session(Authed, Some(n))]),
         [Send(s, AuthResponse(true))])
    case Input(s, frame) =>
      if s !in sw.sessions || sw.sessions[s].state != Authed || !InNet(sw, s) || !Known(NetOf(sw, s), s) then (sw, [])
      else
        var (net, out) := Forward(NetOf(sw, s), s, frame);
        (sw.(nets := sw.nets[sw.sessions[s].net.value := net]), out)
    case Disconnect(s) =>
      if s !in sw.sessions || sw.sessions[s].state == NotAuthed || !InNet(sw, s) then
        (sw.(sessions := sw.sessions - {s}), [])
      else
        var net := if Known(NetOf(sw, s), s) then DropSession(NetOf(sw, s), s) else DropUnlisted(NetOf(sw, s));
        (Switch(sw.nets[sw.sessions[s].net.value := net], sw.sessions - {s}), [])
    case AddAccess(n, uuid) =>
      if n !in sw.nets then (sw, [])
      else (sw.(nets := sw.nets[n := sw.nets[n].(atable := sw.nets[n].atable + {uuid})]), [])
    case DelNode(n, uuid, victim) =>
      if n !in sw.nets then (sw, [])
      else
        var sw' := sw.(nets := sw.nets[n := sw.nets[n].(atable := sw.nets[n].atable - {uuid})]);
        if victim.None? || victim.value !in sw.sessions then (sw', [])
        else (sw'.(sessions := sw.sessions[victim.value := sw.sessions[victim.value].(state := Purge)]), [])
    case CreateNet(n) =>
      if n in sw.nets then (sw, []) else (sw.(nets := sw.nets[n := EmptyNet()]), [])
    case DelNet(n) =>
      if n !in sw.nets then (sw, [])
      else
        (Switch(sw.nets - {n},
                map s | s in sw.sessions :: if s in sw.nets[n].list then Session(Purge, None) else sw.sessions[s]), [])
  }

  ghost predicate InNet<S>(sw: Switch<S>, s: S)
    requires s in sw.sessions
  {
    sw.sessions[s].net.Some? && sw.sessions[s].net.value in sw.nets
  }

  ghost function NetOf<S>(sw: Switch<S>, s: S): Net<S>
    requires s in sw.sessions && InNet(sw, s)
  {
    sw.nets[sw.sessions[s].net.value]
  }

  /** The access-table check of on_secure. */
  ghost predicate Passes<S>(sw: Switch<S>, s: S, cert: Option<string>)
    requires s in sw.sessions
  {
    sw.sessions[s].state == WaitStepup && InNet(sw, s) && cert.Some? && cert.value in NetOf(sw, s).atable
  }

  /** What the events of the surrounding program respect. */
  ghost predicate Enabled<S>(sw: Switch<S>, e: Event<S>) {
    match e
    case Connect(s) => s !in sw.sessions
    case AuthRequest(s, _) => s in sw.sessions
    case StepUp(s, cert) => s in sw.sessions && (Passes(sw, s, cert) ==> |NetOf(sw, s).list| < MAX_NODE)
    case Input(s, _) => s in sw.sessions
    case Disconnect(s) =>
      s in sw.sessions && (sw.sessions[s].state == NotAuthed || !InNet(sw, s) || s in NetOf(sw, s).list)
    case AddAccess(_, _) => true
    case DelNode(n, _, victim) =>
      victim.Some? ==> victim.value in sw.sessions && sw.sessions[victim.value].net == Some(n)
    case CreateNet(_) => true
    case DelNet(n) =>
      n in sw.nets ==> forall s :: s in sw.sessions && sw.sessions[s].net == Some(n) ==> s in sw.nets[n].list
  }

  ghost predicate NetsOk<S>(sw: Switch<S>) {
    forall n :: n in sw.nets ==> NetInv(sw.nets[n])
  }

  /** A listed session belongs to the one network that lists it, and has passed step-up. */
  ghost predicate ListedOk<S>(sw: Switch<S>) {
    forall n, s :: n in sw.nets && s in sw.nets[n].list ==>
      s in sw.sessions && sw.sessions[s].net == Some(n) &&
      (sw.sessions[s].state == Authed || sw.sessions[s].state == Purge)
  }

  ghost predicate SessionOk<S>(sw: Switch<S>, s: S)
    requires s in sw.sessions
  {
    match sw.sessions[s].state
    case NotAuthed => sw.sessions[s].net == None
    case WaitStepup => InNet(sw, s)
    case Authed => InNet(sw, s) && s in NetOf(sw, s).list
    case Purge => sw.sessions[s].net == None || InNet(sw, s)
  }

  ghost predicate Inv<S>(sw: Switch<S>) {
    NetsOk(sw) && ListedOk(sw) && forall s :: s in sw.sessions ==> SessionOk(sw, s)
  }

  lemma ListedKnown<S>(net: Net<S>, s: S)
    requires NetInv(net)
    ensures s in net.list ==> Known(net, s)
    ensures Known(net, s) ==> s in net.list
  {
    OwnersAreListed(net);
  }

  /** Every enabled event keeps the invariant. */
  lemma NextKeeps<S>(sw: Switch<S>, e: Event<S>)
    requires Inv(sw) && Enabled(sw, e)
    ensures Inv(Next(sw, e).0)
  {
    hide NetInv, Known, OwnersListed, AddSession, DropSession, Forward;
    match e
    case Connect(s) =>
    case AuthRequest(s, network) =>
    case StepUp(s, cert) => StepUpKeeps(sw, s, cert);
    case Input(s, frame) => InputKeeps(sw, s, frame);
    case Disconnect(s) => DisconnectKeeps(sw, s);
    case AddAccess(n, uuid) => if n in sw.nets { AccessKeeps(sw, n, sw.nets[n].atable + {uuid}, sw.sessions); }
    case DelNode(n, uuid, victim) =>
      if n in sw.nets { AccessKeeps(sw, n, sw.nets[n].atable - {uuid}, Next(sw, e).0.sessions); }
    case CreateNet(n) => EmptyNetInv<S>();
    case DelNet(n) => DelNetKeeps(sw, n);
  }

  /** Changing an access table, and possibly marking sessions to be purged. */
  lemma AccessKeeps<S>(sw: Switch<S>, n: string, atable: set<string>, sessions: map<S, Session>)
    requires Inv(sw) && n in sw.nets && sessions.Keys == sw.sessions.Keys
    requires forall s :: s in sessions ==>
      sessions[s] == sw.sessions[s] || (sessions[s] == sw.sessions[s].(state := Purge) && InNet(sw, s))
    ensures Inv(Switch(sw.nets[n := sw.nets[n].(atable := atable)], sessions))
  {
    hide NetInv;
    AccessInv(sw.nets[n], atable);
    var sw' := Switch(sw.nets[n := sw.nets[n].(atable := atable)], sessions);
    assert forall m :: m in sw'.nets ==> sw'.nets[m].list == sw.nets[m].list;
    forall s | s in sw'.sessions
      ensures SessionOk(sw', s)
    {
      assert SessionOk(sw, s);
    }
  }

  lemma AccessInv<S>(net: Net<S>, atable: set<string>)
    requires NetInv(net)
    ensures NetInv(net.(atable := atable))
  {
  }

  lemma DelNetKeeps<S>(sw: Switch<S>, n: string)
    requires Inv(sw) && Enabled(sw, DelNet(n))
    ensures Inv(Next(sw, DelNet(n)).0)
  {
    hide NetInv;
  }

  lemma EmptyNetInv<S>()
    ensures NetInv<S>(EmptyNet())
  {
  }

  /** One network replaced and one session changed or gone: what is to be shown. */
  lemma ReplaceNet<S>(sw: Switch<S>, n: string, net: Net<S>, sessions: map<S, Session>, s: S)
    requires Inv(sw) && n in sw.nets && NetInv(net)
    requires s in sw.sessions && sw.sessions[s].net == Some(n)
    requires sessions.Keys <= sw.sessions.Keys && sw.sessions.Keys - {s} <= sessions.Keys
    requires forall r :: r in sessions && r != s ==> sessions[r] == sw.sessions[r]
    requires forall r :: r != s ==> (r in net.list <==> r in sw.nets[n].list)
    requires s in sessions ==> sessions[s] == Session(Authed, Some(n)) && s in net.list
    requires s !in sessions ==> s !in net.list
    ensures Inv(Switch(sw.nets[n := net], sessions))
  {
    hide NetInv;
    var sw' := Switch(sw.nets[n := net], sessions);
    assert NetsOk(sw');
    forall m, r | m in sw'.nets && r in sw'.nets[m].list
      ensures r in sw'.sessions && sw'.sessions[r].net == Some(m)
      ensures sw'.sessions[r].state == Authed || sw'.sessions[r].state == Purge
    {
      if r != s { assert r in sw.nets[m].list; }
      assert m != n ==> r in sw.nets[m].list;
    }
  }

  lemma AddedMembers<S>(net: Net<S>, s: S)
    ensures forall r :: r in AddSession(net, s).list <==> r == s || r in net.list
  {
    assert AddSession(net, s).list == [s] + net.list;
  }

  lemma DropMembers<S>(net: Net<S>, s: S)
    requires NetInv(net) && s in net.ids && s in net.macs
    ensures forall r :: r in DropSession(net, s).list <==> r in net.list && r != s
  {
    hide IdsOk, PoolOf, LinksOk, TableOk, Covers, Dropped, NoDup;
    DroppedMembers(net.list, s);
  }

  lemma StepUpKeeps<S>(sw: Switch<S>, s: S, cert: Option<string>)
    requires Inv(sw) && Enabled(sw, StepUp(s, cert))
    ensures Inv(Next(sw, StepUp(s, cert)).0)
  {
    hide NetInv, AddSession, Known, OwnersListed;
    if Passes(sw, s, cert) {
      var net, n := NetOf(sw, s), sw.sessions[s].net.value;
      assert s !in sw.nets[n].list;
      RoomForOne(net);
      AddKeeps(net, s);
      AddedMembers(net, s);
      ReplaceNet(sw, n, AddSession(net, s), sw.sessions[s := Session(Authed, Some(n))], s);
    }
  }

  lemma InputKeeps<S>(sw: Switch<S>, s: S, frame: Frame)
    requires Inv(sw) && s in sw.sessions
    ensures Inv(Next(sw, Input(s, frame)).0)
  {
    if sw.sessions[s].state == Authed {
      assert SessionOk(sw, s);
      ForwardKeeps(NetOf(sw, s), s, frame);
      ListedKnown(NetOf(sw, s), s);
      var n, net' := sw.sessions[s].net.value, Forward(NetOf(sw, s), s, frame).0;
      hide NetInv, Forward, Known, OwnersListed, Inv;
      ReplaceNet(sw, n, net', sw.sessions, s);
    }
  }

  lemma DisconnectKeeps<S>(sw: Switch<S>, s: S)
    requires Inv(sw) && Enabled(sw, Disconnect(s))
    ensures Inv(Next(sw, Disconnect(s)).0)
  {
    hide NetInv, DropSession, Known, OwnersListed;
    if InNet(sw, s) && s in NetOf(sw, s).list {
      var n, net := sw.sessions[s].net.value, NetOf(sw, s);
      DropKeeps(net, s);
      ListedKnown(net, s);
      DropMembers(net, s);
      assert sw.sessions[s].state != NotAuthed;
      ReplaceNet(sw, n, DropSession(net, s), sw.sessions - {s}, s);
    } else {
      assert !InNet(sw, s);
      assert forall n :: n in sw.nets ==> s !in sw.nets[n].list;
    }
  }

  /** The two conditions on step-ups and disconnections are exact: without them the invariant is lost. */
  lemma StepUpExactly<S>(sw: Switch<S>, s: S, cert: Option<string>)
    requires Inv(sw) && s in sw.sessions
    ensures Inv(Next(sw, StepUp(s, cert)).0) <==> Enabled(sw, StepUp(s, cert))
  {
    if Enabled(sw, StepUp(s, cert)) {
      StepUpKeeps(sw, s, cert);
    } else {
      var n := sw.sessions[s].net.value;
      assert s !in sw.nets[n].list;
      AddKeepsExactly(sw.nets[n], s);
      hide NetInv, AddSession, ListedOk;
      assert Next(sw, StepUp(s, cert)).0.nets[n] == AddSession(sw.nets[n], s);
    }
  }

  lemma DisconnectExactly<S>(sw: Switch<S>, s: S)
    requires Inv(sw) && s in sw.sessions
    ensures Inv(Next(sw, Disconnect(s)).0) <==> Enabled(sw, Disconnect(s))
  {
    if Enabled(sw, Disconnect(s)) {
      DisconnectKeeps(sw, s);
    } else {
      var n := sw.sessions[s].net.value;
      ListedKnown(sw.nets[n], s);
      DropUnlistedBreaks(sw.nets[n]);
      hide NetInv, DropUnlisted, ListedOk, Known;
      assert Next(sw, Disconnect(s)).0.nets[n] == DropUnlisted(sw.nets[n]);
    }
  }

  /** Deleting a network keeps the invariant exactly when none of its sessions is unlisted. */
  lemma DelNetExactly<S>(sw: Switch<S>, n: string)
    requires Inv(sw)
    ensures Inv(Next(sw, DelNet(n)).0) <==> Enabled(sw, DelNet(n))
  {
    if Enabled(sw, DelNet(n)) {
      DelNetKeeps(sw, n);
    } else {
      var s :| s in sw.sessions && sw.sessions[s].net == Some(n) && s !in sw.nets[n].list;
      assert SessionOk(sw, s);
      hide NetInv, ListedOk, NetsOk;
      assert !SessionOk(Next(sw, DelNet(n)).0, s);
    }
  }

  // ---------- whole runs ----------

  ghost function StateAt<S>(events: seq<Event<S>>, i: nat): Switch<S>
    requires i <= |events|
  {
    if i == 0 then Switch(map[], map[]) else Next(StateAt(events, i - 1), events[i - 1]).0
  }

  /** What is sent in answer to event `i`. */
  ghost function SentAt<S>(events: seq<Event<S>>, i: nat): seq<Send<S>>
    requires i < |events|
  {
    Next(StateAt(events, i), events[i]).1
  }

  ghost predicate Run<S>(events: seq<Event<S>>) {
    forall i :: 0 <= i < |events| ==> Enabled(StateAt(events, i), events[i])
  }

  lemma StartInv<S>()
    ensures Inv<S>(Switch(map[], map[]))
  {
  }

  /** Every state of every run satisfies the invariant. */
  lemma {:induction false} InvAlways<S>(events: seq<Event<S>>, i: nat)
    requires Run(events) && i <= |events|
    ensures Inv(StateAt(events, i))
  {
    hide Next, Enabled, Inv;
    if i == 0 {
      StartInv<S>();
    } else {
      InvAlways(events, i - 1);
      NextKeeps(StateAt(events, i - 1), events[i - 1]);
    }
  }

  /** Event `j` is the step-up by which `r` passed the access-table check of network `n`. */
  ghost predicate PassedAt<S>(events: seq<Event<S>>, j: nat, r: S, n: string) {
    j < |events| && events[j].StepUp? && events[j].s == r &&
    var sw := StateAt(events, j);
    r in sw.sessions && sw.sessions[r].net == Some(n) && Passes(sw, r, events[j].cert)
  }

  /** Since event `j` and before event `i`, neither `r` has left nor has network `n` been deleted. */
  ghost predicate Undisturbed<S>(events: seq<Event<S>>, j: nat, i: nat, r: S, n: string) {
    i <= |events| && forall k :: j < k < i ==> events[k] != Disconnect(r) && events[k] != DelNet(n)
  }

  ghost predicate HasPassed<S>(events: seq<Event<S>>, i: nat, r: S, n: string) {
    exists j: nat :: j < i && PassedAt(events, j, r, n) && Undisturbed(events, j, i, r, n)
  }

  ghost predicate Listed<S>(sw: Switch<S>, n: string, r: S) {
    n in sw.nets && r in sw.nets[n].list
  }

  /** A session is listed after an event only if it was before, or has just passed the check. */
  lemma NewlyListed<S>(sw: Switch<S>, e: Event<S>, n: string, r: S)
    requires Inv(sw) && Enabled(sw, e) && Listed(Next(sw, e).0, n, r)
    ensures (Listed(sw, n, r) && e != Disconnect(r) && e != DelNet(n)) ||
            (e.StepUp? && e.s == r && r in sw.sessions && sw.sessions[r].net == Some(n) && Passes(sw, r, e.cert))
  {
    hide NetInv, Forward, Known, OwnersListed, AddSession, DropSession;
    match e
    case Input(s, frame) => InputLists(sw, s, frame, n, r);
    case StepUp(s, cert) => StepUpLists(sw, s, cert, n, r);
    case Disconnect(s) => DisconnectLists(sw, s, n, r);
    case _ =>
  }

  lemma InputLists<S>(sw: Switch<S>, s: S, frame: Frame, n: string, r: S)
    requires Inv(sw) && s in sw.sessions && Listed(Next(sw, Input(s, frame)).0, n, r)
    ensures Listed(sw, n, r)
  {
    if sw.sessions[s].state == Authed {
      assert SessionOk(sw, s);
      ForwardKeeps(NetOf(sw, s), s, frame);
    }
    hide NetInv, Forward, Known, OwnersListed, Inv;
  }

  lemma StepUpLists<S>(sw: Switch<S>, s: S, cert: Option<string>, n: string, r: S)
    requires s in sw.sessions && Listed(Next(sw, StepUp(s, cert)).0, n, r)
    ensures Listed(sw, n, r) || (r == s && sw.sessions[s].net == Some(n) && Passes(sw, s, cert))
  {
    if Passes(sw, s, cert) {
      assert AddSession(NetOf(sw, s), s).list == [s] + NetOf(sw, s).list;
    }
  }

  lemma DisconnectLists<S>(sw: Switch<S>, s: S, n: string, r: S)
    requires Inv(sw) && Enabled(sw, Disconnect(s)) && Listed(Next(sw, Disconnect(s)).0, n, r)
    ensures Listed(sw, n, r) && r != s
  {
    hide NetInv, Known, OwnersListed, DropSession;
    if InNet(sw, s) && s in NetOf(sw, s).list {
      ListedKnown(NetOf(sw, s), s);
      DropMembers(NetOf(sw, s), s);
    }
  }

  lemma {:induction false} ListedHasPassed<S>(events: seq<Event<S>>, i: nat, n: string, r: S)
    requires Run(events) && i <= |events| && Listed(StateAt(events, i), n, r)
    ensures HasPassed(events, i, r, n)
  {
    hide Inv, Next, Enabled, Passes;
    if i > 0 {
      var sw, e := StateAt(events, i - 1), events[i - 1];
      InvAlways(events, i - 1);
      NewlyListed(sw, e, n, r);
      if Listed(sw, n, r) && e != Disconnect(r) && e != DelNet(n) {
        ListedHasPassed(events, i - 1, n, r);
        var j: nat :| j < i - 1 && PassedAt(events, j, r, n) && Undisturbed(events, j, i - 1, r, n);
        assert Undisturbed(events, j, i, r, n);
      } else {
        assert PassedAt(events, i - 1, r, n) && Undisturbed(events, i - 1, i, r, n);
      }
    }
  }

  /** Tenant isolation over every run: whatever is sent on account of a frame goes to sessions
      listed in the sender's own network, each of which passed that network's access-table check
      and has stayed connected since. */
  lemma Isolation<S>(events: seq<Event<S>>, i: nat, x: Send<S>)
    requires Run(events) && i < |events| && events[i].Input? && x in SentAt(events, i)
    ensures var sw, s := StateAt(events, i), events[i].s;
      s in sw.sessions && sw.sessions[s].state == Authed && sw.sessions[s].net.Some? &&
      Listed(sw, sw.sessions[s].net.value, x.to) && HasPassed(events, i, x.to, sw.sessions[s].net.value)
  {
    var sw, s := StateAt(events, i), events[i].s;
    InvAlways(events, i);
    assert SessionOk(sw, s);
    Deliveries(NetOf(sw, s), s, events[i].frame);
    ListedHasPassed(events, i, sw.sessions[s].net.value, x.to);
  }

  /** In every run a frame of an authenticated session is delivered by the table of its network:
      once to the known owner, to nobody when that is the sender's own owner, else once to all. */
  lemma RunDeliveries<S>(events: seq<Event<S>>, i: nat)
    requires Run(events) && i < |events| && events[i].Input?
    ensures var sw, s, frame := StateAt(events, i), events[i].s, events[i].frame;
      s in sw.sessions &&
      (sw.sessions[s].state != Authed ==> SentAt(events, i) == []) &&
      (sw.sessions[s].state == Authed ==>
        InNet(sw, s) && Known(NetOf(sw, s), s) &&
        var net := NetOf(sw, s);
        var src, dst := OwnerOf(net, s, frame, frame.src), OwnerOf(net, s, frame, frame.dst);
        Delivered(net.list, src, dst, Joined(net, src, dst), frame, SentAt(events, i)))
  {
    var sw, s := StateAt(events, i), events[i].s;
    InvAlways(events, i);
    if sw.sessions[s].state == Authed {
      assert SessionOk(sw, s);
      Deliveries(NetOf(sw, s), s, events[i].frame);
      ListedKnown(NetOf(sw, s), s);
    }
    hide NetInv, Delivered, Forward, Inv;
  }

  /** In every run, once a listed session has disconnected, no table, list or link refers to it. */
  lemma RunForgets<S>(events: seq<Event<S>>, i: nat, n: string)
    requires Run(events) && i < |events| && events[i].Disconnect? && Listed(StateAt(events, i), n, events[i].s)
    ensures var s, was, now := events[i].s, StateAt(events, i), StateAt(events, i + 1);
      s !in now.sessions && n in now.nets && s !in now.nets[n].list && s in was.nets[n].ids &&
      (forall m :: m in now.nets[n].ftable ==> now.nets[n].ftable[m] != s) &&
      (forall p :: p in now.nets[n].links ==> p.0 != was.nets[n].ids[s] && p.1 != was.nets[n].ids[s]) &&
      BitOf(was.nets[n].ids[s]) !in now.nets[n].bits
  {
    var s, was := events[i].s, StateAt(events, i);
    InvAlways(events, i);
    assert was.sessions[s].net == Some(n) && NetOf(was, s) == was.nets[n];
    DropKeeps(was.nets[n], s);
    ListedKnown(was.nets[n], s);
    assert events[..i + 1][i] == events[i];
    hide NetInv, Known, OwnersListed;
  }

  // ---------- introductions ----------

  ghost predicate LinkedIn<S>(sw: Switch<S>, n: string, q: S, r: S) {
    Listed(sw, n, q) && Listed(sw, n, r) && Linked(sw.nets[n], q, r)
  }

  /** Sessions stay joined while both stay and their network is not deleted. */
  lemma LinkedKeeps<S>(sw: Switch<S>, e: Event<S>, n: string, q: S, r: S)
    requires Inv(sw) && Enabled(sw, e) && LinkedIn(sw, n, q, r)
    requires e != Disconnect(q) && e != Disconnect(r) && e != DelNet(n)
    ensures LinkedIn(Next(sw, e).0, n, q, r)
  {
    hide NetInv, Forward, Known, OwnersListed, AddSession, DropSession;
    match e
    case Input(s, frame) => InputLinked(sw, s, frame, n, q, r);
    case StepUp(s, cert) => StepUpLinked(sw, s, cert, n, q, r);
    case Disconnect(s) => DisconnectLinked(sw, s, n, q, r);
    case _ =>
  }

  lemma InputLinked<S>(sw: Switch<S>, s: S, frame: Frame, n: string, q: S, r: S)
    requires Inv(sw) && s in sw.sessions && LinkedIn(sw, n, q, r)
    ensures LinkedIn(Next(sw, Input(s, frame)).0, n, q, r)
  {
    hide NetInv, Forward, Known, OwnersListed, Linked, ListedOk, NetsOk;
    if sw.sessions[s].state == Authed {
      assert SessionOk(sw, s);
      NetsInv(sw, sw.sessions[s].net.value);
      ForwardKeeps(NetOf(sw, s), s, frame);
      ForwardLinks(NetOf(sw, s), s, frame, q, r);
    }
  }

  lemma StepUpLinked<S>(sw: Switch<S>, s: S, cert: Option<string>, n: string, q: S, r: S)
    requires Inv(sw) && s in sw.sessions && LinkedIn(sw, n, q, r)
    ensures LinkedIn(Next(sw, StepUp(s, cert)).0, n, q, r)
  {
    hide NetInv;
    if Passes(sw, s, cert) {
      assert q != s && r != s;
      assert AddSession(NetOf(sw, s), s).list == [s] + NetOf(sw, s).list;
    }
  }

  lemma DisconnectLinked<S>(sw: Switch<S>, s: S, n: string, q: S, r: S)
    requires Inv(sw) && Enabled(sw, Disconnect(s)) && LinkedIn(sw, n, q, r) && q != s && r != s
    ensures LinkedIn(Next(sw, Disconnect(s)).0, n, q, r)
  {
    hide NetInv, Known, OwnersListed, DropSession, Linked;
    if InNet(sw, s) && s in NetOf(sw, s).list {
      var net := NetOf(sw, s);
      ListedKnown(net, s);
      if sw.sessions[s].net == Some(n) { DropLinked(net, s, q, r); }
    }
  }

  /** Session `q` is told of session `r` at event `i`. */
  ghost predicate Introduces<S>(events: seq<Event<S>>, i: nat, q: S, r: S) {
    i < |events| && Send(q, P2pRequest(r)) in SentAt(events, i)
  }

  lemma NetsInv<S>(sw: Switch<S>, n: string)
    requires Inv(sw) && n in sw.nets
    ensures NetInv(sw.nets[n])
  {
    hide NetInv;
  }

  lemma IntroductionJoins<S>(sw: Switch<S>, e: Event<S>, q: S, r: S)
    requires Inv(sw) && Enabled(sw, e) && Send(q, P2pRequest(r)) in Next(sw, e).1
    ensures e.Input? && e.s in sw.sessions && sw.sessions[e.s].net.Some?
    ensures var n := sw.sessions[e.s].net.value;
      Listed(sw, n, q) && Listed(sw, n, r) && !LinkedIn(sw, n, q, r) && LinkedIn(Next(sw, e).0, n, q, r)
  {
    hide NetInv, Forward, Known, OwnersListed, AddSession, DropSession, DropUnlisted, Linked, NetsOk, ListedOk;
    var net := NetOf(sw, e.s);
    assert SessionOk(sw, e.s);
    NetsInv(sw, sw.sessions[e.s].net.value);
    IntroductionLinks(net, e.s, e.frame, q, r);
    ForwardKeeps(net, e.s, e.frame);
  }

  lemma NextState<S>(events: seq<Event<S>>, i: nat)
    requires Run(events) && i < |events|
    ensures StateAt(events, i + 1) == Next(StateAt(events, i), events[i]).0 && Enabled(StateAt(events, i), events[i])
  {
    hide Next, Enabled;
  }

  lemma {:induction false} LinkedUntil<S>(events: seq<Event<S>>, i: nat, j: nat, n: string, q: S, r: S)
    requires Run(events) && i <= j <= |events| && LinkedIn(StateAt(events, i), n, q, r)
    requires forall k :: i <= k < j ==>
      events[k] != Disconnect(q) && events[k] != Disconnect(r) && events[k] != DelNet(n)
    ensures LinkedIn(StateAt(events, j), n, q, r)
  {
    hide Inv, Enabled, LinkedIn, Run, StateAt;
    if i < j {
      NextState(events, j - 1);
      LinkedUntil(events, i, j - 1, n, q, r);
      InvAlways(events, j - 1);
      LinkedKeeps(StateAt(events, j - 1), events[j - 1], n, q, r);
    }
  }

  /** In every run two sessions are introduced at most once while both stay connected and their
      network lasts. */
  lemma IntroducedOnce<S>(events: seq<Event<S>>, i: nat, j: nat, q: S, r: S)
    requires Run(events) && i < j && Introduces(events, i, q, r) && Introduces(events, j, q, r)
    ensures exists k, n ::
      i < k < j && Listed(StateAt(events, i), n, q) && Listed(StateAt(events, i), n, r) &&
      (events[k] == Disconnect(q) || events[k] == Disconnect(r) || events[k] == DelNet(n))
  {
    hide Inv, Run, Introduces, Enabled, StateAt, LinkedIn, Listed;
    var n := IntroducedIn(events, i, q, r);
    var m := IntroducedIn(events, j, q, r);
    if forall k :: i < k < j ==> events[k] != Disconnect(q) && events[k] != Disconnect(r) && events[k] != DelNet(n) {
      LinkedUntil(events, i + 1, j, n, q, r);
      InvAlways(events, j);
      OneNetwork(StateAt(events, j), n, m, q, r);
      assert false;
    }
  }

  /** The network in which the introduction of event `i` joins the two. */
  lemma IntroducedIn<S>(events: seq<Event<S>>, i: nat, q: S, r: S) returns (n: string)
    requires Run(events) && Introduces(events, i, q, r)
    ensures i < |events| && Listed(StateAt(events, i), n, q) && Listed(StateAt(events, i), n, r)
    ensures !LinkedIn(StateAt(events, i), n, q, r) && LinkedIn(StateAt(events, i + 1), n, q, r)
  {
    hide Inv, Enabled, Next, LinkedIn, Listed;
    InvAlways(events, i);
    IntroductionJoins(StateAt(events, i), events[i], q, r);
    n := StateAt(events, i).sessions[events[i].s].net.value;
  }

  /** A session is listed by one network only. */
  lemma OneNetwork<S>(sw: Switch<S>, n: string, m: string, q: S, r: S)
    requires Inv(sw) && LinkedIn(sw, n, q, r) && Listed(sw, m, q)
    ensures m == n
  {
    hide NetInv;
    assert q in sw.nets[n].list && q in sw.nets[m].list;
    assert sw.sessions[q].net == Some(n);
  }

  // ---------- runs that lose the invariant ----------

  ghost function End<S>(events: seq<Event<S>>): Switch<S> {
    StateAt(events, |events|)
  }

  lemma {:induction false} StateOfPrefix<S>(events: seq<Event<S>>, more: seq<Event<S>>, i: nat)
    requires i <= |events|
    ensures StateAt(events + more, i) == StateAt(events, i)
  {
    if i > 0 { StateOfPrefix(events, more, i - 1); }
  }

  lemma RunAppend<S>(events: seq<Event<S>>, e: Event<S>)
    ensures End(events + [e]) == Next(End(events), e).0
    ensures Run(events) && Enabled(End(events), e) ==> Run(events + [e])
  {
    hide Next, Enabled;
    forall i | 0 <= i <= |events| { StateOfPrefix(events, [e], i); }
  }

  /** What three events make of the empty switch. */
  lemma AskedState<S>(s: S, n: string)
    ensures var none: Switch<S> := Switch(map[], map[]);
      var created := Next(none, CreateNet(n)).0;
      var connected := Next(created, Connect(s)).0;
      var asked := Next(connected, AuthRequest(s, Some(n))).0;
      Enabled(none, CreateNet(n)) && Enabled(created, Connect(s)) && Enabled(connected, AuthRequest(s, Some(n))) &&
      s in asked.sessions && !Enabled(asked, Disconnect(s)) && !Enabled(asked, DelNet(n))
  {
  }

  /** A client that asks for a network and leaves before its step-up breaks the network, and so does
      deleting the network while the client waits. */
  lemma WaitingBreaks<S>(s: S, n: string)
    ensures Run([CreateNet(n), Connect(s), AuthRequest(s, Some(n))])
    ensures !Inv(End([CreateNet(n), Connect(s), AuthRequest(s, Some(n)), Disconnect(s)]))
    ensures !Inv(End([CreateNet(n), Connect(s), AuthRequest(s, Some(n)), DelNet(n)]))
  {
    hide Inv, Next, Enabled, Run;
    var none: seq<Event<S>> := [];
    var asked := [CreateNet(n), Connect(s), AuthRequest(s, Some(n))];
    AskedState(s, n);
    RunOfNone<S>();
    RunAppend(none, CreateNet(n));
    RunAppend([CreateNet(n)], Connect(s));
    RunAppend([CreateNet(n), Connect(s)], AuthRequest(s, Some(n)));
    RunAppend(asked, Disconnect(s));
    RunAppend(asked, DelNet(n));
    assert none + [CreateNet(n)] == [CreateNet(n)];
    assert [CreateNet(n)] + [Connect(s)] == [CreateNet(n), Connect(s)];
    assert [CreateNet(n), Connect(s)] + [AuthRequest(s, Some(n))] == asked;
    assert asked + [Disconnect(s)] == [CreateNet(n), Connect(s), AuthRequest(s, Some(n)), Disconnect(s)];
    assert asked + [DelNet(n)] == [CreateNet(n), Connect(s), AuthRequest(s, Some(n)), DelNet(n)];
    InvAlways(asked, |asked|);
    DisconnectExactly(End(asked), s);
    DelNetExactly(End(asked), n);
  }

  lemma RunOfNone<S>()
    ensures Run<S>([]) && End<S>([]) == Switch(map[], map[])
  {
  }

  /** The sessions 1 to `k` join network `n` one after the other, all as node `u`. */
  ghost function Fill(n: string, u: string, k: nat): seq<Event<nat>> {
    if k == 0 then [CreateNet(n), AddAccess(n, u)]
    else Fill(n, u, k - 1) + [Connect(k)] + [AuthRequest(k, Some(n))] + [StepUp(k, Some(u))]
  }

  ghost predicate Filled(sw: Switch<nat>, n: string, u: string, k: nat) {
    n in sw.nets && u in sw.nets[n].atable && |sw.nets[n].list| == k && forall s :: s in sw.sessions ==> s <= k
  }

  /** What one session more does to a network filled so far. */
  lemma JoinStep(sw: Switch<nat>, n: string, u: string, k: nat)
    requires Filled(sw, n, u, k)
    ensures Enabled(sw, Connect(k + 1))
    ensures var c := Next(sw, Connect(k + 1)).0;
      Enabled(c, AuthRequest(k + 1, Some(n))) &&
      var a := Next(c, AuthRequest(k + 1, Some(n))).0;
      k + 1 in a.sessions && (Enabled(a, StepUp(k + 1, Some(u))) <==> k < MAX_NODE) &&
      Filled(Next(a, StepUp(k + 1, Some(u))).0, n, u, k + 1)
  {
    hide AddSession, InNet, Passes, DropSession, Forward;
    var c: Switch<nat> := Next(sw, Connect(k + 1)).0;
    var a: Switch<nat> := Next(c, AuthRequest(k + 1, Some(n))).0;
    assert a.sessions[k + 1] == Session(WaitStepup, Some(n)) && a.nets == sw.nets;
    WaitsIn(a, k + 1, n, u);
    ListGrows(a.nets[n], k + 1);
    assert NetOf(a, k + 1) == a.nets[n];
  }

  lemma WaitsIn<S>(sw: Switch<S>, s: S, n: string, u: string)
    requires s in sw.sessions && sw.sessions[s] == Session(WaitStepup, Some(n))
    requires n in sw.nets && u in sw.nets[n].atable
    ensures InNet(sw, s) && Passes(sw, s, Some(u))
  {
  }

  lemma ListGrows<S>(net: Net<S>, s: S)
    ensures |AddSession(net, s).list| == |net.list| + 1 && AddSession(net, s).atable == net.atable
  {
    assert AddSession(net, s).list == [s] + net.list;
  }

  lemma FillStep(n: string, u: string, k: nat)
    requires Run(Fill(n, u, k)) && Filled(End(Fill(n, u, k)), n, u, k)
    ensures var asked := Fill(n, u, k) + [Connect(k + 1)] + [AuthRequest(k + 1, Some(n))];
      Run(asked) && asked + [StepUp(k + 1, Some(u))] == Fill(n, u, k + 1) &&
      k + 1 in End(asked).sessions && (Enabled(End(asked), StepUp(k + 1, Some(u))) <==> k < MAX_NODE) &&
      Filled(Next(End(asked), StepUp(k + 1, Some(u))).0, n, u, k + 1)
  {
    hide Run, StateAt, Next, Enabled, Filled, End;
    var filled := Fill(n, u, k);
    JoinStep(End(filled), n, u, k);
    RunAppend(filled, Connect(k + 1));
    RunAppend(filled + [Connect(k + 1)], AuthRequest(k + 1, Some(n)));
  }

  lemma FillStart(n: string, u: string)
    ensures Run(Fill(n, u, 0)) && Filled(End(Fill(n, u, 0)), n, u, 0)
  {
    var none, created: seq<Event<nat>> := [], [CreateNet(n)];
    RunAppend(none, CreateNet(n));
    RunAppend(created, AddAccess(n, u));
    assert none + [CreateNet(n)] == created && created + [AddAccess(n, u)] == Fill(n, u, 0);
  }

  lemma {:induction false} FillRuns(n: string, u: string, k: nat)
    requires k <= MAX_NODE
    ensures Run(Fill(n, u, k)) && Filled(End(Fill(n, u, k)), n, u, k)
  {
    hide Filled, Run, Enabled, Next, End, Fill;
    if k == 0 {
      FillStart(n, u);
    } else {
      FillRuns(n, u, k - 1);
      FillStep(n, u, k - 1);
      RunAppend(Fill(n, u, k - 1) + [Connect(k)] + [AuthRequest(k, Some(n))], StepUp(k, Some(u)));
    }
  }

  /** The run in which one session more than a network can hold joins it: every event but the last
      is enabled, and the last loses the invariant. */
  lemma OverfullBreaks(n: string, u: string)
    ensures var events := Fill(n, u, MAX_NODE + 1);
      events != [] && Run(events[..|events| - 1]) && !Inv(End(events))
  {
    hide Filled, Run, Enabled, Next, Inv;
    FillRuns(n, u, MAX_NODE);
    FillStep(n, u, MAX_NODE);
    var asked := Fill(n, u, MAX_NODE) + [Connect(MAX_NODE + 1)] + [AuthRequest(MAX_NODE + 1, Some(n))];
    var last := StepUp(MAX_NODE + 1, Some(u));
    assert (asked + [last])[..|asked + [last]| - 1] == asked;
    RunAppend(asked, last);
    InvAlways(asked, |asked|);
    StepUpExactly(End(asked), MAX_NODE + 1, Some(u));
  }
}
