/** Any number of nodes gossiping their preferences. A published preference is copied to every other
    node; each copy may be delivered, in or out of order, or lost. A receiver overwrites what it has
    for the sender (`makeShardPrefHandler` in `shardmanager.go`). */
module Network {
  import opened Common
  import opened Bitset
  import opened PrefTable
  import opened Topics
  import opened NodeModel
  import Runs = NodeRuns

  datatype Packet = Packet(number: nat, bits: Bytes)

  datatype Pair = Pair(from: PeerID, to: PeerID)

  /** The sender's preferences under way, and how many publications the sender had made up to the one
      that the receiver's entry came from. */
  datatype Link = Link(packets: seq<Packet>, newest: nat)

  /** `unannounced` are the nodes whose last change of preference could not be published. */
  datatype Net = Net(nodes: map<PeerID, NodeState>, links: map<Pair, Link>, unannounced: set<PeerID>)

  datatype Event =
    | Local(peer: PeerID, call: Call)
    | Deliver(pair: Pair, position: nat)
    | Lose(pair: Pair, position: nat)

  predicate IsLocal(call: Call) {
    call.Listen? || call.Unlisten?
  }

  function Without(packets: seq<Packet>, k: nat): seq<Packet> {
    if k < |packets| then packets[..k] + packets[k + 1..] else packets
  }

  function Broadcast(links: map<Pair, Link>, from: PeerID, packet: Packet): map<Pair, Link> {
    map l | l in links :: if l.from == from then links[l].(packets := links[l].packets + [packet]) else links[l]
  }

  /** The network after node `peer` went from `before` to `after`. */
  function NodeMoved(net: Net, peer: PeerID, before: NodeState, after: NodeState): Net {
    var n := net.(nodes := net.nodes[peer := after]);
    if |after.wire| > |before.wire| then
      n.(links := Broadcast(net.links, peer, Packet(|before.wire|, after.wire[|before.wire|])),
         unannounced := net.unannounced - {peer})
    else if after.table != before.table then n.(unannounced := net.unannounced + {peer})
    else n
  }

  function Delivered(net: Net, l: Pair, k: nat): Net
    requires l in net.links && l.to in net.nodes && k < |net.links[l].packets|
  {
    var packet := net.links[l].packets[k];
    net.(nodes := net.nodes[l.to := ReceivePreference(net.nodes[l.to], l.from, packet.bits)],
         links := net.links[l := Link(Without(net.links[l].packets, k), packet.number + 1)])
  }

  function Lost(net: Net, l: Pair, k: nat): Net
    requires l in net.links
  {
    net.(links := net.links[l := net.links[l].(packets := Without(net.links[l].packets, k))])
  }

  function Next(net: Net, e: Event): Net {
    match e
    case Local(p, call) =>
      if p in net.nodes && IsLocal(call) then NodeMoved(net, p, net.nodes[p], Step(net.nodes[p], call).0) else net
    case Deliver(l, k) =>
      if l in net.links && l.to in net.nodes && k < |net.links[l].packets| then Delivered(net, l, k) else net
    case Lose(l, k) =>
      if l in net.links then Lost(net, l, k) else net
  }

  function Run(net: Net, events: seq<Event>): Net {
    if events == [] then net else Next(Run(net, events[..|events| - 1]), events[|events| - 1])
  }

  // ---------------------------------------------------------------- starting point and honesty

  /** Links join two different nodes. */
  ghost predicate Links(net: Net) {
    forall l | l in net.links :: l.from in net.nodes && l.to in net.nodes && l.from != l.to
  }

  ghost predicate FullyLinked(net: Net) {
    forall p, q | p in net.nodes && q in net.nodes && p != q :: Pair(p, q) in net.links
  }

  ghost predicate Init(net: Net) {
    && (forall p | p in net.nodes :: net.nodes[p].self == p && Fresh(net.nodes[p]))
    && Links(net) && FullyLinked(net)
    && (forall l | l in net.links :: net.links[l] == Link([], 0))
    && net.unannounced == {}
  }

  /** A node's own calls do not panic it. */
  ghost predicate HonestEvent(net: Net, e: Event) {
    e.Local? && IsLocal(e.call) && e.peer in net.nodes ==> HonestCall(net.nodes[e.peer], e.call)
  }

  ghost predicate HonestEvents(net: Net, events: seq<Event>) {
    events == []
    || (HonestEvents(net, events[..|events| - 1])
        && HonestEvent(Run(net, events[..|events| - 1]), events[|events| - 1]))
  }

  /** Packets of one publisher reach one receiver in the order of publication, if at all. */
  ghost predicate InOrder(events: seq<Event>) {
    forall i | 0 <= i < |events| && events[i].Deliver? :: events[i].position == 0
  }

  // ---------------------------------------------------------------- invariants

  ghost predicate NodesValid(net: Net) {
    forall p | p in net.nodes :: ValidNode(net.nodes[p]) && net.nodes[p].self == p
  }

  ghost predicate WellFormedWire(wire: seq<Bytes>) {
    forall i | 0 <= i < |wire| :: WellFormed(wire[i])
  }

  ghost predicate WiresWellFormed(net: Net) {
    forall p | p in net.nodes :: WellFormedWire(net.nodes[p].wire)
  }

  /** Everything under way is something its sender published. */
  ghost predicate Genuine(packets: seq<Packet>, wire: seq<Bytes>) {
    forall i | 0 <= i < |packets| :: packets[i].number < |wire| && packets[i].bits == wire[packets[i].number]
  }

  ghost predicate PacketsGenuine(net: Net)
    requires Links(net)
  {
    forall l | l in net.links :: Genuine(net.links[l].packets, net.nodes[l.from].wire)
  }

  /** An entry for another node is the publication it is counted as; none counted, no entry. */
  ghost predicate EntryGenuine(from: PeerID, newest: nat, table: Table, wire: seq<Bytes>) {
    if newest == 0 then from !in table
    else newest <= |wire| && from in table && table[from] == wire[newest - 1]
  }

  ghost predicate EntriesGenuine(net: Net)
    requires Links(net)
  {
    forall l | l in net.links ::
      EntryGenuine(l.from, net.links[l].newest, net.nodes[l.to].table, net.nodes[l.from].wire)
  }

  ghost predicate OnlyNodesKnown(net: Net) {
    forall p | p in net.nodes :: net.nodes[p].table.Keys <= net.nodes.Keys
  }

  ghost function Announced(n: NodeState): Bytes {
    if n.wire == [] then EMPTY else n.wire[|n.wire| - 1]
  }

  /** A node stands by its last publication unless its last change could not be published. */
  ghost predicate AnnouncementsCurrent(net: Net) {
    forall p | p in net.nodes && p !in net.unannounced :: Own(net.nodes[p]) == Announced(net.nodes[p])
  }

  // ---------------------------------------------------------------- one step, node by node and link by link

  /** What a local call may do to its node: only the own entry moves, and it is published at most once. */
  ghost predicate LocalMove(n: NodeState, after: NodeState) {
    && after.self == n.self
    && after.table.Keys <= n.table.Keys + {n.self}
    && (forall p | p != n.self :: p in after.table <==> p in n.table)
    && (forall p | p != n.self && p in n.table :: after.table[p] == n.table[p])
    && (after.wire == n.wire || (after.wire == n.wire + [Own(after)] && WellFormed(Own(after))))
  }

  lemma AdvertiseMoves(n: NodeState, shardID: int, publishOk: bool)
    requires ValidNode(n) && IsInt64(shardID)
    ensures LocalMove(n, Advertise(n, shardID, publishOk).0)
  {
    AdvertiseActsOnTarget(n, shardID, publishOk);
  }

  lemma LocalCallMoves(n: NodeState, call: Call)
    requires ValidNode(n) && HonestCall(n, call) && IsLocal(call)
    ensures LocalMove(n, Step(n, call).0)
  {
    AdvertiseMoves(n, call.shardID, call.env.publishOk);
    var advertised, after := Advertise(n, call.shardID, call.env.publishOk).0, Step(n, call).0;
    assert after == n
           || (after.self == advertised.self && after.table == advertised.table && after.wire == advertised.wire);
  }

  /** The call that an event amounts to at a node, if any. */
  ghost function CallAt(net: Net, e: Event, p: PeerID): Option<Call> {
    match e
    case Local(r, call) => if p == r && IsLocal(call) then Some(call) else None
    case Deliver(l, k) =>
      if l in net.links && l.to == p && k < |net.links[l].packets|
      then Some(Receive(l.from, net.links[l].packets[k].bits))
      else None
    case Lose(_, _) => None
  }

  lemma NextNode(net: Net, e: Event, p: PeerID)
    requires Links(net) && p in net.nodes
    ensures p in Next(net, e).nodes
    ensures Next(net, e).nodes[p] ==
            if CallAt(net, e, p).Some? then Step(net.nodes[p], CallAt(net, e, p).value).0 else net.nodes[p]
  {
  }

  lemma NextShape(net: Net, e: Event)
    requires Links(net)
    ensures Next(net, e).nodes.Keys == net.nodes.Keys && Next(net, e).links.Keys == net.links.Keys
    ensures Links(Next(net, e))
  {
  }

  /** Number of publications a link's sender makes in an event: none or one. */
  ghost predicate Publishes(net: Net, e: Event, p: PeerID) {
    e.Local? && e.peer == p && p in net.nodes && IsLocal(e.call)
    && |Step(net.nodes[p], e.call).0.wire| > |net.nodes[p].wire|
  }

  ghost function LinkAt(net: Net, e: Event, l: Pair): Link
    requires Links(net) && l in net.links
  {
    var link := net.links[l];
    if Publishes(net, e, l.from) then
      var before, after := net.nodes[l.from], Step(net.nodes[l.from], e.call).0;
      link.(packets := link.packets + [Packet(|before.wire|, after.wire[|before.wire|])])
    else if e.Deliver? && e.pair == l && e.position < |link.packets| then
      Link(Without(link.packets, e.position), link.packets[e.position].number + 1)
    else if e.Lose? && e.pair == l then link.(packets := Without(link.packets, e.position))
    else link
  }

  lemma NextLink(net: Net, e: Event, l: Pair)
    requires Links(net) && l in net.links
    ensures l in Next(net, e).links && Next(net, e).links[l] == LinkAt(net, e, l)
  {
  }

  /** What a node's own call does to the network: the node goes where the call takes it, and if the call
      publishes, one copy of its preference sets out to every node that it is linked to. */
  lemma LocalEvent(net: Net, p: PeerID, call: Call)
    requires Links(net) && p in net.nodes && (call.Listen? || call.Unlisten?)
    ensures var after, next := Step(net.nodes[p], call).0, Next(net, Local(p, call));
            && next.nodes == net.nodes[p := after]
            && next.links.Keys == net.links.Keys
            && forall l | l in net.links ::
                 next.links[l] == if l.from == p && Announces(net.nodes[p], call)
                                  then Link(net.links[l].packets + [Packet(|net.nodes[p].wire|, Own(after))],
                                            net.links[l].newest)
                                  else net.links[l]
  {
    AnnouncesOnce(net.nodes[p], call);
    forall l | l in net.links ensures l in Next(net, Local(p, call)).links { NextLink(net, Local(p, call), l); }
  }

  /** What reaches a node through the network is honest. */
  lemma CallAtHonest(net: Net, e: Event, p: PeerID)
    requires Links(net) && NodesValid(net) && WiresWellFormed(net) && PacketsGenuine(net)
    requires HonestEvent(net, e) && p in net.nodes && CallAt(net, e, p).Some?
    ensures HonestCall(net.nodes[p], CallAt(net, e, p).value)
  {
    if e.Deliver? {
      var l, k := e.pair, e.position;
      assert Genuine(net.links[l].packets, net.nodes[l.from].wire);
      assert WellFormedWire(net.nodes[l.from].wire);
    }
  }

  lemma NodeMoves(net: Net, e: Event, p: PeerID)
    requires Links(net) && NodesValid(net) && WiresWellFormed(net) && PacketsGenuine(net)
    requires HonestEvent(net, e) && p in net.nodes
    ensures p in Next(net, e).nodes && Next(net, e).nodes[p].self == p && ValidNode(Next(net, e).nodes[p])
    ensures WellFormedWire(Next(net, e).nodes[p].wire)
    ensures Next(net, e).nodes[p].wire ==
            if Publishes(net, e, p) then net.nodes[p].wire + [Own(Next(net, e).nodes[p])] else net.nodes[p].wire
  {
    NextNode(net, e, p);
    assert WellFormedWire(net.nodes[p].wire);
    if CallAt(net, e, p).Some? {
      var call := CallAt(net, e, p).value;
      CallAtHonest(net, e, p);
      Runs.StepKeepsValid(net.nodes[p], call);
      if IsLocal(call) {
        LocalCallMoves(net.nodes[p], call);
      }
    }
  }

  lemma NodesStep(net: Net, e: Event)
    requires Links(net) && NodesValid(net) && WiresWellFormed(net) && PacketsGenuine(net) && HonestEvent(net, e)
    ensures NodesValid(Next(net, e)) && WiresWellFormed(Next(net, e))
  {
    NextShape(net, e);
    forall p | p in net.nodes { NodeMoves(net, e, p); }
  }

  lemma StillGenuine(packets: seq<Packet>, wire: seq<Bytes>, k: nat, bits: Bytes)
    requires Genuine(packets, wire)
    ensures Genuine(Without(packets, k), wire)
    ensures Genuine(packets + [Packet(|wire|, bits)], wire + [bits])
  {
  }

  lemma LinkPackets(net: Net, e: Event, l: Pair)
    requires Links(net) && NodesValid(net) && WiresWellFormed(net) && PacketsGenuine(net)
    requires HonestEvent(net, e) && l in net.links
    ensures l in Next(net, e).links && l.from in Next(net, e).nodes
    ensures Genuine(Next(net, e).links[l].packets, Next(net, e).nodes[l.from].wire)
  {
    assert Genuine(net.links[l].packets, net.nodes[l.from].wire);
    NextLink(net, e, l);
    NextNode(net, e, l.from);
    NodeMoves(net, e, l.from);
    StillGenuine(net.links[l].packets, net.nodes[l.from].wire, if e.Local? then 0 else e.position,
                 Own(Next(net, e).nodes[l.from]));
  }

  lemma PacketsStep(net: Net, e: Event)
    requires Links(net) && NodesValid(net) && WiresWellFormed(net) && PacketsGenuine(net) && HonestEvent(net, e)
    ensures Links(Next(net, e)) && PacketsGenuine(Next(net, e))
  {
    NextShape(net, e);
    forall l | l in net.links { LinkPackets(net, e, l); }
  }

  /** Where a node's entry for another comes from after an event. */
  lemma EntryMoves(net: Net, e: Event, l: Pair)
    requires Links(net) && NodesValid(net) && WiresWellFormed(net) && PacketsGenuine(net)
    requires HonestEvent(net, e) && l in net.links
    ensures l.to in Next(net, e).nodes
    ensures var table, table' := net.nodes[l.to].table, Next(net, e).nodes[l.to].table;
            if e.Deliver? && e.pair == l && e.position < |net.links[l].packets|
            then l.from in table' && table'[l.from] == net.links[l].packets[e.position].bits
            else (l.from in table' <==> l.from in table) && (l.from in table ==> table'[l.from] == table[l.from])
  {
    NextNode(net, e, l.to);
    if CallAt(net, e, l.to).Some? && IsLocal(CallAt(net, e, l.to).value) {
      CallAtHonest(net, e, l.to);
      LocalCallMoves(net.nodes[l.to], e.call);
    }
  }

  lemma EntryStays(from: PeerID, newest: nat, table: Table, table': Table, wire: seq<Bytes>, wire': seq<Bytes>)
    requires EntryGenuine(from, newest, table, wire) && wire <= wire'
    requires (from in table' <==> from in table) && (from in table ==> table'[from] == table[from])
    ensures EntryGenuine(from, newest, table', wire')
  {
  }

  lemma EntryArrives(from: PeerID, packet: Packet, table': Table, wire: seq<Bytes>, wire': seq<Bytes>)
    requires packet.number < |wire| && packet.bits == wire[packet.number] && wire <= wire'
    requires from in table' && table'[from] == packet.bits
    ensures EntryGenuine(from, packet.number + 1, table', wire')
  {
  }

  lemma LinkEntry(net: Net, e: Event, l: Pair)
    requires Links(net) && NodesValid(net) && WiresWellFormed(net) && PacketsGenuine(net) && EntriesGenuine(net)
    requires HonestEvent(net, e) && l in net.links
    ensures l in Next(net, e).links && l.from in Next(net, e).nodes && l.to in Next(net, e).nodes
    ensures EntryGenuine(l.from, Next(net, e).links[l].newest, Next(net, e).nodes[l.to].table,
                         Next(net, e).nodes[l.from].wire)
  {
    var link, table, wire := net.links[l], net.nodes[l.to].table, net.nodes[l.from].wire;
    assert EntryGenuine(l.from, link.newest, table, wire);
    assert Genuine(link.packets, wire);
    NextLink(net, e, l);
    NodeMoves(net, e, l.from);
    EntryMoves(net, e, l);
    var table', wire' := Next(net, e).nodes[l.to].table, Next(net, e).nodes[l.from].wire;
    if e.Deliver? && e.pair == l && e.position < |link.packets| {
      EntryArrives(l.from, link.packets[e.position], table', wire, wire');
    } else {
      EntryStays(l.from, link.newest, table, table', wire, wire');
    }
  }

  lemma EntriesStep(net: Net, e: Event)
    requires Links(net) && NodesValid(net) && WiresWellFormed(net) && PacketsGenuine(net) && EntriesGenuine(net)
    requires HonestEvent(net, e)
    ensures Links(Next(net, e)) && EntriesGenuine(Next(net, e))
  {
    NextShape(net, e);
    forall l | l in net.links { LinkEntry(net, e, l); }
  }

  lemma NodeKnows(net: Net, e: Event, p: PeerID)
    requires Links(net) && NodesValid(net) && WiresWellFormed(net) && PacketsGenuine(net) && OnlyNodesKnown(net)
    requires HonestEvent(net, e) && p in net.nodes
    ensures p in Next(net, e).nodes && Next(net, e).nodes[p].table.Keys <= net.nodes.Keys
  {
    NextNode(net, e, p);
    if CallAt(net, e, p).Some? && IsLocal(CallAt(net, e, p).value) {
      CallAtHonest(net, e, p);
      LocalCallMoves(net.nodes[p], e.call);
    }
  }

  lemma KnowledgeStep(net: Net, e: Event)
    requires Links(net) && NodesValid(net) && WiresWellFormed(net) && PacketsGenuine(net) && OnlyNodesKnown(net)
    requires HonestEvent(net, e)
    ensures OnlyNodesKnown(Next(net, e))
  {
    NextShape(net, e);
    forall p | p in net.nodes { NodeKnows(net, e, p); }
  }

  lemma NextUnannounced(net: Net, e: Event, p: PeerID)
    requires Links(net) && p in net.nodes
    ensures p in Next(net, e).unannounced <==>
              if CallAt(net, e, p).Some? && IsLocal(CallAt(net, e, p).value) then
                var after := Step(net.nodes[p], e.call).0;
                |after.wire| <= |net.nodes[p].wire| && (after.table != net.nodes[p].table || p in net.unannounced)
              else p in net.unannounced
  {
  }

  lemma MoveAnnounces(n: NodeState, after: NodeState)
    requires LocalMove(n, after)
    ensures |after.wire| > |n.wire| ==> Own(after) == Announced(after)
    ensures |after.wire| <= |n.wire| && after.table == n.table ==>
            Own(after) == Own(n) && Announced(after) == Announced(n)
  {
  }

  lemma NodeAnnounces(net: Net, e: Event, p: PeerID)
    requires Links(net) && NodesValid(net) && WiresWellFormed(net) && PacketsGenuine(net) && AnnouncementsCurrent(net)
    requires HonestEvent(net, e) && p in net.nodes && p !in Next(net, e).unannounced
    ensures p in Next(net, e).nodes && Own(Next(net, e).nodes[p]) == Announced(Next(net, e).nodes[p])
  {
    NextNode(net, e, p);
    NextUnannounced(net, e, p);
    if CallAt(net, e, p).Some? {
      CallAtHonest(net, e, p);
      if e.Local? {
        LocalCallMoves(net.nodes[p], e.call);
        MoveAnnounces(net.nodes[p], Step(net.nodes[p], e.call).0);
      }
    }
  }

  lemma AnnouncementsStep(net: Net, e: Event)
    requires Links(net) && NodesValid(net) && WiresWellFormed(net) && PacketsGenuine(net) && AnnouncementsCurrent(net)
    requires HonestEvent(net, e)
    ensures AnnouncementsCurrent(Next(net, e))
  {
    NextShape(net, e);
    forall p | p in net.nodes && p !in Next(net, e).unannounced { NodeAnnounces(net, e, p); }
  }

  // ---------------------------------------------------------------- every run

  ghost predicate NetInv(net: Net) {
    && Links(net) && NodesValid(net) && WiresWellFormed(net) && PacketsGenuine(net)
    && EntriesGenuine(net) && OnlyNodesKnown(net) && AnnouncementsCurrent(net)
  }

  lemma InitInv(net: Net)
    requires Init(net)
    ensures NetInv(net)
  {
    forall p | p in net.nodes ensures ValidNode(net.nodes[p]) {
      Runs.FreshIsValid(net.nodes[p]);
    }
  }

  lemma {:induction false} InvStays(net: Net, events: seq<Event>)
    requires NetInv(net) && HonestEvents(net, events)
    ensures NetInv(Run(net, events))
    ensures Run(net, events).nodes.Keys == net.nodes.Keys && Run(net, events).links.Keys == net.links.Keys
  {
    if events == [] {
    } else {
      var before, e := Run(net, events[..|events| - 1]), events[|events| - 1];
      InvStays(net, events[..|events| - 1]);
      NextShape(before, e);
      NodesStep(before, e);
      PacketsStep(before, e);
      EntriesStep(before, e);
      KnowledgeStep(before, e);
      AnnouncementsStep(before, e);
    }
  }

  lemma RunKeepsInv(net: Net, events: seq<Event>)
    requires Init(net) && HonestEvents(net, events)
    ensures NetInv(Run(net, events))
    ensures Run(net, events).nodes.Keys == net.nodes.Keys && Run(net, events).links.Keys == net.links.Keys
  {
    InitInv(net);
    InvStays(net, events);
  }

  lemma {:induction false} RunConcat(net: Net, a: seq<Event>, b: seq<Event>)
    ensures Run(net, a + b) == Run(Run(net, a), b)
    ensures HonestEvents(net, a + b) <==> HonestEvents(net, a) && HonestEvents(Run(net, a), b)
  {
    if b == [] {
      assert a + b == a;
    } else {
      RunConcat(net, a, b[..|b| - 1]);
      assert (a + b)[..|a + b| - 1] == a + b[..|b| - 1];
    }
  }

  lemma WireStep(net: Net, e: Event, p: PeerID)
    requires NetInv(net) && HonestEvent(net, e) && p in net.nodes
    ensures p in Next(net, e).nodes
    ensures if Publishes(net, e, p) then |Next(net, e).nodes[p].wire| == |net.nodes[p].wire| + 1
            else Next(net, e).nodes[p].wire == net.nodes[p].wire
    ensures net.nodes[p].wire <= Next(net, e).nodes[p].wire
  {
    NodeMoves(net, e, p);
  }

  lemma {:induction false} WireGrows(net: Net, events: seq<Event>, p: PeerID)
    requires NetInv(net) && HonestEvents(net, events) && p in net.nodes
    ensures p in Run(net, events).nodes && net.nodes[p].wire <= Run(net, events).nodes[p].wire
  {
    if events == [] {
    } else {
      var pre := events[..|events| - 1];
      WireGrows(net, pre, p);
      InvStays(net, pre);
      WireStep(Run(net, pre), events[|events| - 1], p);
    }
  }

  /** One link of a network in any state that honest nodes reach. */
  lemma LinkInv(net: Net, events: seq<Event>, l: Pair) returns (end: Net)
    requires Init(net) && HonestEvents(net, events) && l in net.links
    ensures end == Run(net, events) && l in end.links && l.from in end.nodes && l.to in end.nodes
    ensures Genuine(end.links[l].packets, end.nodes[l.from].wire)
    ensures EntryGenuine(l.from, end.links[l].newest, end.nodes[l.to].table, end.nodes[l.from].wire)
    ensures l.from !in end.unannounced ==> Own(end.nodes[l.from]) == Announced(end.nodes[l.from])
  {
    RunKeepsInv(net, events);
    end := Run(net, events);
  }

  /** Counted from one. */
  ghost predicate IsSnapshot(bits: Bytes, wire: seq<Bytes>, nth: nat) {
    0 < nth <= |wire| && wire[nth - 1] == bits
  }

  /** Replication safety: whatever is delivered, lost or reordered, what a node has for another is
      one of that node's publications, and before any delivery it has nothing. */
  lemma EntriesAreSnapshots(net: Net, events: seq<Event>, l: Pair) returns (end: Net)
    requires Init(net) && HonestEvents(net, events) && l in net.links
    ensures end == Run(net, events) && l in end.links && l.from in end.nodes && l.to in end.nodes
    ensures l.from in end.nodes[l.to].table <==> end.links[l].newest > 0
    ensures l.from in end.nodes[l.to].table ==>
              IsSnapshot(end.nodes[l.to].table[l.from], end.nodes[l.from].wire, end.links[l].newest)
  {
    end := LinkInv(net, events, l);
  }

  /** Everything that honest nodes hold or send is thirteen bytes with clear padding, so testing a
      received preference never runs off its end. */
  lemma ReceivedIsTestable(net: Net, events: seq<Event>)
    requires Init(net) && HonestEvents(net, events)
    ensures var end := Run(net, events);
            && (forall q, p | q in end.nodes && p in end.nodes[q].table ::
                  WellFormed(end.nodes[q].table[p]) && forall s :: 0 <= s ==> Testable(end.nodes[q].table[p], s))
            && (forall l | l in end.links :: forall i | 0 <= i < |end.links[l].packets| ::
                  WellFormed(end.links[l].packets[i].bits))
  {
    RunKeepsInv(net, events);
    var end := Run(net, events);
    forall l, i | l in end.links && 0 <= i < |end.links[l].packets| ensures WellFormed(end.links[l].packets[i].bits) {
      assert Genuine(end.links[l].packets, end.nodes[l.from].wire);
      assert WellFormedWire(end.nodes[l.from].wire);
    }
    forall q, p, s | q in end.nodes && p in end.nodes[q].table && 0 <= s ensures Testable(end.nodes[q].table[p], s) {
      HasBitIsMembership(end.nodes[q].table[p], s);
    }
  }

  // ---------------------------------------------------------------- in-order delivery

  /** Under way: only publications newer than the one delivered last, in order. */
  ghost predicate Newer(link: Link) {
    && (forall i | 0 <= i < |link.packets| :: link.newest <= link.packets[i].number)
    && (forall i, j | 0 <= i < j < |link.packets| :: link.packets[i].number < link.packets[j].number)
  }

  lemma WithoutAt(packets: seq<Packet>, k: nat, i: nat)
    requires i < |Without(packets, k)|
    ensures Without(packets, k)[i] == packets[if i < k then i else i + 1]
  {
  }

  lemma NewerWithout(link: Link, k: nat, newest: nat)
    requires Newer(link)
    requires newest == link.newest || (k == 0 && link.packets != [] && newest == link.packets[0].number + 1)
    ensures Newer(Link(Without(link.packets, k), newest))
  {
    forall i | 0 <= i < |Without(link.packets, k)|
      ensures Without(link.packets, k)[i] == link.packets[if i < k then i else i + 1]
    {
      WithoutAt(link.packets, k, i);
    }
  }

  lemma NewerAppended(link: Link, wire: seq<Bytes>, bits: Bytes)
    requires Newer(link) && Genuine(link.packets, wire) && link.newest <= |wire|
    ensures Newer(link.(packets := link.packets + [Packet(|wire|, bits)]))
  {
  }

  lemma LinkStaysNewer(net: Net, e: Event, l: Pair)
    requires Links(net) && l in net.links && Newer(net.links[l])
    requires Genuine(net.links[l].packets, net.nodes[l.from].wire) && net.links[l].newest <= |net.nodes[l.from].wire|
    requires e.Deliver? ==> e.position == 0
    ensures l in Next(net, e).links && Newer(Next(net, e).links[l])
    ensures net.links[l].newest <= Next(net, e).links[l].newest
  {
    NextLink(net, e, l);
    var link, wire := net.links[l], net.nodes[l.from].wire;
    if Publishes(net, e, l.from) {
      NewerAppended(link, wire, Step(net.nodes[l.from], e.call).0.wire[|wire|]);
    } else if e.Deliver? && link.packets != [] {
      NewerWithout(link, 0, link.packets[0].number + 1);
    } else if e.Lose? {
      NewerWithout(link, e.position, link.newest);
    }
  }

  lemma {:induction false} RunInOrder(net: Net, events: seq<Event>, l: Pair)
    requires Init(net) && HonestEvents(net, events) && InOrder(events) && l in net.links
    ensures l in Run(net, events).links && Newer(Run(net, events).links[l])
  {
    if events == [] {
    } else {
      RunInOrder(net, events[..|events| - 1], l);
      var before := LinkInv(net, events[..|events| - 1], l);
      RunKeepsInv(net, events[..|events| - 1]);
      LinkStaysNewer(before, events[|events| - 1], l);
    }
  }

  /** The publication that a link's receiver goes by after a run, counted from one. */
  ghost function NewestAfter(net: Net, events: seq<Event>, l: Pair): nat {
    if l in Run(net, events).links then Run(net, events).links[l].newest else 0
  }

  lemma NewestGrows(net: Net, events: seq<Event>, l: Pair)
    requires Init(net) && HonestEvents(net, events) && InOrder(events) && l in net.links && events != []
    ensures NewestAfter(net, events[..|events| - 1], l) <= NewestAfter(net, events, l)
  {
    RunInOrder(net, events[..|events| - 1], l);
    RunKeepsInv(net, events[..|events| - 1]);
    var before := LinkInv(net, events[..|events| - 1], l);
    LinkStaysNewer(before, events[|events| - 1], l);
  }

  lemma {:induction false} NewestNeverFalls(net: Net, events: seq<Event>, earlier: nat, l: Pair)
    requires Init(net) && HonestEvents(net, events) && InOrder(events)
    requires earlier <= |events| && l in net.links
    ensures NewestAfter(net, events[..earlier], l) <= NewestAfter(net, events, l)
  {
    if earlier == |events| {
      assert events[..earlier] == events;
    } else {
      assert events[..|events| - 1][..earlier] == events[..earlier];
      NewestNeverFalls(net, events[..|events| - 1], earlier, l);
      NewestGrows(net, events, l);
    }
  }

  /** With in-order delivery a node's entry for another never goes back in that node's history, nor
      disappears: entries at two moments are two of its publications, the earlier one no later. */
  lemma EntriesNeverGoBack(net: Net, events: seq<Event>, earlier: nat, l: Pair) returns (early: Net, end: Net)
    requires Init(net) && HonestEvents(net, events) && InOrder(events)
    requires earlier <= |events| && l in net.links
    ensures early == Run(net, events[..earlier]) && end == Run(net, events)
    ensures l in early.links && l.to in early.nodes && l in end.links && l.from in end.nodes && l.to in end.nodes
    ensures early.links[l].newest <= end.links[l].newest
    ensures l.from in early.nodes[l.to].table ==>
              && l.from in end.nodes[l.to].table
              && IsSnapshot(early.nodes[l.to].table[l.from], end.nodes[l.from].wire, early.links[l].newest)
              && IsSnapshot(end.nodes[l.to].table[l.from], end.nodes[l.from].wire, end.links[l].newest)
  {
    WireGrowsTo(net, events, earlier, l.from);
    early := EntriesAreSnapshots(net, events[..earlier], l);
    end := EntriesAreSnapshots(net, events, l);
    NewestNeverFalls(net, events, earlier, l);
  }

  lemma WireGrowsTo(net: Net, events: seq<Event>, earlier: nat, p: PeerID)
    requires Init(net) && HonestEvents(net, events) && earlier <= |events| && p in net.nodes
    ensures HonestEvents(net, events[..earlier])
    ensures p in Run(net, events[..earlier]).nodes && p in Run(net, events).nodes
    ensures Run(net, events[..earlier]).nodes[p].wire <= Run(net, events).nodes[p].wire
  {
    assert events[..earlier] + events[earlier..] == events;
    RunConcat(net, events[..earlier], events[earlier..]);
    RunKeepsInv(net, events[..earlier]);
    WireGrows(Run(net, events[..earlier]), events[earlier..], p);
  }

  // ---------------------------------------------------------------- convergence

  /** The receiver has the sender's latest publication, and the sender's latest change was published. */
  ghost predicate Current(net: Net, l: Pair)
    requires l.from in net.nodes && l in net.links
  {
    l.from !in net.unannounced && net.links[l].newest == |net.nodes[l.from].wire|
  }

  /** Once p's latest publication has reached q, and p's latest change was published, q's entry for p
      is p's own preference, byte for byte. */
  lemma CurrentMeansEqual(net: Net, events: seq<Event>, l: Pair)
    requires Init(net) && HonestEvents(net, events) && l in net.links
    requires l.from in Run(net, events).nodes && l in Run(net, events).links && Current(Run(net, events), l)
    ensures l.to in Run(net, events).nodes
    ensures BitsOf(Run(net, events).nodes[l.to].table, l.from) == Own(Run(net, events).nodes[l.from])
  {
    var end := LinkInv(net, events, l);
  }

  ghost predicate AllCurrent(net: Net) {
    forall l | l in net.links :: l.from in net.nodes && Current(net, l)
  }

  /** The same of the links that lead to one node. */
  ghost predicate CurrentAt(net: Net, q: PeerID) {
    forall l | l in net.links && l.to == q :: l.from in net.nodes && Current(net, l)
  }

  /** Looking an ID up in a node's own preference finds its bit set. */
  ghost predicate OwnBitSet(n: NodeState, shardID: int) {
    Testable(Own(n), shardID) && HasBit(Own(n), shardID)
  }

  /** Once everything is announced, and delivered to a node: what that node finds for a shard, itself
      left out, is exactly the other nodes that listen to it; for a negative ID, those that listen to
      the shard it leads to. */
  lemma QuietNetworkDiscovers(net: Net, events: seq<Event>, q: PeerID, shardID: int)
    requires Init(net) && HonestEvents(net, events) && q in net.nodes && CurrentAt(Run(net, events), q)
    ensures q in Run(net, events).nodes
    ensures PeersInShard(Run(net, events).nodes[q].table, shardID) - {q}
         == set p | p in Run(net, events).nodes && p != q && OwnBitSet(Run(net, events).nodes[p], shardID)
    ensures 0 <= shardID ==> forall p | p in Run(net, events).nodes ::
              OwnBitSet(Run(net, events).nodes[p], shardID) <==> IsShardListened(Run(net, events).nodes[p], shardID)
  {
    RunShape(net, events);
    var end := Run(net, events);
    forall p | p in net.nodes && p != q
      ensures p in PeersInShard(end.nodes[q].table, shardID) <==> OwnBitSet(end.nodes[p], shardID)
    {
      CurrentMeansEqual(net, events, Pair(p, q));
      NoBitInEmpty(shardID);
    }
    OnlyNodesFound(net, events, q);
    forall p | p in net.nodes && 0 <= shardID
      ensures OwnBitSet(end.nodes[p], shardID) <==> IsShardListened(end.nodes[p], shardID)
    {
      OwnIsWellFormed(net, events, p);
      HasBitIsMembership(Own(end.nodes[p]), shardID);
    }
  }

  lemma NoBitInEmpty(shardID: int)
    ensures Testable(EMPTY, shardID) ==> !HasBit(EMPTY, shardID)
  {
    EmptyHasNoShards();
    ActsOnTarget(EMPTY, shardID);
  }

  lemma OwnIsWellFormed(net: Net, events: seq<Event>, p: PeerID)
    requires Init(net) && HonestEvents(net, events) && p in net.nodes
    ensures p in Run(net, events).nodes && WellFormed(Own(Run(net, events).nodes[p]))
  {
    RunKeepsInv(net, events);
    EmptyHasNoShards();
  }

  lemma RunShape(net: Net, events: seq<Event>)
    requires Init(net) && HonestEvents(net, events)
    ensures Run(net, events).nodes.Keys == net.nodes.Keys && Run(net, events).links.Keys == net.links.Keys
  {
    RunKeepsInv(net, events);
  }

  lemma OnlyNodesFound(net: Net, events: seq<Event>, q: PeerID)
    requires Init(net) && HonestEvents(net, events) && q in net.nodes
    ensures q in Run(net, events).nodes && Run(net, events).nodes[q].table.Keys <= net.nodes.Keys
  {
    RunKeepsInv(net, events);
  }

  // ---------------------------------------------------------------- each node's view is a run of one node

  /** The calls that a run of the network amounts to at one node. */
  ghost function CallsOf(net: Net, events: seq<Event>, p: PeerID): seq<Call> {
    if events == [] then []
    else
      var pre := events[..|events| - 1];
      var calls := CallsOf(net, pre, p);
      var call := CallAt(Run(net, pre), events[|events| - 1], p);
      if call.Some? then calls + [call.value] else calls
  }

  lemma RunAppend(n: NodeState, calls: seq<Call>, call: Call)
    ensures NodeModel.Run(n, calls + [call]) == Step(NodeModel.Run(n, calls), call).0
  {
    assert (calls + [call])[..|calls + [call]| - 1] == calls;
  }

  lemma LastEventAt(net: Net, events: seq<Event>, p: PeerID) returns (before: Net, call: Option<Call>)
    requires Init(net) && HonestEvents(net, events) && p in net.nodes && events != []
    ensures before == Run(net, events[..|events| - 1]) && call == CallAt(before, events[|events| - 1], p)
    ensures Links(before)
    ensures p in before.nodes && before.nodes[p].self == p && ValidNode(before.nodes[p]) && p in Run(net, events).nodes
    ensures call.Some? ==> HonestCall(before.nodes[p], call.value)
    ensures Run(net, events).nodes[p] == if call.Some? then Step(before.nodes[p], call.value).0 else before.nodes[p]
  {
    var e := events[|events| - 1];
    before := Run(net, events[..|events| - 1]);
    call := CallAt(before, e, p);
    RunKeepsInv(net, events[..|events| - 1]);
    NextNode(before, e, p);
    if call.Some? { CallAtHonest(before, e, p); }
  }

  /** Whatever is proved of all runs of one node holds of every node of a network. */
  lemma {:induction false} NodeIsARun(net: Net, events: seq<Event>, p: PeerID)
    requires Init(net) && HonestEvents(net, events) && p in net.nodes
    ensures p in Run(net, events).nodes
    ensures Run(net, events).nodes[p] == NodeModel.Run(net.nodes[p], CallsOf(net, events, p))
    ensures HonestCalls(net.nodes[p], CallsOf(net, events, p))
  {
    if events == [] {
    } else {
      NodeIsARun(net, events[..|events| - 1], p);
      var before, call := LastEventAt(net, events, p);
      var calls := CallsOf(net, events[..|events| - 1], p);
      if call.Some? {
        RunAppend(net.nodes[p], calls, call.value);
        assert CallsOf(net, events, p) == calls + [call.value];
        assert (calls + [call.value])[..|calls|] == calls;
      } else {
        assert CallsOf(net, events, p) == calls;
      }
    }
  }

  ghost predicate NothingFails(events: seq<Event>) {
    forall i | 0 <= i < |events| && events[i].Local? && IsLocal(events[i].call) ::
      events[i].call.env.publishOk && events[i].call.env.subscribeOk
  }

  /** Nobody listens to a negative ID that leads to the shard. */
  ghost predicate NoAliases(events: seq<Event>, shardID: int) {
    forall i | 0 <= i < |events| && events[i].Local? :: !Runs.Aliases(events[i].call, shardID)
  }

  lemma HealthyCallKeepsNoFlips(n: NodeState, call: Call, shardID: int)
    requires ValidNode(n) && InRange(shardID) && !Runs.Aliases(call, shardID)
    requires IsLocal(call) ==> call.env.publishOk && call.env.subscribeOk
    ensures Runs.Flip(0, call, Step(n, call).1, shardID) == 0
  {
    if Runs.On(call, shardID) {
      AdvertiseToggles(n, shardID, true);
    }
  }

  lemma FlipsAppend(n: NodeState, calls: seq<Call>, call: Call, shardID: int)
    ensures Runs.FlipsSinceDone(n, calls + [call], shardID) ==
            Runs.Flip(Runs.FlipsSinceDone(n, calls, shardID), call, Step(NodeModel.Run(n, calls), call).1, shardID)
  {
    assert (calls + [call])[..|calls + [call]| - 1] == calls;
  }

  lemma CallsOfLast(net: Net, events: seq<Event>, p: PeerID, call: Option<Call>)
    requires events != [] && call == CallAt(Run(net, events[..|events| - 1]), events[|events| - 1], p)
    ensures var calls := CallsOf(net, events[..|events| - 1], p);
            CallsOf(net, events, p) == if call.Some? then calls + [call.value] else calls
  {
  }

  /** Without failures and aliases a node's calls on a shard never fail, so nothing ever flips it. */
  lemma {:induction false} NoFlips(net: Net, events: seq<Event>, p: PeerID, shardID: int)
    requires Init(net) && HonestEvents(net, events) && NothingFails(events) && NoAliases(events, shardID)
    requires p in net.nodes && InRange(shardID)
    ensures Runs.FlipsSinceDone(net.nodes[p], CallsOf(net, events, p), shardID) == 0
  {
    if events == [] {
    } else {
      NoFlips(net, events[..|events| - 1], p, shardID);
      NodeIsARun(net, events[..|events| - 1], p);
      var before, call := LastEventAt(net, events, p);
      CallsOfLast(net, events, p, call);
      if call.Some? {
        FlipsAppend(net.nodes[p], CallsOf(net, events[..|events| - 1], p), call.value, shardID);
        HealthyCallKeepsNoFlips(before.nodes[p], call.value, shardID);
      }
    }
  }

  lemma HealthyNodeAgrees(net: Net, events: seq<Event>, p: PeerID, shardID: int)
    requires Init(net) && HonestEvents(net, events) && NothingFails(events) && NoAliases(events, shardID)
    requires p in net.nodes && 0 <= shardID && IsInt64(shardID)
    ensures p in Run(net, events).nodes && Agrees(Run(net, events).nodes[p], shardID)
  {
    NodeIsARun(net, events, p);
    Runs.FreshIsValid(net.nodes[p]);
    if InRange(shardID) {
      NoFlips(net, events, p, shardID);
      Runs.AgreementExact(net.nodes[p], CallsOf(net, events, p), shardID);
    } else {
      Runs.OutOfRangeNeverSubscribed(net.nodes[p], CallsOf(net, events, p), shardID);
    }
  }

  /** Whether node p's calls left its bit for the shard and its subscription in step. */
  ghost predicate EvenFlips(net: Net, events: seq<Event>, p: PeerID, shardID: int)
    requires p in net.nodes
  {
    Runs.FlipsSinceDone(net.nodes[p], CallsOf(net, events, p), shardID) % 2 == 0
  }

  lemma NodeAgreesExactly(net: Net, events: seq<Event>, p: PeerID, shardID: int)
    requires Init(net) && HonestEvents(net, events) && p in net.nodes && InRange(shardID)
    ensures p in Run(net, events).nodes
            && (Agrees(Run(net, events).nodes[p], shardID) <==> EvenFlips(net, events, p, shardID))
  {
    NodeIsARun(net, events, p);
    Runs.FreshIsValid(net.nodes[p]);
    Runs.AgreementExact(net.nodes[p], CallsOf(net, events, p), shardID);
  }

  /** End to end, under any failures: a node to which everything is announced and delivered finds for a
      shard exactly the other nodes subscribed to its collations, if and only if on every other node
      an even number of flips came since a call on the shard last completed. */
  lemma DiscoveryExactly(net: Net, events: seq<Event>, q: PeerID, shardID: int)
    requires Init(net) && HonestEvents(net, events) && q in net.nodes && InRange(shardID)
    requires CurrentAt(Run(net, events), q)
    ensures q in Run(net, events).nodes
    ensures PeersInShard(Run(net, events).nodes[q].table, shardID) - {q}
            == (set p | p in Run(net, events).nodes && p != q
                        && IsCollationSubscribed(Run(net, events).nodes[p], shardID))
            <==> forall p | p in net.nodes && p != q :: EvenFlips(net, events, p, shardID)
  {
    RunShape(net, events);
    var end := Run(net, events);
    var found := PeersInShard(end.nodes[q].table, shardID) - {q};
    var subscribed := set p | p in end.nodes && p != q && IsCollationSubscribed(end.nodes[p], shardID);
    forall p | p in net.nodes && p != q
      ensures (p in found <==> p in subscribed) <==> EvenFlips(net, events, p, shardID)
    {
      FoundExactly(net, events, q, shardID, p);
    }
    OnlyNodesFound(net, events, q);
    assert forall p | p in found || p in subscribed :: p in net.nodes && p != q;
  }

  lemma FoundExactly(net: Net, events: seq<Event>, q: PeerID, shardID: int, p: PeerID)
    requires Init(net) && HonestEvents(net, events) && q in net.nodes && InRange(shardID)
    requires CurrentAt(Run(net, events), q) && p in net.nodes && p != q
    ensures p in Run(net, events).nodes && q in Run(net, events).nodes
    ensures (p in PeersInShard(Run(net, events).nodes[q].table, shardID)
             <==> IsCollationSubscribed(Run(net, events).nodes[p], shardID))
            <==> EvenFlips(net, events, p, shardID)
  {
    QuietNetworkDiscovers(net, events, q, shardID);
    NodeAgreesExactly(net, events, p, shardID);
    var found := PeersInShard(Run(net, events).nodes[q].table, shardID);
    assert p in found <==> p in found - {q};
  }

  /** End to end: if no service failed and everything published has been delivered to a node, the peers
      that it finds for a shard are exactly the other nodes subscribed to that shard's collations. */
  lemma DiscoveryFindsTheSubscribers(net: Net, events: seq<Event>, q: PeerID, shardID: int)
    requires Init(net) && HonestEvents(net, events) && NothingFails(events) && NoAliases(events, shardID)
    requires CurrentAt(Run(net, events), q) && q in net.nodes && 0 <= shardID && IsInt64(shardID)
    ensures q in Run(net, events).nodes
    ensures PeersInShard(Run(net, events).nodes[q].table, shardID) - {q}
         == set p | p in Run(net, events).nodes && p != q && IsCollationSubscribed(Run(net, events).nodes[p], shardID)
  {
    QuietNetworkDiscovers(net, events, q, shardID);
    RunShape(net, events);
    forall p | p in net.nodes { HealthyNodeAgrees(net, events, p, shardID); }
  }

  // ---------------------------------------------------------------- in order and nothing lost

  ghost predicate NothingLost(events: seq<Event>) {
    forall i | 0 <= i < |events| :: !events[i].Lose?
  }

  /** Under way is exactly what the sender published after the last delivered publication. */
  ghost predicate Complete(link: Link, wire: seq<Bytes>) {
    && |link.packets| + link.newest == |wire|
    && forall i | 0 <= i < |link.packets| :: link.packets[i].number == link.newest + i
  }

  lemma StaysComplete(link: Link, wire: seq<Bytes>, bits: Bytes)
    requires Complete(link, wire)
    ensures Complete(link.(packets := link.packets + [Packet(|wire|, bits)]), wire + [bits])
    ensures link.packets != [] ==> Complete(Link(Without(link.packets, 0), link.packets[0].number + 1), wire)
  {
  }

  lemma LinkStaysComplete(net: Net, e: Event, l: Pair, wire: seq<Bytes>)
    requires Links(net) && l in net.links && Complete(net.links[l], net.nodes[l.from].wire)
    requires !e.Lose? && (e.Deliver? ==> e.position == 0)
    requires if Publishes(net, e, l.from) then exists bits :: wire == net.nodes[l.from].wire + [bits]
             else wire == net.nodes[l.from].wire
    ensures l in Next(net, e).links && Complete(Next(net, e).links[l], wire)
  {
    NextLink(net, e, l);
    var before := net.nodes[l.from].wire;
    if Publishes(net, e, l.from) {
      StaysComplete(net.links[l], before, Step(net.nodes[l.from], e.call).0.wire[|before|]);
    } else {
      StaysComplete(net.links[l], before, EMPTY);
    }
  }

  lemma WireMoves(net: Net, events: seq<Event>, p: PeerID)
    requires Init(net) && HonestEvents(net, events) && p in net.nodes && events != []
    ensures var before, e := Run(net, events[..|events| - 1]), events[|events| - 1];
            && Links(before) && p in before.nodes && p in Run(net, events).nodes
            && var wire, wire' := before.nodes[p].wire, Run(net, events).nodes[p].wire;
            if Publishes(before, e, p) then exists bits :: wire' == wire + [bits] else wire' == wire
  {
    RunKeepsInv(net, events[..|events| - 1]);
    NodeMoves(Run(net, events[..|events| - 1]), events[|events| - 1], p);
  }

  /** In order and without loss, what a node has still to hear is what is under way to it. */
  lemma {:induction false} InOrderAndLossless(net: Net, events: seq<Event>, l: Pair)
    requires Init(net) && HonestEvents(net, events) && InOrder(events) && NothingLost(events) && l in net.links
    ensures l in Run(net, events).links && l.from in Run(net, events).nodes
    ensures Complete(Run(net, events).links[l], Run(net, events).nodes[l.from].wire)
  {
    if events == [] {
    } else {
      var before, e := Run(net, events[..|events| - 1]), events[|events| - 1];
      InOrderAndLossless(net, events[..|events| - 1], l);
      WireMoves(net, events, l.from);
      LinkStaysComplete(before, e, l, Run(net, events).nodes[l.from].wire);
    }
  }

  /** Without failures every change of preference is announced. */
  lemma {:induction false} NothingUnannounced(net: Net, events: seq<Event>, p: PeerID)
    requires Init(net) && HonestEvents(net, events) && NothingFails(events) && p in net.nodes
    ensures p !in Run(net, events).unannounced
  {
    if events == [] {
    } else {
      NothingUnannounced(net, events[..|events| - 1], p);
      var before, call := LastEventAt(net, events, p);
      NextUnannounced(before, events[|events| - 1], p);
      if call.Some? && IsLocal(call.value) {
        AdvertiseActsOnTarget(before.nodes[p], call.value.shardID, true);
      }
    }
  }

  ghost predicate Drained(net: Net) {
    forall l | l in net.links :: net.links[l].packets == []
  }

  /** In order, nothing lost, nothing failed: a network that has drained is current everywhere. */
  lemma DrainedIsCurrent(net: Net, events: seq<Event>)
    requires Init(net) && HonestEvents(net, events) && InOrder(events) && NothingLost(events) && NothingFails(events)
    requires Drained(Run(net, events))
    ensures AllCurrent(Run(net, events))
  {
    RunShape(net, events);
    forall l | l in net.links
      ensures l.from in Run(net, events).nodes && l in Run(net, events).links && Current(Run(net, events), l)
    {
      InOrderAndLossless(net, events, l);
      NothingUnannounced(net, events, l.from);
    }
  }

  /** End to end: when the services did not fail and the network has delivered everything in order, the
      peers that any node finds for a shard are exactly the other nodes subscribed to its collations. */
  lemma DrainedNetworkDiscovers(net: Net, events: seq<Event>, q: PeerID, shardID: int)
    requires Init(net) && HonestEvents(net, events) && InOrder(events) && NothingLost(events) && NothingFails(events)
    requires Drained(Run(net, events)) && NoAliases(events, shardID)
    requires q in net.nodes && 0 <= shardID && IsInt64(shardID)
    ensures q in Run(net, events).nodes
    ensures PeersInShard(Run(net, events).nodes[q].table, shardID) - {q}
         == set p | p in Run(net, events).nodes && p != q && IsCollationSubscribed(Run(net, events).nodes[p], shardID)
  {
    DrainedIsCurrent(net, events);
    DiscoveryFindsTheSubscribers(net, events, q, shardID);
  }

  // ---------------------------------------------------------------- draining

  ghost predicate DeliveriesOnly(events: seq<Event>) {
    forall i | 0 <= i < |events| :: events[i].Deliver?
  }

  /** Delivering in order empties a link, and disturbs no other. */
  lemma {:induction false} DrainLink(net: Net, l: Pair) returns (events: seq<Event>)
    requires Links(net) && l in net.links
    ensures DeliveriesOnly(events) && InOrder(events)
    ensures var end := Run(net, events);
            && Links(end) && end.links.Keys == net.links.Keys && end.links[l].packets == []
            && forall m | m in net.links && m != l :: end.links[m] == net.links[m]
    decreases |net.links[l].packets|
  {
    if net.links[l].packets == [] {
      events := [];
    } else {
      var e := Deliver(l, 0);
      NextShape(net, e);
      forall m | m in net.links { NextLink(net, e, m); }
      var rest := DrainLink(Next(net, e), l);
      events := [e] + rest;
      OneThenRest(net, e, rest);
    }
  }

  lemma OneThenRest(net: Net, e: Event, rest: seq<Event>)
    ensures Run(net, [e] + rest) == Run(Next(net, e), rest)
  {
    RunConcat(net, [e], rest);
    assert [e][..0] == [];
  }

  lemma {:induction false} DrainLinks(net: Net, links: set<Pair>) returns (events: seq<Event>)
    requires Links(net) && links <= net.links.Keys
    requires forall l | l in net.links && l !in links :: net.links[l].packets == []
    ensures DeliveriesOnly(events) && InOrder(events) && Drained(Run(net, events))
    decreases |links|
  {
    if links == {} {
      events := [];
    } else {
      var l :| l in links;
      var first := DrainLink(net, l);
      var rest := DrainLinks(Run(net, first), links - {l});
      events := first + rest;
      RunConcat(net, first, rest);
    }
  }

  lemma {:induction false} DeliveriesAreHonest(net: Net, events: seq<Event>)
    requires DeliveriesOnly(events)
    ensures HonestEvents(net, events)
  {
    if events == [] {
    } else {
      DeliveriesAreHonest(net, events[..|events| - 1]);
    }
  }

  /** Whatever has happened, delivering what is under way, in order, drains the network. */
  lemma CanDrain(net: Net, events: seq<Event>) returns (more: seq<Event>)
    requires Init(net) && HonestEvents(net, events)
    ensures DeliveriesOnly(more) && InOrder(more)
    ensures HonestEvents(net, events + more) && Drained(Run(net, events + more))
  {
    RunKeepsInv(net, events);
    more := DrainLinks(Run(net, events), Run(net, events).links.Keys);
    DeliveriesAreHonest(Run(net, events), more);
    RunConcat(net, events, more);
  }

  /** From every state that a healthy network reaches in order, further deliveries lead to where every
      node finds exactly the other nodes subscribed to a shard. */
  lemma DiscoveryIsReached(net: Net, events: seq<Event>, q: PeerID, shardID: int) returns (end: Net)
    requires Init(net) && HonestEvents(net, events) && InOrder(events) && NothingLost(events) && NothingFails(events)
    requires NoAliases(events, shardID) && q in net.nodes && 0 <= shardID && IsInt64(shardID)
    ensures exists more :: DeliveriesOnly(more) && InOrder(more) && end == Run(net, events + more)
    ensures q in end.nodes
    ensures PeersInShard(end.nodes[q].table, shardID) - {q}
         == set p | p in end.nodes && p != q && IsCollationSubscribed(end.nodes[p], shardID)
  {
    var more := CanDrain(net, events);
    end := Run(net, events + more);
    DrainedNetworkDiscovers(net, events + more, q, shardID);
  }

  // ---------------------------------------------------------------- when a link converges

  /** No node makes a call; what is under way is delivered in any order, or, if `lossy`, lost. */
  ghost predicate Quiet(events: seq<Event>, lossy: bool) {
    forall i | 0 <= i < |events| :: events[i].Deliver? || (lossy && events[i].Lose?)
  }

  ghost function EntryOf(net: Net, l: Pair): Bytes {
    if l.to in net.nodes then BitsOf(net.nodes[l.to].table, l.from) else EMPTY
  }

  ghost predicate Empty(net: Net, l: Pair) {
    l in net.links ==> net.links[l].packets == []
  }

  ghost predicate AlwaysEndsAt(net: Net, l: Pair, own: Bytes, lossy: bool) {
    forall events | Quiet(events, lossy) && Empty(Run(net, events), l) :: EntryOf(Run(net, events), l) == own
  }

  ghost predicate AllCarry(packets: seq<Packet>, own: Bytes) {
    forall i | 0 <= i < |packets| :: packets[i].bits == own
  }

  /** Every packet under way carries `own`; and if there may be no delivery, the entry is it already. */
  ghost predicate Settles(net: Net, l: Pair, own: Bytes, lossy: bool)
    requires l in net.links
  {
    && AllCarry(net.links[l].packets, own)
    && (lossy || net.links[l].packets == [] ==> EntryOf(net, l) == own)
  }

  lemma SettlesStep(net: Net, e: Event, l: Pair, own: Bytes, lossy: bool)
    requires Links(net) && l in net.links && Settles(net, l, own, lossy)
    requires e.Deliver? || (lossy && e.Lose?)
    ensures Links(Next(net, e)) && l in Next(net, e).links && Settles(Next(net, e), l, own, lossy)
  {
    NextShape(net, e);
    NextLink(net, e, l);
    NextNode(net, e, l.to);
  }

  lemma {:induction false} SettlesStays(net: Net, events: seq<Event>, l: Pair, own: Bytes, lossy: bool)
    requires Links(net) && l in net.links && Settles(net, l, own, lossy) && Quiet(events, lossy)
    ensures Links(Run(net, events)) && l in Run(net, events).links && Settles(Run(net, events), l, own, lossy)
  {
    if events == [] {
    } else {
      SettlesStays(net, events[..|events| - 1], l, own, lossy);
      SettlesStep(Run(net, events[..|events| - 1]), events[|events| - 1], l, own, lossy);
    }
  }

  /** Any packet under way may be the last to arrive. */
  lemma {:induction false} DeliverLast(net: Net, l: Pair, k: nat) returns (events: seq<Event>)
    requires Links(net) && l in net.links && k < |net.links[l].packets|
    ensures DeliveriesOnly(events) && Empty(Run(net, events), l)
    ensures EntryOf(Run(net, events), l) == net.links[l].packets[k].bits
    decreases |net.links[l].packets|
  {
    var packets := net.links[l].packets;
    var e := Deliver(l, if |packets| > 1 && k == 0 then 1 else 0);
    NextShape(net, e);
    NextLink(net, e, l);
    NextNode(net, e, l.to);
    if |packets| == 1 {
      events := [e];
      OneThenRest(net, e, []);
    } else {
      var rest := DeliverLast(Next(net, e), l, if k == 0 then 0 else k - 1);
      events := [e] + rest;
      OneThenRest(net, e, rest);
    }
  }

  /** Everything under way may be lost. */
  lemma {:induction false} LoseAll(net: Net, l: Pair) returns (events: seq<Event>)
    requires Links(net) && l in net.links
    ensures Quiet(events, true) && Empty(Run(net, events), l) && EntryOf(Run(net, events), l) == EntryOf(net, l)
    decreases |net.links[l].packets|
  {
    if net.links[l].packets == [] {
      events := [];
    } else {
      var e := Lose(l, 0);
      NextShape(net, e);
      NextLink(net, e, l);
      NextNode(net, e, l.to);
      var rest := LoseAll(Next(net, e), l);
      events := [e] + rest;
      OneThenRest(net, e, rest);
    }
  }

  /** Once the nodes fall quiet, every way for the traffic to end leaves a receiver with `own` exactly
      when everything under way to it is `own`, and the entry already is if no delivery is certain. */
  lemma LinkConvergesExactly(net: Net, l: Pair, own: Bytes, lossy: bool)
    requires Links(net) && l in net.links
    ensures AlwaysEndsAt(net, l, own, lossy) <==> Settles(net, l, own, lossy)
  {
    if Settles(net, l, own, lossy) {
      forall events | Quiet(events, lossy) && Empty(Run(net, events), l) ensures EntryOf(Run(net, events), l) == own {
        SettlesStays(net, events, l, own, lossy);
      }
    } else if !AllCarry(net.links[l].packets, own) {
      var k :| 0 <= k < |net.links[l].packets| && net.links[l].packets[k].bits != own;
      var events := DeliverLast(net, l, k);
      assert Quiet(events, lossy) && EntryOf(Run(net, events), l) != own;
    } else if lossy {
      var events := LoseAll(net, l);
      assert Quiet(events, lossy) && EntryOf(Run(net, events), l) != own;
    } else {
      assert Quiet([], lossy) && EntryOf(Run(net, []), l) != own;
    }
  }

  lemma OwnStep(net: Net, e: Event, p: PeerID)
    requires Links(net) && p in net.nodes && net.nodes[p].self == p && !e.Local?
    ensures Links(Next(net, e)) && p in Next(net, e).nodes && Next(net, e).nodes[p].self == p
    ensures Own(Next(net, e).nodes[p]) == Own(net.nodes[p])
  {
    NextShape(net, e);
    NextNode(net, e, p);
  }

  /** What traffic does not move: a quiet node's own preference. */
  lemma {:induction false} OwnStays(net: Net, events: seq<Event>, lossy: bool, p: PeerID)
    requires Links(net) && p in net.nodes && net.nodes[p].self == p && Quiet(events, lossy)
    ensures Links(Run(net, events)) && p in Run(net, events).nodes && Run(net, events).nodes[p].self == p
    ensures Own(Run(net, events).nodes[p]) == Own(net.nodes[p])
  {
    if events == [] {
    } else {
      OwnStays(net, events[..|events| - 1], lossy, p);
      OwnStep(Run(net, events[..|events| - 1]), events[|events| - 1], p);
    }
  }

  /** The receiver ends with what the sender then prefers. */
  ghost predicate AlwaysConverges(net: Net, l: Pair, lossy: bool) {
    forall events | Quiet(events, lossy) && Empty(Run(net, events), l) ::
      l.from in Run(net, events).nodes && EntryOf(Run(net, events), l) == Own(Run(net, events).nodes[l.from])
  }

  /** In every state that honest nodes reach, however much was reordered and lost before: once they fall
      quiet, a link converges whatever happens to its traffic exactly when every packet under way
      carries the sender's own preference, and the entry is it already if no delivery is certain. */
  lemma ConvergesExactly(net: Net, events: seq<Event>, l: Pair, lossy: bool) returns (now: Net)
    requires Init(net) && HonestEvents(net, events) && l in net.links
    ensures now == Run(net, events) && l in now.links && l.from in now.nodes
    ensures AlwaysConverges(now, l, lossy) <==> Settles(now, l, Own(now.nodes[l.from]), lossy)
  {
    RunKeepsInv(net, events);
    now := Run(net, events);
    var own := Own(now.nodes[l.from]);
    forall more | Quiet(more, lossy)
      ensures l.from in Run(now, more).nodes && Own(Run(now, more).nodes[l.from]) == own
    {
      OwnStays(now, more, lossy, l.from);
    }
    LinkConvergesExactly(now, l, own, lossy);
  }

  /** With at most one packet under way there is only one way for the traffic to end. */
  lemma OneUnderWayIsDetermined(net: Net, l: Pair)
    requires Links(net) && l in net.links && |net.links[l].packets| <= 1
    ensures var packets := net.links[l].packets;
            AlwaysEndsAt(net, l, if packets == [] then EntryOf(net, l) else packets[0].bits, false)
  {
    var packets := net.links[l].packets;
    LinkConvergesExactly(net, l, if packets == [] then EntryOf(net, l) else packets[0].bits, false);
  }

  lemma OneLeftIsLatest(link: Link, from: PeerID, table: Table, wire: seq<Bytes>)
    requires Complete(link, wire) && Genuine(link.packets, wire) && EntryGenuine(from, link.newest, table, wire)
    requires |link.packets| <= 1
    ensures AllCarry(link.packets, if wire == [] then EMPTY else wire[|wire| - 1])
    ensures link.packets == [] ==> BitsOf(table, from) == if wire == [] then EMPTY else wire[|wire| - 1]
  {
  }

  lemma OneUnderWaySettles(net: Net, events: seq<Event>, l: Pair) returns (now: Net)
    requires Init(net) && HonestEvents(net, events) && InOrder(events) && NothingLost(events) && l in net.links
    requires l in Run(net, events).links && |Run(net, events).links[l].packets| <= 1
    requires l.from !in Run(net, events).unannounced
    ensures now == Run(net, events) && l in now.links && l.from in now.nodes
    ensures Settles(now, l, Own(now.nodes[l.from]), false)
  {
    InOrderAndLossless(net, events, l);
    now := LinkInv(net, events, l);
    OneLeftIsLatest(now.links[l], l.from, now.nodes[l.to].table, now.nodes[l.from].wire);
  }

  /** After an ordered, loss-free past that one way is the right one, if the sender's last change was
      published. */
  lemma OneUnderWayConverges(net: Net, events: seq<Event>, l: Pair)
    requires Init(net) && HonestEvents(net, events) && InOrder(events) && NothingLost(events) && l in net.links
    requires l in Run(net, events).links && |Run(net, events).links[l].packets| <= 1
    requires l.from !in Run(net, events).unannounced
    ensures AlwaysConverges(Run(net, events), l, false)
  {
    var now := OneUnderWaySettles(net, events, l);
    var _ := ConvergesExactly(net, events, l, false);
  }

  lemma SilentStep(net: Net, e: Event, l: Pair)
    requires Links(net) && NodesValid(net) && WiresWellFormed(net) && PacketsGenuine(net)
    requires HonestEvent(net, e) && l in net.links && net.links[l].packets == []
    requires !Publishes(net, e, l.from)
    ensures l in Next(net, e).links && Next(net, e).links[l].packets == []
            && EntryOf(Next(net, e), l) == EntryOf(net, l)
  {
    NextLink(net, e, l);
    EntryMoves(net, e, l);
  }

  lemma SilentPrefix(net: Net, events: seq<Event>, p: PeerID)
    requires NetInv(net) && HonestEvents(net, events) && events != []
    requires p in net.nodes && p in Run(net, events).nodes && Run(net, events).nodes[p].wire == net.nodes[p].wire
    ensures var before := Run(net, events[..|events| - 1]);
            && p in before.nodes && before.nodes[p].wire == net.nodes[p].wire
            && !Publishes(before, events[|events| - 1], p)
  {
    var pre := events[..|events| - 1];
    InvStays(net, pre);
    WireGrows(net, pre, p);
    WireStep(Run(net, pre), events[|events| - 1], p);
  }

  /** Nothing under way and no further publication: the entry stays what it is, whatever else happens. */
  lemma {:induction false} EntryStaysUntilPublished(net: Net, events: seq<Event>, l: Pair)
    requires NetInv(net) && HonestEvents(net, events) && l in net.links && net.links[l].packets == []
    requires l.from in Run(net, events).nodes && Run(net, events).nodes[l.from].wire == net.nodes[l.from].wire
    ensures l in Run(net, events).links && Run(net, events).links[l].packets == []
    ensures EntryOf(Run(net, events), l) == EntryOf(net, l)
  {
    if events == [] {
    } else {
      SilentPrefix(net, events, l.from);
      InvStays(net, events[..|events| - 1]);
      EntryStaysUntilPublished(net, events[..|events| - 1], l);
      SilentStep(Run(net, events[..|events| - 1]), events[|events| - 1], l);
    }
  }

  // ---------------------------------------------------------------- out of order

  lemma ListenReachesLink(net: Net, l: Pair, shardID: int) returns (e: Event)
    requires Links(net) && l in net.links && 0 <= shardID < NUM_SHARDS
    requires ValidNode(net.nodes[l.from]) && net.nodes[l.from].self == l.from
             && shardID !in ShardSet(Own(net.nodes[l.from]))
    ensures e == Local(l.from, Listen(shardID, Env(true, true)))
    ensures var next := Next(net, e);
            && Links(next) && l in next.links && l.from in net.nodes
            && ValidNode(next.nodes[l.from]) && next.nodes[l.from].self == l.from
            && var own := Own(next.nodes[l.from]);
            && ShardSet(own) == ShardSet(Own(net.nodes[l.from])) + {shardID}
            && next.nodes[l.from].wire == net.nodes[l.from].wire + [own]
            && next.links[l] == net.links[l].(packets := net.links[l].packets + [Packet(|net.nodes[l.from].wire|, own)])
  {
    e := Local(l.from, Listen(shardID, Env(true, true)));
    NextShape(net, e);
    NextNode(net, e, l.from);
    NextLink(net, e, l);
    HasBitIsMembership(Own(net.nodes[l.from]), shardID);
    AdvertiseToggles(net.nodes[l.from], shardID, true);
    Runs.StepKeepsValid(net.nodes[l.from], e.call);
  }

  lemma RunOfFour(net: Net, a: Event, b: Event, c: Event, d: Event)
    ensures Run(net, [a, b, c, d]) == Next(Next(Next(Next(net, a), b), c), d)
  {
    assert [a, b, c, d][..3] == [a, b, c];
    assert [a, b, c][..2] == [a, b];
    assert [a, b][..1] == [a];
    assert Run(net, [a][..0]) == net;
    assert Run(net, [a]) == Next(net, a);
    assert Run(net, [a, b]) == Next(Next(net, a), b);
    assert Run(net, [a, b, c]) == Next(Run(net, [a, b]), c);
  }

  lemma DeliverSecondFirst(net: Net, l: Pair) returns (end: Net)
    requires Links(net) && l in net.links && |net.links[l].packets| == 2
    ensures end == Next(Next(net, Deliver(l, 1)), Deliver(l, 0))
    ensures l in end.links && l.from in end.nodes && l.to in end.nodes
    ensures end.links[l].packets == [] && end.nodes[l.from] == net.nodes[l.from]
    ensures l.from in end.nodes[l.to].table && end.nodes[l.to].table[l.from] == net.links[l].packets[0].bits
  {
    var once := Next(net, Deliver(l, 1));
    assert once == Delivered(net, l, 1) && once.links[l].packets == [net.links[l].packets[0]];
    end := Next(once, Deliver(l, 0));
    assert end == Delivered(once, l, 0);
  }

  /** A node listens to two shards and its two publications arrive the wrong way round. */
  ghost function Reordered(l: Pair, x: int, y: int): seq<Event> {
    [Local(l.from, Listen(x, Env(true, true))), Local(l.from, Listen(y, Env(true, true))), Deliver(l, 1), Deliver(l, 0)]
  }

  lemma {:induction false} NonNegativeIsHonest(net: Net, events: seq<Event>)
    requires forall i | 0 <= i < |events| && events[i].Local? && IsLocal(events[i].call) ::
               0 <= events[i].call.shardID && IsInt64(events[i].call.shardID)
    ensures HonestEvents(net, events)
  {
    if events == [] {
    } else {
      NonNegativeIsHonest(net, events[..|events| - 1]);
    }
  }

  lemma ReorderedIsHealthy(net: Net, l: Pair, x: int, y: int)
    requires InRange(x) && InRange(y)
    ensures HonestEvents(net, Reordered(l, x, y)) && NothingFails(Reordered(l, x, y)) && NothingLost(Reordered(l, x, y))
  {
    NonNegativeIsHonest(net, Reordered(l, x, y));
  }

  lemma InitSender(net: Net, p: PeerID)
    requires Init(net) && p in net.nodes
    ensures Links(net) && net.nodes[p].self == p && ValidNode(net.nodes[p]) && ShardSet(Own(net.nodes[p])) == {}
  {
    InitInv(net);
    EmptyHasNoShards();
  }

  /** Without the order a drained link may leave its receiver behind: it has the first publication, and
      nothing is under way to correct it. */
  lemma ReorderedStaysStale(net: Net, l: Pair, x: int, y: int) returns (end: Net)
    requires Init(net) && l in net.links && InRange(x) && InRange(y) && x != y
    ensures end == Run(net, Reordered(l, x, y))
    ensures HonestEvents(net, Reordered(l, x, y)) && NothingFails(Reordered(l, x, y)) && NothingLost(Reordered(l, x, y))
    ensures l in end.links && l.from in end.nodes && l.to in end.nodes
    ensures end.links[l].packets == [] && l.from in end.nodes[l.to].table
    ensures ShardSet(end.nodes[l.to].table[l.from]) == {x} && ShardSet(Own(end.nodes[l.from])) == {x, y}
  {
    ReorderedIsHealthy(net, l, x, y);
    InitSender(net, l.from);
    var first := ListenReachesLink(net, l, x);
    var one := Next(net, first);
    var second := ListenReachesLink(one, l, y);
    var two := Next(one, second);
    end := DeliverSecondFirst(two, l);
    RunOfFour(net, first, second, Deliver(l, 1), Deliver(l, 0));
  }

  /** The reordered link stays behind until its sender publishes again. */
  lemma StaleUntilPublished(net: Net, l: Pair, x: int, y: int, more: seq<Event>) returns (end: Net, later: Net)
    requires Init(net) && l in net.links && InRange(x) && InRange(y) && x != y
    requires HonestEvents(Run(net, Reordered(l, x, y)), more)
    ensures end == Run(net, Reordered(l, x, y)) && later == Run(end, more)
    ensures l.from in end.nodes && l.from in later.nodes
    ensures later.nodes[l.from].wire == end.nodes[l.from].wire ==> ShardSet(EntryOf(later, l)) == {x}
  {
    end := ReorderedStaysStale(net, l, x, y);
    later := Run(end, more);
    RunKeepsInv(net, Reordered(l, x, y));
    InvStays(end, more);
    if later.nodes[l.from].wire == end.nodes[l.from].wire {
      EntryStaysUntilPublished(end, more, l);
    }
  }
}
