// The switches of switch/SwitchCore.c joined into a network.  Every node may have
// been compiled with its own compression scheme.

module Network {
  import opened Bits
  import opened NumberCompress
  import opened Switching
  import opened Journeys

  type Socket = End<bv64>

  // Which slots are linked to which; slot 1 of a node holds its router, if it has one.
  datatype Network = Network(scheme: nat -> Scheme, links: map<Socket, Socket>, routers: set<nat>)

  ghost predicate WellFormed(net: Network) {
    forall e <- net.links ::
      && e.slot != ROUTER
      && IsInterface(net.scheme(e.node), e.slot)
      && net.links[e] in net.links
      && net.links[net.links[e]] == e
  }

  predicate IsAttached(net: Network, at: Socket) {
    at in net.links || (at.slot == ROUTER && at.node in net.routers)
  }

  // A packet received on a slot; nothing comes from slots where nothing is attached.
  function Received(net: Network, at: Socket, lab: bv64): Switching {
    var sch := net.scheme(at.node);
    if IsAttached(net, at) && IsInterface(sch, at.slot) then
      Forward(sch, slot => IsAttached(net, End(at.node, slot)), at.slot, lab)
    else
      Returned(NoInterface, Reverse(lab))
  }

  function Switched(net: Network, at: Socket, lab: bv64): Outcome<bv64, bv64> {
    match Received(net, at, lab)
    case Sent(dest, sent) => Forwarded(dest, sent)
    case Returned(_, _) => Refused
  }

  // The label with which an answer comes back through a hop: the one the packet
  // had before it, except that a router sees its first code in canonical width.
  function Restored(net: Network, at: Socket, lab: bv64): bv64 {
    if at.slot == ROUTER then Canonical(net.scheme(at.node), lab) else lab
  }

  function WorldOf(net: Network): World<bv64, bv64> {
    World(net.links,
          (at, lab) => Switched(net, at, lab),
          lab => Reverse(lab),
          (at, lab) => Restored(net, at, lab))
  }

  lemma SwitchedMeans(net: Network, at: Socket, lab: bv64) returns (dest: bv64, bits: nat)
    requires Switched(net, at, lab).Forwarded?
    ensures IsInterface(net.scheme(at.node), at.slot) && bits <= 64
    ensures IsAttached(net, at) && IsAttached(net, End(at.node, dest))
    ensures Decide(net.scheme(at.node), at.slot, lab) == Pass(dest, bits)
    ensures Switched(net, at, lab)
         == Forwarded(dest, Shift(lab, bits, GetCompressed(net.scheme(at.node), at.slot, bits)))
  {
    var verdict := Decide(net.scheme(at.node), at.slot, lab);
    dest, bits := verdict.dest, verdict.bits;
    PassMeans(net.scheme(at.node), at.slot, lab, dest, bits);
  }

  lemma SwitchedWhen(net: Network, at: Socket, lab: bv64, dest: bv64, bits: nat)
    requires IsAttached(net, at) && IsAttached(net, End(at.node, dest))
    requires IsInterface(net.scheme(at.node), at.slot) && bits <= 64
    requires Decide(net.scheme(at.node), at.slot, lab) == Pass(dest, bits)
    ensures Switched(net, at, lab)
         == Forwarded(dest, Shift(lab, bits, GetCompressed(net.scheme(at.node), at.slot, bits)))
  {}

  // A hop that a peer's packet makes is undone by the reversed label.
  lemma PeerHopBack(net: Network, at: Socket, lab: bv64, dest: bv64, bits: nat)
    requires IsAttached(net, at) && IsAttached(net, End(at.node, dest)) && at.slot != ROUTER
    requires IsInterface(net.scheme(at.node), at.slot) && bits <= 64
    requires Decide(net.scheme(at.node), at.slot, lab) == Pass(dest, bits)
    ensures var sent := Shift(lab, bits, GetCompressed(net.scheme(at.node), at.slot, bits));
            Switched(net, End(at.node, dest), Reverse(sent)) == Forwarded(at.slot, Reverse(lab))
  {
    var sch := net.scheme(at.node);
    hide *;
    PeerHopInverse(sch, at.slot, lab, dest, bits);
    var back := Reverse(Shift(lab, bits, GetCompressed(sch, at.slot, bits)));
    SwitchedWhen(net, End(at.node, dest), back, at.slot, bits);
  }

  // A router's packet comes back to the router, with the label it was sent with
  // rewritten to canonical width.
  lemma RouterHopBack(net: Network, at: Socket, lab: bv64, dest: bv64, bits: nat)
    requires IsAttached(net, at) && IsAttached(net, End(at.node, dest)) && at.slot == ROUTER
    requires IsInterface(net.scheme(at.node), at.slot) && bits <= 64
    requires Decide(net.scheme(at.node), at.slot, lab) == Pass(dest, bits)
    ensures var sent := Shift(lab, bits, GetCompressed(net.scheme(at.node), at.slot, bits));
            Switched(net, End(at.node, dest), Reverse(sent))
              == Forwarded(at.slot, Reverse(Canonical(net.scheme(at.node), lab)))
  {
    var sch := net.scheme(at.node);
    hide *;
    RouterHopInverse(sch, lab, dest, bits);
    var back := Reverse(Shift(lab, bits, GetCompressed(sch, at.slot, bits)));
    SwitchedWhen(net, End(at.node, dest), back, at.slot, BitsUsedForNumber(sch, dest));
  }

  lemma HopIsReversible(net: Network, at: Socket, lab: bv64)
    requires Switched(net, at, lab).Forwarded?
    ensures var out := Switched(net, at, lab);
            Switched(net, End(at.node, out.dest), Reverse(out.lab))
              == Forwarded(at.slot, Reverse(Restored(net, at, lab)))
  {
    hide Switched, Canonical, Decide, Shift, Reverse, GetCompressed, Interfaces;
    var dest, bits := SwitchedMeans(net, at, lab);
    if at.slot == ROUTER {
      RouterHopBack(net, at, lab, dest, bits);
    } else {
      PeerHopBack(net, at, lab, dest, bits);
    }
  }

  lemma NetworkIsReversible(net: Network)
    requires WellFormed(net)
    ensures LinksAreSymmetric(WorldOf(net)) && HopsAreReversible(WorldOf(net))
  {
    hide Switched, Restored, Reverse;
    forall at, lab | Switched(net, at, lab).Forwarded?
      ensures var out := Switched(net, at, lab);
              Switched(net, End(at.node, out.dest), Reverse(out.lab))
                == Forwarded(at.slot, Reverse(Restored(net, at, lab)))
    {
      HopIsReversible(net, at, lab);
    }
    forall at, lab | at in net.links
      ensures Restored(net, at, lab) == lab
    {
      PeersRestore(net, at, lab);
    }
  }

  lemma PeersRestore(net: Network, at: Socket, lab: bv64)
    requires WellFormed(net) && at in net.links
    ensures Restored(net, at, lab) == lab
  {
    hide Canonical;
  }

  // The hops of a packet that the router of a node sends with this label.
  function Journey(net: Network, node: nat, lab: bv64, ttl: nat): seq<Hop<bv64, bv64>> {
    Travel(WorldOf(net), Packet(End(node, ROUTER), lab), ttl)
  }

  // The return path.  A router sends a packet; whoever then reverses the label of
  // the packet at the end of its journey sends an answer along the same hops
  // backwards, to the router that sent it.  That router, reversing once more, finds
  // the label it sent, with the first code in canonical width.
  lemma ReturnPath(net: Network, node: nat, lab: bv64, ttl: nat)
    requires WellFormed(net)
    requires Journey(net, node, lab, ttl) != []
    ensures var hops := Journey(net, node, lab, ttl);
            var w := WorldOf(net);
            var back := Travel(w, Answer(w, hops), |hops|);
            && back == Mirror(w, hops)
            && back[|back| - 1].Exit() == End(node, ROUTER)
            && back[|back| - 1].lab == Reverse(Canonical(net.scheme(node), lab))
  {
    hide Canonical, Reverse, Switched;
    var w := WorldOf(net);
    NetworkIsReversible(net);
    AnswerRetraces(w, Packet(End(node, ROUTER), lab), ttl);
    MirrorEnds(w, Journey(net, node, lab, ttl));
  }

  // SwitchPinger compares the label of a pong with the one it pinged: they are
  // equal exactly when the first code of that label has canonical width.
  lemma PongHasSameLabel(net: Network, node: nat, lab: bv64, ttl: nat)
    requires WellFormed(net)
    requires Journey(net, node, lab, ttl) != []
    ensures var hops := Journey(net, node, lab, ttl);
            var w := WorldOf(net);
            var back := Travel(w, Answer(w, hops), |hops|);
            var sch := net.scheme(node);
            var bits := BitsUsedForLabel(sch, lab);
            && back != []
            && ((Reverse(back[|back| - 1].lab) == lab)
                <==> (bits == BitsUsedForNumber(sch, GetDecompressed(sch, lab, bits))))
  {
    hide Canonical, Reverse, Switched, BitsUsedForLabel, BitsUsedForNumber, GetDecompressed;
    ReturnPath(net, node, lab, ttl);
    CanonicalUnchanged(net.scheme(node), lab);
    ReverseIsInvolution(Canonical(net.scheme(node), lab));
  }

  lemma RefusalReverses(net: Network, at: Socket, lab: bv64)
    ensures Received(net, at, lab).Returned? ==> Received(net, at, lab).errorLabel == Reverse(lab)
  {
    hide Reverse, Decide, Shift, GetCompressed;
  }

  // A switch that refuses a packet sends the error packet back over the link the
  // packet came from, and it retraces the packet's hops.
  lemma ErrorRetraces(net: Network, node: nat, lab: bv64, ttl: nat, at: Socket, why: Refusal, errorLabel: bv64)
    requires WellFormed(net)
    requires var hops := Journey(net, node, lab, ttl);
             && hops != []
             && hops[|hops| - 1].Exit() in net.links
             && at == net.links[hops[|hops| - 1].Exit()]
             && Received(net, at, hops[|hops| - 1].lab) == Returned(why, errorLabel)
    ensures var hops := Journey(net, node, lab, ttl);
            Travel(WorldOf(net), Packet(net.links[at], errorLabel), |hops|) == Mirror(WorldOf(net), hops)
  {
    hide Canonical, Switched, Received, Reverse;
    RefusalReverses(net, at, Journey(net, node, lab, ttl)[|Journey(net, node, lab, ttl)| - 1].lab);
    ReturnPath(net, node, lab, ttl);
  }
}
