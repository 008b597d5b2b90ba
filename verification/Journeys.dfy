// Journeys of packets through switches joined by point-to-point links, and what
// makes a journey reversible.  Nothing here depends on how labels are written.

module Journeys {
  // An interface slot of a node.
  datatype End<Slot> = End(node: nat, slot: Slot)

  datatype Outcome<Slot, Lab> = Forwarded(dest: Slot, lab: Lab) | Refused

  // The links between slots, what each switch does with a packet received on a
  // slot, how labels are reversed, and which label an answer to a hop restores.
  datatype World<!Slot(==), !Lab> = World(
    links: map<End<Slot>, End<Slot>>,
    switch: (End<Slot>, Lab) -> Outcome<Slot, Lab>,
    reverse: Lab -> Lab,
    restored: (End<Slot>, Lab) -> Lab)

  datatype Packet<Slot, Lab> = Packet(at: End<Slot>, lab: Lab)

  // A packet passed through one switch: out of slot dest, with a new label.
  datatype Hop<Slot, Lab> = Hop(packet: Packet<Slot, Lab>, dest: Slot, lab: Lab) {
    function Exit(): End<Slot> {
      End(packet.at.node, dest)
    }
  }

  // The hops a packet makes until it leaves through a slot without a link, is
  // refused, or has made as many hops as asked for.
  function Travel<Slot(==), Lab>(w: World<Slot, Lab>, p: Packet<Slot, Lab>, ttl: nat): (hops: seq<Hop<Slot, Lab>>)
    ensures |hops| <= ttl
    ensures |hops| > 0 ==> hops[0].packet == p
    decreases ttl
  {
    if ttl == 0 then []
    else
      match w.switch(p.at, p.lab)
      case Refused => []
      case Forwarded(dest, lab) =>
        var hop := Hop(p, dest, lab);
        [hop] + if hop.Exit() in w.links then Travel(w, Packet(w.links[hop.Exit()], lab), ttl - 1) else []
  }

  // A hop backwards: in where the packet came out, out where it came in, with
  // reversed labels.
  function MirrorHop<Slot(==), Lab>(w: World<Slot, Lab>, hop: Hop<Slot, Lab>): Hop<Slot, Lab> {
    Hop(Packet(hop.Exit(), w.reverse(hop.lab)),
        hop.packet.at.slot,
        w.reverse(w.restored(hop.packet.at, hop.packet.lab)))
  }

  function Mirror<Slot(==), Lab>(w: World<Slot, Lab>, hops: seq<Hop<Slot, Lab>>): (r: seq<Hop<Slot, Lab>>)
    ensures |r| == |hops|
  {
    if hops == [] then [] else Mirror(w, hops[1..]) + [MirrorHop(w, hops[0])]
  }

  ghost predicate LinksAreSymmetric<Slot(!new), Lab>(w: World<Slot, Lab>) {
    forall e <- w.links :: w.links[e] in w.links && w.links[w.links[e]] == e
  }

  // Every hop can be undone, and a hop that starts on a link restores the very
  // label it received.
  ghost predicate HopsAreReversible<Slot(!new), Lab(!new)>(w: World<Slot, Lab>) {
    forall at, lab ::
      match w.switch(at, lab)
      case Refused => true
      case Forwarded(dest, sent) =>
        && w.switch(End(at.node, dest), w.reverse(sent)) == Forwarded(at.slot, w.reverse(w.restored(at, lab)))
        && (at in w.links ==> w.restored(at, lab) == lab)
  }

  // The first hop of a journey, and the rest of it.
  lemma TravelUnfolds<Slot, Lab>(w: World<Slot, Lab>, p: Packet<Slot, Lab>, ttl: nat)
    ensures Travel(w, p, ttl) ==
      if ttl == 0 || w.switch(p.at, p.lab).Refused? then []
      else
        var hop := Hop(p, w.switch(p.at, p.lab).dest, w.switch(p.at, p.lab).lab);
        [hop] + if hop.Exit() in w.links then Travel(w, Packet(w.links[hop.Exit()], hop.lab), ttl - 1) else []
  {}

  // A journey of n hops continues from where it has got to.
  lemma {:induction false} TravelExtends<Slot, Lab>(w: World<Slot, Lab>, p: Packet<Slot, Lab>,
      n: nat, q: Packet<Slot, Lab>, more: nat)
    requires n > 0 && |Travel(w, p, n)| == n
    requires Travel(w, p, n)[n - 1].Exit() in w.links
    requires q == Packet(w.links[Travel(w, p, n)[n - 1].Exit()], Travel(w, p, n)[n - 1].lab)
    ensures Travel(w, p, n + more) == Travel(w, p, n) + Travel(w, q, more)
    decreases n
  {
    hide Travel;
    TravelUnfolds(w, p, n);
    TravelUnfolds(w, p, n + more);
    var first := Travel(w, p, n)[0];
    var next := Packet(w.links[first.Exit()], first.lab);
    if n == 1 {
      TravelUnfolds(w, next, 0);
    } else {
      TravelExtends(w, next, n - 1, q, more);
    }
  }

  // The packet that sets out on the way back after some hops: an answer of the
  // router that was reached, or the error packet of the switch that refused.
  function Answer<Slot(==), Lab>(w: World<Slot, Lab>, hops: seq<Hop<Slot, Lab>>): Packet<Slot, Lab>
    requires hops != []
  {
    var last := hops[|hops| - 1];
    Packet(last.Exit(), w.reverse(last.lab))
  }

  lemma MirrorEnds<Slot, Lab>(w: World<Slot, Lab>, hops: seq<Hop<Slot, Lab>>)
    requires hops != []
    ensures Mirror(w, hops)[|hops| - 1] == MirrorHop(w, hops[0])
  {}

  // One hop backwards; where it started on a link, it ends on the other end of it.
  lemma HopRetraces<Slot(!new), Lab(!new)>(w: World<Slot, Lab>, p: Packet<Slot, Lab>)
    requires LinksAreSymmetric(w) && HopsAreReversible(w)
    requires w.switch(p.at, p.lab).Forwarded?
    ensures var back := MirrorHop(w, Hop(p, w.switch(p.at, p.lab).dest, w.switch(p.at, p.lab).lab));
            && back.Exit() == p.at
            && w.switch(back.packet.at, back.packet.lab) == Forwarded(back.dest, back.lab)
            && (p.at in w.links ==> back.lab == w.reverse(p.lab))
  {}

  // Whatever hops a packet made, the answer makes the same hops backwards, and leaves
  // through the slot where the packet came in.
  lemma {:induction false} AnswerRetraces<Slot(!new), Lab(!new)>(w: World<Slot, Lab>, p: Packet<Slot, Lab>, ttl: nat)
    requires LinksAreSymmetric(w) && HopsAreReversible(w)
    requires Travel(w, p, ttl) != []
    ensures var hops := Travel(w, p, ttl);
            Travel(w, Answer(w, hops), |hops|) == Mirror(w, hops)
    decreases ttl
  {
    hide Travel, HopsAreReversible, LinksAreSymmetric;
    var hops := Travel(w, p, ttl);
    var back := MirrorHop(w, hops[0]);
    TravelUnfolds(w, p, ttl);
    HopRetraces(w, p);
    SingleHop(w, back);
    if |hops| > 1 {
      var next := Packet(w.links[hops[0].Exit()], hops[0].lab);
      var rest := Travel(w, next, ttl - 1);
      assert hops[1..] == rest;
      TravelUnfolds(w, next, ttl - 1);
      AnswerRetraces(w, next, ttl - 1);
      MirrorEnds(w, rest);
      HopRetraces(w, next);
      LinkBack(w, hops[0].Exit());
      TravelExtends(w, Answer(w, rest), |rest|, back.packet, 1);
    } else {
      assert hops == [hops[0]];
    }
  }

  lemma LinkBack<Slot(!new), Lab>(w: World<Slot, Lab>, e: End<Slot>)
    requires LinksAreSymmetric(w) && e in w.links
    ensures w.links[e] in w.links && w.links[w.links[e]] == e
  {}

  lemma SingleHop<Slot, Lab>(w: World<Slot, Lab>, hop: Hop<Slot, Lab>)
    requires w.switch(hop.packet.at, hop.packet.lab) == Forwarded(hop.dest, hop.lab)
    ensures Travel(w, hop.packet, 1) == [hop]
  {}
}
