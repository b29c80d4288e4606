/** The server's queue keeps order, and so an orderly network lets nothing be lost or skipped. */
module OrderlyNetwork {
  import opened Bytes
  import opened Fragmenter
  import opened Reader
  import opened Client
  import opened Wire
  import opened Server
  import opened Playback
  import opened Playout
  import opened Delivery
  import opened Lossless
  import opened Pipeline

  /** What an action puts into the queue, and what it takes out. */
  function Enqueued(sys: System, a: Action): seq<Packet> {
    if a.Arrive? && a.datagram in sys.network then Received(a.datagram) else []
  }

  function Dequeued(sys: System, a: Action): seq<Packet> {
    if a.Process? && sys.queue != [] then [sys.queue[0]] else []
  }

  function Queued(sys: System, actions: seq<Action>): seq<Packet> {
    if actions == [] then []
    else
      var before := actions[..|actions| - 1];
      Queued(sys, before) + Enqueued(Run(sys, before), actions[|actions| - 1])
  }

  function Taken(sys: System, actions: seq<Action>): seq<Packet> {
    if actions == [] then []
    else
      var before := actions[..|actions| - 1];
      Taken(sys, before) + Dequeued(Run(sys, before), actions[|actions| - 1])
  }

  lemma QueueStep(sys: System, a: Action)
    ensures sys.queue + Enqueued(sys, a) == Dequeued(sys, a) + Act(sys, a).queue
  {
  }

  lemma FifoStep<T>(start: seq<T>, q: seq<T>, i: seq<T>, t: seq<T>, o: seq<T>, mid: seq<T>, after: seq<T>)
    requires start + q == t + mid && mid + i == o + after
    ensures start + (q + i) == (t + o) + after
  {
    assert start + (q + i) == (start + q) + i;
    assert (t + mid) + i == t + (mid + i);
    assert t + (o + after) == (t + o) + after;
  }

  /** First in, first out: packets are processed in the order in which they were received. */
  lemma {:induction false} QueueIsFifo(sys: System, actions: seq<Action>)
    ensures sys.queue + Queued(sys, actions) == Taken(sys, actions) + Run(sys, actions).queue
  {
    if actions != [] {
      var before, a := actions[..|actions| - 1], actions[|actions| - 1];
      var r := Run(sys, before);
      QueueIsFifo(sys, before);
      QueueStep(r, a);
      FifoStep(sys.queue, Queued(sys, before), Enqueued(r, a), Taken(sys, before), Dequeued(r, a),
               r.queue, Act(r, a).queue);
    }
  }

  /** The datagrams that arrived in a run, in order. */
  function Arrivals(sys: System, actions: seq<Action>): seq<seq<Byte>> {
    if actions == [] then []
    else
      var before, a := actions[..|actions| - 1], actions[|actions| - 1];
      if a.Arrive? && a.datagram in Run(sys, before).network then Arrivals(sys, before) + [a.datagram]
      else Arrivals(sys, before)
  }

  function BlocksIn(packets: seq<Packet>): seq<Block> {
    if packets == [] then []
    else
      var p := packets[|packets| - 1];
      BlocksIn(packets[..|packets| - 1])
      + if p.RawPacket? && p.header.payloadSize <= |p.payload| then [BlockOf(p)] else []
  }

  /** The blocks carried by each of some datagrams: none or one. */
  function Carried(datagrams: seq<seq<Byte>>): (r: seq<seq<Block>>)
    ensures |r| == |datagrams| && forall k :: 0 <= k < |r| ==> r[k] == BlocksIn(Received(datagrams[k]))
  {
    seq(|datagrams|, k requires 0 <= k < |datagrams| => BlocksIn(Received(datagrams[k])))
  }

  lemma CarriedSnoc(ds: seq<seq<Byte>>, d: seq<Byte>)
    ensures Flatten(Carried(ds + [d])) == Flatten(Carried(ds)) + BlocksIn(Received(d))
  {
    var last := BlocksIn(Received(d));
    assert Carried(ds + [d]) == Carried(ds) + [last];
    FlattenConcat(Carried(ds), [last]);
    FlattenOne(last);
  }

  lemma {:induction false} BlocksInConcat(ps: seq<Packet>, qs: seq<Packet>)
    ensures BlocksIn(ps + qs) == BlocksIn(ps) + BlocksIn(qs)
  {
    if qs == [] {
      assert ps + qs == ps;
    } else {
      var last := |qs| - 1;
      assert (ps + qs)[..|ps| + last] == ps + qs[..last];
      BlocksInConcat(ps, qs[..last]);
    }
  }

  lemma BlocksInOne(p: Packet)
    requires p.RawPacket? && p.header.payloadSize <= |p.payload|
    ensures BlocksIn([p]) == [BlockOf(p)]
  {
    assert [p][..0] == [];
  }

  lemma DeliveredIsDequeued(nalus: seq<seq<Byte>>, sys: System, a: Action)
    requires Sendable(nalus) && Genuine(nalus, sys)
    ensures BlocksIn(Dequeued(sys, a)) == match DeliveredBy(sys, a) { case Some(b) => [b] case None => [] }
  {
    if a.Process? && sys.queue != [] {
      assert HoldsTrue(nalus, sys.queue[0]);
      BlocksInOne(sys.queue[0]);
    }
  }

  lemma {:induction false} DeliveriesAreTaken(nalus: seq<seq<Byte>>, sys: System, actions: seq<Action>)
    requires Sendable(nalus) && Genuine(nalus, sys) && sys.player == INITIAL
    ensures Deliveries(Labels(sys, actions)) == BlocksIn(Taken(sys, actions))
  {
    if actions != [] {
      var before, a := actions[..|actions| - 1], actions[|actions| - 1];
      var r, ls := Run(sys, before), Labels(sys, before);
      DeliveriesAreTaken(nalus, sys, before);
      RunProjects(nalus, sys, before);
      BlocksInConcat(Taken(sys, before), Dequeued(r, a));
      DeliveredIsDequeued(nalus, r, a);
      ExtendedRuns(ls, r, a);
    }
  }

  lemma {:induction false} QueuedAreCarried(sys: System, actions: seq<Action>)
    ensures BlocksIn(Queued(sys, actions)) == Flatten(Carried(Arrivals(sys, actions)))
  {
    if actions != [] {
      var before, a := actions[..|actions| - 1], actions[|actions| - 1];
      var ds := Arrivals(sys, before);
      QueuedAreCarried(sys, before);
      BlocksInConcat(Queued(sys, before), Enqueued(Run(sys, before), a));
      if a.Arrive? { CarriedSnoc(ds, a.datagram); }
    }
  }

  lemma ReceivedBlock(b: Block)
    requires |b.data| <= BLOCK_SIZE
    ensures BlocksIn(Received(Datagram(RawMessage(b)))) == [b]
  {
    var d := Datagram(RawMessage(b));
    RawRoundTrip(b);
    assert Truncated(d) == d;
    BlocksInOne(Parse(d).value);
  }

  lemma {:induction false} FlattenSingletons<T>(xss: seq<seq<T>>, xs: seq<T>)
    requires |xss| == |xs| && forall k :: 0 <= k < |xs| ==> xss[k] == [xs[k]]
    ensures Flatten(xss) == xs
  {
    if xs != [] { FlattenSingletons(xss[1..], xs[1..]); }
  }

  /** Blocks sent one datagram each are carried back unchanged and in order. */
  lemma CarriedBack(blocks: seq<Block>, n: nat)
    requires Fits(blocks) && n <= |blocks|
    ensures n <= |Datagrams(blocks)| && Flatten(Carried(Datagrams(blocks)[..n])) == blocks[..n]
  {
    var ds := Datagrams(blocks);
    DatagramsOfFitting(blocks);
    forall k | 0 <= k < n ensures BlocksIn(Received(ds[k])) == [blocks[k]] {
      ReceivedBlock(blocks[k]);
    }
    FlattenSingletons(Carried(ds[..n]), blocks[..n]);
  }

  /** In every run, what was processed and then what is queued is what the arrived datagrams carry. */
  lemma ProcessedThenQueued(source: seq<ReadResult>, actions: seq<Action>)
    requires Sendable(UnitsOf(source))
    ensures Deliveries(Labels(Start(source), actions)) + BlocksIn(Run(Start(source), actions).queue)
         == Flatten(Carried(Arrivals(Start(source), actions)))
  {
    var sys := Start(source);
    StartGenuine(source);
    DeliveriesAreTaken(UnitsOf(source), sys, actions);
    QueuedAreCarried(sys, actions);
    QueueIsFifo(sys, actions);
    assert [] + Queued(sys, actions) == Queued(sys, actions);
    BlocksInConcat(Taken(sys, actions), Run(sys, actions).queue);
  }

  /** With datagrams arriving in order, each at most once and none after a missing one, what was processed
      and then what is queued is the beginning of what the client sent. */
  lemma OrderlyDeliveries(source: seq<ReadResult>, actions: seq<Action>)
    requires Sendable(UnitsOf(source))
    requires Arrivals(Start(source), actions) <= Datagrams(Emission(UnitsOf(source), 0))
    ensures var sent, n := Emission(UnitsOf(source), 0), |Arrivals(Start(source), actions)|;
            && n <= |sent| == |Datagrams(sent)|
            && Deliveries(Labels(Start(source), actions)) + BlocksIn(Run(Start(source), actions).queue) == sent[..n]
    ensures Deliveries(Labels(Start(source), actions)) <= Emission(UnitsOf(source), 0)
  {
    var sent, ds := Emission(UnitsOf(source), 0), Arrivals(Start(source), actions);
    ProcessedThenQueued(source, actions);
    EmissionFits(UnitsOf(source), 0);
    DatagramsOfFitting(sent);
    CarriedBack(sent, |ds|);
    assert ds == Datagrams(sent)[..|ds|];
    var w, q := Deliveries(Labels(Start(source), actions)), BlocksIn(Run(Start(source), actions).queue);
    assert w <= w + q == sent[..|ds|];
  }

  /** Over a network that delivers the client's datagrams in order, each at most once and none after a
      missing one, with playing going on all the while: nothing is ever skipped, and what was
      displayed, what is ready and what is open are together the beginning of what the client sent. */
  lemma {:induction false} OrderlyNetworkConserves(source: seq<ReadResult>, actions: seq<Action>)
    requires Sendable(UnitsOf(source))
    requires Arrivals(Start(source), actions) <= Datagrams(Emission(UnitsOf(source), 0))
    ensures var s, sent := Run(Start(source), actions).player, Emission(UnitsOf(source), 0);
            var w := Deliveries(Labels(Start(source), actions));
            w <= sent && AllBytes(s) == Flatten(Data(w)) && s.counters.skippedNalus == 0
  {
    var nalus, sys := UnitsOf(source), Start(source);
    StartGenuine(source);
    RunProjects(nalus, sys, actions);
    OrderlyDeliveries(source, actions);
    EmissionIsTrueBlocks(nalus, 0);
    assert nalus[0..] == nalus;
    InOrderConservesBytes(nalus, Labels(sys, actions));
  }

  function Plays(t: nat): (actions: seq<Action>)
    ensures |actions| == t && forall k :: 0 <= k < t ==> actions[k] == Play
  {
    seq(t, _ => Play)
  }

  lemma RunSnoc(sys: System, actions: seq<Action>, a: Action)
    ensures Run(sys, actions + [a]) == Act(Run(sys, actions), a)
  {
    assert (actions + [a])[..|actions|] == actions;
  }

  lemma {:induction false} PlayingOn(sys: System, actions: seq<Action>, t: nat)
    ensures Run(sys, actions + Plays(t)).player == Ticks(Run(sys, actions).player, t)
  {
    if t == 0 {
      assert actions + Plays(0) == actions;
    } else {
      PlayingOn(sys, actions, t - 1);
      RunSnoc(sys, actions + Plays(t - 1), Play);
      assert actions + Plays(t) == (actions + Plays(t - 1)) + [Play];
      TicksSnoc(Run(sys, actions).player, t - 1);
    }
  }

  /** Once every datagram of the client has arrived over such a network and the queue is worked off, as
      many more rounds as there are ready units display every unit of the source in order. */
  lemma {:induction false} OrderlyNetworkCompletes(source: seq<ReadResult>, actions: seq<Action>)
    requires Sendable(UnitsOf(source))
    requires Arrivals(Start(source), actions) == Datagrams(Emission(UnitsOf(source), 0))
    requires Run(Start(source), actions).queue == []
    ensures var rest := Plays(|Run(Start(source), actions).player.ready|);
            Run(Start(source), actions + rest).player.displayed == ShownUpTo(UnitsOf(source), |UnitsOf(source)|)
  {
    var nalus, sys := UnitsOf(source), Start(source);
    var w, sent := Deliveries(Labels(sys, actions)), Emission(nalus, 0);
    StartGenuine(source);
    RunProjects(nalus, sys, actions);
    OrderlyDeliveries(source, actions);
    assert w == w + [] == sent;
    EmissionIsTrueBlocks(nalus, 0);
    assert nalus[0..] == nalus;
    InOrderCompletes(nalus, Labels(sys, actions));
    PlayingOn(sys, actions, |Run(sys, actions).player.ready|);
  }
}
