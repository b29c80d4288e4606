/** The whole transport in raw mode: client, a network that loses, repeats and reorders datagrams,
    receiver queue, processor and player, interleaved in any way. */
module Pipeline {
  import opened Bytes
  import opened AnnexB
  import opened ByteStream
  import opened Fragmenter
  import opened Reader
  import opened Client
  import opened Wire
  import opened Server
  import opened Playback
  import opened Accounting
  import opened Playout
  import opened Reassembly
  import opened Delivery

  datatype System = System(
    unsent: seq<Block>,              // what the client's reader has still to hand out
    network: multiset<seq<Byte>>,    // datagrams under way
    queue: seq<Packet>,
    player: State)

  datatype Action =
    | Send
    | Lose(datagram: seq<Byte>)
    | Repeat(datagram: seq<Byte>)
    | Arrive(datagram: seq<Byte>)
    | Process(decoded: Option<seq<Byte>>)
    | Play

  /** The units of the source and the system before anything was sent. */
  function UnitsOf(source: seq<ReadResult>): seq<seq<Byte>> {
    Nalus([], Packets(source))
  }

  function Start(source: seq<ReadResult>): System {
    System(Emission(UnitsOf(source), 0), multiset{}, [], INITIAL)
  }

  /** The block, if any, that an action delivers to the player. */
  function DeliveredBy(sys: System, a: Action): Option<Block> {
    if a.Process? && sys.queue != [] && Sound(sys.queue[0]) then ProcessedBlock(sys.queue[0], a.decoded) else None
  }

  /** What the receiver queues for a datagram. */
  function Received(d: seq<Byte>): seq<Packet> {
    match Parse(Truncated(d)) { case Some(p) => [p] case None => [] }
  }

  /** The effect of an action; one that is not enabled has none. */
  function Act(sys: System, a: Action): System {
    match a
    case Send =>
      if sys.unsent == [] then sys
      else sys.(unsent := sys.unsent[1..], network := sys.network + multiset(Datagrams([sys.unsent[0]])))
    case Lose(d) => sys.(network := sys.network - multiset{d})
    case Repeat(d) => if d in sys.network then sys.(network := sys.network + multiset{d}) else sys
    case Arrive(d) =>
      if d !in sys.network then sys
      else sys.(network := sys.network - multiset{d},
                queue := sys.queue + Received(d))
    case Process(_) =>
      if sys.queue == [] then sys
      else
        var player := match DeliveredBy(sys, a) { case Some(b) => BlockAdded(sys.player, b) case None => sys.player };
        sys.(queue := sys.queue[1..], player := player)
    case Play => sys.(player := Tick(sys.player))
  }

  function Run(sys: System, actions: seq<Action>): System {
    if actions == [] then sys else Act(Run(sys, actions[..|actions| - 1]), actions[|actions| - 1])
  }

  /** The player's part of an action, after that of a run. */
  function Extended(ls: seq<Label>, sys: System, a: Action): seq<Label> {
    if a.Play? then ls + [PlayTick]
    else match DeliveredBy(sys, a) { case Some(b) => ls + [Deliver(b)] case None => ls }
  }

  /** The player's part of a run. */
  function Labels(sys: System, actions: seq<Action>): seq<Label> {
    if actions == [] then []
    else
      var before, a := actions[..|actions| - 1], actions[|actions| - 1];
      Extended(Labels(sys, before), Run(sys, before), a)
  }

  /** A datagram or packet that carries a block of the transmission. */
  ghost predicate CarriesTrue(nalus: seq<seq<Byte>>, d: seq<Byte>)
    requires Sendable(nalus)
  {
    exists b :: Authentic(nalus, b) && d in Datagrams([b])
  }

  ghost predicate HoldsTrue(nalus: seq<seq<Byte>>, p: Packet)
    requires Sendable(nalus)
  {
    Sound(p) && p.RawPacket? && Authentic(nalus, BlockOf(p))
  }

  ghost predicate NetworkTrue(nalus: seq<seq<Byte>>, network: multiset<seq<Byte>>)
    requires Sendable(nalus)
  {
    forall d :: d in network ==> CarriesTrue(nalus, d)
  }

  ghost predicate QueueTrue(nalus: seq<seq<Byte>>, queue: seq<Packet>)
    requires Sendable(nalus)
  {
    forall k :: 0 <= k < |queue| ==> HoldsTrue(nalus, queue[k])
  }

  /** Whatever is under way or queued carries a block of the transmission. */
  ghost predicate Genuine(nalus: seq<seq<Byte>>, sys: System)
    requires Sendable(nalus)
  {
    AllAuthentic(nalus, sys.unsent) && NetworkTrue(nalus, sys.network) && QueueTrue(nalus, sys.queue)
  }

  lemma OneDatagram(b: Block)
    ensures Datagrams([b]) == if |b.data| <= BLOCK_SIZE then [Datagram(RawMessage(b))] else []
  {
    DatagramsSnoc([], b);
    assert [] + [b] == [b];
  }

  /** A datagram that carries a block arrives whole and is queued as that block. */
  lemma ArrivalHoldsTrue(nalus: seq<seq<Byte>>, d: seq<Byte>)
    requires Sendable(nalus) && CarriesTrue(nalus, d)
    ensures var p := Parse(Truncated(d)); p.Some? && HoldsTrue(nalus, p.value)
  {
    var b :| Authentic(nalus, b) && d in Datagrams([b]);
    OneDatagram(b);
    RawRoundTrip(b);
    assert Truncated(d) == d;
  }

  lemma NetworkGrows(nalus: seq<seq<Byte>>, network: multiset<seq<Byte>>, b: Block)
    requires Sendable(nalus) && NetworkTrue(nalus, network) && Authentic(nalus, b)
    ensures NetworkTrue(nalus, network + multiset(Datagrams([b])))
  {
    var sent := Datagrams([b]);
    forall d | d in network + multiset(sent) ensures CarriesTrue(nalus, d) {
      if d !in network { assert d in sent; }
    }
  }

  lemma NetworkShrinksOrRepeats(nalus: seq<seq<Byte>>, network: multiset<seq<Byte>>, d: seq<Byte>)
    requires Sendable(nalus) && NetworkTrue(nalus, network)
    ensures NetworkTrue(nalus, network - multiset{d})
    ensures d in network ==> NetworkTrue(nalus, network + multiset{d})
  {
    assert forall e :: e in network - multiset{d} ==> e in network;
    assert forall e :: e in network + multiset{d} ==> e in network || e == d;
  }

  lemma QueueGrows(nalus: seq<seq<Byte>>, queue: seq<Packet>, d: seq<Byte>)
    requires Sendable(nalus) && QueueTrue(nalus, queue) && CarriesTrue(nalus, d)
    ensures QueueTrue(nalus, queue + Received(d))
  {
    ArrivalHoldsTrue(nalus, d);
    var p := Parse(Truncated(d)).value;
    assert queue + Received(d) == queue + [p];
  }

  lemma QueueShrinks(nalus: seq<seq<Byte>>, queue: seq<Packet>)
    requires Sendable(nalus) && QueueTrue(nalus, queue) && queue != []
    ensures QueueTrue(nalus, queue[1..])
  {
    assert forall k :: 0 <= k < |queue[1..]| ==> queue[1..][k] == queue[k + 1];
  }

  lemma SendGenuine(nalus: seq<seq<Byte>>, sys: System)
    requires Sendable(nalus) && Genuine(nalus, sys)
    ensures Genuine(nalus, Act(sys, Send))
  {
    if sys.unsent != [] { NetworkGrows(nalus, sys.network, sys.unsent[0]); }
  }

  lemma ArriveGenuine(nalus: seq<seq<Byte>>, sys: System, d: seq<Byte>)
    requires Sendable(nalus) && Genuine(nalus, sys)
    ensures Genuine(nalus, Act(sys, Arrive(d)))
  {
    NetworkShrinksOrRepeats(nalus, sys.network, d);
    if d in sys.network { QueueGrows(nalus, sys.queue, d); }
  }

  /** Every action keeps what is under way and queued genuine. */
  lemma {:induction false} ActGenuine(nalus: seq<seq<Byte>>, sys: System, a: Action)
    requires Sendable(nalus) && Genuine(nalus, sys)
    ensures Genuine(nalus, Act(sys, a))
  {
    match a
    case Send => SendGenuine(nalus, sys);
    case Lose(d) => NetworkShrinksOrRepeats(nalus, sys.network, d);
    case Repeat(d) => NetworkShrinksOrRepeats(nalus, sys.network, d);
    case Arrive(d) => ArriveGenuine(nalus, sys, d);
    case Process(_) =>
      if sys.queue != [] { QueueShrinks(nalus, sys.queue); }
    case Play =>
  }

  /** Only blocks of the transmission are ever delivered, whatever the decoder makes of packets. */
  lemma DeliveryAuthentic(nalus: seq<seq<Byte>>, sys: System, a: Action)
    requires Sendable(nalus) && Genuine(nalus, sys) && DeliveredBy(sys, a).Some?
    ensures Authentic(nalus, DeliveredBy(sys, a).value)
  {
    assert HoldsTrue(nalus, sys.queue[0]);
  }

  lemma ActPlayer(sys: System, a: Action)
    ensures Act(sys, a).player
         == if a.Play? then Tick(sys.player)
            else match DeliveredBy(sys, a) { case Some(b) => BlockAdded(sys.player, b) case None => sys.player }
  {
  }

  lemma ExtendedRuns(ls: seq<Label>, sys: System, a: Action)
    requires sys.player == Exec(INITIAL, ls)
    ensures Act(sys, a).player == Exec(INITIAL, Extended(ls, sys, a))
    ensures Deliveries(Extended(ls, sys, a))
         == Deliveries(ls) + match DeliveredBy(sys, a) { case Some(b) => [b] case None => [] }
  {
    ActPlayer(sys, a);
    if a.Play? {
      ExecSnoc(INITIAL, ls, PlayTick);
    } else if DeliveredBy(sys, a).Some? {
      ExecSnoc(INITIAL, ls, Deliver(DeliveredBy(sys, a).value));
    }
  }

  /** A run of the system is a run of the player on authentic deliveries. */
  lemma {:induction false} RunProjects(nalus: seq<seq<Byte>>, sys: System, actions: seq<Action>)
    requires Sendable(nalus) && Genuine(nalus, sys) && sys.player == INITIAL
    ensures Genuine(nalus, Run(sys, actions))
    ensures Run(sys, actions).player == Exec(INITIAL, Labels(sys, actions))
    ensures AllAuthentic(nalus, Deliveries(Labels(sys, actions)))
  {
    if actions != [] {
      var before, a := actions[..|actions| - 1], actions[|actions| - 1];
      var r, ls := Run(sys, before), Labels(sys, before);
      RunProjects(nalus, sys, before);
      ActGenuine(nalus, r, a);
      ActPlayer(r, a);
      ExtendedRuns(ls, r, a);
      if DeliveredBy(r, a).Some? { DeliveryAuthentic(nalus, r, a); }
    }
  }

  lemma StartGenuine(source: seq<ReadResult>)
    requires Sendable(UnitsOf(source))
    ensures Genuine(UnitsOf(source), Start(source))
  {
    EmissionExact(UnitsOf(source));
  }

  lemma {:induction false} UnitSizes(nalus: seq<seq<Byte>>)
    requires forall n :: n in nalus ==> |n| >= 1
    ensures |nalus| <= |Flatten(nalus)|
    ensures forall n :: n in nalus ==> |n| <= |Flatten(nalus)|
  {
    if nalus != [] { UnitSizes(nalus[1..]); }
  }

  /** Every source of less than 4 GiB fits the 32-bit numbers of the protocol. */
  lemma SmallSourceSendable(source: seq<ReadResult>)
    requires |Flatten(Packets(source))| <= U32_MAX
    ensures Sendable(UnitsOf(source))
  {
    var nalus := UnitsOf(source);
    NalusWellFormed([], Packets(source));
    UnitSizes(nalus);
    LosslessIff([], Packets(source));
    assert [] + Flatten(Packets(source)) == Flatten(Packets(source));
    forall n | 0 <= n < |nalus| ensures |nalus[n]| >= 1 && BlockCount(nalus[n]) <= U32_MAX {
      assert nalus[n] in nalus;
    }
  }

  /** End-to-end safety. In every interleaving of sending, loss, repetition, reordering, receiving,
      processing and playing, the decoder is given units in strictly increasing order of number, each
      byte for byte the unit the reader extracted under that number. */
  lemma {:induction false} EndToEndSafety(source: seq<ReadResult>, actions: seq<Action>)
    requires Sendable(UnitsOf(source))
    ensures var shown := Run(Start(source), actions).player.displayed;
            TrueDisplay(UnitsOf(source), shown) && Increasing(Indices(shown))
  {
    var nalus, run := UnitsOf(source), Labels(Start(source), actions);
    StartGenuine(source);
    RunProjects(nalus, Start(source), actions);
    AuthenticRun(nalus, run);
    AuthenticDisplayIncreases(nalus, run);
  }

  /** A unit was displayed or is ready exactly when every one of its blocks has been processed. */
  lemma {:induction false} FinishedIffProcessed(source: seq<ReadResult>, actions: seq<Action>, n: nat)
    requires Sendable(UnitsOf(source)) && n < |UnitsOf(source)|
    ensures Finished(Run(Start(source), actions).player, n)
       <==> Covered(UnitsOf(source), Deliveries(Labels(Start(source), actions)), n)
  {
    var nalus, run := UnitsOf(source), Labels(Start(source), actions);
    StartGenuine(source);
    RunProjects(nalus, Start(source), actions);
    AuthenticRun(nalus, run);
    assert Tracks(nalus, Deliveries(run), Exec(INITIAL, run), n);
  }

  /** No complete unit is passed over: a round that moves past unit `n` displays it if all its blocks
      have been processed, and otherwise skips it. */
  lemma {:induction false} NoCompleteUnitSkipped(source: seq<ReadResult>, actions: seq<Action>, n: nat)
    requires Sendable(UnitsOf(source)) && n < |UnitsOf(source)|
    requires var s := Run(Start(source), actions).player; s.next <= n < Tick(s).next
    ensures Covered(UnitsOf(source), Deliveries(Labels(Start(source), actions)), n)
       <==> Due(Run(Start(source), actions).player)
  {
    StartGenuine(source);
    RunProjects(UnitsOf(source), Start(source), actions);
    SkipsOnlyIncomplete(UnitsOf(source), Labels(Start(source), actions), n);
  }

  /** End-to-end delivery. Once every block has got through at least once, whatever was lost, repeated
      and reordered besides and however much was played meanwhile, playing on displays every unit of
      the source in order if and only if playout has not stalled or has displayed them all already. */
  lemma {:induction false} EndToEndDelivery(source: seq<ReadResult>, actions: seq<Action>)
    requires Sendable(UnitsOf(source))
    requires forall b :: Authentic(UnitsOf(source), b) ==> b in Deliveries(Labels(Start(source), actions))
    ensures var s, all := Run(Start(source), actions).player, ShownUpTo(UnitsOf(source), |UnitsOf(source)|);
            (exists t: nat :: Ticks(s, t).displayed == all) <==> Fresh(s) || s.displayed == all
  {
    StartGenuine(source);
    RunProjects(UnitsOf(source), Start(source), actions);
    DeliveryIff(UnitsOf(source), Labels(Start(source), actions));
  }

  lemma PrintedUnits(us: seq<Unit>, source: seq<ReadResult>)
    requires forall u :: u in us ==> NoCodeInside(u) && !EndsInZero(u)
    requires Flatten(Packets(source)) == Flatten(PrintAll(us)) && Seamless([], Packets(source))
    ensures UnitsOf(source) == PrintAll(us)
  {
    ConformingRoundTrip(us);
    ChunkingInvisibleIff([], Packets(source));
    assert [] + Flatten(Packets(source)) == Flatten(PrintAll(us));
  }

  /** From printed stream to display: conforming units printed with any start codes, read in chunks with no
      visible joins and all of them processed, are displayed as printed by playing on, if and only if
      playout has not stalled or has displayed them all already. */
  lemma {:induction false} PrintedStreamDisplayed(us: seq<Unit>, source: seq<ReadResult>, actions: seq<Action>)
    requires forall u :: u in us ==> NoCodeInside(u) && !EndsInZero(u)
    requires Flatten(Packets(source)) == Flatten(PrintAll(us)) && Seamless([], Packets(source))
    requires Sendable(UnitsOf(source))
    requires forall b :: Authentic(UnitsOf(source), b) ==> b in Deliveries(Labels(Start(source), actions))
    ensures var s, all := Run(Start(source), actions).player, ShownUpTo(UnitsOf(source), |UnitsOf(source)|);
            && NaluBytes(all) == PrintAll(us)
            && ((exists t: nat :: Ticks(s, t).displayed == all) <==> Fresh(s) || s.displayed == all)
  {
    PrintedUnits(us, source);
    EndToEndDelivery(source, actions);
  }
}
