/** A network that loses datagrams but neither repeats nor reorders them. */
module LossyNetwork {
  import opened Bytes
  import opened Fragmenter
  import opened Reader
  import opened Client
  import opened Wire
  import opened Playback
  import opened Accounting
  import opened Playout
  import opened Reassembly
  import opened Delivery
  import opened Timing
  import opened ArrivalOrder
  import opened Pipeline
  import opened OrderlyNetwork

  /** `a` holds the elements of `b` at the given places, in order. */
  ghost predicate Picks<T>(a: seq<T>, b: seq<T>, at: seq<nat>) {
    && |at| == |a|
    && (forall j, k :: 0 <= j < k < |at| ==> at[j] < at[k])
    && forall k :: 0 <= k < |at| ==> at[k] < |b| && a[k] == b[at[k]]
  }

  ghost predicate Subsequence<T>(a: seq<T>, b: seq<T>) {
    exists at :: Picks(a, b, at)
  }

  /** The arrived datagrams are some of those the client sends, in order. */
  ghost predicate OnlyLoses(source: seq<ReadResult>, actions: seq<Action>) {
    Subsequence(Arrivals(Start(source), actions), Datagrams(Emission(UnitsOf(source), 0)))
  }

  /** Each datagram carries the block at the same place. */
  ghost predicate Carries(ds: seq<seq<Byte>>, w: seq<Block>) {
    && |ds| == |w|
    && forall k :: 0 <= k < |w| ==> |w[k].data| <= BLOCK_SIZE && ds[k] == Datagram(RawMessage(w[k]))
  }

  /** The blocks carried by some of the datagrams. */
  lemma CarriedPicks(blocks: seq<Block>, ds: seq<seq<Byte>>, at: seq<nat>)
    requires Fits(blocks) && Picks(ds, Datagrams(blocks), at)
    ensures Picks(Flatten(Carried(ds)), blocks, at)
    ensures Carries(ds, Flatten(Carried(ds)))
  {
    DatagramsOfFitting(blocks);
    var picked := seq(|at|, k requires 0 <= k < |at| => blocks[at[k]]);
    forall k | 0 <= k < |at| ensures Carried(ds)[k] == [picked[k]] {
      ReceivedBlock(picked[k]);
    }
    FlattenSingletons(Carried(ds), picked);
  }

  lemma PickedInOrder(nalus: seq<seq<Byte>>, w: seq<Block>, at: seq<nat>)
    requires Sendable(nalus) && Picks(w, Emission(nalus, 0), at)
    ensures AllAuthentic(nalus, w) && LexIncreasing(w)
  {
    EmissionExact(nalus);
    assert forall k :: 0 <= k < |w| ==> w[k] in Emission(nalus, 0);
  }

  lemma PrefixInOrder(nalus: seq<seq<Byte>>, w: seq<Block>, v: seq<Block>)
    requires Sendable(nalus) && AllAuthentic(nalus, v) && LexIncreasing(v) && w <= v
    ensures AllAuthentic(nalus, w) && LexIncreasing(w)
  {
    assert forall k :: 0 <= k < |w| ==> w[k] == v[k] && v[k] in v;
  }

  /** The arrived datagrams carry blocks in the order of sending; what was processed begins them. */
  lemma LossyDeliveries(source: seq<ReadResult>, actions: seq<Action>)
    requires Sendable(UnitsOf(source)) && OnlyLoses(source, actions)
    ensures var w, ds := Deliveries(Labels(Start(source), actions)), Arrivals(Start(source), actions);
            var v := Flatten(Carried(ds));
            && AllAuthentic(UnitsOf(source), w) && LexIncreasing(w)
            && AllAuthentic(UnitsOf(source), v) && Carries(ds, v)
            && (Run(Start(source), actions).queue == [] ==> w == v)
  {
    var nalus, ds := UnitsOf(source), Arrivals(Start(source), actions);
    var w, v := Deliveries(Labels(Start(source), actions)), Flatten(Carried(ds));
    var at :| Picks(ds, Datagrams(Emission(nalus, 0)), at);
    EmissionFits(nalus, 0);
    CarriedPicks(Emission(nalus, 0), ds, at);
    PickedInOrder(nalus, v, at);
    ProcessedThenQueued(source, actions);
    var q := BlocksIn(Run(Start(source), actions).queue);
    assert w <= w + q == v;
    PrefixInOrder(nalus, w, v);
  }

  /** Over a network that only loses, playout never stalls, in any interleaving. */
  lemma LossNeverStalls(source: seq<ReadResult>, actions: seq<Action>)
    requires Sendable(UnitsOf(source)) && OnlyLoses(source, actions)
    ensures Fresh(Run(Start(source), actions).player)
  {
    var nalus, ls := UnitsOf(source), Labels(Start(source), actions);
    StartGenuine(source);
    RunProjects(nalus, Start(source), actions);
    LossyDeliveries(source, actions);
    InOrderFinishes(nalus, Deliveries(ls));
    IncreasingHolds(ls);
  }

  // ----- What is displayed

  /** Every datagram of unit `n` has arrived. */
  ghost predicate AllArrived(nalus: seq<seq<Byte>>, arrived: seq<seq<Byte>>, n: nat)
    requires Sendable(nalus) && n < |nalus|
  {
    forall i :: 0 <= i < BlockCount(nalus[n]) ==> Datagram(RawMessage(TrueBlock(nalus, n, i))) in arrived
  }

  /** The units all of whose datagrams have arrived. */
  ghost function WholeUnits(nalus: seq<seq<Byte>>, arrived: seq<seq<Byte>>): set<U32>
    requires Sendable(nalus)
  {
    set n: U32 | n < |nalus| && AllArrived(nalus, arrived, n)
  }

  /** Those of the first `n` units whose numbers are given, in order. */
  ghost function InSequence(nalus: seq<seq<Byte>>, numbers: set<U32>, n: nat): seq<Shown>
    requires Sendable(nalus) && n <= |nalus|
  {
    if n == 0 then []
    else InSequence(nalus, numbers, n - 1) + if n - 1 in numbers then [Shown(n - 1, nalus[n - 1])] else []
  }

  lemma ArrivedIffDelivered(w: seq<Block>, ds: seq<seq<Byte>>, b: Block)
    requires Carries(ds, w) && |b.data| <= BLOCK_SIZE
    ensures Datagram(RawMessage(b)) in ds <==> b in w
  {
    if Datagram(RawMessage(b)) in ds {
      var k :| 0 <= k < |ds| && ds[k] == Datagram(RawMessage(b));
      ReceivedBlock(b);
      ReceivedBlock(w[k]);
      assert [b][0] == [w[k]][0];
    }
  }

  lemma ArrivedIffCovered(nalus: seq<seq<Byte>>, w: seq<Block>, ds: seq<seq<Byte>>, n: nat)
    requires Sendable(nalus) && n < |nalus| && Carries(ds, w)
    ensures AllArrived(nalus, ds, n) <==> Covered(nalus, w, n)
  {
    forall i | 0 <= i < BlockCount(nalus[n])
      ensures Datagram(RawMessage(TrueBlock(nalus, n, i))) in ds <==> Arrived(nalus, w, n, i)
    {
      ArrivedIffDelivered(w, ds, TrueBlock(nalus, n, i));
    }
  }

  lemma LastIsGreatest(d: seq<U32>, n: U32)
    requires Increasing(d) && n in d && forall m :: m in d ==> m <= n
    ensures d[|d| - 1] == n
  {
    assert d[|d| - 1] in d;
    assert forall j :: 0 <= j < |d| - 1 ==> d[j] < d[|d| - 1];
  }

  lemma DropGreatest(d: seq<U32>)
    requires Increasing(d) && d != []
    ensures Increasing(d[..|d| - 1])
    ensures forall m :: m in d[..|d| - 1] <==> m in d && m != d[|d| - 1]
  {
    var e, last := d[..|d| - 1], d[|d| - 1];
    assert d == e + [last];
    forall m | m in e ensures m != last {
      var k :| 0 <= k < |e| && e[k] == m;
      assert d[k] < d[|d| - 1];
    }
  }

  /** On display, in increasing order, are those of the first `n` units whose numbers are given. */
  ghost predicate Displays(nalus: seq<seq<Byte>>, shown: seq<Shown>, numbers: set<U32>, n: nat)
    requires Sendable(nalus) && n <= |nalus|
  {
    && TrueDisplay(nalus, shown) && Increasing(Indices(shown))
    && forall m: U32 :: m in Indices(shown) <==> m < n && m in numbers
  }

  lemma LastDisplayed(nalus: seq<seq<Byte>>, shown: seq<Shown>, numbers: set<U32>, n: nat)
    requires Sendable(nalus) && n < |nalus| && Displays(nalus, shown, numbers, n + 1) && n in numbers
    ensures var last := |shown| - 1;
            last >= 0 && shown[last] == Shown(n, nalus[n]) && Displays(nalus, shown[..last], numbers, n)
  {
    var d, last := Indices(shown), |shown| - 1;
    assert n in d;
    LastIsGreatest(d, n);
    assert Indices(shown[..last]) == d[..last];
    DropGreatest(d);
  }

  /** A display in increasing order is determined by which units are on it. */
  lemma {:induction false} DisplayDetermined(nalus: seq<seq<Byte>>, shown: seq<Shown>, numbers: set<U32>, n: nat)
    requires Sendable(nalus) && n <= |nalus| && Displays(nalus, shown, numbers, n)
    ensures shown == InSequence(nalus, numbers, n)
  {
    var last := |shown| - 1;
    if shown != [] { assert Indices(shown)[last] in Indices(shown); }
    if n == 0 {
      assert shown == [];
    } else if n - 1 in numbers {
      LastDisplayed(nalus, shown, numbers, n - 1);
      DisplayDetermined(nalus, shown[..last], numbers, n - 1);
      assert shown == shown[..last] + [shown[last]];
    } else {
      DisplayDetermined(nalus, shown, numbers, n - 1);
    }
  }

  /** Over a network that only loses, once the queue is worked off, playing on displays exactly the units
      all of whose datagrams have arrived, in order. */
  lemma {:induction false} LossyNetworkShows(source: seq<ReadResult>, actions: seq<Action>, t: nat)
    requires Sendable(UnitsOf(source)) && OnlyLoses(source, actions)
    requires Run(Start(source), actions).queue == []
    requires var s := Run(Start(source), actions).player; t >= RoundsNeeded(s.ready, s.next)
    ensures Run(Start(source), actions + Plays(t)).player.displayed
         == InSequence(UnitsOf(source), WholeUnits(UnitsOf(source), Arrivals(Start(source), actions)),
                       |UnitsOf(source)|)
  {
    var nalus, ls, ds := UnitsOf(source), Labels(Start(source), actions), Arrivals(Start(source), actions);
    StartGenuine(source);
    RunProjects(nalus, Start(source), actions);
    LossyDeliveries(source, actions);
    LossNeverStalls(source, actions);
    PlayingOn(Start(source), actions, t);
    DrainedShowsWhole(nalus, ls, ds, t);
  }

  lemma DrainedShowsWhole(nalus: seq<seq<Byte>>, ls: seq<Label>, ds: seq<seq<Byte>>, t: nat)
    requires Sendable(nalus) && AllAuthentic(nalus, Deliveries(ls)) && Carries(ds, Deliveries(ls))
    requires var s := Exec(INITIAL, ls); Fresh(s) && t >= RoundsNeeded(s.ready, s.next)
    ensures Ticks(Exec(INITIAL, ls), t).displayed == InSequence(nalus, WholeUnits(nalus, ds), |nalus|)
  {
    var run, w := ls + Rounds(t), Deliveries(ls);
    RoundsAfter(ls, t);
    PlayoutProgress(Exec(INITIAL, ls), t);
    var s := Exec(INITIAL, run);
    AuthenticRun(nalus, run);
    AuthenticDisplayIncreases(nalus, run);
    forall m: U32 ensures m in Indices(s.displayed) <==> m < |nalus| && m in WholeUnits(nalus, ds) {
      if m < |nalus| {
        assert Tracks(nalus, w, s, m);
        ArrivedIffCovered(nalus, w, ds, m);
      }
    }
    DisplayDetermined(nalus, s.displayed, WholeUnits(nalus, ds), |nalus|);
  }
}
