/** Reassembly from authentic blocks that may be lost, repeated and reordered. */
module Reassembly {
  import opened Bytes
  import opened Fragmenter
  import opened Playback

  // ----- What is in the player is what was sent

  /** The slots of a unit hold its true blocks or nothing. */
  ghost predicate TrueSlots(nalu: seq<Byte>, blocks: seq<Option<seq<Byte>>>) {
    && |blocks| == BlockCount(nalu)
    && forall i :: 0 <= i < |blocks| && blocks[i].Some? ==> blocks[i].value == Slice(nalu, i)
  }

  ghost predicate TrueAssemblies(nalus: seq<seq<Byte>>, assembling: map<U32, Assembly>) {
    forall n :: n in assembling ==> n < |nalus| && TrueSlots(nalus[n], assembling[n].blocks)
  }

  ghost predicate TrueUnits(nalus: seq<seq<Byte>>, ready: map<U32, seq<Byte>>) {
    forall n :: n in ready ==> n < |nalus| && ready[n] == nalus[n]
  }

  ghost predicate TrueDisplay(nalus: seq<seq<Byte>>, displayed: seq<Shown>) {
    forall k :: 0 <= k < |displayed| ==>
      displayed[k].index < |nalus| && displayed[k].nalu == nalus[displayed[k].index]
  }

  /** Every filled slot holds the true block, and every ready or displayed unit is the true unit. */
  ghost predicate Faithful(nalus: seq<seq<Byte>>, s: State) {
    TrueAssemblies(nalus, s.assembling) && TrueUnits(nalus, s.ready) && TrueDisplay(nalus, s.displayed)
  }

  lemma {:induction false} JoinedSlices(nalu: seq<Byte>, blocks: seq<Option<seq<Byte>>>)
    requires |blocks| <= BlockCount(nalu)
    requires forall i :: 0 <= i < |blocks| ==> blocks[i] == Some(Slice(nalu, i))
    ensures Joined(blocks) == nalu[..BlockStart(nalu, |blocks|)]
  {
    if blocks != [] {
      var last := |blocks| - 1;
      JoinedSlices(nalu, blocks[..last]);
      assert nalu[..BlockStart(nalu, last)] + Slice(nalu, last) == nalu[..BlockStart(nalu, last + 1)];
    }
  }

  lemma CompleteIsWhole(nalu: seq<Byte>, blocks: seq<Option<seq<Byte>>>)
    requires TrueSlots(nalu, blocks) && Complete(blocks)
    ensures Joined(blocks) == nalu
  {
    assert forall i :: 0 <= i < |blocks| ==> blocks[i] == Some(Slice(nalu, i));
    JoinedSlices(nalu, blocks);
    CountedIffBegins(|nalu|, |blocks|);
    assert nalu[..|nalu|] == nalu;
  }

  lemma TargetTrue(nalus: seq<seq<Byte>>, s: State, b: Block)
    requires Sendable(nalus) && TrueAssemblies(nalus, s.assembling) && Authentic(nalus, b)
    ensures b.blockIndex < |Target(s, b).blocks|
    ensures TrueSlots(nalus[b.naluIndex], Filled(s, b))
  {
    assert TrueSlots(nalus[b.naluIndex], Target(s, b).blocks);
  }

  lemma TrueAssemblyPut(nalus: seq<seq<Byte>>, m: map<U32, Assembly>, n: U32, a: Assembly)
    requires TrueAssemblies(nalus, m) && n < |nalus| && TrueSlots(nalus[n], a.blocks)
    ensures TrueAssemblies(nalus, m[n := a])
  {
  }

  lemma {:induction false} DeliveryFaithful(nalus: seq<seq<Byte>>, s: State, b: Block)
    requires Sendable(nalus) && Faithful(nalus, s) && Authentic(nalus, b)
    ensures Faithful(nalus, BlockAdded(s, b))
  {
    var n := b.naluIndex;
    TargetTrue(nalus, s, b);
    if Finishing(s, b) {
      CompleteIsWhole(nalus[n], Filled(s, b));
      assert TrueUnits(nalus, s.ready[n := nalus[n]]);
      assert TrueAssemblies(nalus, s.assembling - {n});
    } else {
      TrueAssemblyPut(nalus, s.assembling, n, LeftOpen(s, b));
    }
  }

  // ----- Which units are complete, which are open

  ghost predicate Arrived(nalus: seq<seq<Byte>>, w: seq<Block>, n: nat, i: nat)
    requires Sendable(nalus) && n < |nalus| && i < BlockCount(nalus[n])
  {
    TrueBlock(nalus, n, i) in w
  }

  /** Every block of the unit was delivered. */
  ghost predicate Covered(nalus: seq<seq<Byte>>, w: seq<Block>, n: nat)
    requires Sendable(nalus) && n < |nalus|
  {
    forall i :: 0 <= i < BlockCount(nalus[n]) ==> Arrived(nalus, w, n, i)
  }

  ghost predicate Touched(nalus: seq<seq<Byte>>, w: seq<Block>, n: nat)
    requires Sendable(nalus) && n < |nalus|
  {
    exists i :: 0 <= i < BlockCount(nalus[n]) && Arrived(nalus, w, n, i)
  }

  /** The slots of a unit as a function of the set of blocks delivered. */
  ghost function Slots(nalus: seq<seq<Byte>>, w: seq<Block>, n: nat): (r: seq<Option<seq<Byte>>>)
    requires Sendable(nalus) && n < |nalus|
    ensures |r| == BlockCount(nalus[n])
  {
    seq(BlockCount(nalus[n]), i requires 0 <= i < BlockCount(nalus[n]) =>
      if Arrived(nalus, w, n, i) then Some(Slice(nalus[n], i)) else None)
  }

  ghost predicate Repeated(nalus: seq<seq<Byte>>, w: seq<Block>, n: nat, i: nat)
    requires Sendable(nalus) && n < |nalus| && i < BlockCount(nalus[n])
  {
    multiset(w)[TrueBlock(nalus, n, i)] >= 2
  }

  /** The unit has one block only, or misses a block, or had no block repeated. */
  ghost predicate Settled(nalus: seq<seq<Byte>>, w: seq<Block>, n: nat)
    requires Sendable(nalus) && n < |nalus|
  {
    || BlockCount(nalus[n]) == 1
    || !Covered(nalus, w, n)
    || forall i :: 0 <= i < BlockCount(nalus[n]) ==> !Repeated(nalus, w, n, i)
  }

  /** The player is past assembling unit `n`. */
  predicate Finished(s: State, n: U32) {
    n in s.ready || n in Indices(s.displayed)
  }

  /** What the player holds of unit `n` in terms of the blocks delivered. */
  ghost predicate Tracks(nalus: seq<seq<Byte>>, w: seq<Block>, s: State, n: nat)
    requires Sendable(nalus) && n < |nalus|
  {
    && (Finished(s, n) <==> Covered(nalus, w, n))
    && (!Covered(nalus, w, n) ==>
          && (n in s.assembling <==> Touched(nalus, w, n))
          && (n in s.assembling ==> s.assembling[n] == Assembly(BlockCount(nalus[n]), Slots(nalus, w, n))))
    && (Covered(nalus, w, n) && Settled(nalus, w, n) ==> n !in s.assembling)
  }

  /** A delivery to a unit still incomplete fills its slot in the closed form. */
  lemma UncoveredFill(nalus: seq<seq<Byte>>, w: seq<Block>, s: State, b: Block)
    requires Sendable(nalus) && Authentic(nalus, b)
    requires Tracks(nalus, w, s, b.naluIndex) && !Covered(nalus, w, b.naluIndex)
    ensures b.blockIndex < |Target(s, b).blocks| && Target(s, b).totalBlocks == BlockCount(nalus[b.naluIndex])
    ensures Filled(s, b) == Slots(nalus, w + [b], b.naluIndex)
    ensures Complete(Filled(s, b)) <==> Covered(nalus, w + [b], b.naluIndex)
  {
    var n, t, w' := b.naluIndex, Target(s, b), w + [b];
    var slots := Slots(nalus, w', n);
    assert t.blocks == Slots(nalus, w, n) by {
      if n !in s.assembling {
        assert forall i :: 0 <= i < BlockCount(nalus[n]) ==> !Arrived(nalus, w, n, i);
      }
    }
    forall i | 0 <= i < BlockCount(nalus[n])
      ensures Arrived(nalus, w', n, i) <==> Arrived(nalus, w, n, i) || i == b.blockIndex
    {
      assert TrueBlock(nalus, n, i) == b <==> i == b.blockIndex;
    }
    assert Filled(s, b) == slots;
    assert Complete(slots) <==> Covered(nalus, w', n) by {
      if Complete(slots) {
        forall i | 0 <= i < BlockCount(nalus[n]) ensures Arrived(nalus, w', n, i) {
          assert slots[i].Some?;
        }
      }
    }
  }

  lemma OtherUnitUnchanged(nalus: seq<seq<Byte>>, w: seq<Block>, s: State, b: Block, n: nat)
    requires Sendable(nalus) && n < |nalus| && n != b.naluIndex && Tracks(nalus, w, s, n)
    ensures Tracks(nalus, w + [b], BlockAdded(s, b), n)
  {
    var s', w' := BlockAdded(s, b), w + [b];
    assert forall i :: 0 <= i < BlockCount(nalus[n]) ==>
        (Arrived(nalus, w', n, i) <==> Arrived(nalus, w, n, i))
        && (Repeated(nalus, w', n, i) <==> Repeated(nalus, w, n, i));
    assert Slots(nalus, w', n) == Slots(nalus, w, n);
    assert s'.displayed == s.displayed;
    assert (n in s'.assembling <==> n in s.assembling) && (n in s'.ready <==> n in s.ready);
    assert n in s.assembling ==> s'.assembling[n] == s.assembling[n];
  }

  lemma CoveredStaysSettled(nalus: seq<seq<Byte>>, w: seq<Block>, s: State, b: Block)
    requires Sendable(nalus) && Authentic(nalus, b)
    requires Tracks(nalus, w, s, b.naluIndex) && Covered(nalus, w, b.naluIndex)
    requires Settled(nalus, w + [b], b.naluIndex)
    ensures b.naluIndex !in BlockAdded(s, b).assembling
  {
    var n, i := b.naluIndex, b.blockIndex;
    assert Arrived(nalus, w, n, i);
    assert Covered(nalus, w + [b], n) by {
      forall j | 0 <= j < BlockCount(nalus[n]) ensures Arrived(nalus, w + [b], n, j) {
        assert Arrived(nalus, w, n, j);
      }
    }
    assert Repeated(nalus, w + [b], n, i);
    assert BlockCount(nalus[n]) == 1 && Settled(nalus, w, n);
    assert Complete(Filled(s, b));
  }

  lemma DeliveryTracks(nalus: seq<seq<Byte>>, w: seq<Block>, s: State, b: Block, n: nat)
    requires Sendable(nalus) && n < |nalus| && Authentic(nalus, b) && Tracks(nalus, w, s, n)
    ensures Tracks(nalus, w + [b], BlockAdded(s, b), n)
  {
    var s', w' := BlockAdded(s, b), w + [b];
    assert s'.displayed == s.displayed;
    if n != b.naluIndex {
      OtherUnitUnchanged(nalus, w, s, b, n);
    } else if Covered(nalus, w, n) {
      assert Covered(nalus, w', n) by {
        forall i | 0 <= i < BlockCount(nalus[n]) ensures Arrived(nalus, w', n, i) {
          assert Arrived(nalus, w, n, i);
        }
      }
      assert n in s.ready ==> n in s'.ready;
      if Settled(nalus, w', n) { CoveredStaysSettled(nalus, w, s, b); }
    } else {
      UncoveredFill(nalus, w, s, b);
      if !Covered(nalus, w', n) {
        assert Arrived(nalus, w', n, b.blockIndex);
      }
    }
  }

  lemma TickTracks(nalus: seq<seq<Byte>>, w: seq<Block>, s: State, n: nat)
    requires Sendable(nalus) && n < |nalus| && Tracks(nalus, w, s, n)
    ensures Tracks(nalus, w, Tick(s), n)
  {
    if Due(s) {
      assert Indices(Tick(s).displayed) == Indices(s.displayed) + [s.next];
    }
  }

  ghost predicate AllAuthentic(nalus: seq<seq<Byte>>, w: seq<Block>)
    requires Sendable(nalus)
  {
    forall b :: b in w ==> Authentic(nalus, b)
  }

  /** In every run that delivers authentic blocks, lost, repeated or reordered as they may be: a unit
      is ready or displayed exactly when all its blocks were delivered, an incomplete unit holds
      exactly the blocks delivered, and everything held, ready or displayed is what was sent. */
  lemma {:induction false} AuthenticRun(nalus: seq<seq<Byte>>, run: seq<Label>)
    requires Sendable(nalus) && AllAuthentic(nalus, Deliveries(run))
    ensures Faithful(nalus, Exec(INITIAL, run))
    ensures forall n :: 0 <= n < |nalus| ==> Tracks(nalus, Deliveries(run), Exec(INITIAL, run), n)
  {
    if run == [] {
      forall n | 0 <= n < |nalus| ensures Tracks(nalus, [], INITIAL, n) {
        assert !Arrived(nalus, [], n, 0);
      }
    } else {
      var before, l := run[..|run| - 1], run[|run| - 1];
      var w, s := Deliveries(before), Exec(INITIAL, before);
      assert Deliveries(run) == w + match l { case Deliver(b) => [b] case PlayTick => [] };
      assert forall b :: b in w ==> b in Deliveries(run);
      AuthenticRun(nalus, before);
      match l
      case Deliver(b) =>
        assert b in Deliveries(run);
        DeliveryFaithful(nalus, s, b);
        forall n | 0 <= n < |nalus| ensures Tracks(nalus, w + [b], BlockAdded(s, b), n) {
          DeliveryTracks(nalus, w, s, b, n);
        }
      case PlayTick =>
        assert w + [] == w;
        forall n | 0 <= n < |nalus| ensures Tracks(nalus, w, Tick(s), n) {
          TickTracks(nalus, w, s, n);
        }
    }
  }

  // ----- Deliveries alone

  function DeliverAll(w: seq<Block>): (run: seq<Label>)
    ensures |run| == |w| && forall k :: 0 <= k < |w| ==> run[k] == Deliver(w[k])
  {
    seq(|w|, k requires 0 <= k < |w| => Deliver(w[k]))
  }

  function Delivered(w: seq<Block>): State {
    Exec(INITIAL, DeliverAll(w))
  }

  lemma DeliveredSnoc(w: seq<Block>, b: Block)
    ensures Delivered(w + [b]) == BlockAdded(Delivered(w), b)
  {
    assert DeliverAll(w + [b])[..|w|] == DeliverAll(w);
  }

  lemma {:induction false} DeliveredRun(nalus: seq<seq<Byte>>, w: seq<Block>)
    requires Sendable(nalus) && AllAuthentic(nalus, w)
    ensures Delivered(w).displayed == [] && Delivered(w).next == 0 && Faithful(nalus, Delivered(w))
    ensures forall n :: 0 <= n < |nalus| ==> Tracks(nalus, w, Delivered(w), n)
  {
    DeliveredDisplaysNothing(w);
    AuthenticRun(nalus, DeliverAll(w));
  }

  lemma {:induction false} DeliveredDisplaysNothing(w: seq<Block>)
    ensures Deliveries(DeliverAll(w)) == w
    ensures Delivered(w).displayed == [] && Delivered(w).next == 0
  {
    if w != [] {
      var v, b := w[..|w| - 1], w[|w| - 1];
      DeliveredDisplaysNothing(v);
      assert v + [b] == w;
      DeliveredSnoc(v, b);
      assert DeliverAll(w)[..|v|] == DeliverAll(v);
    }
  }

  /** The open assemblies and ready units as functions of the set of blocks delivered. */
  ghost function OpenUnits(nalus: seq<seq<Byte>>, w: seq<Block>): map<U32, Assembly>
    requires Sendable(nalus)
  {
    map n: U32 | n < |nalus| && Touched(nalus, w, n) && !Covered(nalus, w, n)
      :: Assembly(BlockCount(nalus[n]), Slots(nalus, w, n))
  }

  ghost function CoveredUnits(nalus: seq<seq<Byte>>, w: seq<Block>): map<U32, seq<Byte>>
    requires Sendable(nalus)
  {
    map n: U32 | n < |nalus| && Covered(nalus, w, n) :: nalus[n]
  }

  /** When every unit is settled, the state depends on the set of delivered blocks alone. Ready units
      always do. */
  lemma {:induction false} SettledClosedForm(nalus: seq<seq<Byte>>, w: seq<Block>)
    requires Sendable(nalus) && AllAuthentic(nalus, w)
    ensures Delivered(w).ready == CoveredUnits(nalus, w)
    ensures (forall n :: 0 <= n < |nalus| ==> Settled(nalus, w, n)) ==>
              Delivered(w).assembling == OpenUnits(nalus, w)
  {
    DeliveredRun(nalus, w);
    var s := Delivered(w);
    forall n: U32 ensures n in s.ready <==> n < |nalus| && Covered(nalus, w, n) {
      if n < |nalus| { assert Tracks(nalus, w, s, n); }
    }
    if forall n :: 0 <= n < |nalus| ==> Settled(nalus, w, n) {
      forall n: U32
        ensures n in s.assembling <==> n < |nalus| && Touched(nalus, w, n) && !Covered(nalus, w, n)
        ensures n in s.assembling ==> s.assembling[n] == Assembly(BlockCount(nalus[n]), Slots(nalus, w, n))
      {
        if n < |nalus| { assert Tracks(nalus, w, s, n) && Settled(nalus, w, n); }
      }
    }
  }

  ghost predicate SameUnits(s: State, r: State) {
    s.assembling == r.assembling && s.ready == r.ready
  }

  lemma PermutationClosedForm(nalus: seq<seq<Byte>>, v: seq<Block>, w: seq<Block>)
    requires Sendable(nalus) && multiset(v) == multiset(w)
    ensures AllAuthentic(nalus, w) ==> AllAuthentic(nalus, v)
    ensures OpenUnits(nalus, v) == OpenUnits(nalus, w) && CoveredUnits(nalus, v) == CoveredUnits(nalus, w)
    ensures forall n :: 0 <= n < |nalus| ==> (Settled(nalus, v, n) <==> Settled(nalus, w, n))
  {
    assert forall b :: b in v <==> b in multiset(v);
    assert forall b :: b in w <==> b in multiset(w);
    forall n: U32 | n < |nalus|
      ensures Covered(nalus, v, n) <==> Covered(nalus, w, n)
      ensures Touched(nalus, v, n) <==> Touched(nalus, w, n)
      ensures Slots(nalus, v, n) == Slots(nalus, w, n)
      ensures Settled(nalus, v, n) <==> Settled(nalus, w, n)
    {
      assert forall i :: 0 <= i < BlockCount(nalus[n]) ==>
          (Arrived(nalus, v, n, i) <==> Arrived(nalus, w, n, i))
          && (Repeated(nalus, v, n, i) <==> Repeated(nalus, w, n, i));
    }
  }

  // ----- Order dependence of what is not settled

  function Without(w: seq<Block>, x: Block): (r: seq<Block>)
    ensures x !in r && forall b :: b in r <==> b in w && b != x
  {
    if w == [] then [] else (if w[0] == x then [] else [w[0]]) + Without(w[1..], x)
  }

  function Copies(x: Block, m: nat): (r: seq<Block>)
    ensures |r| == m && forall k :: 0 <= k < m ==> r[k] == x
  {
    seq(m, _ => x)
  }

  /** The same deliveries with every copy of `x` moved to the end. */
  ghost function MovedLast(w: seq<Block>, x: Block): seq<Block> {
    Without(w, x) + Copies(x, multiset(w)[x])
  }

  lemma {:induction false} WithoutCounts(w: seq<Block>, x: Block, y: Block)
    ensures multiset(Without(w, x))[y] == if y == x then 0 else multiset(w)[y]
  {
    if w != [] {
      WithoutCounts(w[1..], x, y);
      assert w == [w[0]] + w[1..];
    }
  }

  lemma {:induction false} CopiesCounts(x: Block, m: nat)
    ensures multiset(Copies(x, m)) == multiset{}[x := m]
  {
    if m > 0 {
      CopiesCounts(x, m - 1);
      assert Copies(x, m) == Copies(x, m - 1) + [x];
    }
  }

  lemma MovedLastPermutes(w: seq<Block>, x: Block)
    ensures multiset(MovedLast(w, x)) == multiset(w)
  {
    CopiesCounts(x, multiset(w)[x]);
    forall y ensures multiset(MovedLast(w, x))[y] == multiset(w)[y] {
      WithoutCounts(w, x, y);
    }
  }

  /** The unit is open with slot `i` filled and no other. */
  ghost predicate OnlySlot(nalus: seq<seq<Byte>>, s: State, n: nat, i: nat)
    requires n < |nalus|
  {
    && n in s.assembling && |s.assembling[n].blocks| == BlockCount(nalus[n])
    && forall j :: 0 <= j < BlockCount(nalus[n]) ==> (s.assembling[n].blocks[j].Some? <==> j == i)
  }

  lemma MissingBlockFinishes(nalus: seq<seq<Byte>>, u: seq<Block>, n: nat, i: nat)
    requires Sendable(nalus) && AllAuthentic(nalus, u) && n < |nalus| && i < BlockCount(nalus[n])
    requires !Arrived(nalus, u, n, i)
    requires forall j :: 0 <= j < BlockCount(nalus[n]) && j != i ==> Arrived(nalus, u, n, j)
    ensures n !in Delivered(u + [TrueBlock(nalus, n, i)]).assembling
  {
    var x := TrueBlock(nalus, n, i);
    DeliveredSnoc(u, x);
    DeliveredRun(nalus, u);
    UncoveredFill(nalus, u, Delivered(u), x);
    forall j | 0 <= j < BlockCount(nalus[n]) ensures Arrived(nalus, u + [x], n, j) {
      if j != i { assert Arrived(nalus, u, n, j); }
    }
  }

  lemma ExtraBlockOpens(nalus: seq<seq<Byte>>, s: State, n: nat, i: nat)
    requires Sendable(nalus) && n < |nalus| && i < BlockCount(nalus[n]) && BlockCount(nalus[n]) >= 2
    requires n !in s.assembling || OnlySlot(nalus, s, n, i)
    ensures OnlySlot(nalus, BlockAdded(s, TrueBlock(nalus, n, i)), n, i)
  {
    var blocks := Filled(s, TrueBlock(nalus, n, i));
    assert forall j :: 0 <= j < |blocks| ==> (blocks[j].Some? <==> j == i);
    var other := if i == 0 then 1 else 0;
    assert blocks[other].None?;
  }

  /** When only block `i` of unit `n` is missing and then comes `m` times, the first copy finishes the
      unit and any further ones leave an open assembly with that slot alone. */
  lemma {:induction false} LastBlockRepeats(nalus: seq<seq<Byte>>, u: seq<Block>, n: nat, i: nat, m: nat)
    requires Sendable(nalus) && AllAuthentic(nalus, u) && n < |nalus| && i < BlockCount(nalus[n])
    requires BlockCount(nalus[n]) >= 2 && m >= 1 && !Arrived(nalus, u, n, i)
    requires forall j :: 0 <= j < BlockCount(nalus[n]) && j != i ==> Arrived(nalus, u, n, j)
    ensures var s := Delivered(u + Copies(TrueBlock(nalus, n, i), m));
            if m == 1 then n !in s.assembling else OnlySlot(nalus, s, n, i)
    decreases m
  {
    var x := TrueBlock(nalus, n, i);
    var v := u + Copies(x, m - 1);
    assert u + Copies(x, m) == v + [x];
    if m == 1 {
      assert v == u;
      MissingBlockFinishes(nalus, u, n, i);
    } else {
      LastBlockRepeats(nalus, u, n, i, m - 1);
      DeliveredSnoc(v, x);
      ExtraBlockOpens(nalus, Delivered(v), n, i);
    }
  }

  lemma MovedLastOutcome(nalus: seq<seq<Byte>>, w: seq<Block>, n: nat, i: nat)
    requires Sendable(nalus) && AllAuthentic(nalus, w) && n < |nalus| && i < BlockCount(nalus[n])
    requires BlockCount(nalus[n]) >= 2 && Covered(nalus, w, n)
    ensures var s := Delivered(MovedLast(w, TrueBlock(nalus, n, i)));
            if Repeated(nalus, w, n, i) then OnlySlot(nalus, s, n, i) else n !in s.assembling
  {
    var x := TrueBlock(nalus, n, i);
    var u := Without(w, x);
    forall j | 0 <= j < BlockCount(nalus[n]) && j != i ensures Arrived(nalus, u, n, j) {
      assert Arrived(nalus, w, n, j);
    }
    assert Arrived(nalus, w, n, i);
    assert x in multiset(w);
    LastBlockRepeats(nalus, u, n, i, multiset(w)[x]);
  }

  /** A unit that is not settled is left differently by two orders of the same deliveries. */
  lemma {:induction false} UnsettledDepends(nalus: seq<seq<Byte>>, w: seq<Block>, n: nat) returns (v: seq<Block>)
    requires Sendable(nalus) && AllAuthentic(nalus, w) && n < |nalus| && !Settled(nalus, w, n)
    ensures multiset(v) == multiset(w) && !SameUnits(Delivered(v), Delivered(w))
  {
    var j :| 0 <= j < BlockCount(nalus[n]) && Repeated(nalus, w, n, j);
    var k := if j == 0 then 1 else 0;
    var a, b := MovedLast(w, TrueBlock(nalus, n, j)), MovedLast(w, TrueBlock(nalus, n, k));
    MovedLastPermutes(w, TrueBlock(nalus, n, j));
    MovedLastPermutes(w, TrueBlock(nalus, n, k));
    MovedLastOutcome(nalus, w, n, j);
    MovedLastOutcome(nalus, w, n, k);
    assert Delivered(a).assembling != Delivered(b).assembling by {
      assert Delivered(a).assembling[n].blocks[j].Some?;
    }
    v := if SameUnits(Delivered(a), Delivered(w)) then b else a;
  }

  /** One repeated block is enough to unsettle a unit of several blocks. */
  lemma RepetitionUnsettles(nalus: seq<seq<Byte>>, n: nat, i: nat)
    requires Sendable(nalus) && n < |nalus| && i < BlockCount(nalus[n]) && BlockCount(nalus[n]) >= 2
    ensures !Settled(nalus, TrueBlocks(nalus, n) + [TrueBlock(nalus, n, i)], n)
  {
    var bs, b := TrueBlocks(nalus, n), TrueBlock(nalus, n, i);
    var w := bs + [b];
    assert Covered(nalus, w, n) by {
      forall j | 0 <= j < BlockCount(nalus[n]) ensures Arrived(nalus, w, n, j) {
        assert w[j] == TrueBlock(nalus, n, j);
      }
    }
    assert bs[i] in multiset(bs);
    assert Repeated(nalus, w, n, i);
  }

  /** All orders of the same authentic deliveries leave the same open assemblies and ready units if and
      only if no unit of several blocks was delivered in full with some block repeated. */
  lemma {:induction false} OrderIndependentIff(nalus: seq<seq<Byte>>, w: seq<Block>)
    requires Sendable(nalus) && AllAuthentic(nalus, w)
    ensures (forall v :: multiset(v) == multiset(w) ==> SameUnits(Delivered(v), Delivered(w)))
       <==> (forall n :: 0 <= n < |nalus| ==> Settled(nalus, w, n))
  {
    if forall n :: 0 <= n < |nalus| ==> Settled(nalus, w, n) {
      SettledClosedForm(nalus, w);
      forall v | multiset(v) == multiset(w) ensures SameUnits(Delivered(v), Delivered(w)) {
        PermutationClosedForm(nalus, v, w);
        SettledClosedForm(nalus, v);
      }
    } else {
      var n :| 0 <= n < |nalus| && !Settled(nalus, w, n);
      var v := UnsettledDepends(nalus, w, n);
    }
  }
}
