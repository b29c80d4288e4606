/** Runs in which blocks are delivered in order, each once, with rounds of the player in between. */
module Lossless {
  import opened Bytes
  import opened Fragmenter
  import opened Playback
  import opened Playout
  import opened Reassembly
  import opened Delivery

  /** The true blocks of the first `n` units. */
  function TrueBlocksUpTo(nalus: seq<seq<Byte>>, n: nat): seq<Block>
    requires Sendable(nalus) && n <= |nalus|
  {
    if n == 0 then [] else TrueBlocksUpTo(nalus, n - 1) + TrueBlocks(nalus, n - 1)
  }

  lemma SplitStep<T>(done: seq<T>, before: seq<T>, here: seq<T>, left: seq<T>, all: seq<T>)
    requires done == before + here && before + (here + left) == all
    ensures done + left == all
  {
    assert done + left == before + (here + left);
  }

  lemma {:induction false} SplitTrueBlocks(nalus: seq<seq<Byte>>, n: nat)
    requires Sendable(nalus) && n <= |nalus|
    ensures TrueBlocksUpTo(nalus, n) + TrueBlocksFrom(nalus, n) == TrueBlocksFrom(nalus, 0)
  {
    if n == 0 {
      assert [] + TrueBlocksFrom(nalus, 0) == TrueBlocksFrom(nalus, 0);
    } else {
      SplitTrueBlocks(nalus, n - 1);
      SplitStep(TrueBlocksUpTo(nalus, n), TrueBlocksUpTo(nalus, n - 1), TrueBlocks(nalus, n - 1),
                TrueBlocksFrom(nalus, n), TrueBlocksFrom(nalus, 0));
    }
  }

  /** Units `a` up to but not including `c`. */
  function Range(nalus: seq<seq<Byte>>, a: nat, c: nat): (r: map<U32, seq<Byte>>)
    requires Sendable(nalus) && a <= c <= |nalus|
  {
    map n: U32 | a <= n < c :: nalus[n]
  }

  /** The slots of a unit whose first `f` blocks are in. */
  function Prefix(nalu: seq<Byte>, f: nat): (r: seq<Option<seq<Byte>>>)
    ensures |r| == BlockCount(nalu)
  {
    seq(BlockCount(nalu), i requires 0 <= i => if i < f then Some(Slice(nalu, i)) else None)
  }

  /** The first `c` units and `f` blocks of the next were delivered. */
  ghost predicate Position(nalus: seq<seq<Byte>>, w: seq<Block>, c: nat, f: nat)
    requires Sendable(nalus)
  {
    && c <= |nalus| && (if c == |nalus| then f == 0 else f < BlockCount(nalus[c]))
    && w == TrueBlocksUpTo(nalus, c) + (if c == |nalus| then [] else TrueBlocks(nalus, c)[..f])
  }

  /** The first units were displayed, those after them are ready, and the one being received is open.
      Nothing was skipped. */
  ghost predicate InStep(nalus: seq<seq<Byte>>, s: State, c: nat, f: nat)
    requires Sendable(nalus)
  {
    && c <= |nalus| && (if c == |nalus| then f == 0 else f < BlockCount(nalus[c]))
    && s.next <= c && s.counters.skippedNalus == 0
    && s.displayed == ShownUpTo(nalus, s.next)
    && s.ready == Range(nalus, s.next, c)
    && s.assembling == if f == 0 then map[] else map[c := Assembly(BlockCount(nalus[c]), Prefix(nalus[c], f))]
  }

  lemma {:induction false} NextBlock(nalus: seq<seq<Byte>>, w: seq<Block>, c: nat, f: nat, b: Block)
    requires Sendable(nalus) && Position(nalus, w, c, f)
    requires w + [b] <= TrueBlocksFrom(nalus, 0)
    ensures c < |nalus| && b == TrueBlock(nalus, c, f)
  {
    SplitTrueBlocks(nalus, c);
    var all, before := TrueBlocksFrom(nalus, 0), TrueBlocksUpTo(nalus, c);
    assert all[|w|] == b;
    if c < |nalus| {
      assert all[|before| + f] == TrueBlocksFrom(nalus, c)[f] == TrueBlocks(nalus, c)[f];
    }
  }

  /** The position after block `f` of unit `c`. */
  function Advance(nalus: seq<seq<Byte>>, c: nat, f: nat): (nat, nat)
    requires c < |nalus|
  {
    if f + 1 == BlockCount(nalus[c]) then (c + 1, 0) else (c, f + 1)
  }

  lemma PositionAdvances(nalus: seq<seq<Byte>>, w: seq<Block>, c: nat, f: nat)
    requires Sendable(nalus) && Position(nalus, w, c, f) && c < |nalus|
    ensures var (c', f') := Advance(nalus, c, f); Position(nalus, w + [TrueBlock(nalus, c, f)], c', f')
  {
    var b, here, before := TrueBlock(nalus, c, f), TrueBlocks(nalus, c), TrueBlocksUpTo(nalus, c);
    assert here[..f] + [b] == here[..f + 1];
    assert w + [b] == before + here[..f + 1];
    if f + 1 == BlockCount(nalus[c]) {
      assert here[..f + 1] == here;
      var done := TrueBlocksUpTo(nalus, c + 1);
      assert w + [b] == done == done + [];
      if c + 1 < |nalus| { assert TrueBlocks(nalus, c + 1)[..0] == []; }
    }
  }

  lemma PrefixGrows(nalus: seq<seq<Byte>>, s: State, c: nat, f: nat)
    requires Sendable(nalus) && InStep(nalus, s, c, f) && c < |nalus|
    ensures var b := TrueBlock(nalus, c, f);
            && Target(s, b).totalBlocks == |Target(s, b).blocks| == BlockCount(nalus[c])
            && Filled(s, b) == Prefix(nalus[c], f + 1)
    ensures Complete(Prefix(nalus[c], f + 1)) <==> f + 1 == BlockCount(nalus[c])
  {
    var b, slots := TrueBlock(nalus, c, f), Prefix(nalus[c], f + 1);
    assert f == 0 ==> EmptyAssembly(BlockCount(nalus[c])).blocks == Prefix(nalus[c], 0);
    if f + 1 < BlockCount(nalus[c]) { assert slots[f + 1].None?; }
  }

  lemma DeliverInStep(nalus: seq<seq<Byte>>, s: State, c: nat, f: nat)
    requires Sendable(nalus) && InStep(nalus, s, c, f) && c < |nalus|
    ensures var (c', f') := Advance(nalus, c, f); InStep(nalus, BlockAdded(s, TrueBlock(nalus, c, f)), c', f')
  {
    var b, slots := TrueBlock(nalus, c, f), Prefix(nalus[c], f + 1);
    var s' := BlockAdded(s, b);
    PrefixGrows(nalus, s, c, f);
    if f + 1 == BlockCount(nalus[c]) {
      assert Joined(slots) == nalus[c] by { CompleteIsWhole(nalus[c], slots); }
      assert s'.assembling == s.assembling - {c} == map[];
      assert s'.ready == s.ready[c := nalus[c]] == Range(nalus, s.next, c + 1);
    } else {
      var a := Assembly(BlockCount(nalus[c]), slots);
      assert s'.assembling == s.assembling[c := a] == map[c := a];
    }
  }

  lemma TickInStep(nalus: seq<seq<Byte>>, s: State, c: nat, f: nat)
    requires Sendable(nalus) && InStep(nalus, s, c, f)
    ensures InStep(nalus, Tick(s), c, f)
  {
    if s.next < c {
      assert s.next in s.ready;
      assert Due(s);
      assert s.ready - {s.next} == Range(nalus, s.next + 1, c);
    } else {
      assert s.ready == map[];
    }
  }

  lemma {:induction false} InOrderRun(nalus: seq<seq<Byte>>, run: seq<Label>) returns (c: nat, f: nat)
    requires Sendable(nalus) && Deliveries(run) <= TrueBlocksFrom(nalus, 0)
    ensures Position(nalus, Deliveries(run), c, f) && InStep(nalus, Exec(INITIAL, run), c, f)
  {
    if run == [] {
      c, f := 0, 0;
    } else {
      var before, l := run[..|run| - 1], run[|run| - 1];
      assert Deliveries(before) <= Deliveries(run);
      c, f := InOrderRun(nalus, before);
      var w, s := Deliveries(before), Exec(INITIAL, before);
      match l
      case Deliver(b) =>
        NextBlock(nalus, w, c, f, b);
        PositionAdvances(nalus, w, c, f);
        DeliverInStep(nalus, s, c, f);
        var (c', f') := Advance(nalus, c, f);
        c, f := c', f';
      case PlayTick =>
        TickInStep(nalus, s, c, f);
        assert w + [] == w;
    }
  }

  // ----- Bytes

  /** The bytes of the open assembly, of which in-order delivery leaves at most one. */
  function OpenBytes(s: State): seq<Byte> {
    if s.assembling == map[] then [] else Joined(s.assembling[First(s.assembling)].blocks)
  }

  ghost predicate IsRange(nalus: seq<seq<Byte>>, a: nat, c: nat, m: map<U32, seq<Byte>>)
    requires Sendable(nalus)
  {
    && a <= c <= |nalus|
    && (forall n: U32 :: n in m <==> a <= n < c)
    && (forall n :: n in m ==> m[n] == nalus[n])
  }

  lemma {:induction false} RangeRounds(nalus: seq<seq<Byte>>, a: nat, c: nat, m: map<U32, seq<Byte>>)
    requires Sendable(nalus) && IsRange(nalus, a, c, m)
    ensures |m| == c - a && RoundsNeeded(m, a) == c - a
    decreases c - a
  {
    if a < c {
      AscendingCons(m, a, m - {a}, a);
      RangeRounds(nalus, a + 1, c, m - {a});
    } else {
      assert m.Keys == {};
    }
  }

  lemma ShownSnoc(nalus: seq<seq<Byte>>, a: nat, after: seq<Shown>)
    requires Sendable(nalus) && a < |nalus|
    ensures ShownUpTo(nalus, a) + ([Shown(a, nalus[a])] + after) == ShownUpTo(nalus, a + 1) + after
  {
    assert ShownUpTo(nalus, a) + [Shown(a, nalus[a])] == ShownUpTo(nalus, a + 1);
  }

  lemma {:induction false} AscendingRange(nalus: seq<seq<Byte>>, a: nat, c: nat, m: map<U32, seq<Byte>>)
    requires Sendable(nalus) && IsRange(nalus, a, c, m)
    ensures ShownUpTo(nalus, a) + Ascending(m) == ShownUpTo(nalus, c)
    decreases c - a
  {
    if a < c {
      var rest := m - {a};
      AscendingCons(m, a, rest, a);
      AscendingRange(nalus, a + 1, c, rest);
      ShownSnoc(nalus, a, Ascending(rest));
    } else {
      assert m.Keys == {};
      assert Ascending(m) == [];
    }
  }

  lemma {:induction false} PrefixJoined(nalu: seq<Byte>, blocks: seq<Option<seq<Byte>>>, f: nat)
    requires |blocks| <= BlockCount(nalu)
    requires forall i :: 0 <= i < |blocks| ==> blocks[i] == if i < f then Some(Slice(nalu, i)) else None
    ensures Joined(blocks) == nalu[..BlockStart(nalu, if f < |blocks| then f else |blocks|)]
  {
    if |blocks| <= f {
      JoinedSlices(nalu, blocks);
    } else {
      PrefixJoined(nalu, blocks[..|blocks| - 1], f);
    }
  }

  lemma {:induction false} DeliveredBytes(nalus: seq<seq<Byte>>, n: nat)
    requires Sendable(nalus) && n <= |nalus|
    ensures Flatten(Data(TrueBlocksUpTo(nalus, n))) == Flatten(nalus[..n])
  {
    if n > 0 {
      DeliveredBytes(nalus, n - 1);
      var before, last := TrueBlocksUpTo(nalus, n - 1), TrueBlocks(nalus, n - 1);
      DataConcat(before, last);
      FlattenConcat(Data(before), Data(last));
      SlicesRejoin(nalus[n - 1], 0);
      assert Data(last) == Slices(nalus[n - 1], 0);
      FlattenConcat(nalus[..n - 1], [nalus[n - 1]]);
      FlattenOne(nalus[n - 1]);
      assert nalus[..n] == nalus[..n - 1] + [nalus[n - 1]];
    }
  }

  lemma {:induction false} FirstBlocksBytes(nalus: seq<seq<Byte>>, n: nat, f: nat)
    requires Sendable(nalus) && n < |nalus| && f <= BlockCount(nalus[n])
    ensures Flatten(Data(TrueBlocks(nalus, n)[..f])) == nalus[n][..BlockStart(nalus[n], f)]
  {
    var bs := TrueBlocks(nalus, n);
    if f > 0 {
      FirstBlocksBytes(nalus, n, f - 1);
      var before, last := Data(bs[..f - 1]), [bs[f - 1].data];
      assert Data(bs[..f]) == before + last;
      FlattenConcat(before, last);
      FlattenOne(bs[f - 1].data);
    } else {
      assert Data(bs[..0]) == [];
    }
  }

  /** What the player has shown, holds ready and holds open, put one after the other. */
  function AllBytes(s: State): seq<Byte> {
    Flatten(NaluBytes(s.displayed)) + Flatten(NaluBytes(Ascending(s.ready))) + OpenBytes(s)
  }

  lemma InStepOpenBytes(nalus: seq<seq<Byte>>, s: State, c: nat, f: nat)
    requires Sendable(nalus) && InStep(nalus, s, c, f)
    ensures OpenBytes(s) == if c == |nalus| then [] else nalus[c][..BlockStart(nalus[c], f)]
  {
    if f > 0 {
      assert s.assembling.Keys == {c};
      PrefixJoined(nalus[c], Prefix(nalus[c], f), f);
    }
  }

  lemma InStepNaluBytes(nalus: seq<seq<Byte>>, s: State, c: nat, f: nat)
    requires Sendable(nalus) && InStep(nalus, s, c, f)
    ensures Flatten(NaluBytes(s.displayed)) + Flatten(NaluBytes(Ascending(s.ready))) == Flatten(nalus[..c])
  {
    var d, e := s.displayed, Ascending(s.ready);
    AscendingRange(nalus, s.next, c, s.ready);
    assert NaluBytes(ShownUpTo(nalus, c)) == nalus[..c];
    assert NaluBytes(d + e) == NaluBytes(d) + NaluBytes(e);
    FlattenConcat(NaluBytes(d), NaluBytes(e));
  }

  lemma PositionBytes(nalus: seq<seq<Byte>>, w: seq<Block>, c: nat, f: nat)
    requires Sendable(nalus) && Position(nalus, w, c, f)
    ensures Flatten(Data(w))
         == Flatten(nalus[..c]) + if c == |nalus| then [] else nalus[c][..BlockStart(nalus[c], f)]
  {
    var before := TrueBlocksUpTo(nalus, c);
    var part := if c == |nalus| then [] else TrueBlocks(nalus, c)[..f];
    DeliveredBytes(nalus, c);
    DataConcat(before, part);
    FlattenConcat(Data(before), Data(part));
    if c < |nalus| { FirstBlocksBytes(nalus, c, f); }
  }

  /** Blocks delivered in order, each once, with player rounds anywhere between: at every moment what
      was displayed, then what is ready in order, then the open assembly is exactly what was
      delivered; nothing has been or will be skipped in the next round; at most one unit is open. */
  lemma {:induction false} InOrderConservesBytes(nalus: seq<seq<Byte>>, run: seq<Label>)
    requires Sendable(nalus) && Deliveries(run) <= TrueBlocksFrom(nalus, 0)
    ensures var s := Exec(INITIAL, run);
            && AllBytes(s) == Flatten(Data(Deliveries(run)))
            && s.counters.skippedNalus == 0 == Tick(s).counters.skippedNalus && |s.assembling| <= 1
            && |s.displayed| <= |nalus| && s.displayed == ShownUpTo(nalus, |s.displayed|)
  {
    var c, f := InOrderRun(nalus, run);
    var s := Exec(INITIAL, run);
    InStepNaluBytes(nalus, s, c, f);
    InStepOpenBytes(nalus, s, c, f);
    PositionBytes(nalus, Deliveries(run), c, f);
    TickInStep(nalus, s, c, f);
  }

  lemma PositionBeforeEnd(nalus: seq<seq<Byte>>, w: seq<Block>, c: nat, f: nat)
    requires Sendable(nalus) && Position(nalus, w, c, f) && c < |nalus|
    ensures |w| < |TrueBlocksFrom(nalus, 0)|
  {
    SplitTrueBlocks(nalus, c);
    assert |TrueBlocksFrom(nalus, c)| >= |TrueBlocks(nalus, c)| > f;
  }

  /** Once everything was delivered in order, as many rounds as there are ready units display the rest
      of the transmission. */
  lemma {:induction false} InOrderCompletes(nalus: seq<seq<Byte>>, run: seq<Label>)
    requires Sendable(nalus) && Deliveries(run) == TrueBlocksFrom(nalus, 0)
    ensures var s := Exec(INITIAL, run);
            Ticks(s, |s.ready|).displayed == ShownUpTo(nalus, |nalus|) && Ticks(s, |s.ready|).ready == map[]
  {
    var c, f := InOrderRun(nalus, run);
    var s := Exec(INITIAL, run);
    if c < |nalus| { PositionBeforeEnd(nalus, Deliveries(run), c, f); }
    AscendingRange(nalus, s.next, c, s.ready);
    RangeRounds(nalus, s.next, c, s.ready);
    PlayoutProgress(s, |s.ready|);
  }
}
