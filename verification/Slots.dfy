/** What one block does to the player, and what its slots hold, for every state and every run. */
module Slots {
  import opened Bytes
  import opened Fragmenter
  import opened Playback
  import opened Accounting

  // ----- Joining

  function SlotData(slot: Option<seq<Byte>>): seq<Byte> {
    match slot { case Some(data) => data case None => [] }
  }

  lemma JoinedSnoc(a: seq<Option<seq<Byte>>>, x: Option<seq<Byte>>)
    ensures Joined(a + [x]) == Joined(a) + SlotData(x)
  {
    assert (a + [x])[..|a|] == a;
  }

  lemma {:induction false} JoinedConcat(a: seq<Option<seq<Byte>>>, b: seq<Option<seq<Byte>>>)
    ensures Joined(a + b) == Joined(a) + Joined(b)
  {
    if b == [] {
      assert a + b == a;
    } else {
      var v, x := b[..|b| - 1], b[|b| - 1];
      assert a + b == (a + v) + [x] && b == v + [x];
      JoinedConcat(a, v);
      JoinedSnoc(a + v, x);
      JoinedSnoc(v, x);
      Reassociate(Joined(a), Joined(v), SlotData(x));
    }
  }

  lemma JoinedOne(x: seq<Byte>)
    ensures Joined([Some(x)]) == x
  {
    assert [Some(x)][..0] == [] && Joined([]) == [];
  }

  /** The data of a slot stands in the joined unit after that of the slots before it. */
  lemma JoinedAt(blocks: seq<Option<seq<Byte>>>, i: nat, x: seq<Byte>)
    requires i < |blocks| && blocks[i] == Some(x)
    ensures Joined(blocks) == Joined(blocks[..i]) + x + Joined(blocks[i + 1..])
  {
    var a, c := blocks[..i], blocks[i + 1..];
    var ab := a + [Some(x)];
    assert blocks == ab + c;
    JoinedConcat(ab, c);
    JoinedConcat(a, [Some(x)]);
    JoinedOne(x);
  }

  // ----- One block

  /** The slots a block meets: those of the open assembly, or as many empty ones as it announces. */
  ghost predicate Meets(s: State, b: Block, slots: seq<Option<seq<Byte>>>) {
    if b.naluIndex in s.assembling then slots == s.assembling[b.naluIndex].blocks
    else |slots| == b.naluBlockSize && forall k :: 0 <= k < |slots| ==> slots[k] == None
  }

  lemma SlotTaken(slots: seq<Option<seq<Byte>>>, i: nat, x: seq<Byte>)
    requires i < |slots|
    ensures var filled := slots[i := Some(x)];
            && (Complete(filled) <==> forall k :: 0 <= k < |slots| && k != i ==> slots[k].Some?)
            && Joined(filled) == Joined(slots[..i]) + x + Joined(slots[i + 1..])
  {
    var filled := slots[i := Some(x)];
    JoinedAt(filled, i, x);
    assert filled[..i] == slots[..i] && filled[i + 1..] == slots[i + 1..];
    assert forall k :: 0 <= k < |slots| && k != i ==> filled[k] == slots[k];
  }

  /** A block takes its slot, whatever that held, and finishes its unit exactly when all other slots are
      filled; a finished unit has the block's data in its place. */
  lemma BlockTakesSlot(s: State, b: Block, slots: seq<Option<seq<Byte>>>)
    requires Meets(s, b, slots) && b.blockIndex < |slots|
    ensures var s', n, i := BlockAdded(s, b), b.naluIndex, b.blockIndex;
            if forall k :: 0 <= k < |slots| && k != i ==> slots[k].Some? then
              && n !in s'.assembling && n in s'.ready
              && s'.ready[n] == Joined(slots[..i]) + b.data + Joined(slots[i + 1..])
              && s'.counters.assembledNalus == s.counters.assembledNalus + 1
            else
              && n in s'.assembling && |s'.assembling[n].blocks| == |slots| && s'.ready == s.ready
              && s'.assembling[n].blocks[i] == Some(b.data)
              && (forall k :: 0 <= k < |slots| && k != i ==> s'.assembling[n].blocks[k] == slots[k])
              && s'.counters.assembledNalus == s.counters.assembledNalus
  {
    var i := b.blockIndex;
    assert Target(s, b).blocks == slots;
    assert Filled(s, b) == slots[i := Some(b.data)];
    SlotTaken(slots, i, b.data);
  }

  /** A block without a slot is dropped, but leaves the assembly it met, newly made or not. */
  lemma BlockWithoutSlot(s: State, b: Block, slots: seq<Option<seq<Byte>>>)
    requires Meets(s, b, slots) && b.blockIndex >= |slots|
    ensures var s', n := BlockAdded(s, b), b.naluIndex;
            && n in s'.assembling && s'.assembling[n].blocks == slots && s'.ready == s.ready
            && s'.counters.assembledNalus == s.counters.assembledNalus
  {
    assert Target(s, b).blocks == slots;
  }

  /** Every block is counted as accepted, the first for its unit also adds the blocks it announces, and
      nothing else changes. */
  lemma BlockTouchesItsUnit(s: State, b: Block, m: U32)
    ensures var s' := BlockAdded(s, b);
            && s'.counters.acceptedBlocks == s.counters.acceptedBlocks + 1
            && s'.counters.expectedBlocks
               == s.counters.expectedBlocks + (if b.naluIndex in s.assembling then 0 else b.naluBlockSize)
            && s'.counters.skippedNalus == s.counters.skippedNalus
            && s'.next == s.next && s'.displayed == s.displayed
            && (m != b.naluIndex ==>
                  && (m in s'.assembling <==> m in s.assembling) && (m in s'.ready <==> m in s.ready)
                  && (m in s.assembling ==> s'.assembling[m] == s.assembling[m])
                  && (m in s.ready ==> s'.ready[m] == s.ready[m]))
  {
  }

  /** A first block that announces no blocks keeps its unit from becoming ready, whatever is delivered. */
  lemma {:induction false} EmptyAnnouncementBlocks(s: State, b: Block, run: seq<Label>)
    requires b.naluIndex !in s.assembling && b.naluBlockSize == 0
    ensures var s', n := Exec(BlockAdded(s, b), run), b.naluIndex;
            n in s'.assembling && s'.assembling[n].blocks == [] && (n in s'.ready ==> n in s.ready)
  {
    BlockWithoutSlot(s, b, []);
    EmptyAssemblyStays(BlockAdded(s, b), b.naluIndex, run);
  }

  // ----- Runs

  /** The data of the last delivery of block `i` of unit `n` since the unit was finished last. */
  ghost function Latest(run: seq<Label>, n: U32, i: U32): Option<seq<Byte>> {
    if run == [] then None
    else
      var before, l := run[..|run| - 1], run[|run| - 1];
      if Finishes(Exec(INITIAL, before), l, n) then None
      else if IsFor(l, n, i) then Some(l.block.data)
      else Latest(before, n, i)
  }

  /** What `s` holds in slot `i` of unit `n` is `data`; a unit that is not open holds nothing. */
  ghost predicate Holds(s: State, n: U32, i: U32, data: Option<seq<Byte>>) {
    if n in s.assembling then i < |s.assembling[n].blocks| ==> s.assembling[n].blocks[i] == data
    else data == None
  }

  lemma DeliveryHoldsLatest(s: State, b: Block, i: U32, data: Option<seq<Byte>>)
    requires Holds(s, b.naluIndex, i, data)
    ensures Holds(BlockAdded(s, b), b.naluIndex, i,
                  if Finishing(s, b) then None else if b.blockIndex == i then Some(b.data) else data)
  {
    var slots := Target(s, b).blocks;
    if b.blockIndex < |slots| {
      BlockTakesSlot(s, b, slots);
    } else {
      BlockWithoutSlot(s, b, slots);
    }
  }

  /** In every run, every slot of an open assembly holds what was last delivered for it since the unit was
      last finished, and is empty if nothing was. */
  lemma {:induction false} SlotHoldsLatest(run: seq<Label>, n: U32, i: U32)
    ensures Holds(Exec(INITIAL, run), n, i, Latest(run, n, i))
  {
    if run != [] {
      var before, l := run[..|run| - 1], run[|run| - 1];
      var s := Exec(INITIAL, before);
      SlotHoldsLatest(before, n, i);
      if l.Deliver? {
        if l.block.naluIndex == n {
          DeliveryHoldsLatest(s, l.block, i, Latest(before, n, i));
        } else {
          BlockTouchesItsUnit(s, l.block, n);
        }
      }
    }
  }
}
