/** The player: reassembly of units from blocks, and playout of finished units in order.
    Each critical section is a step on its state; the class performs the steps in place. */
module Playback {
  import opened Bytes
  import opened Fragmenter

  /** A unit being put together, with one slot for each of its blocks. */
  datatype Assembly = Assembly(totalBlocks: U32, blocks: seq<Option<seq<Byte>>>)

  function EmptyAssembly(total: U32): (a: Assembly)
    ensures |a.blocks| == total && forall k :: 0 <= k < total ==> a.blocks[k] == None
  {
    Assembly(total, seq(total, _ => None))
  }

  predicate Complete(blocks: seq<Option<seq<Byte>>>) {
    forall k :: 0 <= k < |blocks| ==> blocks[k].Some?
  }

  /** The contents of filled slots, in order. */
  function Joined(blocks: seq<Option<seq<Byte>>>): seq<Byte> {
    if blocks == [] then []
    else Joined(blocks[..|blocks| - 1])
         + match blocks[|blocks| - 1] { case Some(data) => data case None => [] }
  }

  /** A unit handed to the decoder. */
  datatype Shown = Shown(index: U32, nalu: seq<Byte>)

  /** The player's entries in the statistics. */
  datatype Counters = Counters(acceptedBlocks: nat, expectedBlocks: nat, assembledNalus: nat, skippedNalus: nat)

  datatype State = State(
    assembling: map<U32, Assembly>,
    ready: map<U32, seq<Byte>>,
    next: U32,              // the unit to be displayed next
    displayed: seq<Shown>,  // what the decoder was given so far
    counters: Counters)

  const INITIAL := State(map[], map[], 0, [], Counters(0, 0, 0, 0))

  lemma {:induction false} FirstAtLeast(keys: set<U32>, low: nat)
    requires keys != {} && forall k :: k in keys ==> low <= k
    ensures exists k :: k in keys && forall j :: j in keys ==> k <= j
    decreases U32_MAX + 1 - low
  {
    var x :| x in keys;
    if low !in keys {
      FirstAtLeast(keys, low + 1);
    }
  }

  /** The smallest key, which an ordered map keeps at its beginning. */
  function First<T>(m: map<U32, T>): (k: U32)
    requires m != map[]
    ensures k in m && forall j :: j in m ==> k <= j
  {
    FirstAtLeast(m.Keys, 0);
    var k :| k in m.Keys && forall j :: j in m.Keys ==> k <= j;
    k
  }

  // ----- The steps

  /** The assembly a block goes to: the open one for its unit, or a new empty one. */
  function Target(s: State, b: Block): Assembly {
    if b.naluIndex in s.assembling then s.assembling[b.naluIndex] else EmptyAssembly(b.naluBlockSize)
  }

  /** The slots of the target once the block is in, if it has a slot. */
  function Filled(s: State, b: Block): seq<Option<seq<Byte>>>
    requires b.blockIndex < |Target(s, b).blocks|
  {
    Target(s, b).blocks[b.blockIndex := Some(b.data)]
  }

  /** Whether the block finishes its unit. */
  predicate Finishing(s: State, b: Block) {
    b.blockIndex < |Target(s, b).blocks| && Complete(Filled(s, b))
  }

  /** The assembly the block leaves open if it does not finish its unit. A new one is entered even when
      the block has no slot in it. */
  function LeftOpen(s: State, b: Block): Assembly {
    if b.blockIndex >= |Target(s, b).blocks| then Target(s, b) else Target(s, b).(blocks := Filled(s, b))
  }

  function Counted(s: State, b: Block): Counters {
    Counters(s.counters.acceptedBlocks + 1,
             s.counters.expectedBlocks + (if b.naluIndex in s.assembling then 0 else b.naluBlockSize),
             s.counters.assembledNalus + (if Finishing(s, b) then 1 else 0),
             s.counters.skippedNalus)
  }

  function BlockAdded(s: State, b: Block): State {
    var n := b.naluIndex;
    if Finishing(s, b) then
      State(s.assembling - {n}, s.ready[n := Joined(Filled(s, b))], s.next, s.displayed, Counted(s, b))
    else
      State(s.assembling[n := LeftOpen(s, b)], s.ready, s.next, s.displayed, Counted(s, b))
  }

  /** What the player's thread waits for. */
  predicate Due(s: State) {
    s.ready != map[] && First(s.ready) == s.next
  }

  /** One round of the player's thread: display the next unit if it is due, otherwise time out and
      skip to the first ready unit if that is ahead. */
  function Tick(s: State): State {
    if Due(s) then
      s.(displayed := s.displayed + [Shown(s.next, s.ready[s.next])], ready := s.ready - {s.next},
         next := NextIndex(s.next))
    else if s.ready != map[] && First(s.ready) > s.next then
      s.(next := First(s.ready), counters := s.counters.(skippedNalus := s.counters.skippedNalus + 1))
    else
      s
  }

  // ----- Runs

  datatype Label = Deliver(block: Block) | PlayTick

  function Step(s: State, l: Label): State {
    match l
    case Deliver(b) => BlockAdded(s, b)
    case PlayTick => Tick(s)
  }

  function Exec(s: State, run: seq<Label>): State {
    if run == [] then s else Step(Exec(s, run[..|run| - 1]), run[|run| - 1])
  }

  /** The blocks delivered in a run, in order. */
  function Deliveries(run: seq<Label>): seq<Block> {
    if run == [] then []
    else Deliveries(run[..|run| - 1]) + match run[|run| - 1] { case Deliver(b) => [b] case PlayTick => [] }
  }

  lemma ExecSnoc(s: State, ls: seq<Label>, l: Label)
    ensures Exec(s, ls + [l]) == Step(Exec(s, ls), l)
    ensures Deliveries(ls + [l]) == Deliveries(ls) + match l { case Deliver(b) => [b] case PlayTick => [] }
  {
    assert (ls + [l])[..|ls|] == ls;
  }

  lemma {:induction false} ExecConcat(s: State, a: seq<Label>, b: seq<Label>)
    ensures Exec(s, a + b) == Exec(Exec(s, a), b)
  {
    if b == [] {
      assert a + b == a;
    } else {
      var v, l := b[..|b| - 1], b[|b| - 1];
      ExecConcat(s, a, v);
      ExecSnoc(s, a + v, l);
      assert a + b == (a + v) + [l];
    }
  }

  lemma {:induction false} DeliveriesConcat(a: seq<Label>, b: seq<Label>)
    ensures Deliveries(a + b) == Deliveries(a) + Deliveries(b)
  {
    if b == [] {
      assert a + b == a;
    } else {
      var v, l := b[..|b| - 1], b[|b| - 1];
      DeliveriesConcat(a, v);
      assert (a + b)[..|a + b| - 1] == a + v;
    }
  }

  function Ticks(s: State, t: nat): State
    decreases t
  {
    if t == 0 then s else Ticks(Tick(s), t - 1)
  }

  function Indices(displayed: seq<Shown>): (r: seq<U32>)
    ensures |r| == |displayed|
    ensures forall k :: 0 <= k < |r| ==> r[k] == displayed[k].index
  {
    seq(|displayed|, k requires 0 <= k < |displayed| => displayed[k].index)
  }

  // ----- The object

  class Player {
    var assembling: map<U32, Assembly>
    var readyNalus: map<U32, seq<Byte>>
    var nextNaluIndex: U32
    var displayed: seq<Shown>
    var acceptedBlocks: nat
    var expectedBlocks: nat
    var assembledNalus: nat
    var skippedNalus: nat

    function View(): State
      reads this
    {
      State(assembling, readyNalus, nextNaluIndex, displayed,
            Counters(acceptedBlocks, expectedBlocks, assembledNalus, skippedNalus))
    }

    constructor ()
      ensures View() == INITIAL
    {
      assembling, readyNalus, nextNaluIndex, displayed := map[], map[], 0, [];
      acceptedBlocks, expectedBlocks, assembledNalus, skippedNalus := 0, 0, 0, 0;
    }

    static method AllPresent(blocks: seq<Option<seq<Byte>>>) returns (complete: bool)
      ensures complete <==> Complete(blocks)
      ensures complete <==> forall k :: 0 <= k < |blocks| ==> blocks[k].Some?
    {
      complete := true;
      for i := 0 to |blocks|
        invariant complete ==> forall k :: 0 <= k < i ==> blocks[k].Some?
      {
        if blocks[i].None? {
          complete := false;
          break;
        }
      }
    }

    static method Concatenate(blocks: seq<Option<seq<Byte>>>) returns (fullNalu: seq<Byte>)
      requires Complete(blocks)
      ensures fullNalu == Joined(blocks)
    {
      fullNalu := [];
      for i := 0 to |blocks|
        invariant fullNalu == Joined(blocks[..i])
      {
        assert blocks[..i + 1][..i] == blocks[..i];
        fullNalu := fullNalu + blocks[i].value;
      }
      assert blocks[..|blocks|] == blocks;
    }

    /** Makes an empty assembly for the unit unless one is open. */
    method OpenAssembly(naluIndex: U32, naluBlockSize: U32)
      modifies this`assembling, this`expectedBlocks
      ensures assembling == if naluIndex in old(assembling) then old(assembling)
                            else old(assembling)[naluIndex := EmptyAssembly(naluBlockSize)]
      ensures expectedBlocks == old(expectedBlocks) + (if naluIndex in old(assembling) then 0 else naluBlockSize)
    {
      if naluIndex !in assembling {
        assembling := assembling[naluIndex := EmptyAssembly(naluBlockSize)];
        expectedBlocks := expectedBlocks + naluBlockSize;
      }
    }

    /** Hands the unit over for display if all its slots are filled. */
    method FinishIfComplete(naluIndex: U32)
      requires naluIndex in assembling
      modifies this`assembling, this`readyNalus, this`assembledNalus
      ensures var blocks := old(assembling)[naluIndex].blocks;
              if Complete(blocks) then
                && assembling == old(assembling) - {naluIndex}
                && readyNalus == old(readyNalus)[naluIndex := Joined(blocks)]
                && assembledNalus == old(assembledNalus) + 1
              else
                assembling == old(assembling) && readyNalus == old(readyNalus) && assembledNalus == old(assembledNalus)
    {
      var complete := AllPresent(assembling[naluIndex].blocks);
      if complete {
        var fullNalu := Concatenate(assembling[naluIndex].blocks);
        assembledNalus := assembledNalus + 1;
        assembling := assembling - {naluIndex};
        readyNalus := readyNalus[naluIndex := fullNalu];
      }
    }

    method AddBlock(blockIndex: U32, naluIndex: U32, naluBlockSize: U32, data: seq<Byte>)
      modifies this
      ensures View() == BlockAdded(old(View()), Block(blockIndex, naluIndex, naluBlockSize, data))
      ensures acceptedBlocks == old(acceptedBlocks) + 1
      ensures expectedBlocks == old(expectedBlocks) + (if naluIndex in old(assembling) then 0 else naluBlockSize)
      ensures assembledNalus == old(assembledNalus) + (if naluIndex in assembling then 0 else 1)
      ensures nextNaluIndex == old(nextNaluIndex) && displayed == old(displayed) && skippedNalus == old(skippedNalus)
      ensures assembling - {naluIndex} == old(assembling) - {naluIndex}
      ensures readyNalus - {naluIndex} == old(readyNalus) - {naluIndex}
      ensures naluIndex in assembling ==>
                && readyNalus == old(readyNalus)
                && (blockIndex < |assembling[naluIndex].blocks| ==>
                      assembling[naluIndex].blocks[blockIndex] == Some(data))
      ensures naluIndex !in assembling ==> naluIndex in readyNalus
    {
      ghost var was, b := View(), Block(blockIndex, naluIndex, naluBlockSize, data);
      acceptedBlocks := acceptedBlocks + 1;
      OpenAssembly(naluIndex, naluBlockSize);
      var assembly := assembling[naluIndex];
      assert assembly == Target(was, b);
      if blockIndex >= |assembly.blocks| {
        return;
      }
      assembly := assembly.(blocks := assembly.blocks[blockIndex := Some(data)]);
      assembling := assembling[naluIndex := assembly];
      assert assembly.blocks == Filled(was, b) && assembling == was.assembling[naluIndex := assembly];
      assert assembling - {naluIndex} == was.assembling - {naluIndex};
      FinishIfComplete(naluIndex);
    }

    /** One round of the thread's loop; it ends when it was asked to stop. */
    method PlayRound(stop: bool) returns (running: bool)
      modifies this
      ensures running == !stop
      ensures View() == if stop then old(View()) else Tick(old(View()))
      ensures assembling == old(assembling) && acceptedBlocks == old(acceptedBlocks)
      ensures expectedBlocks == old(expectedBlocks) && assembledNalus == old(assembledNalus)
      ensures !stop && old(nextNaluIndex in readyNalus && forall k :: k in readyNalus ==> nextNaluIndex <= k) ==>
                && displayed == old(displayed) + [Shown(old(nextNaluIndex), old(readyNalus[nextNaluIndex]))]
                && readyNalus == old(readyNalus) - {old(nextNaluIndex)} && skippedNalus == old(skippedNalus)
                && nextNaluIndex == if old(nextNaluIndex) == U32_MAX then 0 else old(nextNaluIndex) + 1
      ensures !stop && old(readyNalus != map[] && forall k :: k in readyNalus ==> nextNaluIndex < k) ==>
                && displayed == old(displayed) && readyNalus == old(readyNalus)
                && nextNaluIndex in readyNalus && (forall k :: k in readyNalus ==> nextNaluIndex <= k)
                && skippedNalus == old(skippedNalus) + 1
      ensures stop || old(readyNalus == map[] || exists k :: k in readyNalus && k < nextNaluIndex) ==>
                View() == old(View())
    {
      if stop || (readyNalus != map[] && First(readyNalus) == nextNaluIndex) {
        if stop {
          return false;
        }
        if nextNaluIndex in readyNalus {
          var nalu := readyNalus[nextNaluIndex];
          var index := nextNaluIndex;
          readyNalus := readyNalus - {index};
          nextNaluIndex := NextIndex(nextNaluIndex);
          displayed := displayed + [Shown(index, nalu)];
        } else {
          // A warning and a skip would be recorded here, but the unit waited for cannot be missing.
          assert false;
        }
      } else {
        if readyNalus != map[] {
          var firstIndex := First(readyNalus);
          if firstIndex > nextNaluIndex {
            skippedNalus := skippedNalus + 1;
            nextNaluIndex := firstIndex;
          }
        }
      }
      return true;
    }
  }
}
