/** Cutting NAL units into blocks of at most 1024 bytes, each stamped with its place. */
module Fragmenter {
  import opened Bytes

  const BLOCK_SIZE: nat := 1024

  /** What the reader hands out for one block, and the server hands to the player. */
  datatype Block = Block(blockIndex: U32, naluIndex: U32, naluBlockSize: U32, data: seq<Byte>)

  /** How many blocks hold so many bytes, and where block `i` begins in a unit long enough. */
  function BlocksFor(length: nat): (r: nat)
    ensures r <= length
  {
    if length == 0 then 0 else if length <= BLOCK_SIZE then 1 else 1 + BlocksFor(length - BLOCK_SIZE)
  }

  function Offset(i: nat): nat {
    if i == 0 then 0 else Offset(i - 1) + BLOCK_SIZE
  }

  function BlockCount(nalu: seq<Byte>): nat {
    BlocksFor(|nalu|)
  }

  /** The reader's rounded-up division counts blocks, and its division finds a block's number. */
  lemma {:induction false} DivisionCounts(length: nat)
    ensures (length + 1023) / 1024 == BlocksFor(length)
  {
    if length > BLOCK_SIZE {
      DivisionCounts(length - BLOCK_SIZE);
      assert (length + 1023) / 1024 == (length - 1024 + 1023) / 1024 + 1;
    }
  }

  lemma {:induction false} DivisionNumbers(i: nat)
    ensures Offset(i) / 1024 == i && Offset(i) % 1024 == 0
  {
    if i > 0 { DivisionNumbers(i - 1); }
  }

  lemma {:induction false} CountedIffBegins(length: nat, i: nat)
    ensures i < BlocksFor(length) <==> Offset(i) < length
    decreases length
  {
    if i > 0 {
      if length > BLOCK_SIZE {
        CountedIffBegins(length - BLOCK_SIZE, i - 1);
      } else {
        OffsetGrows(i);
      }
    }
  }

  lemma {:induction false} OffsetGrows(i: nat)
    requires i > 0
    ensures Offset(i) >= BLOCK_SIZE
  {
    if i > 1 { OffsetGrows(i - 1); }
  }

  function NextIndex(index: U32): U32 {
    ToU32(index + 1)
  }

  /** The blocks still to come from a unit whose first `offset` bytes have been handed out.
      All stamps are 32-bit conversions, as in the reader. */
  function Remainder(nalu: seq<Byte>, offset: nat, index: U32): seq<Block>
    decreases |nalu| - offset
  {
    if offset >= |nalu| then []
    else
      var n := if |nalu| - offset < BLOCK_SIZE then |nalu| - offset else BLOCK_SIZE;
      [Block(ToU32(offset / 1024), index, ToU32(BlockCount(nalu)), nalu[offset..offset + n])]
      + Remainder(nalu, offset + n, index)
  }

  lemma RemainderStep(nalu: seq<Byte>, offset: nat, index: U32, n: nat, b: Block, tail: seq<Block>)
    requires offset < |nalu| && n == (if |nalu| - offset < BLOCK_SIZE then |nalu| - offset else BLOCK_SIZE)
    requires b == Block(ToU32(offset / 1024), index, ToU32(BlockCount(nalu)), nalu[offset..offset + n])
    ensures var all, rest := Remainder(nalu, offset, index) + tail, Remainder(nalu, offset + n, index) + tail;
            |all| > 0 && all[0] == b && all[1..] == rest && (offset + n >= |nalu| ==> rest == tail)
  {
    var rest := Remainder(nalu, offset + n, index);
    assert Remainder(nalu, offset, index) == [b] + rest;
  }

  /** Everything the reader hands out for a list of units, the first of them having number `index`. */
  function Emission(nalus: seq<seq<Byte>>, index: U32): seq<Block> {
    if nalus == [] then []
    else Remainder(nalus[0], 0, index) + Emission(nalus[1..], NextIndex(index))
  }

  function Data(blocks: seq<Block>): (r: seq<seq<Byte>>)
    ensures |r| == |blocks|
  {
    seq(|blocks|, k requires 0 <= k < |blocks| => blocks[k].data)
  }

  lemma DataConcat(a: seq<Block>, b: seq<Block>)
    ensures Data(a + b) == Data(a) + Data(b)
  {
  }

  // ----- The fragments of one unit, without reference to the cursor

  /** Where block `i` begins; the end of the unit when there is no such block. */
  function BlockStart(nalu: seq<Byte>, i: nat): (r: nat)
    ensures r <= |nalu|
  {
    if Offset(i) < |nalu| then Offset(i) else |nalu|
  }

  /** The bytes of block `i` of a unit. */
  function Slice(nalu: seq<Byte>, i: nat): (r: seq<Byte>)
    ensures i < BlockCount(nalu) ==> 1 <= |r| <= BLOCK_SIZE
    ensures i + 1 < BlockCount(nalu) ==> |r| == BLOCK_SIZE
  {
    CountedIffBegins(|nalu|, i);
    CountedIffBegins(|nalu|, i + 1);
    After(nalu[..BlockStart(nalu, i + 1)], BlockStart(nalu, i))
  }

  function Slices(nalu: seq<Byte>, from: nat): (r: seq<seq<Byte>>)
    requires from <= BlockCount(nalu)
    ensures |r| == BlockCount(nalu) - from
    ensures forall j :: 0 <= j < |r| ==> r[j] == Slice(nalu, from + j)
  {
    seq(BlockCount(nalu) - from, j requires 0 <= j => Slice(nalu, from + j))
  }

  /** The slices partition the unit: put together they are the unit. */
  lemma {:induction false} SlicesRejoin(nalu: seq<Byte>, from: nat)
    requires from <= BlockCount(nalu)
    ensures Flatten(Slices(nalu, from)) == nalu[BlockStart(nalu, from)..]
    decreases BlockCount(nalu) - from
  {
    CountedIffBegins(|nalu|, from);
    if from < BlockCount(nalu) {
      SlicesRejoin(nalu, from + 1);
      assert Slices(nalu, from)[1..] == Slices(nalu, from + 1);
    }
  }

  // ----- A transmission whose numbers all fit in 32 bits

  /** No unit is empty, and unit numbers and block counts fit in 32 bits without the largest value. */
  predicate Sendable(nalus: seq<seq<Byte>>) {
    && |nalus| <= U32_MAX
    && forall n :: 0 <= n < |nalus| ==> |nalus[n]| >= 1 && BlockCount(nalus[n]) <= U32_MAX
  }

  /** Block `i` of unit `n` of the transmission. */
  function TrueBlock(nalus: seq<seq<Byte>>, n: nat, i: nat): Block
    requires Sendable(nalus) && n < |nalus| && i < BlockCount(nalus[n])
  {
    Block(i, n, BlockCount(nalus[n]), Slice(nalus[n], i))
  }

  predicate Authentic(nalus: seq<seq<Byte>>, b: Block)
    requires Sendable(nalus)
  {
    && b.naluIndex < |nalus|
    && b.blockIndex < BlockCount(nalus[b.naluIndex])
    && b == TrueBlock(nalus, b.naluIndex, b.blockIndex)
  }

  function TrueBlocks(nalus: seq<seq<Byte>>, n: nat): (r: seq<Block>)
    requires Sendable(nalus) && n < |nalus|
    ensures |r| == BlockCount(nalus[n]) >= 1
    ensures forall i :: 0 <= i < |r| ==> r[i] == TrueBlock(nalus, n, i)
  {
    seq(BlockCount(nalus[n]), i requires 0 <= i < BlockCount(nalus[n]) => TrueBlock(nalus, n, i))
  }

  /** The blocks of units `n` and up, unit by unit and in each unit in order. */
  function TrueBlocksFrom(nalus: seq<seq<Byte>>, n: nat): seq<Block>
    requires Sendable(nalus) && n <= |nalus|
    decreases |nalus| - n
  {
    if n == |nalus| then [] else TrueBlocks(nalus, n) + TrueBlocksFrom(nalus, n + 1)
  }

  lemma RemainderBegins(nalus: seq<seq<Byte>>, n: nat, i: nat)
    requires Sendable(nalus) && n < |nalus| && i < BlockCount(nalus[n])
    ensures Remainder(nalus[n], BlockStart(nalus[n], i), n)
         == [TrueBlock(nalus, n, i)] + Remainder(nalus[n], BlockStart(nalus[n], i + 1), n)
  {
    CountedIffBegins(|nalus[n]|, i);
    DivisionNumbers(i);
    assert BlockStart(nalus[n], i) == Offset(i) < |nalus[n]|;
    assert ToU32(Offset(i) / 1024) == i && ToU32(BlockCount(nalus[n])) == BlockCount(nalus[n]);
  }

  lemma {:induction false} RemainderIsTrueBlocks(nalus: seq<seq<Byte>>, n: nat, from: nat)
    requires Sendable(nalus) && n < |nalus| && from <= BlockCount(nalus[n])
    ensures Remainder(nalus[n], BlockStart(nalus[n], from), n) == TrueBlocks(nalus, n)[from..]
    decreases BlockCount(nalus[n]) - from
  {
    var bs := TrueBlocks(nalus, n);
    if from < |bs| {
      RemainderBegins(nalus, n, from);
      RemainderIsTrueBlocks(nalus, n, from + 1);
      assert bs[from..] == [bs[from]] + bs[from + 1..];
    } else {
      CountedIffBegins(|nalus[n]|, from);
    }
  }

  /** Fragmentation is exact: the reader's output is, unit after unit, blocks 0, 1, ... of that unit,
      each stamped with its number, its unit's number and its unit's block count. */
  lemma {:induction false} EmissionIsTrueBlocks(nalus: seq<seq<Byte>>, n: nat)
    requires Sendable(nalus) && n <= |nalus|
    ensures Emission(nalus[n..], n) == TrueBlocksFrom(nalus, n)
    decreases |nalus| - n
  {
    if n < |nalus| {
      RemainderIsTrueBlocks(nalus, n, 0);
      EmissionIsTrueBlocks(nalus, n + 1);
      assert nalus[n..][1..] == nalus[n + 1..];
    }
  }

  ghost predicate LexBefore(a: Block, b: Block) {
    a.naluIndex < b.naluIndex || (a.naluIndex == b.naluIndex && a.blockIndex < b.blockIndex)
  }

  ghost predicate LexIncreasing(bs: seq<Block>) {
    forall j, k :: 0 <= j < k < |bs| ==> LexBefore(bs[j], bs[k])
  }

  lemma {:induction false} MemberIsTrue(nalus: seq<seq<Byte>>, n: nat, b: Block) returns (m: nat, i: nat)
    requires Sendable(nalus) && n <= |nalus| && b in TrueBlocksFrom(nalus, n)
    ensures n <= m < |nalus| && i < BlockCount(nalus[m]) && b == TrueBlock(nalus, m, i)
    decreases |nalus| - n
  {
    var here := TrueBlocks(nalus, n);
    if b in here {
      m := n;
      i :| 0 <= i < |here| && here[i] == b;
    } else {
      m, i := MemberIsTrue(nalus, n + 1, b);
    }
  }

  lemma InConcat<T>(x: T, a: seq<T>, b: seq<T>)
    requires x in a || x in b
    ensures x in a + b
  {
    if x in b {
      var k :| 0 <= k < |b| && b[k] == x;
      assert (a + b)[|a| + k] == x;
    }
  }

  lemma {:induction false} TrueIsMember(nalus: seq<seq<Byte>>, n: nat, m: nat, b: Block)
    requires Sendable(nalus) && n <= m < |nalus| && b in TrueBlocks(nalus, m)
    ensures b in TrueBlocksFrom(nalus, n)
    decreases m - n
  {
    if n < m { TrueIsMember(nalus, n + 1, m, b); }
    InConcat(b, TrueBlocks(nalus, n), TrueBlocksFrom(nalus, n + 1));
  }

  lemma LaterUnitsAfter(nalus: seq<seq<Byte>>, n: nat, x: Block, y: Block)
    requires Sendable(nalus) && n < |nalus| && x in TrueBlocks(nalus, n) && y in TrueBlocksFrom(nalus, n + 1)
    ensures LexBefore(x, y)
  {
    var m, i := MemberIsTrue(nalus, n + 1, y);
  }

  lemma {:induction false} TrueBlocksFromIncreasing(nalus: seq<seq<Byte>>, n: nat)
    requires Sendable(nalus) && n <= |nalus|
    ensures LexIncreasing(TrueBlocksFrom(nalus, n))
    decreases |nalus| - n
  {
    if n < |nalus| {
      TrueBlocksFromIncreasing(nalus, n + 1);
      var here, rest := TrueBlocks(nalus, n), TrueBlocksFrom(nalus, n + 1);
      var bs := here + rest;
      forall j, k | 0 <= j < k < |bs| ensures LexBefore(bs[j], bs[k]) {
        if j < |here| <= k {
          assert bs[j] == here[j] && bs[k] == rest[k - |here|];
          LaterUnitsAfter(nalus, n, bs[j], bs[k]);
        } else if |here| <= j {
          assert bs[j] == rest[j - |here|] && bs[k] == rest[k - |here|];
        } else {
          assert bs[j] == here[j] && bs[k] == here[k];
        }
      }
    }
  }

  /** The reader hands out each block of the transmission and nothing else, in strictly increasing
      order of (unit, block) and so each of them once. */
  lemma EmissionExact(nalus: seq<seq<Byte>>)
    requires Sendable(nalus)
    ensures forall b :: b in Emission(nalus, 0) <==> Authentic(nalus, b)
    ensures LexIncreasing(Emission(nalus, 0))
  {
    EmissionIsTrueBlocks(nalus, 0);
    assert nalus[0..] == nalus;
    TrueBlocksFromIncreasing(nalus, 0);
    forall b ensures b in Emission(nalus, 0) <==> Authentic(nalus, b) {
      if b in TrueBlocksFrom(nalus, 0) { var m, i := MemberIsTrue(nalus, 0, b); }
      if Authentic(nalus, b) {
        assert TrueBlocks(nalus, b.naluIndex)[b.blockIndex] == b;
        TrueIsMember(nalus, 0, b.naluIndex, b);
      }
    }
  }

  /** The data handed out for a transmission is the transmission. */
  lemma {:induction false} EmissionBytes(nalus: seq<seq<Byte>>, n: nat)
    requires Sendable(nalus) && n <= |nalus|
    ensures Flatten(Data(TrueBlocksFrom(nalus, n))) == Flatten(nalus[n..])
    decreases |nalus| - n
  {
    if n < |nalus| {
      var here, rest := TrueBlocks(nalus, n), TrueBlocksFrom(nalus, n + 1);
      DataConcat(here, rest);
      FlattenConcat(Data(here), Data(rest));
      SlicesRejoin(nalus[n], 0);
      assert Data(here) == Slices(nalus[n], 0);
      EmissionBytes(nalus, n + 1);
      assert nalus[n..][1..] == nalus[n + 1..];
    }
  }
}
