/** What the player's counters mean, over every run of arbitrary deliveries and rounds. */
module Accounting {
  import opened Bytes
  import opened Fragmenter
  import opened Playback

  // ----- Sums over open assemblies

  ghost function SlotCount(a: Assembly): nat {
    |a.blocks|
  }

  ghost function FilledIn(blocks: seq<Option<seq<Byte>>>): nat {
    if blocks == [] then 0 else (if blocks[0].Some? then 1 else 0) + FilledIn(blocks[1..])
  }

  ghost function FilledCount(a: Assembly): nat {
    FilledIn(a.blocks)
  }

  ghost function Total(m: map<U32, Assembly>, f: Assembly -> nat): nat
    decreases |m|
  {
    if m == map[] then 0
    else
      var k := First(m);
      assert (m - {k}).Keys == m.Keys - {k};
      f(m[k]) + Total(m - {k}, f)
  }

  lemma {:induction false} TotalRemove(m: map<U32, Assembly>, k: U32, f: Assembly -> nat)
    requires k in m
    ensures Total(m, f) == f(m[k]) + Total(m - {k}, f)
    decreases |m|
  {
    var j := First(m);
    if j != k {
      assert (m - {j}).Keys == m.Keys - {j};
      TotalRemove(m - {j}, k, f);
      assert (m - {j}) - {k} == (m - {k}) - {j};
      assert j in m - {k} && forall x :: x in m - {k} ==> j <= x;
    }
  }

  lemma TotalPut(m: map<U32, Assembly>, k: U32, a: Assembly, f: Assembly -> nat)
    ensures Total(m[k := a], f) == f(a) + Total(m - {k}, f)
  {
    TotalRemove(m[k := a], k, f);
    assert m[k := a] - {k} == m - {k};
  }

  lemma {:induction false} FilledInBounds(blocks: seq<Option<seq<Byte>>>)
    ensures FilledIn(blocks) <= |blocks|
    ensures FilledIn(blocks) == |blocks| <==> Complete(blocks)
    ensures (forall k :: 0 <= k < |blocks| ==> blocks[k].None?) ==> FilledIn(blocks) == 0
  {
    if blocks != [] {
      FilledInBounds(blocks[1..]);
      assert Complete(blocks) <==> blocks[0].Some? && Complete(blocks[1..]) by {
        if blocks[0].Some? && Complete(blocks[1..]) {
          forall k | 0 <= k < |blocks| ensures blocks[k].Some? {
            if k > 0 { assert blocks[1..][k - 1].Some?; }
          }
        }
      }
    }
  }

  lemma {:induction false} FilledInPut(blocks: seq<Option<seq<Byte>>>, i: nat, data: seq<Byte>)
    requires i < |blocks|
    ensures FilledIn(blocks[i := Some(data)]) == FilledIn(blocks) + if blocks[i].None? then 1 else 0
  {
    if i > 0 {
      FilledInPut(blocks[1..], i - 1, data);
      assert blocks[i := Some(data)][1..] == blocks[1..][i - 1 := Some(data)];
    }
  }

  // ----- Conservation of blocks

  /** How the deliveries of a run went. */
  datatype Ledger = Ledger(completions: nat, completedBlocks: nat, overwrites: nat, rejections: nat)

  ghost function Booked(g: Ledger, s: State, l: Label): Ledger {
    match l
    case PlayTick => g
    case Deliver(b) =>
      var target := Target(s, b);
      if b.blockIndex >= |target.blocks| then g.(rejections := g.rejections + 1)
      else
        var g := if target.blocks[b.blockIndex].Some? then g.(overwrites := g.overwrites + 1) else g;
        if Complete(Filled(s, b)) then
          g.(completions := g.completions + 1, completedBlocks := g.completedBlocks + |target.blocks|)
        else g
  }

  ghost function Books(run: seq<Label>): Ledger {
    if run == [] then Ledger(0, 0, 0, 0)
    else
      var before := run[..|run| - 1];
      Booked(Books(before), Exec(INITIAL, before), run[|run| - 1])
  }

  /** Every open assembly has as many slots as it was announced with; it has none at all or one that
      is empty. */
  ghost predicate OnlyOpen(s: State) {
    forall n :: n in s.assembling ==>
      var a := s.assembling[n];
      |a.blocks| == a.totalBlocks && (a.blocks == [] || !Complete(a.blocks))
  }

  ghost predicate Balanced(s: State, g: Ledger) {
    && s.counters.expectedBlocks == Total(s.assembling, SlotCount) + g.completedBlocks
    && s.counters.acceptedBlocks == Total(s.assembling, FilledCount) + g.completedBlocks + g.overwrites + g.rejections
    && s.counters.assembledNalus == g.completions
  }

  lemma TargetTotals(s: State, b: Block)
    ensures var t := Target(s, b);
            && Total(s.assembling, SlotCount) + (if b.naluIndex in s.assembling then 0 else b.naluBlockSize)
               == |t.blocks| + Total(s.assembling - {b.naluIndex}, SlotCount)
            && Total(s.assembling, FilledCount) == FilledIn(t.blocks) + Total(s.assembling - {b.naluIndex}, FilledCount)
  {
    if b.naluIndex in s.assembling {
      TotalRemove(s.assembling, b.naluIndex, SlotCount);
      TotalRemove(s.assembling, b.naluIndex, FilledCount);
    } else {
      assert s.assembling - {b.naluIndex} == s.assembling;
      FilledInBounds(EmptyAssembly(b.naluBlockSize).blocks);
    }
  }

  lemma DeliveryBalances(s: State, g: Ledger, b: Block)
    requires Balanced(s, g)
    ensures Balanced(BlockAdded(s, b), Booked(g, s, Deliver(b)))
  {
    var t, n := Target(s, b), b.naluIndex;
    TargetTotals(s, b);
    if b.blockIndex >= |t.blocks| {
      TotalPut(s.assembling, n, t, SlotCount);
      TotalPut(s.assembling, n, t, FilledCount);
    } else {
      var blocks := Filled(s, b);
      FilledInPut(t.blocks, b.blockIndex, b.data);
      FilledInBounds(blocks);
      if !Complete(blocks) {
        TotalPut(s.assembling, n, t.(blocks := blocks), SlotCount);
        TotalPut(s.assembling, n, t.(blocks := blocks), FilledCount);
      }
    }
  }

  lemma DeliveryKeepsOpen(s: State, b: Block)
    requires OnlyOpen(s)
    ensures OnlyOpen(BlockAdded(s, b))
  {
    var t := Target(s, b);
    assert |t.blocks| == t.totalBlocks;
    assert t.blocks != [] ==> !Complete(t.blocks) by {
      if t.blocks != [] && b.naluIndex !in s.assembling { assert t.blocks[0].None?; }
    }
  }

  /** Blocks are conserved in every run: those expected are the slots of open assemblies and the
      blocks of finished units; those accepted are the filled slots, the blocks of finished units,
      the overwrites and the rejections. */
  lemma {:induction false} BlockConservation(run: seq<Label>)
    ensures OnlyOpen(Exec(INITIAL, run))
    ensures Balanced(Exec(INITIAL, run), Books(run))
  {
    if run != [] {
      var before, l := run[..|run| - 1], run[|run| - 1];
      BlockConservation(before);
      if l.Deliver? {
        DeliveryBalances(Exec(INITIAL, before), Books(before), l.block);
        DeliveryKeepsOpen(Exec(INITIAL, before), l.block);
      }
    }
  }

  /** A block for a slot that is filled already never finishes a unit. */
  lemma OverwriteNeverCompletes(run: seq<Label>, b: Block)
    requires var t := Target(Exec(INITIAL, run), b);
             b.blockIndex < |t.blocks| && t.blocks[b.blockIndex].Some?
    ensures !Complete(Filled(Exec(INITIAL, run), b))
  {
    BlockConservation(run);
    var t := Target(Exec(INITIAL, run), b);
    assert b.naluIndex in Exec(INITIAL, run).assembling;
    var k :| 0 <= k < |t.blocks| && t.blocks[k].None?;
    assert Filled(Exec(INITIAL, run), b)[k].None?;
  }

  /** An assembly without slots, left by a block that announced none, is never finished nor replaced:
      its unit never becomes ready, whatever is delivered. */
  lemma {:induction false} EmptyAssemblyStays(s: State, n: U32, run: seq<Label>)
    requires n in s.assembling && s.assembling[n].blocks == []
    ensures var s' := Exec(s, run);
            n in s'.assembling && s'.assembling[n] == s.assembling[n] && (n in s'.ready ==> n in s.ready)
  {
    if run != [] {
      EmptyAssemblyStays(s, n, run[..|run| - 1]);
    }
  }

  // ----- How often one unit can be finished

  ghost predicate Finishes(s: State, l: Label, n: U32) {
    && l.Deliver? && l.block.naluIndex == n
    && Finishing(s, l.block)
  }

  ghost function Completions(run: seq<Label>, n: U32): nat {
    if run == [] then 0
    else
      var before, l := run[..|run| - 1], run[|run| - 1];
      Completions(before, n) + if Finishes(Exec(INITIAL, before), l, n) then 1 else 0
  }

  predicate SlotFilled(s: State, n: U32, i: U32) {
    n in s.assembling && i < |s.assembling[n].blocks| && s.assembling[n].blocks[i].Some?
  }

  ghost predicate IsFor(l: Label, n: U32, i: U32) {
    l.Deliver? && l.block.naluIndex == n && l.block.blockIndex == i
  }

  ghost function TimesDelivered(run: seq<Label>, n: U32, i: U32): nat {
    if run == [] then 0
    else TimesDelivered(run[..|run| - 1], n, i) + if IsFor(run[|run| - 1], n, i) then 1 else 0
  }

  /** Deliveries of a block whose slot was filled already. */
  ghost function TimesOverwritten(run: seq<Label>, n: U32, i: U32): nat {
    if run == [] then 0
    else
      var before, l := run[..|run| - 1], run[|run| - 1];
      TimesOverwritten(before, n, i)
      + if IsFor(l, n, i) && SlotFilled(Exec(INITIAL, before), n, i) then 1 else 0
  }

  /** Every block announces the same block count for its unit. */
  ghost predicate Consistent(run: seq<Label>, count: U32 -> U32) {
    forall l :: l in run && l.Deliver? ==> l.block.naluBlockSize == count(l.block.naluIndex)
  }

  lemma {:induction false} SizesConsistent(run: seq<Label>, count: U32 -> U32)
    requires Consistent(run, count)
    ensures var s := Exec(INITIAL, run);
            forall n :: n in s.assembling ==> |s.assembling[n].blocks| == count(n)
  {
    if run != [] {
      var before, l := run[..|run| - 1], run[|run| - 1];
      SizesConsistent(before, count);
      assert l in run;
    }
  }

  /** Where each delivery of a block went: into a finished unit, into the open assembly, or over
      a copy of itself. So a unit is never finished twice unless each of its blocks came twice. */
  lemma {:induction false} CompletionCounting(run: seq<Label>, count: U32 -> U32, n: U32, i: U32)
    requires Consistent(run, count) && i < count(n)
    ensures TimesDelivered(run, n, i)
         == Completions(run, n) + TimesOverwritten(run, n, i)
            + if SlotFilled(Exec(INITIAL, run), n, i) then 1 else 0
  {
    if run != [] {
      var before, l := run[..|run| - 1], run[|run| - 1];
      var s := Exec(INITIAL, before);
      CompletionCounting(before, count, n, i);
      SizesConsistent(before, count);
      assert l in run;
      if l.Deliver? && l.block.naluIndex == n {
        var t := Target(s, l.block);
        assert |t.blocks| == count(n);
        assert SlotFilled(s, n, i) <==> t.blocks[i].Some?;
        if l.block.blockIndex < |t.blocks| {
          var blocks := Filled(s, l.block);
          assert blocks[i].Some? <==> t.blocks[i].Some? || l.block.blockIndex == i;
        }
      }
    }
  }

  // ----- Playout order and skips

  /** Consecutive displayed numbers increase, and `next` is past them, except where the 32-bit counter
      wrapped. */
  ghost predicate InOrder(d: seq<U32>, next: U32) {
    && (forall k :: 0 <= k < |d| - 1 ==> d[k] == U32_MAX || d[k] < d[k + 1])
    && (d != [] ==> d[|d| - 1] == U32_MAX || d[|d| - 1] < next)
  }

  lemma TickInOrder(s: State)
    requires InOrder(Indices(s.displayed), s.next)
    ensures InOrder(Indices(Tick(s).displayed), Tick(s).next)
  {
    if Due(s) {
      assert Indices(Tick(s).displayed) == Indices(s.displayed) + [s.next];
    }
  }

  lemma {:induction false} DisplayOrder(run: seq<Label>)
    ensures InOrder(Indices(Exec(INITIAL, run).displayed), Exec(INITIAL, run).next)
  {
    if run != [] {
      var s := Exec(INITIAL, run[..|run| - 1]);
      DisplayOrder(run[..|run| - 1]);
      if run[|run| - 1].PlayTick? { TickInOrder(s); }
    }
  }

  lemma {:induction false} ChainIncreases(d: seq<U32>, j: nat, k: nat)
    requires j < k < |d| && forall i :: 0 <= i < |d| - 1 ==> d[i] < d[i + 1]
    ensures d[j] < d[k]
    decreases k
  {
    if j + 1 < k { ChainIncreases(d, j, k - 1); }
  }

  ghost predicate Increasing(d: seq<U32>) {
    forall j, k :: 0 <= j < k < |d| ==> d[j] < d[k]
  }

  /** Only a wrap separates display order from increasing order. */
  lemma DisplayIncreasesIff(run: seq<Label>)
    ensures var d := Indices(Exec(INITIAL, run).displayed);
            Increasing(d) <==> (forall k :: 0 <= k < |d| - 1 ==> d[k] != U32_MAX)
  {
    DisplayOrder(run);
    var d := Indices(Exec(INITIAL, run).displayed);
    if forall k :: 0 <= k < |d| - 1 ==> d[k] != U32_MAX {
      forall j, k | 0 <= j < k < |d| ensures d[j] < d[k] {
        ChainIncreases(d, j, k);
      }
    }
    if Increasing(d) {
      forall k | 0 <= k < |d| - 1 ensures d[k] != U32_MAX {
        assert d[k] < d[k + 1];
      }
    }
  }

  lemma SnocIncreasesIff(d: seq<U32>, n: U32)
    requires Increasing(d) && (d != [] ==> d[|d| - 1] == U32_MAX || d[|d| - 1] < n)
    ensures Increasing(d + [n]) <==> d == [] || d[|d| - 1] != U32_MAX
  {
    var e, last := d + [n], |d| - 1;
    if d != [] && d[last] == U32_MAX {
      assert e[last] >= e[last + 1];
    } else {
      forall j, k | 0 <= j < k < |e| ensures e[j] < e[k] {
        assert e[j] == d[j] <= d[last];
        if k < |d| { assert e[k] == d[k]; }
      }
    }
  }

  /** The step displays something right after the largest 32-bit number. */
  ghost predicate ShowsAfterMax(s: State, l: Label) {
    var d := Indices(s.displayed);
    l.PlayTick? && Due(s) && d != [] && d[|d| - 1] == U32_MAX
  }

  lemma StepBreaksIff(s: State, l: Label)
    requires Increasing(Indices(s.displayed)) && InOrder(Indices(s.displayed), s.next)
    ensures !Increasing(Indices(Step(s, l).displayed)) <==> ShowsAfterMax(s, l)
  {
    if l.PlayTick? && Due(s) {
      assert Indices(Tick(s).displayed) == Indices(s.displayed) + [s.next];
      SnocIncreasesIff(Indices(s.displayed), s.next);
    }
  }

  /** In any run, whatever is delivered, the step that breaks the increasing order of display is a round
      that displays something right after the largest 32-bit number. */
  lemma OrderBreaksIff(run: seq<Label>, l: Label)
    requires Increasing(Indices(Exec(INITIAL, run).displayed))
    ensures !Increasing(Indices(Step(Exec(INITIAL, run), l).displayed)) <==> ShowsAfterMax(Exec(INITIAL, run), l)
  {
    DisplayOrder(run);
    StepBreaksIff(Exec(INITIAL, run), l);
  }

  /** The wrap does happen: once the largest number was displayed, number 0 is displayed after it. */
  lemma WrapReorders(x: seq<Byte>, y: seq<Byte>)
    ensures var run := [Deliver(Block(0, U32_MAX, 1, x)), PlayTick, PlayTick, Deliver(Block(0, 0, 1, y)), PlayTick];
            Exec(INITIAL, run).displayed == [Shown(U32_MAX, x), Shown(0, y)]
  {
    var b, c := Block(0, U32_MAX, 1, x), Block(0, 0, 1, y);
    var run := [Deliver(b), PlayTick, PlayTick, Deliver(c), PlayTick];
    assert run[..4][..3] == run[..3] && run[..3][..2] == run[..2] && run[..2][..1] == run[..1] && run[..1][..0] == [];
    var s1 := BlockAdded(INITIAL, b);
    var s3 := Tick(Tick(s1));
    var s4 := BlockAdded(s3, c);
    SingleBlockReady(INITIAL, b);
    assert First(s1.ready) == U32_MAX;
    assert s3.ready == map[] && s3.next == 0;
    SingleBlockReady(s3, c);
    assert First(s4.ready) == 0;
    assert Exec(INITIAL, []) == INITIAL && Exec(INITIAL, run[..1]) == s1;
    assert Exec(INITIAL, run[..2]) == Tick(s1) && Exec(INITIAL, run[..3]) == s3 && Exec(INITIAL, run[..4]) == s4;
  }

  /** A unit of one block is ready as soon as that block is in. */
  lemma SingleBlockReady(s: State, b: Block)
    requires b.naluIndex !in s.assembling && b.blockIndex == 0 && b.naluBlockSize == 1
    ensures var s' := BlockAdded(s, b);
            s'.ready == s.ready[b.naluIndex := b.data] && s'.next == s.next && s'.displayed == s.displayed
            && s'.assembling == s.assembling
  {
    var blocks := Filled(s, b);
    assert blocks == [Some(b.data)];
    assert blocks[..0] == [] && Joined(blocks) == Joined([]) + b.data == b.data;
    assert s.assembling - {b.naluIndex} == s.assembling;
  }

  /** The number expected after those displayed. */
  function AfterLast(d: seq<U32>): U32 {
    if d == [] then 0 else NextIndex(d[|d| - 1])
  }

  /** The number of places where displayed numbers, followed by `next`, are not consecutive. */
  ghost function Gaps(d: seq<U32>, next: U32): (g: nat)
    ensures g <= |d| + (if next > AfterLast(d) then 1 else 0)
    decreases |d|
  {
    (if next > AfterLast(d) then 1 else 0)
    + if d == [] then 0 else Gaps(d[..|d| - 1], d[|d| - 1])
  }

  /** How often displaying wrapped the 32-bit counter. */
  ghost function Wraps(d: seq<U32>): nat {
    if d == [] then 0 else Wraps(d[..|d| - 1]) + if d[|d| - 1] == U32_MAX then 1 else 0
  }

  /** How far a step's skip, if it is one, advances `next`. */
  function Jump(s: State, l: Label): nat {
    if l.PlayTick? && !Due(s) && Tick(s).next > s.next then Tick(s).next - s.next else 0
  }

  /** How far the skips of a run advanced `next`. */
  ghost function Jumped(run: seq<Label>): nat {
    if run == [] then 0
    else
      var before := run[..|run| - 1];
      Jumped(before) + Jump(Exec(INITIAL, before), run[|run| - 1])
  }

  /** The counter of skipped units is exactly the number of gaps in what was displayed, however long
      they are: a skip is pending until the unit it skipped to is displayed. */
  ghost predicate Accounted(s: State) {
    var d := Indices(s.displayed);
    && s.counters.skippedNalus == Gaps(d, s.next)
    && s.next >= AfterLast(d)
    && (s.next > AfterLast(d) ==> s.next in s.ready)
  }

  lemma DisplayAccounted(s: State)
    requires Accounted(s) && Due(s)
    ensures Accounted(Tick(s))
    ensures Wraps(Indices(Tick(s).displayed)) == Wraps(Indices(s.displayed)) + if s.next == U32_MAX then 1 else 0
  {
    var d, d' := Indices(s.displayed), Indices(Tick(s).displayed);
    assert d' == d + [s.next] && d'[..|d|] == d;
  }

  lemma SkipAccounted(s: State)
    requires Accounted(s) && !Due(s)
    ensures Accounted(Tick(s))
  {
  }

  /** `next` counts the units displayed and the `jumped` numbers passed over, less 2^32 for each wrap. */
  ghost predicate Reckoned(s: State, jumped: nat) {
    s.next + 0x1_0000_0000 * Wraps(Indices(s.displayed)) == |s.displayed| + jumped
  }

  lemma DisplayReckoned(s: State, jumped: nat)
    requires Accounted(s) && Reckoned(s, jumped) && Due(s)
    ensures Reckoned(Tick(s), jumped)
  {
    DisplayAccounted(s);
  }

  lemma DeliveryAccounted(s: State, b: Block)
    requires Accounted(s)
    ensures Accounted(BlockAdded(s, b))
  {
  }

  /** In every run, the skip counter counts gaps, and `next` counts displays and jumps. */
  lemma {:induction false} PlayoutAccounting(run: seq<Label>)
    ensures Accounted(Exec(INITIAL, run)) && Reckoned(Exec(INITIAL, run), Jumped(run))
  {
    if run != [] {
      var before, l := run[..|run| - 1], run[|run| - 1];
      var s := Exec(INITIAL, before);
      PlayoutAccounting(before);
      match l
      case Deliver(b) =>
        DeliveryAccounted(s, b);
      case PlayTick =>
        if Due(s) {
          DisplayAccounted(s);
          DisplayReckoned(s, Jumped(before));
        } else {
          SkipAccounted(s);
        }
    }
  }

  lemma SkipJumps(s: State, l: Label)
    ensures Step(s, l).counters.skippedNalus <= s.counters.skippedNalus + Jump(s, l)
  {
  }

  lemma {:induction false} SkipsWithinJumps(run: seq<Label>)
    ensures Exec(INITIAL, run).counters.skippedNalus <= Jumped(run)
  {
    if run != [] {
      var before := run[..|run| - 1];
      SkipsWithinJumps(before);
      SkipJumps(Exec(INITIAL, before), run[|run| - 1]);
    }
  }

  /** In every run skips outnumber displays by at most one, and then only while the unit skipped to
      waits to be displayed; they never outnumber the units passed over. */
  lemma {:induction false} SkipBounds(run: seq<Label>)
    ensures var s := Exec(INITIAL, run);
            && (s.counters.skippedNalus <= |s.displayed|
                || (s.counters.skippedNalus == |s.displayed| + 1 && s.next in s.ready))
            && s.counters.skippedNalus <= Jumped(run)
  {
    PlayoutAccounting(run);
    SkipsWithinJumps(run);
  }
}
