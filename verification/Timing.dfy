/** What depends on when the player's rounds fall between deliveries, and what does not: exact
    conditions, on the deliveries alone, for every placement of the rounds to play in order, to play on,
    and to play everything that was finished. */
module Timing {
  import opened Bytes
  import opened Fragmenter
  import opened Playback
  import opened Accounting
  import opened Playout
  import opened Reassembly
  import opened Delivery

  /** The unit a block finishes, if it finishes one. */
  function FinishedNext(s: State, b: Block): seq<Shown> {
    if Finishing(s, b) then [Shown(b.naluIndex, Joined(Filled(s, b)))] else []
  }

  /** The units finished by some deliveries, in the order in which they are finished. */
  function FinishedBy(w: seq<Block>): seq<Shown> {
    if w == [] then []
    else
      var before, b := w[..|w| - 1], w[|w| - 1];
      FinishedBy(before) + FinishedNext(Delivered(before), b)
  }

  lemma FinishedSnoc(w: seq<Block>, b: Block)
    ensures FinishedBy(w + [b]) == FinishedBy(w) + FinishedNext(Delivered(w), b)
  {
    assert (w + [b])[..|w|] == w;
  }

  // ----- Rounds do not touch assemblies

  lemma SameAssembling(s: State, r: State, b: Block)
    requires s.assembling == r.assembling
    ensures BlockAdded(s, b).assembling == BlockAdded(r, b).assembling
    ensures FinishedNext(s, b) == FinishedNext(r, b)
  {
    assert Target(s, b) == Target(r, b);
  }

  /** Which units are open and what is in them depends on the deliveries alone. */
  lemma {:induction false} RoundsKeepAssembling(run: seq<Label>)
    ensures Exec(INITIAL, run).assembling == Delivered(Deliveries(run)).assembling
  {
    if run != [] {
      var before, l := run[..|run| - 1], run[|run| - 1];
      RoundsKeepAssembling(before);
      match l
      case Deliver(b) =>
        DeliveredSnoc(Deliveries(before), b);
        SameAssembling(Exec(INITIAL, before), Delivered(Deliveries(before)), b);
      case PlayTick =>
        assert Deliveries(before) + [] == Deliveries(before);
    }
  }

  /** What a delivery after a run adds to the finished units. */
  lemma FinishedAfter(run: seq<Label>, b: Block)
    ensures FinishedBy(Deliveries(run) + [b]) == FinishedBy(Deliveries(run)) + FinishedNext(Exec(INITIAL, run), b)
  {
    FinishedSnoc(Deliveries(run), b);
    RoundsKeepAssembling(run);
    SameAssembling(Exec(INITIAL, run), Delivered(Deliveries(run)), b);
  }

  function Numbers(w: seq<Block>): seq<U32> {
    Indices(FinishedBy(w))
  }

  lemma NumbersAfter(run: seq<Label>, b: Block)
    ensures Numbers(Deliveries(run) + [b])
         == Numbers(Deliveries(run)) + if Finishing(Exec(INITIAL, run), b) then [b.naluIndex] else []
  {
    FinishedAfter(run, b);
    IndicesConcat(FinishedBy(Deliveries(run)), FinishedNext(Exec(INITIAL, run), b));
    assert Finishing(Exec(INITIAL, run), b) ==> Indices(FinishedNext(Exec(INITIAL, run), b)) == [b.naluIndex];
  }

  lemma IndicesConcat(d: seq<Shown>, e: seq<Shown>)
    ensures Indices(d + e) == Indices(d) + Indices(e)
  {
  }

  // ----- Playing on

  /** Each number is above the one before it or is the last of the numbers below `c`. */
  ghost predicate InTurn(f: seq<U32>, c: nat) {
    forall k :: 0 <= k < |f| - 1 ==> f[k] < f[k + 1] || (f[k + 1] as int) == c - 1
  }

  /** Each number is above the one before it or is the largest 32-bit number. */
  ghost predicate NoneBehind(f: seq<U32>) {
    InTurn(f, 0x1_0000_0000)
  }

  lemma PrefixInTurn(f: seq<U32>, g: seq<U32>, c: nat)
    requires InTurn(g, c) && f <= g
    ensures InTurn(f, c)
  {
    forall k | 0 <= k < |f| - 1 ensures f[k] < f[k + 1] || (f[k + 1] as int) == c - 1 {
      assert g[k] < g[k + 1] || (g[k + 1] as int) == c - 1;
    }
  }

  /** Playout has passed nothing beyond the last number finished, and nothing ready lies behind it. */
  ghost predicate Abreast(s: State, f: seq<U32>) {
    && Fresh(s)
    && (f == [] ==> s.next == 0 && s.ready == map[])
    && (f != [] ==> s.next <= (f[|f| - 1] as int) + 1 && forall k :: k in s.ready ==> k <= f[|f| - 1])
  }

  lemma DeliveryAbreast(s: State, f: seq<U32>, b: Block)
    requires Abreast(s, f) && Finishing(s, b) && NoneBehind(f + [b.naluIndex])
    ensures Abreast(BlockAdded(s, b), f + [b.naluIndex])
  {
    var g := f + [b.naluIndex];
    if f != [] { assert g[|f| - 1] < g[|f|] || g[|f|] == U32_MAX; }
  }

  lemma TickAbreast(s: State, f: seq<U32>)
    requires Abreast(s, f)
    ensures Abreast(Tick(s), f)
  {
    StalenessArisesIff(s, PlayTick);
  }

  lemma {:induction false} StaysAbreast(run: seq<Label>)
    requires NoneBehind(Numbers(Deliveries(run)))
    ensures Abreast(Exec(INITIAL, run), Numbers(Deliveries(run)))
  {
    if run != [] {
      var before, l := run[..|run| - 1], run[|run| - 1];
      var s, f := Exec(INITIAL, before), Numbers(Deliveries(before));
      match l
      case Deliver(b) =>
        NumbersAfter(before, b);
        PrefixInTurn(f, Numbers(Deliveries(run)), 0x1_0000_0000);
        StaysAbreast(before);
        if Finishing(s, b) { DeliveryAbreast(s, f, b); }
      case PlayTick =>
        assert Deliveries(run) == Deliveries(before);
        StaysAbreast(before);
        TickAbreast(s, f);
    }
  }

  lemma TakeOfConcat<T>(a: seq<T>, b: seq<T>, k: nat)
    requires k <= |a|
    ensures (a + b)[..k] == a[..k] && (k < |a| ==> (a + b)[k] == a[k])
    ensures k == |a| ==> (a + b)[..k] == a
  {
  }

  /** The delivery that finishes the unit at position `k`. */
  lemma {:induction false} DeliveryFinishing(w: seq<Block>, k: nat) returns (i: nat)
    requires k < |FinishedBy(w)|
    ensures i < |w| && FinishedBy(w[..i]) == FinishedBy(w)[..k]
    ensures Finishing(Delivered(w[..i]), w[i]) && w[i].naluIndex == FinishedBy(w)[k].index
  {
    var last := |w| - 1;
    var before, f := w[..last], FinishedBy(w[..last]);
    var x := FinishedNext(Delivered(before), w[last]);
    assert FinishedBy(w) == f + x;
    if k < |f| {
      i := DeliveryFinishing(before, k);
      TakeOfConcat(f, x, k);
      assert before[..i] == w[..i];
    } else {
      i := last;
      TakeOfConcat(f, x, |f|);
    }
  }

  lemma {:induction false} FinishedAreReady(w: seq<Block>)
    ensures forall n: U32 :: n in Numbers(w) <==> n in Delivered(w).ready
  {
    if w != [] {
      var before, b := w[..|w| - 1], w[|w| - 1];
      FinishedAreReady(before);
      assert before + [b] == w;
      DeliveredSnoc(before, b);
      FinishedSnoc(before, b);
      var last := if Finishing(Delivered(before), b) then [b.naluIndex] else [];
      assert Numbers(w) == Numbers(before) + last;
    }
  }

  /** While a unit not below `n` is ready, enough rounds bring playout past `n`. */
  lemma {:induction false} RoundsPass(s: State, n: U32, m: U32) returns (t: nat)
    requires Fresh(s) && m in s.ready && n <= m && n < U32_MAX
    ensures Ticks(s, t).next > n
    ensures forall x :: x in Indices(Ticks(s, t).displayed) ==> x in Indices(s.displayed) || x <= n
    decreases |s.ready|, if First(s.ready) == s.next then 0 else 1
  {
    var k, r := First(s.ready), Tick(s);
    assert forall x :: x in Indices(r.displayed) ==> x in Indices(s.displayed) || x == s.next;
    if s.next > n {
      t := 0;
    } else {
      StalenessArisesIff(s, PlayTick);
      if k > n || (k == m && k == s.next) {
        t := 1;
        assert Ticks(s, 1) == Ticks(r, 0);
      } else {
        if k == s.next { assert r.ready.Keys == s.ready.Keys - {k}; }
        t := RoundsPass(r, n, m);
        t := t + 1;
      }
    }
  }

  /** A run that delivers some of the blocks, completed by the rest. */
  function Completed(run: seq<Label>, w: seq<Block>): seq<Label>
    requires |Deliveries(run)| <= |w|
  {
    run + DeliverAll(w[|Deliveries(run)|..])
  }

  lemma CompletedRun(run: seq<Label>, w: seq<Block>)
    requires Deliveries(run) <= w
    ensures Deliveries(Completed(run, w)) == w
    ensures Exec(INITIAL, Completed(run, w)) == Exec(Exec(INITIAL, run), DeliverAll(w[|Deliveries(run)|..]))
  {
    var rest := w[|Deliveries(run)|..];
    ExecConcat(INITIAL, run, DeliverAll(rest));
    DeliveriesConcat(run, DeliverAll(rest));
    DeliveredDisplaysNothing(rest);
  }

  /** A run that delivers the blocks `w`, with rounds placed in some way between them. */
  ghost predicate Places(run: seq<Label>, w: seq<Block>) {
    Deliveries(run) == w
  }

  lemma FinishingPassed(early: seq<Label>, w: seq<Block>, i: nat)
    requires i < |w| && Deliveries(early) == w[..i] && Finishing(Delivered(w[..i]), w[i])
    ensures var s, late := Exec(INITIAL, early), early + [Deliver(w[i])];
            && Deliveries(late) == w[..i + 1] && Exec(INITIAL, late) == BlockAdded(s, w[i])
            && Finishing(s, w[i])
  {
    RoundsKeepAssembling(early);
    SameAssembling(Exec(INITIAL, early), Delivered(w[..i]), w[i]);
    ExecSnoc(INITIAL, early, Deliver(w[i]));
    assert w[..i] + [w[i]] == w[..i + 1];
  }

  lemma StalledCompleted(run: seq<Label>, w: seq<Block>)
    requires Deliveries(run) <= w && !Fresh(Exec(INITIAL, run))
    ensures Places(Completed(run, w), w)
    ensures var r := Exec(INITIAL, Completed(run, w)); !Fresh(r) && r.displayed == Exec(INITIAL, run).displayed
  {
    CompletedRun(run, w);
    StalledForEver(Exec(INITIAL, run), DeliverAll(w[|Deliveries(run)|..]));
  }

  ghost predicate NothingBeyond(shown: seq<Shown>, n: U32) {
    forall x :: x in Indices(shown) ==> x <= n
  }

  /** When a number is finished behind another, some placement of rounds makes it stale, and displays
      nothing beyond it. */
  lemma BehindStalls(w: seq<Block>, k: nat) returns (run: seq<Label>)
    requires k + 1 < |Numbers(w)|
    requires Numbers(w)[k + 1] <= Numbers(w)[k] && Numbers(w)[k + 1] != U32_MAX
    ensures Places(run, w) && !Fresh(Exec(INITIAL, run))
    ensures NothingBeyond(Exec(INITIAL, run).displayed, Numbers(w)[k + 1])
  {
    var i := DeliveryFinishing(w, k + 1);
    var v := w[..i];
    assert Numbers(v)[k] == Numbers(w)[k];
    FinishedAreReady(v);
    DeliveredDisplaysNothing(v);
    var t := RoundsPass(Delivered(v), w[i].naluIndex, Numbers(w)[k]);
    var early := DeliverAll(v) + Rounds(t);
    RoundsAfter(DeliverAll(v), t);
    var late := early + [Deliver(w[i])];
    FinishingPassed(early, w, i);
    StalledStep(Exec(INITIAL, early), Deliver(w[i]));
    StalledCompleted(late, w);
    run := Completed(late, w);
  }

  lemma OutOfTurn(f: seq<U32>, c: nat) returns (k: nat)
    requires !InTurn(f, c)
    ensures k + 1 < |f| && f[k + 1] <= f[k] && f[k + 1] as int != c - 1
  {
    k :| k < |f| - 1 && !(f[k] < f[k + 1] || (f[k + 1] as int) == c - 1);
  }

  lemma SomePlacementStalls(w: seq<Block>) returns (run: seq<Label>)
    requires !NoneBehind(Numbers(w))
    ensures Places(run, w) && !Fresh(Exec(INITIAL, run))
  {
    var k := OutOfTurn(Numbers(w), 0x1_0000_0000);
    run := BehindStalls(w, k);
  }

  /** Playout goes on however rounds fall between the deliveries if and only if each number finished is
      above the one finished before it or is the largest 32-bit number. */
  lemma NeverStallsIff(w: seq<Block>)
    ensures (forall run :: Places(run, w) ==> Fresh(Exec(INITIAL, run))) <==> NoneBehind(Numbers(w))
  {
    if NoneBehind(Numbers(w)) {
      forall run | Places(run, w) ensures Fresh(Exec(INITIAL, run)) {
        StaysAbreast(run);
      }
    } else {
      var run := SomePlacementStalls(w);
    }
  }

  // ----- Playing in order

  /** The largest 32-bit number comes last, if at all. */
  ghost predicate MaxLast(f: seq<U32>) {
    forall k :: 0 <= k < |f| - 1 ==> f[k] != U32_MAX
  }

  /** Everything ready or displayed is among the numbers finished, and nothing is ready any more once the
      largest has been displayed. */
  ghost predicate DrawnFrom(s: State, f: seq<U32>) {
    var d := Indices(s.displayed);
    && (forall n :: n in s.ready ==> n in f) && (forall n :: n in d ==> n in f)
    && MaxLast(d) && (d != [] && d[|d| - 1] == U32_MAX ==> s.ready == map[])
  }

  lemma DeliveryDrawn(s: State, f: seq<U32>, b: Block)
    requires DrawnFrom(s, f) && Finishing(s, b) && MaxLast(f + [b.naluIndex])
    ensures DrawnFrom(BlockAdded(s, b), f + [b.naluIndex])
  {
    var g, d := f + [b.naluIndex], Indices(s.displayed);
    forall n | n in f ensures n != U32_MAX {
      var k :| 0 <= k < |f| && f[k] == n;
      assert g[k] != U32_MAX;
    }
    assert d != [] ==> d[|d| - 1] in f;
  }

  lemma TickDrawn(s: State, f: seq<U32>)
    requires DrawnFrom(s, f)
    ensures DrawnFrom(Tick(s), f)
  {
    if Due(s) {
      assert Indices(Tick(s).displayed) == Indices(s.displayed) + [s.next];
      if s.next == U32_MAX { assert (s.ready - {U32_MAX}).Keys == {}; }
    }
  }

  lemma {:induction false} StaysDrawn(run: seq<Label>)
    requires MaxLast(Numbers(Deliveries(run)))
    ensures DrawnFrom(Exec(INITIAL, run), Numbers(Deliveries(run)))
  {
    if run != [] {
      var before, l := run[..|run| - 1], run[|run| - 1];
      var s, f := Exec(INITIAL, before), Numbers(Deliveries(before));
      match l
      case Deliver(b) =>
        NumbersAfter(before, b);
        assert forall k :: 0 <= k < |f| ==> f[k] == Numbers(Deliveries(run))[k];
        StaysDrawn(before);
        if Finishing(s, b) { DeliveryDrawn(s, f, b); }
      case PlayTick =>
        assert Deliveries(run) == Deliveries(before);
        StaysDrawn(before);
        TickDrawn(s, f);
    }
  }

  lemma {:induction false} DisplayGrows(s: State, run: seq<Label>)
    ensures s.displayed <= Exec(s, run).displayed
  {
    if run != [] { DisplayGrows(s, run[..|run| - 1]); }
  }

  lemma DrainedNext(run: seq<Label>)
    requires Exec(INITIAL, run).ready == map[]
    ensures Exec(INITIAL, run).next == AfterLast(Indices(Exec(INITIAL, run).displayed))
  {
    PlayoutAccounting(run);
  }

  lemma GreatestIsLast(d: seq<Shown>, x: Shown)
    requires forall j, k :: 0 <= j < k < |d| ==> d[j].index < d[k].index
    requires x in d && x.index == U32_MAX
    ensures Indices(d)[|d| - 1] == U32_MAX
  {
    assert forall j :: 0 <= j < |d| - 1 ==> d[j].index < d[|d| - 1].index;
  }

  lemma AscendingEndsInMax(m: map<U32, seq<Byte>>)
    requires U32_MAX in m
    ensures var d := Indices(Ascending(m)); d != [] && d[|d| - 1] == U32_MAX
  {
    AscendingExact(m);
    var d, x := Ascending(m), Shown(U32_MAX, m[U32_MAX]);
    assert x.index in m && m[x.index] == x.nalu;
    GreatestIsLast(d, x);
  }

  lemma PlaysOutAscending(s: State, t: nat)
    requires Fresh(s) && s.displayed == [] && t == RoundsNeeded(s.ready, s.next)
    ensures Ticks(s, t).displayed == Ascending(s.ready) && Ticks(s, t).ready == map[]
  {
    PlayoutProgress(s, t);
    assert [] + Ascending(s.ready) == Ascending(s.ready);
  }

  /** The deliveries followed by enough rounds to display everything ready. */
  lemma Drained(v: seq<Block>) returns (run: seq<Label>)
    ensures Places(run, v)
    ensures Exec(INITIAL, run).displayed == Ascending(Delivered(v).ready) && Exec(INITIAL, run).ready == map[]
  {
    var t := RoundsNeeded(Delivered(v).ready, Delivered(v).next);
    DeliveredDisplaysNothing(v);
    PlaysOutAscending(Delivered(v), t);
    RoundsAfter(DeliverAll(v), t);
    run := DeliverAll(v) + Rounds(t);
  }

  /** Once the largest number is displayed and nothing is left, playout begins at 0 again. */
  lemma DrainedPastMax(v: seq<Block>) returns (run: seq<Label>)
    requires U32_MAX in Numbers(v)
    ensures Places(run, v)
    ensures var s := Exec(INITIAL, run); U32_MAX in Indices(s.displayed) && s.next == 0 && s.ready == map[]
  {
    FinishedAreReady(v);
    run := Drained(v);
    AscendingEndsInMax(Delivered(v).ready);
    DrainedNext(run);
  }

  lemma NotIncreasingAfter(d: seq<U32>, e: seq<U32>, n: U32)
    requires U32_MAX in d && d + [n] <= e
    ensures !Increasing(e)
  {
    var k :| 0 <= k < |d| && d[k] == U32_MAX;
    assert e[k] == U32_MAX && e[|d|] == n;
  }

  /** From number 0 on, the only ready unit is displayed next. */
  lemma OnlyReadyShown(s: State, n: U32) returns (t: nat)
    requires s.next == 0 && s.ready.Keys == {n}
    ensures Indices(Ticks(s, t).displayed) == Indices(s.displayed) + [n]
  {
    assert n in s.ready && First(s.ready) in s.ready.Keys;
    FirstDisplayed(s);
    t := if n == s.next then 1 else 2;
  }

  lemma DisplayedAfterMax(early: seq<Label>, w: seq<Block>, i: nat) returns (run: seq<Label>)
    requires i < |w| && Deliveries(early) == w[..i] && Finishing(Delivered(w[..i]), w[i])
    requires var s := Exec(INITIAL, early); U32_MAX in Indices(s.displayed) && s.next == 0 && s.ready == map[]
    ensures Places(run, w) && !Increasing(Indices(Exec(INITIAL, run).displayed))
  {
    var s, b, late := Exec(INITIAL, early), w[i], early + [Deliver(w[i])];
    FinishingPassed(early, w, i);
    var r := BlockAdded(s, b);
    assert r.ready.Keys == {b.naluIndex} && r.displayed == s.displayed;
    var t := OnlyReadyShown(r, b.naluIndex);
    var shown := late + Rounds(t);
    RoundsAfter(late, t);
    CompletedRun(shown, w);
    run := Completed(shown, w);
    DisplayGrows(Exec(INITIAL, shown), DeliverAll(w[i + 1..]));
    NotIncreasingAfter(Indices(s.displayed), Indices(Exec(INITIAL, run).displayed), b.naluIndex);
  }

  /** When something is finished after the largest number, some placement of rounds displays it after. */
  lemma MaxReorders(w: seq<Block>, k: nat) returns (run: seq<Label>)
    requires k + 1 < |Numbers(w)| && Numbers(w)[k] == U32_MAX
    ensures Places(run, w) && !Increasing(Indices(Exec(INITIAL, run).displayed))
  {
    var i := DeliveryFinishing(w, k + 1);
    assert Numbers(w[..i])[k] == Numbers(w)[k];
    var early := DrainedPastMax(w[..i]);
    run := DisplayedAfterMax(early, w, i);
  }

  /** Display order is strictly increasing however rounds fall between the deliveries if and only if
      nothing is finished after the largest 32-bit number. */
  lemma AlwaysInOrderIff(w: seq<Block>)
    ensures (forall run :: Places(run, w) ==> Increasing(Indices(Exec(INITIAL, run).displayed)))
       <==> MaxLast(Numbers(w))
  {
    var f := Numbers(w);
    if MaxLast(f) {
      forall run | Places(run, w) ensures Increasing(Indices(Exec(INITIAL, run).displayed)) {
        StaysDrawn(run);
        DisplayIncreasesIff(run);
      }
    } else {
      var k :| 0 <= k < |f| - 1 && f[k] == U32_MAX;
      var run := MaxReorders(w, k);
    }
  }

  // ----- Playing everything

  /** Removing the first of the units a greater one was added to. */
  lemma FirstOfUpdated(m: map<U32, seq<Byte>>, n: U32, x: seq<Byte>, k: U32, rest: map<U32, seq<Byte>>)
    requires k in m && (forall j :: j in m ==> k <= j < n) && rest == m - {k}
    ensures Ascending(m) == [Shown(k, m[k])] + Ascending(rest) && |rest| < |m|
    ensures Ascending(m[n := x]) == [Shown(k, m[k])] + Ascending(rest[n := x])
  {
    AscendingCons(m, k, rest, 0);
    assert m[n := x] - {k} == rest[n := x];
    AscendingCons(m[n := x], k, rest[n := x], 0);
  }

  lemma AscendingOne(m: map<U32, seq<Byte>>, n: U32)
    requires m.Keys == {n}
    ensures Ascending(m) == [Shown(n, m[n])]
  {
    assert n in m && First(m) in m.Keys;
    assert (m - {n}).Keys == {};
  }

  lemma {:induction false} AscendingSnoc(m: map<U32, seq<Byte>>, n: U32, x: seq<Byte>)
    requires forall k :: k in m ==> k < n
    ensures Ascending(m[n := x]) == Ascending(m) + [Shown(n, x)]
    decreases |m|
  {
    if m == map[] {
      AscendingOne(m[n := x], n);
    } else {
      var k := First(m);
      FirstOfUpdated(m, n, x, k, m - {k});
      AscendingSnoc(m - {k}, n, x);
      Reassociate([Shown(k, m[k])], Ascending(m - {k}), [Shown(n, x)]);
    }
  }

  /** What was displayed and then what is ready is everything finished, in order of finishing. */
  ghost predicate HoldsFinished(s: State, f: seq<Shown>) {
    s.displayed + Ascending(s.ready) == f
  }

  lemma IncreasingNoneBehind(f: seq<U32>)
    requires Increasing(f)
    ensures NoneBehind(f)
  {
  }

  lemma DeliveryHolds(s: State, f: seq<Shown>, b: Block)
    requires Abreast(s, Indices(f)) && HoldsFinished(s, f)
    requires Increasing(Indices(f + FinishedNext(s, b)))
    ensures HoldsFinished(BlockAdded(s, b), f + FinishedNext(s, b))
  {
    if Finishing(s, b) {
      var n, x, g := b.naluIndex, Joined(Filled(s, b)), Indices(f + FinishedNext(s, b));
      forall k | k in s.ready ensures k < n {
        assert g[|f| - 1] < g[|f|];
      }
      AscendingSnoc(s.ready, n, x);
    }
  }

  lemma TickHolds(s: State, f: seq<Shown>)
    requires Fresh(s) && HoldsFinished(s, f)
    ensures HoldsFinished(Tick(s), f)
  {
    if Due(s) {
      AscendingCons(s.ready, s.next, s.ready - {s.next}, 0);
    }
  }

  lemma PrefixIncreases(f: seq<U32>, g: seq<U32>)
    requires Increasing(g) && f <= g
    ensures Increasing(f)
  {
    assert forall k :: 0 <= k < |f| ==> f[k] == g[k];
  }

  lemma {:induction false} IncreasingHolds(run: seq<Label>)
    requires Increasing(Numbers(Deliveries(run)))
    ensures Abreast(Exec(INITIAL, run), Numbers(Deliveries(run)))
    ensures HoldsFinished(Exec(INITIAL, run), FinishedBy(Deliveries(run)))
  {
    IncreasingNoneBehind(Numbers(Deliveries(run)));
    StaysAbreast(run);
    if run != [] {
      var before, l := run[..|run| - 1], run[|run| - 1];
      var s, f := Exec(INITIAL, before), FinishedBy(Deliveries(before));
      match l
      case Deliver(b) =>
        FinishedAfter(before, b);
        IndicesConcat(f, FinishedNext(s, b));
        PrefixIncreases(Indices(f), Numbers(Deliveries(run)));
        IncreasingHolds(before);
        DeliveryHolds(s, f, b);
      case PlayTick =>
        assert Deliveries(run) == Deliveries(before);
        IncreasingHolds(before);
        TickHolds(s, f);
    }
  }

  lemma TicksGrow(s: State, t: nat, u: nat)
    requires t <= u
    ensures Ticks(s, t).displayed <= Ticks(s, u).displayed
  {
    TicksAdd(s, t, u - t);
    ExecRounds(Ticks(s, t), u - t);
    DisplayGrows(Ticks(s, t), Rounds(u - t));
  }

  /** Some number of rounds brings the display to `f`. */
  ghost predicate CanShow(s: State, f: seq<Shown>) {
    exists t: nat :: Ticks(s, t).displayed == f
  }

  lemma IncreasingShown(run: seq<Label>)
    requires Increasing(Numbers(Deliveries(run)))
    ensures CanShow(Exec(INITIAL, run), FinishedBy(Deliveries(run)))
  {
    var s := Exec(INITIAL, run);
    IncreasingHolds(run);
    var t := RoundsNeeded(s.ready, s.next);
    PlayoutProgress(s, t);
    assert Ticks(s, t).displayed == FinishedBy(Deliveries(run));
  }

  lemma ShowsOnlyReady(s: State, t: nat)
    requires Fresh(s) && s.displayed == []
    ensures Ticks(s, t).displayed <= Ascending(s.ready)
  {
    var u := t + RoundsNeeded(s.ready, s.next);
    PlayoutProgress(s, u);
    TicksGrow(s, t, u);
    assert [] + Ascending(s.ready) == Ascending(s.ready);
  }

  lemma PrefixIncreasing(f: seq<Shown>, m: map<U32, seq<Byte>>)
    requires f <= Ascending(m)
    ensures Increasing(Indices(f))
  {
    AscendingExact(m);
    assert forall k :: 0 <= k < |f| ==> f[k] == Ascending(m)[k];
  }

  lemma ShownIncreasing(w: seq<Block>)
    requires CanShow(Delivered(w), FinishedBy(w))
    ensures Increasing(Numbers(w))
  {
    var s := Delivered(w);
    DeliveredDisplaysNothing(w);
    var t: nat :| Ticks(s, t).displayed == FinishedBy(w);
    ShowsOnlyReady(s, t);
    PrefixIncreasing(FinishedBy(w), s.ready);
  }

  /** However rounds fall between the deliveries, playing on displays exactly the units finished, in
      order of finishing, if and only if they are finished in strictly increasing order. */
  lemma FinishingOrderShownIff(w: seq<Block>)
    ensures (forall run :: Places(run, w) ==> CanShow(Exec(INITIAL, run), FinishedBy(w))) <==> Increasing(Numbers(w))
  {
    if Increasing(Numbers(w)) {
      forall run | Places(run, w) ensures CanShow(Exec(INITIAL, run), FinishedBy(w)) {
        IncreasingShown(run);
      }
    } else if CanShow(Delivered(w), FinishedBy(w)) {
      ShownIncreasing(w);
    } else {
      DeliveredDisplaysNothing(w);
      assert Places(DeliverAll(w), w);
    }
  }

  // ----- Playing a whole transmission

  ghost predicate Below(f: seq<U32>, c: nat) {
    forall k :: 0 <= k < |f| ==> f[k] < c
  }

  /** Nothing is stale before the last of `c` units is displayed, and nothing but copies of that one is
      ready afterwards. */
  ghost predicate Orderly(s: State, f: seq<U32>, c: U32)
    requires c > 0
  {
    if c - 1 in Indices(s.displayed) then
      s.next == c && f != [] && f[|f| - 1] == c - 1 && s.ready.Keys <= {c - 1}
    else
      Abreast(s, f) && s.next < c
  }

  lemma DeliveryOrderly(s: State, f: seq<U32>, b: Block, c: U32)
    requires c > 0 && Orderly(s, f, c) && Finishing(s, b)
    requires var g := f + [b.naluIndex]; InTurn(g, c) && Below(g, c)
    ensures Orderly(BlockAdded(s, b), f + [b.naluIndex], c)
  {
    var n, g := b.naluIndex, f + [b.naluIndex];
    assert g[|f|] == n < c;
    if f != [] {
      assert g[|f| - 1] == f[|f| - 1] < c;
      assert f[|f| - 1] < n || n == c - 1;
    }
  }

  lemma NotFinishingOrderly(s: State, f: seq<U32>, b: Block, c: U32)
    requires c > 0 && Orderly(s, f, c) && !Finishing(s, b)
    ensures Orderly(BlockAdded(s, b), f, c)
  {
    var r := BlockAdded(s, b);
    assert r.ready == s.ready && r.next == s.next && r.displayed == s.displayed;
  }

  lemma PrefixBelow(f: seq<U32>, g: seq<U32>, c: nat)
    requires Below(g, c) && f <= g
    ensures Below(f, c)
  {
    assert forall k :: 0 <= k < |f| ==> f[k] == g[k];
  }

  lemma TickOrderly(s: State, f: seq<U32>, c: U32)
    requires c > 0 && Orderly(s, f, c) && Below(f, c)
    ensures Orderly(Tick(s), f, c)
  {
    if c - 1 !in Indices(s.displayed) {
      TickAbreast(s, f);
      if Due(s) {
        assert Indices(Tick(s).displayed) == Indices(s.displayed) + [s.next];
        assert f != [] && s.next <= f[|f| - 1] < c;
        assert Indices(Tick(s).displayed)[|s.displayed|] == s.next;
      }
    }
  }

  lemma {:induction false} StaysOrderly(run: seq<Label>, c: U32)
    requires c > 0 && InTurn(Numbers(Deliveries(run)), c) && Below(Numbers(Deliveries(run)), c)
    ensures Orderly(Exec(INITIAL, run), Numbers(Deliveries(run)), c)
  {
    if run != [] {
      var before, l := run[..|run| - 1], run[|run| - 1];
      var s, f, g := Exec(INITIAL, before), Numbers(Deliveries(before)), Numbers(Deliveries(run));
      match l
      case Deliver(b) =>
        NumbersAfter(before, b);
        PrefixInTurn(f, g, c);
        PrefixBelow(f, g, c);
        StaysOrderly(before, c);
        if Finishing(s, b) { DeliveryOrderly(s, f, b, c); } else { NotFinishingOrderly(s, f, b, c); }
      case PlayTick =>
        assert Deliveries(run) == Deliveries(before);
        StaysOrderly(before, c);
        TickOrderly(s, f, c);
    }
  }

  lemma NumbersBelow(nalus: seq<seq<Byte>>, w: seq<Block>)
    requires Sendable(nalus) && CoversAll(nalus, w)
    ensures Below(Numbers(w), |nalus|)
  {
    var f := Numbers(w);
    forall k | 0 <= k < |f| ensures f[k] < |nalus| {
      var i := DeliveryFinishing(w, k);
      assert w[i] in w;
    }
  }

  lemma InTurnShown(nalus: seq<seq<Byte>>, run: seq<Label>)
    requires Sendable(nalus) && CoversAll(nalus, Deliveries(run)) && InTurn(Numbers(Deliveries(run)), |nalus|)
    ensures CanShow(Exec(INITIAL, run), ShownUpTo(nalus, |nalus|))
  {
    var w, s, c := Deliveries(run), Exec(INITIAL, run), |nalus|;
    NumbersBelow(nalus, w);
    DeliveryIff(nalus, run);
    if c == 0 {
      StaysAbreast(run);
    } else {
      StaysOrderly(run, c);
      if c - 1 in Indices(s.displayed) {
        AuthenticRun(nalus, run);
        AuthenticDisplayIncreases(nalus, run);
        forall n: U32 | n < c ensures n in Indices(s.displayed) {
          AllCovered(nalus, w, n);
          assert Tracks(nalus, w, s, n);
          assert n in s.ready ==> n in s.ready.Keys;
        }
        IncreasingIsAll(nalus, s.displayed);
      }
    }
  }

  lemma LastNotShown(nalus: seq<seq<Byte>>, shown: seq<Shown>, n: U32)
    requires Sendable(nalus) && n + 1 < |nalus| && NothingBeyond(shown, n)
    ensures shown != ShownUpTo(nalus, |nalus|)
  {
    if |shown| == |nalus| {
      assert Indices(shown)[|nalus| - 1] in Indices(shown);
    }
  }

  lemma StalledMissed(s: State, f: seq<Shown>)
    requires !Fresh(s) && s.displayed != f
    ensures !CanShow(s, f)
  {
    forall t: nat ensures Ticks(s, t).displayed != f {
      StalledForEver(s, Rounds(t));
      ExecRounds(s, t);
    }
  }

  lemma OutOfTurnMissed(nalus: seq<seq<Byte>>, w: seq<Block>) returns (run: seq<Label>)
    requires Sendable(nalus) && CoversAll(nalus, w) && !InTurn(Numbers(w), |nalus|)
    ensures Places(run, w) && !CanShow(Exec(INITIAL, run), ShownUpTo(nalus, |nalus|))
  {
    NumbersBelow(nalus, w);
    var k := OutOfTurn(Numbers(w), |nalus|);
    assert Numbers(w)[k + 1] < |nalus|;
    run := BehindStalls(w, k);
    LastNotShown(nalus, Exec(INITIAL, run).displayed, Numbers(w)[k + 1]);
    StalledMissed(Exec(INITIAL, run), ShownUpTo(nalus, |nalus|));
  }

  /** When every block is delivered, some perhaps repeatedly, then however rounds fall between the
      deliveries playing on displays the whole transmission in order, if and only if units are finished
      in increasing order, but for repetitions of the last unit of all. */
  lemma AlwaysDeliveredIff(nalus: seq<seq<Byte>>, w: seq<Block>)
    requires Sendable(nalus) && CoversAll(nalus, w)
    ensures (forall run :: Places(run, w) ==> CanShow(Exec(INITIAL, run), ShownUpTo(nalus, |nalus|)))
       <==> InTurn(Numbers(w), |nalus|)
  {
    if InTurn(Numbers(w), |nalus|) {
      forall run | Places(run, w) ensures CanShow(Exec(INITIAL, run), ShownUpTo(nalus, |nalus|)) {
        InTurnShown(nalus, run);
      }
    } else {
      var run := OutOfTurnMissed(nalus, w);
    }
  }

  // ----- The simplest input that stalls playout

  /** A one-block unit that was passed and comes again stalls playout in every continuation. */
  lemma RepeatedUnitStalls(s: State, b: Block, run: seq<Label>)
    requires b.naluIndex !in s.assembling && b.blockIndex == 0 && b.naluBlockSize == 1 && b.naluIndex < s.next
    ensures Exec(BlockAdded(s, b), run).displayed == s.displayed
  {
    SingleBlockReady(s, b);
    assert b.naluIndex in BlockAdded(s, b).ready;
    StalledForEver(BlockAdded(s, b), run);
  }

  /** One repeated datagram is enough: once the only block of unit 0 was displayed and comes again, no
      later run displays anything more. */
  lemma RepeatStalls(x: seq<Byte>, run: seq<Label>)
    ensures var b := Block(0, 0, 1, x);
            Exec(INITIAL, [Deliver(b), PlayTick, Deliver(b)] + run).displayed == [Shown(0, x)]
  {
    var b := Block(0, 0, 1, x);
    var first, s1 := [Deliver(b)], BlockAdded(INITIAL, b);
    SingleBlockReady(INITIAL, b);
    ExecSnoc(INITIAL, [], Deliver(b));
    assert [] + [Deliver(b)] == first;
    assert First(s1.ready) == 0;
    var s2 := Tick(s1);
    ExecSnoc(INITIAL, first, PlayTick);
    ExecSnoc(INITIAL, first + [PlayTick], Deliver(b));
    var twice := first + [PlayTick] + [Deliver(b)];
    assert twice == [Deliver(b), PlayTick, Deliver(b)];
    ExecConcat(INITIAL, twice, run);
    RepeatedUnitStalls(s2, b, run);
  }
}
