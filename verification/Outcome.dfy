/** What is displayed in the end, and exactly when that does not depend on how the player's rounds fall
    between the deliveries. */
module Outcome {
  import opened Bytes
  import opened Fragmenter
  import opened Playback
  import opened Accounting
  import opened Playout
  import opened Reassembly
  import opened Timing

  /** What is displayed once playing on changes nothing any more. */
  ghost function End(s: State): seq<Shown> {
    if Fresh(s) then s.displayed + Ascending(s.ready) else s.displayed
  }

  lemma EndIsFinal(s: State, t: nat)
    requires t >= RoundsNeeded(s.ready, s.next)
    ensures Ticks(s, t).displayed == End(s)
  {
    if Fresh(s) {
      PlayoutProgress(s, t);
    } else {
      StalledForEver(s, Rounds(t));
      ExecRounds(s, t);
    }
  }

  // ----- Deliveries whose outcome is settled

  /** The first `p` units are finished in strictly increasing order, and those after them are copies of the
      last of these, whose number is not the largest. */
  ghost predicate SettlesAt(f: seq<Shown>, p: nat) {
    && p <= |f| && Increasing(Indices(f[..p]))
    && (p < |f| ==> p > 0 && f[p - 1].index != U32_MAX)
    && forall k :: p <= k < |f| ==> f[k] == f[p - 1]
  }

  ghost predicate Settles(f: seq<Shown>) {
    exists p :: SettlesAt(f, p)
  }

  /** The units in `core` were displayed or are ready, and nothing is stale. */
  ghost predicate Holding(s: State, core: seq<Shown>) {
    Abreast(s, Indices(core)) && HoldsFinished(s, core)
  }

  /** The units in `core` were displayed, and nothing but copies of the last one is ready. */
  ghost predicate Past(s: State, core: seq<Shown>) {
    && core != [] && s.displayed == core
    && s.next == (core[|core| - 1].index as int) + 1 && s.ready.Keys <= {core[|core| - 1].index}
  }

  lemma NewFinished(s: State, core: seq<Shown>, b: Block)
    requires Holding(s, core) && Finishing(s, b)
    requires Increasing(Indices(core + FinishedNext(s, b)))
    ensures Holding(BlockAdded(s, b), core + FinishedNext(s, b))
  {
    IndicesConcat(core, FinishedNext(s, b));
    assert Indices(FinishedNext(s, b)) == [b.naluIndex];
    IncreasingNoneBehind(Indices(core) + [b.naluIndex]);
    DeliveryAbreast(s, Indices(core), b);
    DeliveryHolds(s, core, b);
  }

  lemma CopyFinished(s: State, core: seq<Shown>, b: Block)
    requires Holding(s, core) && Finishing(s, b) && core != []
    requires FinishedNext(s, b) == [core[|core| - 1]] && b.naluIndex != U32_MAX
    requires InOrder(Indices(s.displayed), s.next)
    ensures Holding(BlockAdded(s, b), core) || Past(BlockAdded(s, b), core)
  {
    if s.ready == map[] {
      CopyOfShown(s, core);
    } else {
      CopyOfReady(s, core);
    }
  }

  lemma CopyOfShown(s: State, core: seq<Shown>)
    requires Holding(s, core) && core != [] && core[|core| - 1].index != U32_MAX && s.ready == map[]
    requires InOrder(Indices(s.displayed), s.next)
    ensures s.displayed == core && s.next == (core[|core| - 1].index as int) + 1
  {
    assert s.displayed + [] == s.displayed;
    assert Indices(s.displayed)[|core| - 1] == core[|core| - 1].index;
  }

  lemma CopyOfReady(s: State, core: seq<Shown>)
    requires Holding(s, core) && core != [] && s.ready != map[]
    ensures var x := core[|core| - 1]; s.ready[x.index := x.nalu] == s.ready
  {
    var x, e := core[|core| - 1], Ascending(s.ready);
    AscendingExact(s.ready);
    assert e[|e| - 1] == x && x in e;
  }

  lemma TickHolding(s: State, core: seq<Shown>)
    requires Holding(s, core)
    ensures Holding(Tick(s), core)
  {
    TickAbreast(s, Indices(core));
    TickHolds(s, core);
  }

  lemma TickPast(s: State, core: seq<Shown>)
    requires Past(s, core)
    ensures Past(Tick(s), core)
  {
    assert s.ready != map[] ==> First(s.ready) in s.ready.Keys;
  }

  function Min(a: nat, b: nat): nat {
    if a < b then a else b
  }

  /** `m` of the units `f` are finished. */
  ghost predicate Underway(s: State, f: seq<Shown>, p: nat, m: nat)
    requires p <= |f|
  {
    || Holding(s, f[..Min(m, p)])
    || (m > p && Past(s, f[..p]))
  }

  lemma FinishUnderway(s: State, f: seq<Shown>, p: nat, m: nat, b: Block)
    requires SettlesAt(f, p) && m < |f| && Underway(s, f, p, m)
    requires Finishing(s, b) && FinishedNext(s, b) == [f[m]]
    requires InOrder(Indices(s.displayed), s.next)
    ensures Underway(BlockAdded(s, b), f, p, m + 1)
  {
    if m < p {
      assert f[..m] + [f[m]] == f[..m + 1];
      PrefixIncreases(Indices(f[..m + 1]), Indices(f[..p]));
      NewFinished(s, f[..m], b);
    } else if Holding(s, f[..p]) {
      assert f[..p][p - 1] == f[m];
      CopyFinished(s, f[..p], b);
    } else {
      assert f[..p][p - 1] == f[m];
    }
  }

  lemma TickUnderway(s: State, f: seq<Shown>, p: nat, m: nat)
    requires p <= |f| && Underway(s, f, p, m)
    ensures Underway(Tick(s), f, p, m)
  {
    if Holding(s, f[..Min(m, p)]) {
      TickHolding(s, f[..Min(m, p)]);
    } else {
      TickPast(s, f[..p]);
    }
  }

  lemma NotFinishingUnderway(s: State, f: seq<Shown>, p: nat, m: nat, b: Block)
    requires p <= |f| && Underway(s, f, p, m) && !Finishing(s, b)
    ensures Underway(BlockAdded(s, b), f, p, m)
  {
    var r := BlockAdded(s, b);
    assert r.ready == s.ready && r.next == s.next && r.displayed == s.displayed;
  }

  lemma DeliveryUnderway(s: State, b: Block, f: seq<Shown>, p: nat, g: seq<Shown>)
    requires SettlesAt(f, p) && g + FinishedNext(s, b) <= f && Underway(s, f, p, |g|)
    requires InOrder(Indices(s.displayed), s.next)
    ensures Underway(BlockAdded(s, b), f, p, |g + FinishedNext(s, b)|)
  {
    if Finishing(s, b) {
      assert (g + FinishedNext(s, b))[|g|] == FinishedNext(s, b)[0];
      FinishUnderway(s, f, p, |g|, b);
    } else {
      NotFinishingUnderway(s, f, p, |g|, b);
    }
  }

  lemma {:induction false} SettledRun(run: seq<Label>, f: seq<Shown>, p: nat)
    requires SettlesAt(f, p) && FinishedBy(Deliveries(run)) <= f
    ensures Underway(Exec(INITIAL, run), f, p, |FinishedBy(Deliveries(run))|)
  {
    if run == [] {
      assert f[..0] == [];
    } else {
      var before, l := run[..|run| - 1], run[|run| - 1];
      match l
      case Deliver(b) =>
        FinishedAfter(before, b);
        SettledRun(before, f, p);
        DisplayOrder(before);
        DeliveryUnderway(Exec(INITIAL, before), b, f, p, FinishedBy(Deliveries(before)));
      case PlayTick =>
        assert Deliveries(run) == Deliveries(before);
        SettledRun(before, f, p);
        TickUnderway(Exec(INITIAL, before), f, p, |FinishedBy(Deliveries(before))|);
    }
  }

  lemma SettledEnd(run: seq<Label>, f: seq<Shown>, p: nat)
    requires SettlesAt(f, p) && FinishedBy(Deliveries(run)) == f
    ensures End(Exec(INITIAL, run)) == f[..p]
  {
    var s := Exec(INITIAL, run);
    SettledRun(run, f, p);
    if !Holding(s, f[..p]) && Fresh(s) {
      assert s.ready.Keys == {};
      assert s.displayed + [] == s.displayed;
    }
  }

  // ----- Deliveries whose outcome is not settled

  lemma {:induction false} ReadyIsLatest(w: seq<Block>)
    requires FinishedBy(w) != []
    ensures var x, m := FinishedBy(w)[|FinishedBy(w)| - 1], Delivered(w).ready;
            x.index in m && m[x.index] == x.nalu
  {
    var before, b := w[..|w| - 1], w[|w| - 1];
    assert before + [b] == w;
    DeliveredSnoc(before, b);
    FinishedSnoc(before, b);
    if !Finishing(Delivered(before), b) {
      assert FinishedBy(w) == FinishedBy(before);
      ReadyIsLatest(before);
    }
  }

  lemma ShownIn(x: Shown, d: seq<Shown>)
    requires x in d
    ensures x.index in Indices(d)
  {
    var k :| 0 <= k < |d| && d[k] == x;
    assert Indices(d)[k] == x.index;
  }

  lemma AscendingNumbers(m: map<U32, seq<Byte>>)
    ensures Increasing(Indices(Ascending(m)))
    ensures forall n :: n in m ==> n in Indices(Ascending(m))
  {
    AscendingExact(m);
    forall n | n in m ensures n in Indices(Ascending(m)) {
      ShownIn(Shown(n, m[n]), Ascending(m));
    }
  }

  /** Without rounds between the deliveries, the numbers finished are displayed once each in order. */
  lemma EndOfDelivered(w: seq<Block>)
    ensures End(Delivered(w)) == Ascending(Delivered(w).ready) && Increasing(Indices(End(Delivered(w))))
    ensures forall n :: n in Numbers(w) ==> n in Indices(End(Delivered(w)))
  {
    var m := Delivered(w).ready;
    assert End(Delivered(w)) == Ascending(m) by {
      DeliveredDisplaysNothing(w);
      assert [] + Ascending(m) == Ascending(m);
    }
    FinishedAreReady(w);
    AscendingNumbers(m);
  }

  /** The outcome of the run is not that of the deliveries without rounds between them. */
  ghost predicate EndsOtherwise(run: seq<Label>, w: seq<Block>) {
    Places(run, w) && End(Exec(INITIAL, run)) != End(Delivered(w))
  }

  lemma MaxEndsOtherwise(w: seq<Block>, k: nat) returns (run: seq<Label>)
    requires k + 1 < |Numbers(w)| && Numbers(w)[k] == U32_MAX
    ensures EndsOtherwise(run, w)
  {
    run := MaxReorders(w, k);
    EndOfDelivered(w);
    var s := Exec(INITIAL, run);
    if Increasing(Indices(End(s))) {
      PrefixIncreases(Indices(s.displayed), Indices(End(s)));
    }
  }

  /** When a number is finished behind another, a greater one finished at any time may be missed. */
  lemma GreaterMissed(w: seq<Block>, k: nat, n: U32) returns (run: seq<Label>)
    requires k + 1 < |Numbers(w)| && Numbers(w)[k + 1] <= Numbers(w)[k] && Numbers(w)[k + 1] < n
    requires n in Numbers(w)
    ensures EndsOtherwise(run, w)
  {
    run := BehindStalls(w, k);
    EndOfDelivered(w);
  }

  lemma NextPastShown(run: seq<Label>, n: U32)
    requires n in Indices(Exec(INITIAL, run).displayed) && NothingBeyond(Exec(INITIAL, run).displayed, n)
    requires n != U32_MAX
    ensures n < Exec(INITIAL, run).next
  {
    var d := Indices(Exec(INITIAL, run).displayed);
    DisplayOrder(run);
    assert d[|d| - 1] in d;
    assert forall i :: 0 <= i < |d| - 1 ==> d[i] in d;
    var k :| 0 <= k < |d| && d[k] == n;
    if k < |d| - 1 { ChainIncreases(d, k, |d| - 1); }
  }

  /** Drained before its next copy is finished, the greatest unit is displayed as it was finished. */
  lemma EarlierCopyShown(w: seq<Block>, k: nat) returns (run: seq<Label>)
    requires k + 1 < |Numbers(w)| && Numbers(w)[k + 1] == Numbers(w)[k] != U32_MAX
    requires forall n :: n in Numbers(w) ==> n <= Numbers(w)[k]
    ensures Places(run, w) && FinishedBy(w)[k] in End(Exec(INITIAL, run))
  {
    var i := DeliveryFinishing(w, k + 1);
    var v, x := w[..i], FinishedBy(w)[k];
    var m := Delivered(v).ready;
    var early := Drained(v);
    assert FinishedBy(v)[|FinishedBy(v)| - 1] == x;
    ReadyIsLatest(v);
    AscendingExact(m);
    assert x in Ascending(m);
    PrefixNumbers(w, v, k + 1);
    ReadyBounded(v, x.index);
    ShownIn(x, Ascending(m));
    NextPastShown(early, x.index);
    var late := early + [Deliver(w[i])];
    FinishingPassed(early, w, i);
    StalledStep(Exec(INITIAL, early), Deliver(w[i]));
    StalledCompleted(late, w);
    run := Completed(late, w);
  }

  lemma PrefixNumbers(w: seq<Block>, v: seq<Block>, m: nat)
    requires m <= |FinishedBy(w)| && FinishedBy(v) == FinishedBy(w)[..m]
    ensures forall n :: n in Numbers(v) ==> n in Numbers(w)
  {
    assert forall k :: 0 <= k < m ==> Numbers(v)[k] == Numbers(w)[k];
  }

  lemma ReadyBounded(v: seq<Block>, n: U32)
    requires forall j :: j in Numbers(v) ==> j <= n
    ensures NothingBeyond(Ascending(Delivered(v).ready), n)
  {
    var m := Delivered(v).ready;
    FinishedAreReady(v);
    AscendingExact(m);
    forall j | j in Indices(Ascending(m)) ensures j <= n {
      var k :| 0 <= k < |Ascending(m)| && Indices(Ascending(m))[k] == j;
      assert Ascending(m)[k] in Ascending(m);
    }
  }

  lemma CopyEndsOtherwise(w: seq<Block>, k: nat) returns (run: seq<Label>)
    requires k + 1 < |Numbers(w)| && Numbers(w)[k + 1] == Numbers(w)[k] != U32_MAX
    requires forall n :: n in Numbers(w) ==> n <= Numbers(w)[k]
    requires var last := FinishedBy(w)[|FinishedBy(w)| - 1];
             last.index == FinishedBy(w)[k].index && last != FinishedBy(w)[k]
    ensures EndsOtherwise(run, w)
  {
    run := EarlierCopyShown(w, k);
    EndOfDelivered(w);
    ReadyIsLatest(w);
    AscendingExact(Delivered(w).ready);
  }

  lemma {:induction false} FirstDescent(f: seq<U32>) returns (k: nat)
    requires !Increasing(f)
    ensures k + 1 < |f| && f[k + 1] <= f[k] && Increasing(f[..k + 1])
  {
    var last := |f| - 1;
    var g := f[..last];
    if Increasing(g) {
      k := last - 1;
      assert g + [f[last]] == f;
      if f[k] < f[last] { SnocIncreasesIff(g, f[last]); }
    } else {
      k := FirstDescent(g);
      assert g[..k + 1] == f[..k + 1];
    }
  }

  ghost predicate Descent(f: seq<U32>, i: nat) {
    i + 1 < |f| && f[i + 1] <= f[i]
  }

  /** No number is above one that was descended to. */
  ghost predicate Flat(f: seq<U32>) {
    forall i, h: nat :: Descent(f, i) && h < |f| ==> f[h] <= f[i + 1]
  }

  lemma {:induction false} FlatFrom(f: seq<U32>, k: nat, j: nat)
    requires k <= j < |f| && k + 1 < |f| && f[k + 1] <= f[k] && Flat(f)
    ensures f[j] == f[k] && forall h :: 0 <= h < |f| ==> f[h] <= f[k]
  {
    assert Descent(f, k);
    if j > k + 1 {
      FlatFrom(f, k, j - 1);
      assert Descent(f, j - 1);
    }
  }

  lemma FlatTail(f: seq<U32>) returns (k: nat)
    requires !Increasing(f) && Flat(f)
    ensures k + 1 < |f| && Increasing(f[..k + 1])
    ensures (forall j :: k <= j < |f| ==> f[j] == f[k]) && forall h :: 0 <= h < |f| ==> f[h] <= f[k]
  {
    k := FirstDescent(f);
    forall j | k <= j < |f| ensures f[j] == f[k] {
      FlatFrom(f, k, j);
    }
    FlatFrom(f, k, k);
  }

  lemma TailSettles(u: seq<Shown>, k: nat)
    requires k < |u| && Increasing(Indices(u)[..k + 1]) && u[k].index != U32_MAX
    requires forall j :: k < j < |u| ==> u[j] == u[k]
    ensures Settles(u)
  {
    assert Indices(u[..k + 1]) == Indices(u)[..k + 1];
    assert SettlesAt(u, k + 1);
  }

  /** Units that do not settle although their numbers are flat: some unit is finished again with the
      largest number, or last finished with other bytes. */
  lemma FlatCopies(u: seq<Shown>) returns (k: nat)
    requires !Settles(u) && Flat(Indices(u))
    ensures k + 1 < |u| && Indices(u)[k + 1] == Indices(u)[k] == Indices(u)[|u| - 1]
    ensures forall h :: 0 <= h < |u| ==> Indices(u)[h] <= Indices(u)[k]
    ensures Indices(u)[k] == U32_MAX || u[k] != u[|u| - 1]
  {
    assert SettlesAt(u, |u|) <==> Increasing(Indices(u)) by { assert u[..|u|] == u; }
    k := FlatTail(Indices(u));
    if Indices(u)[k] != U32_MAX && u[k] == u[|u| - 1] {
      if forall j :: k < j < |u| ==> u[j] == u[k] { TailSettles(u, k); }
      k :| k < |u| && Indices(u)[k] == Indices(u)[|u| - 1] && u[k] != u[|u| - 1];
    }
  }

  lemma NotFlat(f: seq<U32>) returns (i: nat, h: nat)
    requires !Flat(f)
    ensures i + 1 < |f| && f[i + 1] <= f[i] && h < |f| && f[i + 1] < f[h]
  {
    i, h :| Descent(f, i) && h < |f| && f[h] > f[i + 1];
  }

  lemma UnsettledEndsOtherwise(w: seq<Block>) returns (run: seq<Label>)
    requires !Settles(FinishedBy(w))
    ensures EndsOtherwise(run, w)
  {
    if Flat(Numbers(w)) {
      var k := FlatCopies(FinishedBy(w));
      run := FlatEndsOtherwise(w, k);
    } else {
      var i, h := NotFlat(Numbers(w));
      run := GreaterMissed(w, i, Numbers(w)[h]);
    }
  }

  lemma FlatEndsOtherwise(w: seq<Block>, k: nat) returns (run: seq<Label>)
    requires var f, u := Numbers(w), FinishedBy(w);
             && k + 1 < |f| && f[k + 1] == f[k] == f[|f| - 1]
             && (forall h :: 0 <= h < |f| ==> f[h] <= f[k])
             && (f[k] == U32_MAX || u[k] != u[|u| - 1])
    ensures EndsOtherwise(run, w)
  {
    if Numbers(w)[k] == U32_MAX {
      run := MaxEndsOtherwise(w, k);
    } else {
      run := CopyEndsOtherwise(w, k);
    }
  }

  // ----- When timing shows

  ghost predicate SameEnd(r: seq<Label>, q: seq<Label>) {
    End(Exec(INITIAL, r)) == End(Exec(INITIAL, q))
  }

  /** However rounds fall between the deliveries, the same is displayed in the end, if and only if units are
      finished in strictly increasing order, but for copies of the last one with the same bytes, of which
      there are none if its number is the largest. */
  lemma {:induction false} TimingInvisibleIff(w: seq<Block>)
    ensures (forall r, q :: Places(r, w) && Places(q, w) ==> SameEnd(r, q)) <==> Settles(FinishedBy(w))
  {
    if Settles(FinishedBy(w)) {
      var p :| SettlesAt(FinishedBy(w), p);
      forall r, q | Places(r, w) && Places(q, w) ensures SameEnd(r, q) {
        SettledEnd(r, FinishedBy(w), p);
        SettledEnd(q, FinishedBy(w), p);
      }
    } else {
      var q := DeliverAll(w);
      var r := UnsettledEndsOtherwise(w);
      DeliveredDisplaysNothing(w);
      assert Places(r, w) && Places(q, w) && !SameEnd(r, q);
    }
  }
}
