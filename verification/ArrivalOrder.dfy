/** Conditions on the order of arrival that decide, whatever the timing, what is displayed. */
module ArrivalOrder {
  import opened Bytes
  import opened Fragmenter
  import opened Playback
  import opened Accounting
  import opened Playout
  import opened Reassembly
  import opened Delivery
  import opened Timing

  /** No block is delivered twice. */
  ghost predicate Once(w: seq<Block>) {
    forall j, k :: 0 <= j < k < |w| ==> w[j] != w[k]
  }

  lemma NotBefore(w: seq<Block>, i: nat, k: nat)
    requires Once(w) && i <= k < |w|
    ensures w[k] !in w[..i]
  {
    forall j | 0 <= j < i ensures w[..i][j] != w[k] {
      assert w[j] != w[k];
    }
  }

  lemma MissingUncovers(nalus: seq<seq<Byte>>, v: seq<Block>, b: Block)
    requires Sendable(nalus) && Authentic(nalus, b) && b !in v
    ensures !Covered(nalus, v, b.naluIndex)
  {
    assert !Arrived(nalus, v, b.naluIndex, b.blockIndex);
  }

  /** A block not delivered before finishes its unit exactly when it was the only one missing. */
  lemma FinishesIffCovers(nalus: seq<seq<Byte>>, w: seq<Block>, i: nat)
    requires Sendable(nalus) && AllAuthentic(nalus, w) && Once(w) && i < |w|
    ensures w[i].naluIndex < |nalus|
    ensures Finishing(Delivered(w[..i]), w[i]) <==> Covered(nalus, w[..i + 1], w[i].naluIndex)
  {
    var v, b := w[..i], w[i];
    assert b in w;
    assert AllAuthentic(nalus, v) by { assert forall x :: x in v ==> x in w; }
    DeliveredRun(nalus, v);
    assert Tracks(nalus, v, Delivered(v), b.naluIndex);
    NotBefore(w, i, i);
    MissingUncovers(nalus, v, b);
    UncoveredFill(nalus, v, Delivered(v), b);
    assert v + [b] == w[..i + 1];
  }

  /** Of two units finished, the earlier one was finished by an earlier delivery. */
  lemma TwoFinishes(w: seq<Block>, j: nat, k: nat) returns (h: nat, i: nat)
    requires j < k < |Numbers(w)|
    ensures h < i < |w| && Finishing(Delivered(w[..h]), w[h]) && Finishing(Delivered(w[..i]), w[i])
    ensures w[h].naluIndex == Numbers(w)[j] && w[i].naluIndex == Numbers(w)[k]
  {
    i := DeliveryFinishing(w, k);
    assert FinishedBy(w[..i])[j] == FinishedBy(w)[j];
    h := DeliveryFinishing(w[..i], j);
    assert w[..i][..h] == w[..h] && w[..i][h] == w[h];
  }

  // ----- Blocks in order, some perhaps missing

  lemma IncreasingOnce(w: seq<Block>)
    requires LexIncreasing(w)
    ensures Once(w)
  {
    forall j, k | 0 <= j < k < |w| ensures w[j] != w[k] {
      assert LexBefore(w[j], w[k]);
    }
  }

  lemma FinishedLater(nalus: seq<seq<Byte>>, w: seq<Block>, h: nat, i: nat)
    requires Sendable(nalus) && AllAuthentic(nalus, w) && LexIncreasing(w) && h < i < |w|
    requires Finishing(Delivered(w[..h]), w[h])
    ensures w[h].naluIndex < w[i].naluIndex
  {
    IncreasingOnce(w);
    FinishesIffCovers(nalus, w, h);
    NotBefore(w, h + 1, i);
    assert w[i] in w;
    MissingUncovers(nalus, w[..h + 1], w[i]);
    assert LexBefore(w[h], w[i]);
  }

  /** Blocks delivered in the order of sending, each at most once, finish units in increasing order. */
  lemma InOrderFinishes(nalus: seq<seq<Byte>>, w: seq<Block>)
    requires Sendable(nalus) && AllAuthentic(nalus, w) && LexIncreasing(w)
    ensures Increasing(Numbers(w))
  {
    var f := Numbers(w);
    forall j, k | 0 <= j < k < |f| ensures f[j] < f[k] {
      var h, i := TwoFinishes(w, j, k);
      FinishedLater(nalus, w, h, i);
    }
  }

  // ----- Every block once, in any order

  /** The place of the last delivered block of unit `n`, or -1. */
  function LastAt(w: seq<Block>, n: nat): (i: int)
    ensures -1 <= i < |w| && (i >= 0 ==> w[i].naluIndex == n)
    ensures forall k :: i < k < |w| ==> w[k].naluIndex != n
  {
    if w == [] then -1
    else if w[|w| - 1].naluIndex == n then |w| - 1
    else LastAt(w[..|w| - 1], n)
  }

  lemma LastCovers(nalus: seq<seq<Byte>>, w: seq<Block>, n: nat, v: seq<Block>)
    requires Sendable(nalus) && CoversAll(nalus, w) && n < |nalus| && v == w[..LastAt(w, n) + 1]
    ensures Covered(nalus, v, n)
  {
    AllCovered(nalus, w, n);
    forall j | 0 <= j < BlockCount(nalus[n]) ensures Arrived(nalus, v, n, j) {
      assert Arrived(nalus, w, n, j);
      var k :| 0 <= k < |w| && w[k] == TrueBlock(nalus, n, j);
      assert v[k] == w[k];
    }
  }

  /** A unit is finished by the last of its blocks to arrive. */
  lemma {:induction false} FinishesIffLast(nalus: seq<seq<Byte>>, w: seq<Block>, i: nat)
    requires Sendable(nalus) && CoversAll(nalus, w) && Once(w) && i < |w|
    ensures Finishing(Delivered(w[..i]), w[i]) <==> LastAt(w, w[i].naluIndex) == i
  {
    var n := w[i].naluIndex;
    var l := LastAt(w, n);
    FinishesIffCovers(nalus, w, i);
    if l == i {
      LastCovers(nalus, w, n, w[..i + 1]);
    } else {
      NotBefore(w, i + 1, l);
      assert w[l] in w;
      MissingUncovers(nalus, w[..i + 1], w[l]);
    }
  }

  lemma LastExists(nalus: seq<seq<Byte>>, w: seq<Block>, n: nat)
    requires Sendable(nalus) && CoversAll(nalus, w) && n < |nalus|
    ensures LastAt(w, n) >= 0
  {
    assert |TrueBlocks(nalus, n)| >= 1;
    assert Authentic(nalus, TrueBlock(nalus, n, 0));
  }

  /** For any two units, the last block of the lower one arrives before the last block of the higher one. */
  ghost predicate LastsInOrder(w: seq<Block>, count: nat) {
    forall m, n :: 0 <= m < n < count ==> LastAt(w, m) < LastAt(w, n)
  }

  lemma LastsInOrderFinish(nalus: seq<seq<Byte>>, w: seq<Block>)
    requires Sendable(nalus) && CoversAll(nalus, w) && Once(w) && LastsInOrder(w, |nalus|)
    ensures Increasing(Numbers(w))
  {
    var f := Numbers(w);
    forall j, k | 0 <= j < k < |f| ensures f[j] < f[k] {
      var h, i := TwoFinishes(w, j, k);
      FinishesIffLast(nalus, w, h);
      FinishesIffLast(nalus, w, i);
      assert w[h] in w && w[i] in w;
    }
  }

  lemma {:induction false} FinishedGrows(w: seq<Block>, i: nat)
    requires i <= |w|
    ensures FinishedBy(w[..i]) <= FinishedBy(w)
  {
    if i < |w| {
      var last := |w| - 1;
      var before := w[..last];
      FinishedGrows(before, i);
      assert before[..i] == w[..i];
      assert FinishedBy(w) == FinishedBy(before) + FinishedNext(Delivered(before), w[last]);
    } else {
      assert w[..i] == w;
    }
  }

  /** The position of unit `n` among those finished. */
  lemma FinishedAtLast(nalus: seq<seq<Byte>>, w: seq<Block>, n: nat)
    requires Sendable(nalus) && CoversAll(nalus, w) && Once(w) && n < |nalus|
    ensures LastAt(w, n) >= 0
    ensures var k := |FinishedBy(w[..LastAt(w, n)])|; k < |Numbers(w)| && Numbers(w)[k] == n
  {
    LastExists(nalus, w, n);
    var i := LastAt(w, n);
    FinishesIffLast(nalus, w, i);
    var v := w[..i];
    assert v + [w[i]] == w[..i + 1];
    FinishedSnoc(v, w[i]);
    FinishedGrows(w, i + 1);
    assert FinishedBy(w)[|FinishedBy(v)|] == FinishedNext(Delivered(v), w[i])[0];
  }

  lemma {:induction false} InTurnMonotone(f: seq<U32>, c: nat, j: nat, k: nat)
    requires InTurn(f, c) && Below(f, c) && j <= k < |f|
    ensures f[j] <= f[k]
    decreases k
  {
    if j < k {
      InTurnMonotone(f, c, j, k - 1);
      assert f[k - 1] < f[(k - 1) + 1] || (f[(k - 1) + 1] as int) == c - 1;
    }
  }

  lemma FinishedCounts(w: seq<Block>, h: nat, i: nat)
    requires h <= i <= |w|
    ensures |FinishedBy(w[..h])| <= |FinishedBy(w[..i])|
  {
    assert w[..i][..h] == w[..h];
    FinishedGrows(w[..i], h);
  }

  lemma FinishInLastsOrder(nalus: seq<seq<Byte>>, w: seq<Block>, m: nat, n: nat)
    requires Sendable(nalus) && CoversAll(nalus, w) && Once(w) && m < n < |nalus|
    requires InTurn(Numbers(w), |nalus|)
    ensures LastAt(w, m) < LastAt(w, n)
  {
    FinishedAtLast(nalus, w, m);
    FinishedAtLast(nalus, w, n);
    var i, h := LastAt(w, m), LastAt(w, n);
    if h <= i {
      NumbersBelow(nalus, w);
      FinishedCounts(w, h, i);
      var a, b := |FinishedBy(w[..h])|, |FinishedBy(w[..i])|;
      InTurnMonotone(Numbers(w), |nalus|, a, b);
    }
  }

  /** When every block of a transmission arrives exactly once, in any order, then playing on displays all of
      it in order, however rounds fall between the deliveries, if and only if the last blocks of the units
      arrive in the order of the units. */
  lemma LastsInOrderIff(nalus: seq<seq<Byte>>, w: seq<Block>)
    requires Sendable(nalus) && CoversAll(nalus, w) && Once(w)
    ensures (forall run :: Places(run, w) ==> CanShow(Exec(INITIAL, run), ShownUpTo(nalus, |nalus|)))
       <==> LastsInOrder(w, |nalus|)
  {
    AlwaysDeliveredIff(nalus, w);
    if LastsInOrder(w, |nalus|) {
      LastsInOrderFinish(nalus, w);
    }
    if InTurn(Numbers(w), |nalus|) {
      forall m, n | 0 <= m < n < |nalus| ensures LastAt(w, m) < LastAt(w, n) {
        FinishInLastsOrder(nalus, w, m, n);
      }
    }
  }
}
