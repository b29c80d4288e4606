/** What reaches the display when blocks may be lost, repeated and reordered while playing goes on. */
module Delivery {
  import opened Bytes
  import opened Fragmenter
  import opened Playback
  import opened Accounting
  import opened Playout
  import opened Reassembly

  /** The first `n` units as they are displayed. */
  function ShownUpTo(nalus: seq<seq<Byte>>, n: nat): (r: seq<Shown>)
    requires Sendable(nalus) && n <= |nalus|
    ensures |r| == n && forall k :: 0 <= k < n ==> r[k] == Shown(k, nalus[k])
  {
    seq(n, k requires 0 <= k < n => Shown(k, nalus[k]))
  }

  /** The bytes of displayed units. */
  function NaluBytes(d: seq<Shown>): (r: seq<seq<Byte>>)
    ensures |r| == |d| && forall k :: 0 <= k < |d| ==> r[k] == d[k].nalu
  {
    seq(|d|, k requires 0 <= k < |d| => d[k].nalu)
  }

  /** With 32-bit numbers sufficient for all units, display order is increasing and below `next`. */
  lemma {:induction false} AuthenticDisplayIncreases(nalus: seq<seq<Byte>>, run: seq<Label>)
    requires Sendable(nalus) && AllAuthentic(nalus, Deliveries(run))
    ensures var s := Exec(INITIAL, run);
            && Increasing(Indices(s.displayed))
            && forall n :: n in Indices(s.displayed) ==> n < |nalus| && n < s.next
  {
    AuthenticRun(nalus, run);
    DisplayIncreasesIff(run);
    DisplayOrder(run);
    var s := Exec(INITIAL, run);
    var d := Indices(s.displayed);
    assert forall k :: 0 <= k < |d| ==> d[k] == s.displayed[k].index < |nalus|;
    if d != [] {
      assert d[|d| - 1] < s.next;
      assert forall k :: 0 <= k < |d| - 1 ==> d[k] < d[|d| - 1];
    }
  }

  /** A round that skips passes over no unit all of whose blocks have been delivered, and a round that
      displays shows such a unit. */
  lemma {:induction false} SkipsOnlyIncomplete(nalus: seq<seq<Byte>>, run: seq<Label>, n: nat)
    requires Sendable(nalus) && AllAuthentic(nalus, Deliveries(run)) && n < |nalus|
    requires Exec(INITIAL, run).next <= n < Tick(Exec(INITIAL, run)).next
    ensures Covered(nalus, Deliveries(run), n) <==> Due(Exec(INITIAL, run))
  {
    var s := Exec(INITIAL, run);
    AuthenticRun(nalus, run);
    AuthenticDisplayIncreases(nalus, run);
    assert Tracks(nalus, Deliveries(run), s, n);
    assert n !in Indices(s.displayed);
    assert n in s.ready ==> First(s.ready) <= n;
  }

  lemma {:induction false} IncreasingAtLeast(d: seq<U32>, k: nat)
    requires Increasing(d) && k < |d|
    ensures d[k] >= k
  {
    if k > 0 {
      IncreasingAtLeast(d, k - 1);
      assert d[k - 1] < d[k];
    }
  }

  lemma {:induction false} IncreasingExactly(d: seq<U32>, n: nat, k: U32)
    requires Increasing(d) && k < n && forall i: U32 :: i < n ==> i in d
    ensures k < |d| && d[k] == k
    decreases k
  {
    assert k in d;
    var p :| 0 <= p < |d| && d[p] == k;
    IncreasingAtLeast(d, p);
    if p < k { IncreasingExactly(d, n, p); }
  }

  /** Displayed numbers that increase and are exactly those below `n` are 0, 1, ..., n - 1. */
  lemma IncreasingIsAll(nalus: seq<seq<Byte>>, shown: seq<Shown>)
    requires Sendable(nalus) && Increasing(Indices(shown)) && TrueDisplay(nalus, shown)
    requires forall i: U32 :: i < |nalus| ==> i in Indices(shown)
    ensures shown == ShownUpTo(nalus, |nalus|)
  {
    var d := Indices(shown);
    forall k | 0 <= k < |nalus| ensures k < |shown| && shown[k] == Shown(k, nalus[k]) {
      IncreasingExactly(d, |nalus|, k);
    }
    if |nalus| > 0 { IncreasingExactly(d, |nalus|, |nalus| - 1); }
    if |shown| > |nalus| {
      assert shown[|nalus|].index < |nalus|;
      IncreasingAtLeast(d, |nalus|);
    }
    assert |shown| == |nalus|;
  }

  /** Every block of the transmission was delivered, and nothing else was. */
  ghost predicate CoversAll(nalus: seq<seq<Byte>>, w: seq<Block>)
    requires Sendable(nalus)
  {
    forall b :: b in w <==> Authentic(nalus, b)
  }

  lemma AllCovered(nalus: seq<seq<Byte>>, w: seq<Block>, n: nat)
    requires Sendable(nalus) && CoversAll(nalus, w) && n < |nalus|
    ensures Covered(nalus, w, n)
  {
    forall i | 0 <= i < BlockCount(nalus[n]) ensures Arrived(nalus, w, n, i) {
      assert Authentic(nalus, TrueBlock(nalus, n, i));
    }
  }

  /** With nothing ready and every block delivered, everything was displayed. */
  lemma {:induction false} NothingReadyAllShown(nalus: seq<seq<Byte>>, run: seq<Label>)
    requires Sendable(nalus) && CoversAll(nalus, Deliveries(run))
    requires Exec(INITIAL, run).ready == map[]
    ensures Exec(INITIAL, run).displayed == ShownUpTo(nalus, |nalus|)
  {
    var w, s := Deliveries(run), Exec(INITIAL, run);
    AuthenticRun(nalus, run);
    AuthenticDisplayIncreases(nalus, run);
    forall n: U32 | n < |nalus| ensures n in Indices(s.displayed) {
      assert Tracks(nalus, w, s, n);
      AllCovered(nalus, w, n);
    }
    IncreasingIsAll(nalus, s.displayed);
  }

  /** Once every block has been delivered at least once, in any order, with any repetitions and with any
      rounds in between, further rounds will have displayed the whole transmission in order if and only
      if no ready unit is stale or everything has been displayed already. */
  lemma {:induction false} DeliveryIff(nalus: seq<seq<Byte>>, run: seq<Label>)
    requires Sendable(nalus) && CoversAll(nalus, Deliveries(run))
    ensures var s, all := Exec(INITIAL, run), ShownUpTo(nalus, |nalus|);
            (exists t: nat :: Ticks(s, t).displayed == all) <==> Fresh(s) || s.displayed == all
  {
    var s, all := Exec(INITIAL, run), ShownUpTo(nalus, |nalus|);
    if Fresh(s) {
      var t := RoundsNeeded(s.ready, s.next);
      PlayoutProgress(s, t);
      RoundsAfter(run, t);
      NothingReadyAllShown(nalus, run + Rounds(t));
      assert Ticks(s, t).displayed == all;
    } else if s.displayed == all {
      assert Ticks(s, 0) == s;
      assert Ticks(s, 0).displayed == all;
    } else {
      forall t: nat ensures Ticks(s, t).displayed != all {
        StalledForEver(s, Rounds(t));
        ExecRounds(s, t);
      }
    }
  }
}
