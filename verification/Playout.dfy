/** Progress of playout while nothing arrives, and exactly when playout stops for ever. */
module Playout {
  import opened Bytes
  import opened Fragmenter
  import opened Playback

  /** No ready unit lies behind the one to be displayed next. */
  ghost predicate Fresh(s: State) {
    forall k :: k in s.ready ==> s.next <= k
  }

  /** The ready units in ascending order. */
  function Ascending(ready: map<U32, seq<Byte>>): seq<Shown>
    decreases |ready|
  {
    if ready == map[] then []
    else
      var k := First(ready);
      assert (ready - {k}).Keys == ready.Keys - {k};
      [Shown(k, ready[k])] + Ascending(ready - {k})
  }

  /** Rounds needed to display all ready units: one each, and one more at each gap. */
  function RoundsNeeded(ready: map<U32, seq<Byte>>, next: nat): (t: nat)
    ensures |ready| <= t <= 2 * |ready|
    decreases |ready|
  {
    if ready == map[] then 0
    else
      var k := First(ready);
      assert (ready - {k}).Keys == ready.Keys - {k};
      (if k == next then 1 else 2) + RoundsNeeded(ready - {k}, k + 1)
  }

  lemma AscendingCons(ready: map<U32, seq<Byte>>, k: U32, rest: map<U32, seq<Byte>>, next: nat)
    requires k in ready && (forall j :: j in ready ==> k <= j) && rest == ready - {k}
    ensures Ascending(ready) == [Shown(k, ready[k])] + Ascending(rest)
    ensures RoundsNeeded(ready, next) == (if k == next then 1 else 2) + RoundsNeeded(rest, (k as int) + 1)
    ensures |ready| == |rest| + 1
  {
    assert First(ready) == k;
    assert rest.Keys == ready.Keys - {k};
  }

  lemma {:induction false} AscendingExact(ready: map<U32, seq<Byte>>)
    ensures var d := Ascending(ready);
            && |d| == |ready|
            && (forall j, k :: 0 <= j < k < |d| ==> d[j].index < d[k].index)
            && (forall x :: x in d <==> x.index in ready && ready[x.index] == x.nalu)
    decreases |ready|
  {
    if ready != map[] {
      var k := First(ready);
      var rest := ready - {k};
      assert rest.Keys == ready.Keys - {k};
      AscendingExact(rest);
      var d, e := Ascending(ready), Ascending(rest);
      forall j, i | 0 <= j < i < |d| ensures d[j].index < d[i].index {
        assert d[i] == e[i - 1] && e[i - 1] in e;
        if j > 0 { assert d[j] == e[j - 1]; }
      }
    }
  }

  lemma {:induction false} IdleRounds(s: State, t: nat)
    requires s.ready == map[]
    ensures Ticks(s, t) == s
    decreases t
  {
    if t > 0 { IdleRounds(s, t - 1); }
  }

  lemma {:induction false} TicksAdd(s: State, a: nat, b: nat)
    ensures Ticks(s, a + b) == Ticks(Ticks(s, a), b)
    decreases a
  {
    if a > 0 { TicksAdd(Tick(s), a - 1, b); }
  }

  /** The state once the first ready unit has been displayed. */
  lemma FirstDisplayed(s: State)
    requires Fresh(s) && s.ready != map[]
    ensures var k := First(s.ready);
            var t := if k == s.next then 1 else 2;
            var s' := Ticks(s, t);
            && Fresh(s') && s'.ready == s.ready - {k} && (k == U32_MAX ==> s'.ready == map[])
            && (k < U32_MAX ==> s'.next == k + 1)
            && s'.displayed == s.displayed + [Shown(k, s.ready[k])]
            && s'.counters.skippedNalus == s.counters.skippedNalus + t - 1
    ensures First(s.ready) != s.next ==> Ticks(s, 1).ready == s.ready
  {
    var k := First(s.ready);
    var r := if k == s.next then s else Tick(s);
    assert Due(r) && r.ready == s.ready && r.next == k;
    var s' := Tick(r);
    assert Ticks(s', 0) == s' && Ticks(r, 1) == s';
    if k != s.next { assert Ticks(s, 2) == Ticks(Tick(s), 1) && Ticks(s, 1) == Ticks(Tick(s), 0); }
    forall j | j in s'.ready ensures k < j {
      assert j in s.ready && j != k;
    }
    if k == U32_MAX { assert s'.ready.Keys == {}; }
  }

  /** `r`, reached from `s` in `t` rounds, has displayed all ready units in ascending order exactly if
      the rounds needed have passed, with one skip for each gap. */
  ghost predicate PlayedOut(s: State, t: nat, r: State) {
    var needed := RoundsNeeded(s.ready, s.next);
    && (r.ready == map[] <==> t >= needed)
    && (t >= needed ==>
          && r.displayed == s.displayed + Ascending(s.ready)
          && r.counters.skippedNalus == s.counters.skippedNalus + needed - |s.ready|)
  }

  lemma PlayedOutStep(s: State, s': State, c: nat, t: nat, r: State)
    requires s.ready != map[]
    requires var k := First(s.ready);
             && c == (if k == s.next then 1 else 2)
             && s'.ready == s.ready - {k} && (k == U32_MAX ==> s'.ready == map[])
             && (k < U32_MAX ==> s'.next == k + 1)
             && s'.displayed == s.displayed + [Shown(k, s.ready[k])]
             && s'.counters.skippedNalus == s.counters.skippedNalus + c - 1
    requires t >= c && PlayedOut(s', t - c, r)
    ensures PlayedOut(s, t, r)
  {
    var k := First(s.ready);
    assert (s.ready - {k}).Keys == s.ready.Keys - {k};
    assert RoundsNeeded(s'.ready, s'.next) == RoundsNeeded(s.ready - {k}, (k as int) + 1);
    assert Ascending(s.ready) == [Shown(k, s.ready[k])] + Ascending(s'.ready);
  }

  lemma NotPlayedOutYet(s: State, t: nat)
    requires Fresh(s) && s.ready != map[] && t < if First(s.ready) == s.next then 1 else 2
    ensures PlayedOut(s, t, Ticks(s, t))
  {
    FirstDisplayed(s);
    AscendingCons(s.ready, First(s.ready), s.ready - {First(s.ready)}, s.next);
    assert t == 0 ==> Ticks(s, t) == s;
  }

  /** With deliveries paused and no stale unit, the ready units are displayed in ascending order, in
      exactly the rounds needed and not one fewer. */
  lemma {:induction false} PlayoutProgress(s: State, t: nat)
    requires Fresh(s)
    ensures PlayedOut(s, t, Ticks(s, t))
    decreases |s.ready|
  {
    if s.ready == map[] {
      IdleRounds(s, t);
    } else {
      var k := First(s.ready);
      var c := if k == s.next then 1 else 2;
      if t < c {
        NotPlayedOutYet(s, t);
      } else {
        FirstDisplayed(s);
        var s' := Ticks(s, c);
        assert Ticks(s, t) == Ticks(s', t - c) by { TicksAdd(s, c, t - c); }
        assert |s'.ready| < |s.ready| by { assert s'.ready.Keys == s.ready.Keys - {k}; }
        PlayoutProgress(s', t - c);
        PlayedOutStep(s, s', c, t, Ticks(s, t));
      }
    }
  }

  // ----- Stalling

  /** A stale unit stays at the front for ever: whatever arrives later and however long the player
      runs, nothing is displayed and nothing is skipped any more. */
  lemma {:induction false} StalledForEver(s: State, run: seq<Label>)
    requires !Fresh(s)
    ensures var s' := Exec(s, run);
            && !Fresh(s') && s'.next == s.next && s'.displayed == s.displayed
            && s'.counters.skippedNalus == s.counters.skippedNalus
            && s.ready.Keys <= s'.ready.Keys
  {
    if run != [] {
      StalledForEver(s, run[..|run| - 1]);
      var r := Exec(s, run[..|run| - 1]);
      var k :| k in s.ready && k < s.next;
      assert k in r.ready && First(r.ready) <= k;
      assert k in Exec(s, run).ready;
    }
  }

  function Rounds(t: nat): (run: seq<Label>)
    ensures |run| == t && forall i :: 0 <= i < t ==> run[i] == PlayTick
  {
    seq(t, _ => PlayTick)
  }

  lemma TicksSnoc(s: State, t: nat)
    ensures Ticks(s, t + 1) == Tick(Ticks(s, t))
  {
    TicksAdd(s, t, 1);
    assert Ticks(Ticks(s, t), 1) == Ticks(Tick(Ticks(s, t)), 0);
  }

  lemma {:induction false} ExecRounds(s: State, t: nat)
    ensures Exec(s, Rounds(t)) == Ticks(s, t)
  {
    if t > 0 {
      ExecRounds(s, t - 1);
      assert Rounds(t)[..t - 1] == Rounds(t - 1);
      TicksSnoc(s, t - 1);
    }
  }

  lemma {:induction false} RoundsDeliverNothing(t: nat)
    ensures Deliveries(Rounds(t)) == []
  {
    if t > 0 {
      RoundsDeliverNothing(t - 1);
      assert Rounds(t)[..t - 1] == Rounds(t - 1);
    }
  }

  lemma RoundsAfter(run: seq<Label>, t: nat)
    ensures Exec(INITIAL, run + Rounds(t)) == Ticks(Exec(INITIAL, run), t)
    ensures Deliveries(run + Rounds(t)) == Deliveries(run)
  {
    ExecConcat(INITIAL, run, Rounds(t));
    DeliveriesConcat(run, Rounds(t));
    ExecRounds(Exec(INITIAL, run), t);
    RoundsDeliverNothing(t);
  }

  /** Exactly when playout can reach the end of what is ready. */
  lemma DrainsIff(s: State)
    ensures (exists t: nat :: Ticks(s, t).ready == map[]) <==> Fresh(s)
  {
    if Fresh(s) {
      var t := RoundsNeeded(s.ready, s.next);
      PlayoutProgress(s, t);
      assert Ticks(s, t).ready == map[];
    } else {
      forall t: nat ensures Ticks(s, t).ready != map[] {
        StalledForEver(s, Rounds(t));
        ExecRounds(s, t);
      }
    }
  }

  /** Exactly when anything ready will ever be followed by a display, over all runs. */
  lemma PlayoutLivesIff(s: State)
    requires s.ready != map[]
    ensures (exists run :: Exec(s, run).displayed != s.displayed) <==> Fresh(s)
  {
    if Fresh(s) {
      var t := RoundsNeeded(s.ready, s.next);
      PlayoutProgress(s, t);
      ExecRounds(s, t);
      assert |Ascending(s.ready)| > 0;
      assert Exec(s, Rounds(t)).displayed != s.displayed;
    } else {
      forall run ensures Exec(s, run).displayed == s.displayed {
        StalledForEver(s, run);
      }
    }
  }

  /** The step finishes a unit that playout has passed already. */
  ghost predicate FinishesPassed(s: State, l: Label) {
    l.Deliver? && l.block.naluIndex < s.next && Finishing(s, l.block)
  }

  /** A step makes a unit stale exactly when it finishes one that playout has passed already. */
  lemma StalenessArisesIff(s: State, l: Label)
    requires Fresh(s)
    ensures !Fresh(Step(s, l)) <==> FinishesPassed(s, l)
  {
    if l.PlayTick? && s.ready != map[] {
      var k := First(s.ready);
      forall j | j in Tick(s).ready ensures Tick(s).next <= j {
        assert j in s.ready && k <= j;
      }
    }
    if l.Deliver? {
      var s' := Step(s, l);
      assert forall j :: j in s'.ready ==> j in s.ready || j == l.block.naluIndex;
      if Finishing(s, l.block) {
        assert l.block.naluIndex in s'.ready;
      } else {
        assert s'.ready == s.ready;
      }
    }
  }

  /** Step `k` of the run finished a unit passed by then. */
  ghost predicate PassedAt(run: seq<Label>, k: nat) {
    k < |run| && FinishesPassed(Exec(INITIAL, run[..k]), run[k])
  }

  lemma PassedInPrefix(run: seq<Label>, n: nat, k: nat)
    requires k < n <= |run|
    ensures PassedAt(run[..n], k) <==> PassedAt(run, k)
  {
    assert run[..n][..k] == run[..k];
  }

  lemma StalledStep(s: State, l: Label)
    ensures !Fresh(Step(s, l)) <==> !Fresh(s) || FinishesPassed(s, l)
  {
    if Fresh(s) {
      StalenessArisesIff(s, l);
    } else {
      StalledForEver(s, [l]);
      ExecSnoc(s, [], l);
      assert [] + [l] == [l];
    }
  }

  /** A run has stalled exactly when one of its steps finished a unit passed by then. */
  lemma {:induction false} StalledIff(run: seq<Label>)
    ensures !Fresh(Exec(INITIAL, run)) <==> exists k :: PassedAt(run, k)
  {
    if run != [] {
      var before, last := run[..|run| - 1], |run| - 1;
      StalledIff(before);
      StalledStep(Exec(INITIAL, before), run[last]);
      forall k: nat | k < last ensures PassedAt(before, k) <==> PassedAt(run, k) {
        PassedInPrefix(run, last, k);
      }
      assert PassedAt(run, last) <==> FinishesPassed(Exec(INITIAL, before), run[last]);
      assert (exists k :: PassedAt(run, k)) <==> (exists k :: PassedAt(before, k)) || PassedAt(run, last);
    }
  }

  /** Reordering by one place is enough: when unit 1 is skipped to before the only block of unit 0
      arrives, no later run displays anything. */
  lemma LateUnitStalls(x: seq<Byte>, y: seq<Byte>, run: seq<Label>)
    ensures var late := [Deliver(Block(0, 1, 1, x)), PlayTick, Deliver(Block(0, 0, 1, y))];
            Exec(Exec(INITIAL, late), run).displayed == []
  {
    var b, c := Block(0, 1, 1, x), Block(0, 0, 1, y);
    var late := [Deliver(b), PlayTick, Deliver(c)];
    var s1 := BlockAdded(INITIAL, b);
    assert late[..2] == [Deliver(b), PlayTick] && late[..2][..1] == [Deliver(b)] && [Deliver(b)][..0] == [];
    assert Complete(Filled(INITIAL, b)) && s1.ready.Keys == {1} && First(s1.ready) == 1;
    var s2 := Tick(s1);
    assert s2.next == 1 && Complete(Filled(s2, c));
    var s3 := BlockAdded(s2, c);
    assert 0 in s3.ready && s3.displayed == [];
    assert Exec(INITIAL, []) == INITIAL && Exec(INITIAL, [Deliver(b)]) == s1;
    assert Exec(INITIAL, late[..2]) == s2 && Exec(INITIAL, late) == s3;
    StalledForEver(s3, run);
  }
}
