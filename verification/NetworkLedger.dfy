/** What becomes of datagrams: nothing is under way that was not sent or repeated, and nothing vanishes
    without being lost or arriving. */
module NetworkLedger {
  import opened Bytes
  import opened Fragmenter
  import opened Client
  import opened Pipeline
  import opened OrderlyNetwork

  /** The datagrams an action sends, repeats or loses. */
  function SentBy(sys: System, a: Action): seq<seq<Byte>> {
    if a.Send? && sys.unsent != [] then Datagrams([sys.unsent[0]]) else []
  }

  function RepeatedBy(sys: System, a: Action): seq<seq<Byte>> {
    if a.Repeat? && a.datagram in sys.network then [a.datagram] else []
  }

  function LostBy(sys: System, a: Action): seq<seq<Byte>> {
    if a.Lose? && a.datagram in sys.network then [a.datagram] else []
  }

  function ArrivedBy(sys: System, a: Action): seq<seq<Byte>> {
    if a.Arrive? && a.datagram in sys.network then [a.datagram] else []
  }

  /** The datagrams so treated in a run, in order. */
  function Collected(what: (System, Action) -> seq<seq<Byte>>, sys: System, actions: seq<Action>): seq<seq<Byte>> {
    if actions == [] then []
    else
      var before := actions[..|actions| - 1];
      Collected(what, sys, before) + what(Run(sys, before), actions[|actions| - 1])
  }

  lemma StepConserves(sys: System, a: Action)
    ensures Act(sys, a).network + multiset(ArrivedBy(sys, a)) + multiset(LostBy(sys, a))
         == sys.network + multiset(SentBy(sys, a)) + multiset(RepeatedBy(sys, a))
  {
  }

  lemma Ledger<T(!new)>(start: multiset<T>, mid: multiset<T>, end: multiset<T>, arrived: seq<T>, lost: seq<T>,
                  sent: seq<T>, repeated: seq<T>, a: seq<T>, l: seq<T>, s: seq<T>, r: seq<T>)
    requires mid + multiset(arrived) + multiset(lost) == start + multiset(sent) + multiset(repeated)
    requires end + multiset(a) + multiset(l) == mid + multiset(s) + multiset(r)
    ensures end + multiset(arrived + a) + multiset(lost + l) == start + multiset(sent + s) + multiset(repeated + r)
  {
    assert multiset(arrived + a) == multiset(arrived) + multiset(a);
    assert multiset(lost + l) == multiset(lost) + multiset(l);
    assert multiset(sent + s) == multiset(sent) + multiset(s);
    assert multiset(repeated + r) == multiset(repeated) + multiset(r);
    var left := end + multiset(arrived + a) + multiset(lost + l);
    var right := start + multiset(sent + s) + multiset(repeated + r);
    forall x ensures left[x] == right[x] {
      assert (mid + multiset(arrived) + multiset(lost))[x] == (start + multiset(sent) + multiset(repeated))[x];
      assert (end + multiset(a) + multiset(l))[x] == (mid + multiset(s) + multiset(r))[x];
    }
  }

  lemma ArrivalsStep(sys: System, actions: seq<Action>)
    requires actions != []
    ensures var before, a := actions[..|actions| - 1], actions[|actions| - 1];
            Arrivals(sys, actions) == Arrivals(sys, before) + ArrivedBy(Run(sys, before), a)
  {
  }

  /** Datagrams are conserved in every run: those still under way, arrived and lost are those under way at
      first, sent and repeated. */
  lemma {:induction false} NetworkConserves(sys: System, actions: seq<Action>)
    ensures Run(sys, actions).network
            + multiset(Arrivals(sys, actions)) + multiset(Collected(LostBy, sys, actions))
         == sys.network + multiset(Collected(SentBy, sys, actions)) + multiset(Collected(RepeatedBy, sys, actions))
  {
    if actions != [] {
      var before, a := actions[..|actions| - 1], actions[|actions| - 1];
      var r := Run(sys, before);
      NetworkConserves(sys, before);
      StepConserves(r, a);
      ArrivalsStep(sys, actions);
      Ledger(sys.network, r.network, Act(r, a).network, Arrivals(sys, before), Collected(LostBy, sys, before),
             Collected(SentBy, sys, before), Collected(RepeatedBy, sys, before),
             ArrivedBy(r, a), LostBy(r, a), SentBy(r, a), RepeatedBy(r, a));
    }
  }

  lemma {:induction false} DatagramsConcat(a: seq<Block>, b: seq<Block>)
    ensures Datagrams(a + b) == Datagrams(a) + Datagrams(b)
  {
    if b == [] {
      assert a + b == a;
    } else {
      var v, x := b[..|b| - 1], b[|b| - 1];
      assert a + b == (a + v) + [x] && b == v + [x];
      DatagramsConcat(a, v);
      DatagramsSnoc(a + v, x);
      DatagramsSnoc(v, x);
    }
  }

  lemma StepSends(sys: System, a: Action)
    ensures SentBy(sys, a) + Datagrams(Act(sys, a).unsent) == Datagrams(sys.unsent)
  {
    if a.Send? && sys.unsent != [] {
      assert sys.unsent == [sys.unsent[0]] + sys.unsent[1..];
      DatagramsConcat([sys.unsent[0]], sys.unsent[1..]);
    }
  }

  /** What was sent in a run and what is still to be sent are the client's datagrams, in order. */
  lemma {:induction false} SendsInOrder(sys: System, actions: seq<Action>)
    ensures Collected(SentBy, sys, actions) + Datagrams(Run(sys, actions).unsent) == Datagrams(sys.unsent)
  {
    if actions != [] {
      var before, a := actions[..|actions| - 1], actions[|actions| - 1];
      var r := Run(sys, before);
      SendsInOrder(sys, before);
      StepSends(r, a);
      Reassociate(Collected(SentBy, sys, before), SentBy(r, a), Datagrams(Act(r, a).unsent));
    }
  }
}
