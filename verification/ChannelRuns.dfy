/** The queue of unsolicited responses under every interleaving of the one session that fills it,
    which first checks for room and then sends, with any number of receivers. */
module ChannelRuns {
  import opened Wrappers
  import opened Responses
  import opened Channels

  /** What happens next: the session checks whether `u` fits, sends what it has checked, or some
      receiver takes the oldest element. */
  datatype Action = Check(u: Unsolicited) | Send | Receive

  /** `pending` has passed the check and is not yet sent; `admitted` says of each element offered
      whether it passed. */
  datatype Net = Net(
    offered: seq<Unsolicited>,
    admitted: seq<bool>,
    pending: Option<Unsolicited>,
    queue: seq<Unsolicited>,
    received: seq<Unsolicited>,
    dropped: nat)

  const EMPTY: Net := Net([], [], None, [], [], 0)

  predicate Full(net: Net) {
    |net.queue| >= CAPACITY
  }

  /** An action that is not possible changes nothing.  Sending is not possible while the queue is
      full: it would wait. */
  function Act(net: Net, a: Action): Net {
    match a
    case Check(u) =>
      if net.pending.Some? then net
      else if Full(net) then
        net.(offered := net.offered + [u], admitted := net.admitted + [false], dropped := net.dropped + 1)
      else net.(offered := net.offered + [u], admitted := net.admitted + [true], pending := Some(u))
    case Send =>
      if net.pending.Some? && !Full(net) then net.(queue := net.queue + [net.pending.value], pending := None)
      else net
    case Receive =>
      if net.queue != [] then net.(received := net.received + [net.queue[0]], queue := net.queue[1..]) else net
  }

  function Acts(net: Net, actions: seq<Action>): Net {
    if actions == [] then net else Act(Acts(net, actions[..|actions| - 1]), actions[|actions| - 1])
  }

  /** The elements that passed the check, in order. */
  function Admitted(offered: seq<Unsolicited>, admitted: seq<bool>): seq<Unsolicited>
    requires |offered| == |admitted|
  {
    if offered == [] then []
    else
      var last := |offered| - 1;
      Admitted(offered[..last], admitted[..last]) + (if admitted[last] then [offered[last]] else [])
  }

  function InFlight(net: Net): seq<Unsolicited> {
    match net.pending
    case None => []
    case Some(u) => [u]
  }

  ghost predicate Orderly(net: Net) {
    && |net.queue| <= CAPACITY
    // a send that follows a passed check never waits
    && (net.pending.Some? ==> !Full(net))
    // what came out, what is queued and what is on its way is what passed the check, in order
    && |net.offered| == |net.admitted|
    && net.received + net.queue + InFlight(net) == Admitted(net.offered, net.admitted)
    // nothing is lost but what was dropped
    && |net.offered| == |net.received| + |net.queue| + |InFlight(net)| + net.dropped
  }

  lemma AdmittedSnoc(offered: seq<Unsolicited>, admitted: seq<bool>, u: Unsolicited, b: bool)
    requires |offered| == |admitted|
    ensures Admitted(offered + [u], admitted + [b]) == Admitted(offered, admitted) + (if b then [u] else [])
  {
    assert (offered + [u])[..|offered|] == offered && (admitted + [b])[..|offered|] == admitted;
  }

  lemma ActIsOrderly(net: Net, a: Action)
    requires Orderly(net)
    ensures Orderly(Act(net, a))
  {
    match a
    case Check(u) =>
      AdmittedSnoc(net.offered, net.admitted, u, !Full(net));
      if net.pending.None? && !Full(net) {
        assert net.received + net.queue + [u] == (net.received + net.queue + []) + [u];
      }
    case Send =>
      if net.pending.Some? {
        var u := net.pending.value;
        assert net.received + (net.queue + [u]) + [] == net.received + net.queue + [u];
      }
    case Receive =>
      if net.queue != [] {
        assert net.queue == [net.queue[0]] + net.queue[1..];
        assert (net.received + [net.queue[0]]) + net.queue[1..] == net.received + net.queue;
      }
  }

  /** Under every interleaving: the queue never exceeds its bound, a send never waits, elements come
      out in the order they were offered in, and of those offered exactly the dropped ones are
      missing. */
  lemma {:induction false} RunIsOrderly(actions: seq<Action>)
    ensures Orderly(Acts(EMPTY, actions))
  {
    if actions != [] {
      RunIsOrderly(actions[..|actions| - 1]);
      ActIsOrderly(Acts(EMPTY, actions[..|actions| - 1]), actions[|actions| - 1]);
    }
  }

  /** The `i`-th action offers an element and finds the queue full. */
  predicate Refused(actions: seq<Action>, i: nat)
    requires i < |actions|
  {
    var net := Acts(EMPTY, actions[..i]);
    actions[i].Check? && net.pending.None? && Full(net)
  }

  function RefusedIn(actions: seq<Action>): set<nat> {
    set i: nat | i < |actions| && Refused(actions, i)
  }

  lemma {:induction false} RefusedSnoc(actions: seq<Action>, a: Action)
    ensures |RefusedIn(actions + [a])|
            == |RefusedIn(actions)| + if Refused(actions + [a], |actions|) then 1 else 0
  {
    var last := |actions|;
    forall i: nat | i < last ensures Refused(actions + [a], i) <==> Refused(actions, i) {
      assert (actions + [a])[..i] == actions[..i];
    }
    assert RefusedIn(actions + [a]) == RefusedIn(actions) + if Refused(actions + [a], last) then {last} else {};
  }

  lemma ActsSnoc(net: Net, actions: seq<Action>, a: Action)
    ensures Acts(net, actions + [a]) == Act(Acts(net, actions), a)
  {
    assert (actions + [a])[..|actions|] == actions;
  }

  /** As many elements are dropped as were offered while the queue was full, one for each such check. */
  lemma {:induction false} DropsNeedAFullQueue(actions: seq<Action>)
    ensures Acts(EMPTY, actions).dropped == |RefusedIn(actions)|
  {
    if actions == [] {
      assert RefusedIn(actions) == {};
    } else {
      var front, a := actions[..|actions| - 1], actions[|actions| - 1];
      assert actions == front + [a];
      DropsNeedAFullQueue(front);
      RefusedSnoc(front, a);
      ActsSnoc(EMPTY, front, a);
      assert actions[..|front|] == front;
    }
  }

  /** The session's part of a run: every response checked and sent at once. */
  function Offers(rs: seq<Response>): seq<Action> {
    if rs == [] then [] else Offers(rs[..|rs| - 1]) + [Check(AsUnsolicited(rs[|rs| - 1])), Send]
  }

  /** Without receivers in between, offering is what the collectors do to the queue. */
  lemma {:induction false} OffersFillTheQueue(net: Net, rs: seq<Response>)
    requires net.pending.None? && |net.queue| <= CAPACITY
    ensures Acts(net, Offers(rs)).queue == Queued(net.queue, rs) && Acts(net, Offers(rs)).pending.None?
  {
    if rs == [] {
      QueuedNone(net.queue);
    } else {
      var front, r := rs[..|rs| - 1], rs[|rs| - 1];
      OffersFillTheQueue(net, front);
      var actions, u := Offers(rs), AsUnsolicited(r);
      assert actions[..|actions| - 1] == Offers(front) + [Check(u)];
      assert (Offers(front) + [Check(u)])[..|Offers(front)|] == Offers(front);
      assert Acts(net, actions) == Act(Act(Acts(net, Offers(front)), Check(u)), Send);
      QueuedSnoc(net.queue, front, r);
      assert front + [r] == rs;
      assert AllUnsolicited([r]) == [u];
    }
  }
}
