/** What the parts of IDLE answer, response by response. */
module IdleFacts {
  import opened Wrappers
  import opened Responses
  import opened Collect
  import opened Collectors
  import opened CollectorFacts
  import opened Idling

  // ---- Starting

  /** Before the item at `n` there is no error, no continuation and no BAD completion of the command. */
  ghost predicate Unstarted(items: seq<Item>, tag: Tag, n: nat) {
    n <= |items| && forall i | 0 <= i < n ::
      && items[i].Success? && !items[i].value.Continue?
      && (items[i].value.Done? ==> items[i].value.tag != tag || items[i].value.status != Bad)
  }

  lemma {:induction false} UnstartedIff(items: seq<Item>, tag: Tag, n: nat)
    ensures Unstarted(items, tag, n) <==> n <= FirstStop(items, UntilIdling(tag))
  {
    var stop := FirstStop(items, UntilIdling(tag));
    if n <= stop {
      forall i | 0 <= i < n
        ensures && items[i].Success? && !items[i].value.Continue?
                && (items[i].value.Done? ==> items[i].value.tag != tag || items[i].value.status != Bad)
      {
        assert !Stops(UntilIdling(tag), items[i]);
      }
    }
  }

  /** Starting succeeds at the first continuation, fails with the text of a refusal or the error met
      before one, and with no text if the stream ends. */
  lemma {:induction false} StartDecides(items: seq<Item>, tag: Tag, n: nat)
    requires Unstarted(items, tag, n)
    ensures var r := Init(items, tag).result;
            if n == |items| then r == Failure(ConnectionRefused(""))
            else
              match items[n]
              case Failure(e) => r == Failure(Io(e))
              case Success(Continue(_)) => r == Success(())
              case Success(Done(t, Bad, _, Some(text))) => t == tag ==> r == Failure(ConnectionRefused(text))
              case _ => true
  {
    UnstartedIff(items, tag, n);
    if n < |items| && Stops(UntilIdling(tag), items[n]) {
      assert FirstStop(items, UntilIdling(tag)) == n;
    }
  }

  /** What is read before that is offered to the queue, all of it and in order. */
  lemma {:induction false} StartOffers(rs: seq<Response>, item: Item, later: seq<Item>, tag: Tag)
    requires forall r | r in rs :: !r.Continue? && (r.Done? ==> r.tag != tag || r.status != Bad)
    requires item.Failure? || item.value.Continue? || (item.value.Done? && item.value.tag == tag && item.value.status == Bad)
    ensures var passed: seq<Item> := seq(|rs|, i requires 0 <= i < |rs| => Success(rs[i]));
            OfferedIn(Init(passed + [item] + later, tag).log) == rs
            && Init(passed + [item] + later, tag).left == later
  {
    var passed: seq<Item> := seq(|rs|, i requires 0 <= i < |rs| => Success(rs[i]));
    var items := passed + [item] + later;
    assert items[|rs|] == item && Stops(UntilIdling(tag), item);
    assert Unstarted(items, tag, |rs|);
    UnstartedIff(items, tag, |rs|);
    assert FirstStop(items, UntilIdling(tag)) == |rs|;
    assert items[..|rs|] == passed && items[|rs| + 1..] == later;
    LegOffers(items, |rs|, InitResult(items, |rs|), Awaited);
    EverythingIsOffered(rs);
  }

  // ---- Waiting

  /** The first `n` items are no news: continuations, completions and untagged OKs. */
  ghost predicate Quiet(items: seq<Item>, n: nat) {
    n <= |items| && forall i | 0 <= i < n ::
      && items[i].Success?
      && (items[i].value.Continue? || items[i].value.Done? || (items[i].value.Data? && items[i].value.status == Ok))
  }

  lemma {:induction false} QuietIff(items: seq<Item>, w: Wait, n: nat)
    requires n <= w.budget
    ensures Quiet(items, n) <==> n <= FirstStop(Seen(items, w), UntilNews)
  {
    var seen, stop := Seen(items, w), FirstStop(Seen(items, w), UntilNews);
    assert stop < |seen| ==> seen[stop] == items[stop];
    if n <= stop {
      forall i | 0 <= i < n
        ensures && items[i].Success?
                && (items[i].value.Continue? || items[i].value.Done? || (items[i].value.Data? && items[i].value.status == Ok))
      {
        assert seen[i] == items[i] && !Stops(UntilNews, seen[i]);
      }
    }
  }

  /** How many items a wait looks at at most. */
  function Reach(items: seq<Item>, w: Wait): nat {
    if w.budget < |items| then w.budget else |items|
  }

  /** A wait times out exactly if it has seen all it had time for, none of it news, and was not
      interrupted. */
  lemma {:induction false} TimesOutIff(items: seq<Item>, w: Wait)
    ensures Waiting(items, w).result == Success(Timeout)
            <==> w.budget <= |items| && Quiet(items, w.budget) && !w.interrupted
  {
    QuietIff(items, w, Reach(items, w));
  }

  /** It comes back without news exactly if it has seen none, and was interrupted or the stream has ended. */
  lemma {:induction false} ComesBackIff(items: seq<Item>, w: Wait)
    ensures Waiting(items, w).result == Success(ManualInterrupt)
            <==> Quiet(items, Reach(items, w)) && (w.interrupted || |items| < w.budget)
  {
    QuietIff(items, w, Reach(items, w));
  }

  /** The item at `i` is the first that ends a wait by itself. */
  ghost predicate EndsWait(items: seq<Item>, w: Wait, i: nat) {
    i < w.budget && i < |items| && Quiet(items, i) && !Quiet(items, i + 1)
  }

  lemma {:induction false} EndsWaitIff(items: seq<Item>, w: Wait, i: nat)
    ensures EndsWait(items, w, i) <==> i < |Seen(items, w)| && i == FirstStop(Seen(items, w), UntilNews)
  {
    if i < w.budget {
      QuietIff(items, w, i);
      QuietIff(items, w, i + 1);
    }
  }

  /** It brings news exactly if they are the first item that is anything but a keepalive, a continuation
      or a completion, and come in time; and then it leaves what is behind them. */
  lemma {:induction false} BringsNewsIff(items: seq<Item>, w: Wait, r: Response)
    ensures Waiting(items, w).result == Success(NewData(r))
            <==> exists i: nat :: EndsWait(items, w, i) && items[i] == Success(r)
    ensures forall i: nat | EndsWait(items, w, i) :: Waiting(items, w).left == items[i + 1..]
  {
    var stop := FirstStop(Seen(items, w), UntilNews);
    EndsWaitIff(items, w, stop);
    forall i: nat | EndsWait(items, w, i) ensures i == stop && stop < |Seen(items, w)| {
      EndsWaitIff(items, w, i);
    }
  }

  /** It fails exactly if that item is an error, and with that error. */
  lemma {:induction false} WaitFailsIff(items: seq<Item>, w: Wait, e: Error)
    ensures Waiting(items, w).result == Failure(e)
            <==> e.Io? && exists i: nat :: EndsWait(items, w, i) && items[i] == Failure(e.cause)
  {
    var stop := FirstStop(Seen(items, w), UntilNews);
    EndsWaitIff(items, w, stop);
    forall i: nat | EndsWait(items, w, i) ensures i == stop && stop < |Seen(items, w)| {
      EndsWaitIff(items, w, i);
    }
  }

  /** Of what it passes over, exactly the completions are offered to the queue. */
  lemma {:induction false} WaitOffersIff(items: seq<Item>, w: Wait, r: Response)
    ensures r in OfferedIn(Waiting(items, w).log)
            <==> r.Done? && exists i: nat :: i < w.budget && Quiet(items, i + 1) && items[i] == Success(r)
  {
    var n := FirstStop(Seen(items, w), UntilNews);
    var passed := LogPassed(items[..n]);
    WaitLogOffers(items, w);
    InFlatMap(passed, OfferedOf, r);
    if i :| 0 <= i < |passed| && r in OfferedOf(passed[i]) {
      assert passed[i].item == items[i];
      QuietIff(items, w, i + 1);
      assert r.Done? && items[i] == Success(r);
    }
    if i: nat :| i < w.budget && Quiet(items, i + 1) && items[i] == Success(r) && r.Done? {
      QuietIff(items, w, i + 1);
      assert r in OfferedOf(passed[i]);
    }
  }

  /** The item that ends a wait is not offered. */
  lemma WaitLogOffers(items: seq<Item>, w: Wait)
    ensures var n := FirstStop(Seen(items, w), UntilNews);
            OfferedIn(Waiting(items, w).log) == OfferedIn(LogPassed(items[..n]))
  {
    var n := FirstStop(Seen(items, w), UntilNews);
    if n < |Seen(items, w)| {
      OfferedAtEnd(LogPassed(items[..n]), Entry(items[n], Failed));
      OfferedAtEnd(LogPassed(items[..n]), Entry(items[n], News));
    }
  }

  /** On a silent stream: a timeout is a timeout and an interrupt an interrupt. */
  lemma SilentWaits()
    ensures Waiting([], Wait(0, false)).result == Success(Timeout)
    ensures Waiting([], Wait(0, true)).result == Success(ManualInterrupt)
  {
    TimesOutIff([], Wait(0, false));
    ComesBackIff([], Wait(0, true));
  }
}
