/** The IDLE command: start, wait any number of times, finish. */
module Idling {
  import opened Wrappers
  import opened Responses
  import opened Collect
  import opened Channels
  import opened Collectors
  import opened Tags
  import opened Wires

  datatype IdleResponse = ManualInterrupt | Timeout | NewData(response: Response)

  /** What becomes of a response that is read between the start and the end of IDLE. */
  datatype Fate = Awaited | Skipped | Offered | News | Completion | Failed

  datatype Entry = Entry(item: Item, fate: Fate)

  /** One part of the exchange: what it comes to, what it leaves in the stream, and what became of
      everything that it read. */
  datatype Leg<+T> = Leg(result: Result<T, Error>, left: seq<Item>, log: seq<Entry>)

  function Items(log: seq<Entry>): seq<Item> {
    seq(|log|, i requires 0 <= i < |log| => log[i].item)
  }

  /** What was offered to the queue, in order. */
  function OfferedOf(e: Entry): seq<Response> {
    if e.fate.Offered? && e.item.Success? then [e.item.value] else []
  }

  function OfferedIn(log: seq<Entry>): seq<Response> {
    FlatMap(log, OfferedOf)
  }

  // ---- Starting

  function InitResult(items: seq<Item>, n: nat): Result<(), Error> {
    if n >= |items| then Failure(ConnectionRefused(""))
    else
      match items[n]
      case Failure(e) => Failure(Io(e))
      case Success(Done(_, _, _, information)) =>
        if information.Some? then Failure(ConnectionRefused(information.value)) else Failure(Panic)
      case _ => Success(())
  }

  function LogAll(items: seq<Item>, fate: Fate): seq<Entry> {
    seq(|items|, i requires 0 <= i < |items| => Entry(items[i], fate))
  }

  /** A log that ends with the item at `n`, if there is one. */
  function LogEnd(items: seq<Item>, n: nat, fate: Fate): seq<Entry> {
    if n < |items| then [Entry(items[n], fate)] else []
  }

  /** A part that reads through the item at `n`, and offers everything before it to the queue. */
  function ReadThroughLeg(items: seq<Item>, n: nat, result: Result<(), Error>, good: Fate): Leg<()>
    requires n <= |items|
  {
    Leg(result, Behind(items, n),
        LogAll(items[..n], Offered) + LogEnd(items, n, if result.Success? then good else Failed))
  }

  /** Everything up to the continuation, or the refusal, is offered to the queue. */
  function Init(items: seq<Item>, tag: Tag): Leg<()> {
    var n := FirstStop(items, UntilIdling(tag));
    ReadThroughLeg(items, n, InitResult(items, n), Awaited)
  }

  /** The server finds the command with this tag bad. */
  predicate Refuses(item: Item, tag: Tag) {
    OwnDone(item, tag) && item.value.status == Bad
  }

  /** The item at `i` is the refusal of the command, without a text, and neither an error nor a
      continuation nor another refusal comes before it. */
  ghost predicate RefusedSilently(items: seq<Item>, tag: Tag, i: nat) {
    && i < |items|
    && Refuses(items[i], tag) && items[i].value.information == None
    && forall j | 0 <= j < i :: items[j].Success? && !items[j].value.Continue? && !Refuses(items[j], tag)
  }

  /** Exactly when starting IDLE stops the program. */
  lemma {:induction false} StartPanicsIff(items: seq<Item>, tag: Tag)
    ensures Init(items, tag).result == Failure(Panic) <==> exists i :: RefusedSilently(items, tag, i)
  {
    var n := FirstStop(items, UntilIdling(tag));
    if Init(items, tag).result == Failure(Panic) {
      forall j | 0 <= j < n
        ensures items[j].Success? && !items[j].value.Continue? && !Refuses(items[j], tag)
      {
        assert !Stops(UntilIdling(tag), items[j]);
      }
      assert RefusedSilently(items, tag, n);
    }
    if i: nat :| RefusedSilently(items, tag, i) {
      assert Stops(UntilIdling(tag), items[i]);
      assert n == i;
    }
  }

  /** A server that answers IDLE with a bare BAD stops the program. */
  lemma BareBadPanics(n: nat)
    ensures Init([Success(Done(TagOf(n), Bad, None, None))], TagOf(n)).result == Failure(Panic)
  {
    var items: seq<Item> := [Success(Done(TagOf(n), Bad, None, None))];
    assert Stops(UntilIdling(TagOf(n)), items[0]);
    assert FirstStop(items, UntilIdling(TagOf(n))) == 0;
  }

  // ---- Waiting

  /** A wait ends by itself at news, at an error and at the end of the stream.  Otherwise it is cut off
      after `budget` responses: by its timeout, or by an interrupt. */
  datatype Wait = Wait(budget: nat, interrupted: bool)

  function Seen(items: seq<Item>, w: Wait): seq<Item> {
    if w.budget < |items| then items[..w.budget] else items
  }

  function PassedFate(item: Item): Fate {
    if item.Success? && item.value.Done? then Offered else Skipped
  }

  function LogPassed(items: seq<Item>): seq<Entry> {
    seq(|items|, i requires 0 <= i < |items| => Entry(items[i], PassedFate(items[i])))
  }

  function Waiting(items: seq<Item>, w: Wait): Leg<IdleResponse> {
    var seen := Seen(items, w);
    var n := FirstStop(seen, UntilNews);
    if n < |seen| then
      match items[n]
      case Failure(e) => Leg(Failure(Io(e)), items[n + 1..], LogPassed(items[..n]) + [Entry(items[n], Failed)])
      case Success(r) => Leg(Success(NewData(r)), items[n + 1..], LogPassed(items[..n]) + [Entry(items[n], News)])
    else
      Leg(Success(if w.budget <= |items| && !w.interrupted then Timeout else ManualInterrupt),
          items[n..], LogPassed(items[..n]))
  }

  // ---- Finishing

  function Finish(items: seq<Item>, tag: Tag): Leg<()> {
    var n := FirstStop(items, UntilChecked(tag));
    ReadThroughLeg(items, n, Checked(items, n), Completion)
  }

  // ---- The program

  lemma {:induction false} OfferedInAll(items: seq<Item>)
    ensures OfferedIn(LogAll(items, Offered)) == FlatMap(items, Everything)
  {
    if items != [] {
      var front := items[..|items| - 1];
      OfferedInAll(front);
      assert LogAll(items, Offered)[..|items| - 1] == LogAll(front, Offered);
    }
  }

  lemma OfferedAtEnd(log: seq<Entry>, e: Entry)
    requires !e.fate.Offered?
    ensures OfferedIn(log + [e]) == OfferedIn(log)
  {
    FlatMapSnoc(log, e, OfferedOf);
    assert OfferedIn(log) + [] == OfferedIn(log);
  }

  class Handle {
    const stream: ResponseStream
    const wire: Wire
    const ids: IdGenerator
    const ch: Channel
    /** The tag of the IDLE command, once it has been sent. */
    var id: Option<Tag>

    constructor (stream: ResponseStream, wire: Wire, ids: IdGenerator, ch: Channel)
      ensures this.stream == stream && this.wire == wire && this.ids == ids && this.ch == ch && id == None
    {
      this.stream, this.wire, this.ids, this.ch := stream, wire, ids, ch;
      id := None;
    }

    method Start() returns (r: Result<(), Error>)
      requires ch.Valid()
      modifies this, stream, wire, ids, ch
      ensures ch.Valid()
      ensures ids.next == old(ids.next) + 1 && id == Some(TagOf(ids.next))
      ensures wire.out == old(wire.out) + Joined([TagOf(ids.next) + " " + "IDLE"])
      ensures var leg := Init(old(stream.items), TagOf(ids.next));
              r == leg.result && stream.items == leg.left
              && ch.queue == Queued(old(ch.queue), OfferedIn(leg.log))
    {
      var tag := RunCommand(wire, ids, "IDLE");
      id := Some(tag);
      ghost var n := FirstStop(stream.items, UntilIdling(tag));
      LegOffers(stream.items, n, InitResult(stream.items, n), Awaited);
      r := AwaitContinuation(tag);
    }

    method AwaitContinuation(tag: Tag) returns (r: Result<(), Error>)
      requires ch.Valid()
      modifies stream, ch
      ensures ch.Valid()
      ensures ReadThrough(old(stream.items), UntilIdling(tag), stream.items, old(ch.queue), ch.queue, Everything)
      ensures r == InitResult(old(stream.items), FirstStop(old(stream.items), UntilIdling(tag)))
    {
      ghost var all, k, queue, loop := stream.items, 0, ch.queue, UntilIdling(tag);
      StartReading(all, loop, queue, Everything);
      while true
        invariant ch.Valid()
        invariant Reading(all, loop, k, stream.items, queue, ch.queue, Everything)
        decreases |stream.items|
      {
        Look(all, loop, k, stream.items, queue, ch.queue, Everything);
        var next := stream.Next();
        if next.None? {
          return Failure(ConnectionRefused(""));
        }
        if next.value.Failure? {
          return Failure(Io(next.value.error));
        }
        var res := next.value.value;
        if res.Continue? {
          return Success(());
        }
        if IsDone(res, tag) && res.status == Bad {
          if res.information.None? {
            return Failure(Panic);
          }
          return Failure(ConnectionRefused(res.information.value));
        }
        HandleUnilateral(res, ch);
        k := k + 1;
      }
    }

    /** `w` says when the wait is cut off. */
    method WaitWithTimeout(w: Wait) returns (r: Result<IdleResponse, Error>)
      requires ch.Valid() && id.Some?
      modifies stream, ch
      ensures ch.Valid()
      ensures var leg := Waiting(old(stream.items), w);
              r == leg.result && stream.items == leg.left
              && ch.queue == Queued(old(ch.queue), OfferedIn(leg.log))
    {
      StepByStep(stream.items, w, ch.queue);
      r := AwaitNews(w);
    }

    method AwaitNews(w: Wait) returns (r: Result<IdleResponse, Error>)
      requires ch.Valid()
      modifies stream, ch
      ensures ch.Valid()
      ensures StepsOf(old(stream.items), w, old(ch.queue)) == WaitEnd(r, stream.items, ch.queue)
    {
      var budget := w.budget;
      while true
        invariant ch.Valid()
        invariant StepsOf(stream.items, w.(budget := budget), ch.queue)
                  == StepsOf(old(stream.items), w, old(ch.queue))
        decreases |stream.items|
      {
        if budget == 0 {
          return Success(if w.interrupted then ManualInterrupt else Timeout);
        }
        var next := stream.Next();
        if next.None? {
          return Success(ManualInterrupt);
        }
        if next.value.Failure? {
          return Failure(Io(next.value.error));
        }
        var resp := next.value.value;
        match resp {
          case Done(_, _, _, _) => HandleUnilateral(resp, ch);
          case Data(Ok, _, _) =>
          case Continue(_) =>
          case _ => return Success(NewData(resp));
        }
        budget := budget - 1;
      }
    }

    /** Consumes the handle. */
    method Finished() returns (r: Result<(), Error>)
      requires ch.Valid() && id.Some?
      modifies stream, wire, ch
      ensures ch.Valid()
      ensures wire.out == old(wire.out) + Joined(["DONE"])
      ensures var leg := Finish(old(stream.items), id.value);
              r == leg.result && stream.items == leg.left
              && ch.queue == Queued(old(ch.queue), OfferedIn(leg.log))
    {
      RunCommandUntagged(wire, "DONE");
      ghost var n := FirstStop(stream.items, UntilChecked(id.value));
      LegOffers(stream.items, n, Checked(stream.items, n), Completion);
      r := CheckDoneOk(stream, ch, id.value);
    }
  }

  lemma LegOffers(items: seq<Item>, n: nat, result: Result<(), Error>, good: Fate)
    requires n <= |items| && good != Offered
    ensures OfferedIn(ReadThroughLeg(items, n, result, good).log) == FlatMap(items[..n], Everything)
  {
    OfferedInAll(items[..n]);
    var log := LogAll(items[..n], Offered);
    if n < |items| {
      OfferedAtEnd(log, Entry(items[n], if result.Success? then good else Failed));
    } else {
      assert log + [] == log;
    }
  }

  /** What a wait comes to, what it leaves in the stream, and the queue after it. */
  datatype WaitEnd = WaitEnd(result: Result<IdleResponse, Error>, left: seq<Item>, queue: seq<Unsolicited>)

  function OneLess(w: Wait): Wait
    requires w.budget > 0
  {
    w.(budget := w.budget - 1)
  }

  /** The queue after a wait has passed over `r`. */
  function PassedOn(queue: seq<Unsolicited>, r: Response): seq<Unsolicited> {
    if r.Done? then Queued(queue, [r]) else queue
  }

  /** The same as `Waiting`, but item by item. */
  function StepsOf(items: seq<Item>, w: Wait, queue: seq<Unsolicited>): WaitEnd
    decreases |items|
  {
    if w.budget == 0 then WaitEnd(Success(if w.interrupted then ManualInterrupt else Timeout), items, queue)
    else if items == [] then WaitEnd(Success(ManualInterrupt), [], queue)
    else
      match items[0]
      case Failure(e) => WaitEnd(Failure(Io(e)), items[1..], queue)
      case Success(r) =>
        if Ends(UntilNews, r) then WaitEnd(Success(NewData(r)), items[1..], queue)
        else StepsOf(items[1..], OneLess(w), PassedOn(queue, r))
  }

  function EndOf(leg: Leg<IdleResponse>, queue: seq<Unsolicited>): WaitEnd {
    WaitEnd(leg.result, leg.left, Queued(queue, OfferedIn(leg.log)))
  }

  lemma LogPassedCons(item: Item, items: seq<Item>)
    ensures LogPassed([item] + items) == [Entry(item, PassedFate(item))] + LogPassed(items)
  {
  }

  /** A wait that passes over `item` goes on with the rest, and one response less to wait for. */
  lemma {:induction false} WaitingTail(item: Item, items: seq<Item>, w: Wait)
    requires w.budget > 0 && !Stops(UntilNews, item)
    ensures var more := Waiting(items, OneLess(w));
            Waiting([item] + items, w) == more.(log := [Entry(item, PassedFate(item))] + more.log)
  {
    var all, seen := [item] + items, Seen(items, OneLess(w));
    assert Seen(all, w) == [item] + seen && ([item] + seen)[1..] == seen;
    var n := FirstStop(seen, UntilNews);
    assert FirstStop([item] + seen, UntilNews) == 1 + n;
    assert all[..n + 1] == [item] + items[..n] && all[n + 1..] == items[n..];
    LogPassedCons(item, items[..n]);
    if n < |seen| {
      assert all[n + 1] == items[n] && all[n + 2..] == items[n + 1..];
      Associative([Entry(item, PassedFate(item))], LogPassed(items[..n]), [Entry(items[n], Failed)]);
      Associative([Entry(item, PassedFate(item))], LogPassed(items[..n]), [Entry(items[n], News)]);
    }
  }

  /** What a passed item adds to the queue. */
  lemma OfferedFirst(queue: seq<Unsolicited>, item: Item, log: seq<Entry>)
    requires |queue| <= CAPACITY && item.Success?
    ensures Queued(queue, OfferedIn([Entry(item, PassedFate(item))] + log))
            == Queued(PassedOn(queue, item.value), OfferedIn(log))
  {
    var e := Entry(item, PassedFate(item));
    FlatMapAppend([e], log, OfferedOf);
    FlatMapOne(e, OfferedOf);
    QueuedAppend(queue, OfferedOf(e), OfferedIn(log));
    QueuedNone(queue);
  }

  lemma WaitPassed(item: Item, items: seq<Item>, w: Wait, queue: seq<Unsolicited>)
    requires |queue| <= CAPACITY && w.budget > 0 && !Stops(UntilNews, item)
    ensures EndOf(Waiting([item] + items, w), queue) == EndOf(Waiting(items, OneLess(w)), PassedOn(queue, item.value))
  {
    WaitingTail(item, items, w);
    OfferedFirst(queue, item, Waiting(items, OneLess(w)).log);
  }

  lemma WaitCutOff(items: seq<Item>, w: Wait, queue: seq<Unsolicited>)
    requires |queue| <= CAPACITY && (w.budget == 0 || items == [])
    ensures EndOf(Waiting(items, w), queue) == StepsOf(items, w, queue)
  {
    assert Seen(items, w) == [];
    assert FirstStop([], UntilNews) == 0;
    assert LogPassed(items[..0]) == [];
    QueuedNone(queue);
  }

  lemma WaitingStops(item: Item, items: seq<Item>, w: Wait)
    requires w.budget > 0 && Stops(UntilNews, item)
    ensures Waiting([item] + items, w) ==
              match item
              case Failure(e) => Leg(Failure(Io(e)), items, [Entry(item, Failed)])
              case Success(r) => Leg(Success(NewData(r)), items, [Entry(item, News)])
  {
    var all := [item] + items;
    assert Seen(all, w)[0] == item;
    assert FirstStop(Seen(all, w), UntilNews) == 0;
    assert LogPassed(all[..0]) == [];
    assert all[1..] == items;
  }

  lemma NothingOffered(e: Entry)
    requires !e.fate.Offered?
    ensures OfferedIn([e]) == []
  {
    FlatMapOne(e, OfferedOf);
  }

  lemma WaitStopped(item: Item, items: seq<Item>, w: Wait, queue: seq<Unsolicited>)
    requires |queue| <= CAPACITY && w.budget > 0 && Stops(UntilNews, item)
    ensures EndOf(Waiting([item] + items, w), queue) == StepsOf([item] + items, w, queue)
  {
    WaitingStops(item, items, w);
    NothingOffered(Entry(item, Failed));
    NothingOffered(Entry(item, News));
    QueuedNone(queue);
    assert ([item] + items)[1..] == items;
  }

  lemma {:induction false} StepByStep(items: seq<Item>, w: Wait, queue: seq<Unsolicited>)
    requires |queue| <= CAPACITY
    ensures EndOf(Waiting(items, w), queue) == StepsOf(items, w, queue)
    decreases |items|
  {
    if w.budget == 0 || items == [] {
      WaitCutOff(items, w, queue);
    } else {
      assert items == [items[0]] + items[1..];
      if Stops(UntilNews, items[0]) {
        WaitStopped(items[0], items[1..], w, queue);
      } else {
        WaitPassed(items[0], items[1..], w, queue);
        StepByStep(items[1..], OneLess(w), PassedOn(queue, items[0].value));
      }
    }
  }
}
