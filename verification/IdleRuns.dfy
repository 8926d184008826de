/** Whole runs of IDLE: start, any number of waits, finish. */
module IdleRuns {
  import opened Wrappers
  import opened Responses
  import opened Collect
  import opened Channels
  import opened Collectors
  import opened Tags
  import opened Wires
  import opened Idling

  /** A run: whether every part went well, what the waits returned, what is left in the stream, and
      what became of everything that was read. */
  datatype Trace = Trace(ok: bool, answers: seq<IdleResponse>, left: seq<Item>, log: seq<Entry>)

  function Waits(items: seq<Item>, ws: seq<Wait>): Trace
    decreases |ws|
  {
    if ws == [] then Trace(true, [], items, [])
    else
      var leg := Waiting(items, ws[0]);
      match leg.result
      case Failure(_) => Trace(false, [], leg.left, leg.log)
      case Success(answer) =>
        var more := Waits(leg.left, ws[1..]);
        Trace(more.ok, [answer] + more.answers, more.left, leg.log + more.log)
  }

  /** What the part of a run before its end comes to. */
  function Begun(items: seq<Item>, tag: Tag, ws: seq<Wait>): Trace {
    var start := Init(items, tag);
    if start.result.Failure? then Trace(false, [], start.left, start.log)
    else
      var waits := Waits(start.left, ws);
      waits.(log := start.log + waits.log)
  }

  function Bracket(items: seq<Item>, tag: Tag, ws: seq<Wait>): Trace {
    var begun := Begun(items, tag, ws);
    if !begun.ok then begun
    else
      var finish := Finish(begun.left, tag);
      Trace(finish.result.Success?, begun.answers, finish.left, begun.log + finish.log)
  }

  /** The entry deserves its fate. */
  ghost predicate Deserved(e: Entry, tag: Tag) {
    match e.fate
    case Awaited => e.item.Success? && e.item.value.Continue?
    case Skipped =>
      e.item.Success? && (e.item.value.Continue? || (e.item.value.Data? && e.item.value.status == Ok))
    case Offered => e.item.Success?
    case News => e.item.Success? && Ends(UntilNews, e.item.value)
    case Completion => OwnDone(e.item, tag) && e.item.value.status == Ok
    case Failed => true
  }

  function WithFate(fate: Fate): Entry -> seq<Item> {
    (e: Entry) => if e.fate == fate then [e.item] else []
  }

  /** The items of a log that met the given fate. */
  function Meeting(log: seq<Entry>, fate: Fate): seq<Item> {
    FlatMap(log, WithFate(fate))
  }

  function NewsItem(answer: IdleResponse): seq<Item> {
    match answer
    case NewData(r) => [Success(r)]
    case _ => []
  }

  /** `log` is what was read of `items`, in order, and `left` is the rest. */
  ghost predicate Accounts(items: seq<Item>, tag: Tag, left: seq<Item>, log: seq<Entry>) {
    && items == Items(log) + left
    && forall i | 0 <= i < |log| :: Deserved(log[i], tag)
  }

  lemma AccountsAppend(items: seq<Item>, tag: Tag, left: seq<Item>, log: seq<Entry>, left': seq<Item>, log': seq<Entry>)
    requires Accounts(items, tag, left, log) && Accounts(left, tag, left', log')
    ensures Accounts(items, tag, left', log + log')
  {
    assert Items(log + log') == Items(log) + Items(log');
  }

  lemma {:induction false} NoneMeet(log: seq<Entry>, fate: Fate)
    requires forall i | 0 <= i < |log| :: log[i].fate != fate
    ensures Meeting(log, fate) == []
  {
    if log != [] {
      NoneMeet(log[..|log| - 1], fate);
    }
  }

  lemma LastMeets(log: seq<Entry>, e: Entry, fate: Fate)
    requires forall i | 0 <= i < |log| :: log[i].fate != fate
    ensures Meeting(log + [e], fate) == if e.fate == fate then [e.item] else []
  {
    NoneMeet(log, fate);
    FlatMapSnoc(log, e, WithFate(fate));
  }

  // ---- The parts

  /** A log of the first `n` items and of the one that ended them, if any, leaves the items behind. */
  lemma LogIsWhatWasRead(items: seq<Item>, n: nat, passed: seq<Entry>, end: seq<Entry>)
    requires n <= |items| && Items(passed) == items[..n]
    requires if n < |items| then |end| == 1 && end[0].item == items[n] else end == []
    ensures Items(passed + end) + Behind(items, n) == items
  {
    assert Items(passed + end) == Items(passed) + Items(end);
    if n < |items| {
      assert Items(end) == [items[n]];
      assert items == items[..n] + [items[n]] + items[n + 1..];
    }
  }

  lemma DeservedAppend(log: seq<Entry>, log': seq<Entry>, tag: Tag)
    requires forall i | 0 <= i < |log| :: Deserved(log[i], tag)
    requires forall i | 0 <= i < |log'| :: Deserved(log'[i], tag)
    ensures forall i | 0 <= i < |log + log'| :: Deserved((log + log')[i], tag)
  {
  }

  /** A log that offers the first `n` items and ends with the next accounts for them. */
  lemma OfferedAndEnded(items: seq<Item>, n: nat, fate: Fate, tag: Tag)
    requires n <= |items| && forall i | 0 <= i < n :: items[i].Success?
    requires n < |items| ==> Deserved(Entry(items[n], fate), tag)
    ensures Accounts(items, tag, Behind(items, n), LogAll(items[..n], Offered) + LogEnd(items, n, fate))
  {
    var passed, end := LogAll(items[..n], Offered), LogEnd(items, n, fate);
    LogIsWhatWasRead(items, n, passed, end);
    DeservedAppend(passed, end, tag);
  }

  /** What met which fate, in a log of passed items and the one that ended them. */
  lemma FatesOf(passed: seq<Entry>, end: seq<Entry>, fate: Fate)
    requires |end| <= 1
    requires forall i | 0 <= i < |passed| :: passed[i].fate != fate
    ensures Meeting(passed + end, fate) == if end != [] && end[0].fate == fate then [end[0].item] else []
  {
    if end == [] {
      assert passed + end == passed;
      NoneMeet(passed, fate);
    } else {
      assert end == [end[0]];
      LastMeets(passed, end[0], fate);
    }
  }

  /** The fates in a part that reads through one item: that item's, if all went well, is `good`. */
  ghost predicate EndedFates(leg: Leg<()>, good: Fate, other: Fate) {
    && |Meeting(leg.log, good)| == (if leg.result.Success? then 1 else 0)
    && Meeting(leg.log, other) == [] && Meeting(leg.log, News) == []
    && (leg.result.Success? ==>
          Meeting(leg.log, Failed) == [] && leg.log != [] && leg.log[|leg.log| - 1].fate == good)
  }

  lemma LegAccounts(items: seq<Item>, n: nat, result: Result<(), Error>, good: Fate, other: Fate, tag: Tag)
    requires n <= |items| && forall i | 0 <= i < n :: items[i].Success?
    requires (good == Awaited && other == Completion) || (good == Completion && other == Awaited)
    requires result.Success? ==> n < |items| && Deserved(Entry(items[n], good), tag)
    ensures var leg := ReadThroughLeg(items, n, result, good);
            Accounts(items, tag, leg.left, leg.log) && EndedFates(leg, good, other)
  {
    OfferedAndEnded(items, n, if result.Success? then good else Failed, tag);
    LegFates(items, n, result, good, other);
  }

  lemma LegFates(items: seq<Item>, n: nat, result: Result<(), Error>, good: Fate, other: Fate)
    requires n <= |items|
    requires (good == Awaited && other == Completion) || (good == Completion && other == Awaited)
    requires result.Success? ==> n < |items|
    ensures EndedFates(ReadThroughLeg(items, n, result, good), good, other)
  {
    var passed, end := LogAll(items[..n], Offered), LogEnd(items, n, if result.Success? then good else Failed);
    FatesOf(passed, end, good);
    FatesOf(passed, end, other);
    FatesOf(passed, end, News);
    FatesOf(passed, end, Failed);
  }

  lemma InitAccounts(items: seq<Item>, tag: Tag)
    ensures Accounts(items, tag, Init(items, tag).left, Init(items, tag).log)
    ensures EndedFates(Init(items, tag), Awaited, Completion)
  {
    var n := FirstStop(items, UntilIdling(tag));
    LegAccounts(items, n, InitResult(items, n), Awaited, Completion, tag);
  }

  lemma FinishAccounts(items: seq<Item>, tag: Tag)
    ensures Accounts(items, tag, Finish(items, tag).left, Finish(items, tag).log)
    ensures EndedFates(Finish(items, tag), Completion, Awaited)
  {
    var n := FirstStop(items, UntilChecked(tag));
    LegAccounts(items, n, Checked(items, n), Completion, Awaited, tag);
  }

  ghost predicate WaitFates(leg: Leg<IdleResponse>) {
    && Meeting(leg.log, Awaited) == [] && Meeting(leg.log, Completion) == []
    && (leg.result.Success? ==>
          Meeting(leg.log, Failed) == [] && Meeting(leg.log, News) == NewsItem(leg.result.value))
  }

  /** The items that a wait passes over are news to nobody. */
  lemma PassedInWait(items: seq<Item>, w: Wait, tag: Tag)
    ensures var n := FirstStop(Seen(items, w), UntilNews);
            && n <= |items| && Items(LogPassed(items[..n])) == items[..n]
            && (n < |Seen(items, w)| ==> items[n] == Seen(items, w)[n] && Stops(UntilNews, items[n]))
            && forall i | 0 <= i < n ::
                 var e := LogPassed(items[..n])[i]; Deserved(e, tag) && (e.fate.Offered? || e.fate.Skipped?)
  {
    var seen := Seen(items, w);
    var n := FirstStop(seen, UntilNews);
    forall i | 0 <= i < n ensures items[i] == seen[i] && !Stops(UntilNews, items[i]) {
    }
  }

  /** The fates of a wait's log: at most its last entry is news or a failure. */
  lemma WaitEnds(passed: seq<Entry>, end: seq<Entry>)
    requires forall i | 0 <= i < |passed| :: passed[i].fate.Offered? || passed[i].fate.Skipped?
    requires |end| <= 1 && (end != [] ==> end[0].fate.News? || end[0].fate.Failed?)
    ensures Meeting(passed + end, Awaited) == [] && Meeting(passed + end, Completion) == []
    ensures Meeting(passed + end, Failed) == if end != [] && end[0].fate.Failed? then [end[0].item] else []
    ensures Meeting(passed + end, News) == if end != [] && end[0].fate.News? then [end[0].item] else []
  {
    FatesOf(passed, end, Awaited);
    FatesOf(passed, end, Completion);
    FatesOf(passed, end, News);
    FatesOf(passed, end, Failed);
  }

  lemma CutOffAccounts(items: seq<Item>, tag: Tag, w: Wait)
    requires FirstStop(Seen(items, w), UntilNews) == |Seen(items, w)|
    ensures Accounts(items, tag, Waiting(items, w).left, Waiting(items, w).log)
    ensures WaitFates(Waiting(items, w))
  {
    PassedInWait(items, w, tag);
    var n := FirstStop(Seen(items, w), UntilNews);
    var passed := LogPassed(items[..n]);
    assert passed + [] == passed && items == items[..n] + items[n..];
    WaitEnds(passed, []);
  }

  lemma StoppedAccounts(items: seq<Item>, n: nat, tag: Tag, fate: Fate, result: Result<IdleResponse, Error>)
    requires n < |items| && Items(LogPassed(items[..n])) == items[..n]
    requires forall i | 0 <= i < n ::
               var e := LogPassed(items[..n])[i]; Deserved(e, tag) && (e.fate.Offered? || e.fate.Skipped?)
    requires Deserved(Entry(items[n], fate), tag)
    requires if result.Success? then fate == News && NewsItem(result.value) == [items[n]] else fate == Failed
    ensures var leg := Leg(result, items[n + 1..], LogPassed(items[..n]) + [Entry(items[n], fate)]);
            Accounts(items, tag, leg.left, leg.log) && WaitFates(leg)
  {
    var passed, end := LogPassed(items[..n]), [Entry(items[n], fate)];
    LogIsWhatWasRead(items, n, passed, end);
    DeservedAppend(passed, end, tag);
    WaitEnds(passed, end);
  }

  lemma WaitAccounts(items: seq<Item>, tag: Tag, w: Wait)
    ensures Accounts(items, tag, Waiting(items, w).left, Waiting(items, w).log)
    ensures WaitFates(Waiting(items, w))
  {
    var n := FirstStop(Seen(items, w), UntilNews);
    if n == |Seen(items, w)| {
      CutOffAccounts(items, tag, w);
    } else {
      PassedInWait(items, w, tag);
      match items[n]
      case Failure(e) => StoppedAccounts(items, n, tag, Failed, Failure(Io(e)));
      case Success(r) => StoppedAccounts(items, n, tag, News, Success(NewData(r)));
    }
  }

  // ---- Runs

  lemma {:induction false} WaitsAccount(items: seq<Item>, tag: Tag, ws: seq<Wait>)
    ensures var t := Waits(items, ws);
            && Accounts(items, tag, t.left, t.log)
            && Meeting(t.log, Awaited) == [] && Meeting(t.log, Completion) == []
            && (t.ok ==> |t.answers| == |ws|
                         && Meeting(t.log, Failed) == [] && Meeting(t.log, News) == FlatMap(t.answers, NewsItem))
    decreases |ws|
  {
    if ws != [] {
      WaitAccounts(items, tag, ws[0]);
      var leg := Waiting(items, ws[0]);
      if leg.result.Success? {
        WaitsAccount(leg.left, tag, ws[1..]);
        var more := Waits(leg.left, ws[1..]);
        AccountsAppend(items, tag, leg.left, leg.log, more.left, more.log);
        MeetingAppend(leg.log, more.log);
        FlatMapAppend([leg.result.value], more.answers, NewsItem);
        FlatMapOne(leg.result.value, NewsItem);
      }
    }
  }

  lemma MeetingAppend(log: seq<Entry>, log': seq<Entry>)
    ensures forall fate :: Meeting(log + log', fate) == Meeting(log, fate) + Meeting(log', fate)
  {
    forall fate ensures Meeting(log + log', fate) == Meeting(log, fate) + Meeting(log', fate) {
      FlatMapAppend(log, log', WithFate(fate));
    }
  }

  lemma BegunAccounts(items: seq<Item>, tag: Tag, ws: seq<Wait>)
    ensures var t := Begun(items, tag, ws); Accounts(items, tag, t.left, t.log)
  {
    InitAccounts(items, tag);
    var start := Init(items, tag);
    if start.result.Success? {
      WaitsAccountBehind(items, tag, start.left, start.log, ws);
    }
  }

  lemma WaitsAccountBehind(items: seq<Item>, tag: Tag, left: seq<Item>, log: seq<Entry>, ws: seq<Wait>)
    requires Accounts(items, tag, left, log)
    ensures Accounts(items, tag, Waits(left, ws).left, log + Waits(left, ws).log)
  {
    WaitsAccount(left, tag, ws);
    AccountsAppend(items, tag, left, log, Waits(left, ws).left, Waits(left, ws).log);
  }

  /** The fates in a run that has begun well. */
  ghost predicate BegunFates(t: Trace, ws: seq<Wait>) {
    && |Meeting(t.log, Awaited)| == 1
    && Meeting(t.log, Completion) == [] && Meeting(t.log, Failed) == []
    && |t.answers| == |ws| && Meeting(t.log, News) == FlatMap(t.answers, NewsItem)
  }

  lemma {:induction false} BegunMeets(items: seq<Item>, tag: Tag, ws: seq<Wait>)
    requires Begun(items, tag, ws).ok
    ensures BegunFates(Begun(items, tag, ws), ws)
  {
    InitAccounts(items, tag);
    var start := Init(items, tag);
    WaitsAccount(start.left, tag, ws);
    MeetingAppend(start.log, Waits(start.left, ws).log);
  }

  /** Every response read in a run of IDLE is accounted for, once and in order: as the continuation
      that was awaited, as a skipped keepalive or continuation, as offered to the queue, as news that a
      wait has returned, as the completion, or as the failure that ended the run.  A run that goes well
      has exactly one continuation awaited, exactly the news its waits have returned, and ends with
      exactly one completion, its own and good; timeouts and interrupts lose nothing. */
  lemma {:induction false} BracketAccounts(items: seq<Item>, tag: Tag, ws: seq<Wait>)
    ensures var t := Bracket(items, tag, ws);
            && Accounts(items, tag, t.left, t.log)
            && (t.ok ==>
                  && |Meeting(t.log, Awaited)| == 1
                  && |Meeting(t.log, Completion)| == 1
                  && Meeting(t.log, Failed) == []
                  && |t.answers| == |ws| && Meeting(t.log, News) == FlatMap(t.answers, NewsItem)
                  && t.log != [] && t.log[|t.log| - 1].fate == Completion)
  {
    BegunAccounts(items, tag, ws);
    var begun := Begun(items, tag, ws);
    if begun.ok {
      BegunMeets(items, tag, ws);
      FinishAccounts(begun.left, tag);
      var finish := Finish(begun.left, tag);
      AccountsAppend(items, tag, begun.left, begun.log, finish.left, finish.log);
      MeetingAppend(begun.log, finish.log);
    }
  }

  /** The waits of a run, up to the first that fails. */
  method AllWaits(handle: Handle, ws: seq<Wait>) returns (ok: bool, answers: seq<IdleResponse>)
    requires handle.ch.Valid() && handle.id.Some?
    modifies handle.stream, handle.ch
    ensures handle.ch.Valid()
    ensures var t := Waits(old(handle.stream.items), ws);
            && ok == t.ok && answers == t.answers && handle.stream.items == t.left
            && handle.ch.queue == Queued(old(handle.ch.queue), OfferedIn(t.log))
    decreases |ws|
  {
    ghost var items, queue := handle.stream.items, handle.ch.queue;
    if ws == [] {
      QueuedNone(queue);
      return true, [];
    }
    var answer := handle.WaitWithTimeout(ws[0]);
    if answer.Failure? {
      return false, [];
    }
    ghost var leg := Waiting(items, ws[0]);
    ok, answers := AllWaits(handle, ws[1..]);
    answers := [answer.value] + answers;
    OneAfterTheOther(queue, leg.log, Waits(leg.left, ws[1..]).log);
  }

  /** The part of a run before its end: start and waits. */
  method StartAndWait(handle: Handle, ws: seq<Wait>) returns (ok: bool, answers: seq<IdleResponse>)
    requires handle.ch.Valid()
    modifies handle, handle.stream, handle.wire, handle.ids, handle.ch
    ensures handle.ch.Valid()
    ensures var tag := TagOf(old(handle.ids.next) + 1);
            && handle.id == Some(tag)
            && handle.wire.out == old(handle.wire.out) + Joined([tag + " " + "IDLE"])
            && var t := Begun(old(handle.stream.items), tag, ws);
            && ok == t.ok && answers == t.answers && handle.stream.items == t.left
            && handle.ch.queue == Queued(old(handle.ch.queue), OfferedIn(t.log))
  {
    ghost var queue := handle.ch.queue;
    var started := handle.Start();
    if started.Failure? {
      return false, [];
    }
    ok, answers := AllWaits(handle, ws);
    ghost var start := Init(old(handle.stream.items), handle.id.value);
    OneAfterTheOther(queue, start.log, Waits(start.left, ws).log);
  }

  /** The result of a run, and the queue after it. */
  ghost predicate ComesTo(
      t: Trace, ok: bool, answers: seq<IdleResponse>, left: seq<Item>,
      queue: seq<Unsolicited>, queue': seq<Unsolicited>)
  {
    ok == t.ok && answers == t.answers && left == t.left && queue' == Queued(queue, OfferedIn(t.log))
  }

  lemma FinishComesTo(
      items: seq<Item>, tag: Tag, ws: seq<Wait>, queue: seq<Unsolicited>, queue': seq<Unsolicited>)
    requires Begun(items, tag, ws).ok
    requires queue' == Queued(queue, OfferedIn(Begun(items, tag, ws).log))
    ensures var begun := Begun(items, tag, ws);
            var finish := Finish(begun.left, tag);
            ComesTo(Bracket(items, tag, ws), finish.result.Success?, begun.answers, finish.left,
                    queue, Queued(queue', OfferedIn(finish.log)))
  {
    var begun := Begun(items, tag, ws);
    OneAfterTheOther(queue, begun.log, Finish(begun.left, tag).log);
  }

  /** A caller's run: what it gets, what is written, and what reaches the queue.  A run that goes well
      writes exactly the tagged IDLE and then DONE. */
  method Idle(handle: Handle, ws: seq<Wait>) returns (ok: bool, answers: seq<IdleResponse>)
    requires handle.ch.Valid()
    modifies handle, handle.stream, handle.wire, handle.ids, handle.ch
    ensures handle.ch.Valid()
    ensures ComesTo(Bracket(old(handle.stream.items), TagOf(old(handle.ids.next) + 1), ws), ok, answers,
                    handle.stream.items, old(handle.ch.queue), handle.ch.queue)
    ensures ok ==> handle.wire.out == old(handle.wire.out)
                                      + Joined([TagOf(old(handle.ids.next) + 1) + " " + "IDLE", "DONE"])
  {
    ghost var items, queue, out := handle.stream.items, handle.ch.queue, handle.wire.out;
    ghost var tag := TagOf(handle.ids.next + 1);
    ok, answers := StartAndWait(handle, ws);
    if !ok {
      assert ComesTo(Bracket(items, tag, ws), ok, answers, handle.stream.items, queue, handle.ch.queue);
      return;
    }
    FinishComesTo(items, tag, ws, queue, handle.ch.queue);
    TwoLines(out, tag + " " + "IDLE", "DONE");
    var finished := handle.Finished();
    ok := finished.Success?;
  }

  lemma TwoLines(out: string, first: string, second: string)
    ensures out + Joined([first]) + Joined([second]) == out + Joined([first, second])
  {
    JoinedAppend([first], [second]);
    assert [first] + [second] == [first, second];
  }

  lemma OneAfterTheOther(queue: seq<Unsolicited>, log: seq<Entry>, log': seq<Entry>)
    ensures Queued(Queued(queue, OfferedIn(log)), OfferedIn(log')) == Queued(queue, OfferedIn(log + log'))
  {
    FlatMapAppend(log, log', OfferedOf);
    QueuedAppend(queue, OfferedIn(log), OfferedIn(log'));
  }
}
