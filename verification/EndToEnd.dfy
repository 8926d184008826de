/** From the bytes of the network to the result of a command: how the bytes were cut up does not
    matter, nor does what goes wrong after the command has been answered. */
module EndToEnd {
  import opened Bytes
  import opened Wrappers
  import opened Parsing
  import opened Decoding
  import opened DecodingSteps
  import opened DecodingRuns
  import opened Shortcut
  import Responses
  import opened Collect
  import opened Commands
  import Collectors

  type Response = Responses.Response
  type Item = Responses.Item

  // ---- The stream that a command reads

  /** What a poll that has something to report puts into the stream. */
  function AsItem(poll: Poll<Response>): Item
    requires !poll.Pending? && !poll.End?
  {
    match poll
    case Ready(r) => Success(r)
    case IoError => Failure("input or output error")
    case UnexpectedEof => Failure("bytes remaining in stream")
    case ParseFailure => Failure("response not understood")
    case TooLarge => Failure("incoming data too large")
  }

  /** What a command sees of a run of polls: it waits while there is nothing to report, and takes the end
      of file for the end of the stream. */
  function AsItems(polls: seq<Poll<Response>>): seq<Item> {
    if polls == [] || polls[0].End? then []
    else if polls[0].Pending? then AsItems(polls[1..])
    else [AsItem(polls[0])] + AsItems(polls[1..])
  }

  function Wrapped(rs: seq<Response>): seq<Item> {
    seq(|rs|, i requires 0 <= i < |rs| => Success(rs[i]))
  }

  lemma WrappedCons(r: Response, rs: seq<Response>)
    ensures Wrapped([r] + rs) == [Success(r)] + Wrapped(rs)
  {
  }

  /** The responses among the items. */
  function Successes(items: seq<Item>): seq<Response> {
    if items == [] then []
    else (if items[0].Success? then [items[0].value] else []) + Successes(items[1..])
  }

  lemma {:induction false} ItemsAreDelivered(polls: seq<Poll<Response>>)
    ensures Successes(AsItems(polls)) <= Delivered(polls)
    ensures End !in polls ==> Successes(AsItems(polls)) == Delivered(polls)
  {
    if polls != [] && !polls[0].End? {
      ItemsAreDelivered(polls[1..]);
      if !polls[0].Pending? {
        SuccessesCons(AsItem(polls[0]), AsItems(polls[1..]));
      }
    }
  }

  lemma SuccessesCons(item: Item, items: seq<Item>)
    ensures Successes([item] + items) == (if item.Success? then [item.value] else []) + Successes(items)
  {
    assert ([item] + items)[1..] == items;
  }

  /** Whatever the network does, the responses a command sees are, in order and without a gap, what the
      one-shot parse of all bytes begins with; in a settled run without an end of file they are all of it. */
  lemma {:induction false} ItemsOfRun(p: Parser<Response>, script: seq<Event>, n: nat)
    requires Lawful(p)
    ensures var run := FromStart(p, script, n);
            && Successes(AsItems(run.polls)) <= OneShot(p, Pouring(script))
            && (Settled(run) && End !in run.polls ==> Successes(AsItems(run.polls)) == OneShot(p, Pouring(script)))
  {
    InitiallySound(p);
    var run := FromStart(p, script, n);
    ItemsAreDelivered(run.polls);
    PollsFollowOneShot(p, Skipping, INITIAL, script, n);
    assert Ahead(INITIAL, script) == Pouring(script);
    if Settled(run) {
      SettledRunIsOneShot(p, Skipping, INITIAL, script, n);
    }
  }

  // ---- Before anything goes wrong

  /** The bytes that arrive before the first read error or end of file. */
  function Untroubled(script: seq<Event>): seq<byte> {
    if script == [] || script[0].Broken? || script[0] == Chunk([]) then []
    else (if script[0].Chunk? then script[0].bytes else []) + Untroubled(script[1..])
  }

  /** The same, behind the next answer without bytes. */
  function Beyond(rest: seq<Event>): seq<byte> {
    if rest != [] && rest[0].Blocked? then Untroubled(rest[1..]) else []
  }

  lemma {:induction false} UntroubledByFront(script: seq<Event>)
    ensures Untroubled(script) == Leading(script) + Beyond(Trailing(script))
  {
    if BytesNext(script) {
      UntroubledByFront(script[1..]);
      Associative(script[0].bytes, Leading(script[1..]), Beyond(Trailing(script)));
    } else {
      assert [] + Beyond(script) == Beyond(script);
    }
  }

  /** The bytes held, and those that arrive before anything goes wrong. */
  function Good(d: Decoder, script: seq<Event>): seq<byte> {
    d.data + Untroubled(script)
  }

  lemma GoodByFront(d: Decoder, script: seq<Event>)
    ensures Good(d, script) == Front(d, script) + Beyond(Trailing(script))
  {
    UntroubledByFront(script);
    Associative(d.data, Leading(script), Beyond(Trailing(script)));
  }

  lemma {:induction false} GoodIsAhead(script: seq<Event>)
    ensures Untroubled(script) <= Pouring(script)
  {
    if script != [] && !script[0].Broken? && script[0] != Chunk([]) {
      GoodIsAhead(script[1..]);
    }
  }

  /** A response that has arrived before anything goes wrong is not refused. */
  lemma GoodIsNotRefused<R>(p: Parser<R>, policy: Policy, d: Decoder, script: seq<Event>)
    requires Lawful(p) && Sound(p, d) && p(Window(Good(d, script))).Done?
    ensures !PollStep(p, policy, d, script).poll.Sticky()
  {
    GoodIsAhead(script);
    var good, ahead := Good(d, script), Ahead(d, script);
    assert good <= ahead;
    assert Window(good) <= Window(ahead);
    Stable(p, Window(good), Window(ahead));
    NeverRefused(p, policy, d, script);
  }

  /** As long as a response has arrived before anything goes wrong, a poll delivers it or waits. */
  lemma TroubleComesLater<R>(p: Parser<R>, policy: Policy, d: Decoder, script: seq<Event>)
    requires Lawful(p) && Sound(p, d) && p(Window(Good(d, script))).Done?
    ensures var st := PollStep(p, policy, d, script);
            && (st.poll.Ready? || st.poll.Pending?)
            && Advances(p, st.poll, Good(d, script), Good(st.d, st.script))
  {
    GoodIsNotRefused(p, policy, d, script);
    PollIsExpected(p, policy, d, script);
    var st := PollStep(p, policy, d, script);
    GoodByFront(d, script);
    GoodByFront(st.d, st.script);
    ExpectedIsGood(p, Front(d, script), Trailing(script));
  }

  lemma ExpectedIsGood<R>(p: Parser<R>, front: seq<byte>, rest: seq<Event>)
    requires Lawful(p) && p(Window(front + Beyond(rest))).Done?
    ensures var e := Expected(p, front, rest);
            && (e.poll.Ready? || e.poll.Pending?)
            && Advances(p, e.poll, front + Beyond(rest), e.front + Beyond(e.rest))
  {
    var good := front + Beyond(rest);
    assert Beyond(rest) == [] ==> good == front;
    Bounds(p, Window(front));
    if p(Window(front)).Done? {
      Stable(p, Window(front), Window(good));
      var c := p(Window(front)).consumed;
      assert good[c..] == front[c..] + Beyond(rest);
    } else if rest != [] && rest[0].Blocked? {
      UntroubledByFront(rest[1..]);
      Associative(front, Leading(rest[1..]), Beyond(Trailing(rest[1..])));
    }
  }

  // ---- Commands

  /** The responses that arrive before anything goes wrong are the first that a command sees. */
  lemma {:induction false} GoodItemsComeFirst(p: Parser<Response>, d: Decoder, script: seq<Event>, n: nat)
    requires Lawful(p) && Sound(p, d) && Settled(Polls(p, Skipping, d, script, n))
    ensures Wrapped(OneShot(p, Good(d, script))) <= AsItems(Polls(p, Skipping, d, script, n).polls)
    decreases n
  {
    if p(Window(Good(d, script))).Done? {
      FirstPoll(p, Skipping, d, script, n);
      TroubleComesLater(p, Skipping, d, script);
      var st := PollStep(p, Skipping, d, script);
      OneShotStep(p, st.poll, Good(d, script), Good(st.d, st.script));
      assert st.script == [] ==> Good(st.d, st.script) == st.d.data;
      if n > 1 {
        GoodItemsComeFirst(p, st.d, st.script, n - 1);
        GoodItemFirst(st.poll, Polls(p, Skipping, st.d, st.script, n - 1).polls, OneShot(p, Good(st.d, st.script)));
      }
    }
  }

  lemma GoodItemFirst(poll: Poll<Response>, more: seq<Poll<Response>>, rs: seq<Response>)
    requires poll.Ready? || poll.Pending?
    requires Wrapped(rs) <= AsItems(more)
    ensures Wrapped(Delivered([poll]) + rs) <= AsItems([poll] + more)
  {
    ItemsStep(poll, more);
    if poll.Ready? {
      assert Delivered([poll]) == [poll.r];
      WrappedCons(poll.r, rs);
      PrefixCons(AsItem(poll), Wrapped(rs), AsItems(more));
    } else {
      assert Delivered([poll]) + rs == rs;
    }
  }

  lemma ItemsStep(poll: Poll<Response>, more: seq<Poll<Response>>)
    requires poll.Ready? || poll.Pending?
    ensures AsItems([poll] + more) == if poll.Ready? then [AsItem(poll)] + AsItems(more) else AsItems(more)
  {
    assert ([poll] + more)[1..] == more;
  }

  lemma PrefixCons(item: Item, items: seq<Item>, more: seq<Item>)
    requires items <= more
    ensures [item] + items <= [item] + more
  {
  }

  lemma PrefixStops(items: seq<Item>, more: seq<Item>, loop: Loop)
    requires FirstStop(items, loop) < |items|
    ensures var stop := FirstStop(items, loop);
            && FirstStop(items + more, loop) == stop
            && (items + more)[stop] == items[stop]
            && (items + more)[..stop] == items[..stop]
  {
    FirstStopAppend(items, more, loop);
  }

  /** What a command reads depends on the bytes alone: if what ends its loop is among the responses that
      are held or arrive before anything goes wrong, then on every settled run the loop stops there, and what it has
      passed over is what the one-shot parse has before it. */
  lemma {:induction false} CommandIgnoresChunking<T>(
      p: Parser<Response>, d: Decoder, script: seq<Event>, n: nat, loop: Loop, f: Item -> seq<T>)
    requires Lawful(p) && Sound(p, d) && Settled(Polls(p, Skipping, d, script, n))
    requires var items := Wrapped(OneShot(p, Good(d, script))); FirstStop(items, loop) < |items|
    ensures var items, seen := Wrapped(OneShot(p, Good(d, script))), AsItems(Polls(p, Skipping, d, script, n).polls);
            var stop := FirstStop(items, loop);
            && FirstStop(seen, loop) == stop < |seen|
            && seen[stop] == items[stop]
            && seen[..stop] == items[..stop]
            && FlatMap(seen[..stop], f) == FlatMap(items[..stop], f)
  {
    GoodItemsComeFirst(p, d, script, n);
    var items, seen := Wrapped(OneShot(p, Good(d, script))), AsItems(Polls(p, Skipping, d, script, n).polls);
    assert seen == items + seen[|items|..];
    PrefixStops(items, seen[|items|..], loop);
  }

  /** In particular the result of a search on a new connection. */
  lemma {:induction false} SearchIgnoresChunking(p: Parser<Response>, script: seq<Event>, n: nat, tag: Responses.Tag)
    requires Lawful(p) && Settled(FromStart(p, script, n))
    requires var items := Wrapped(OneShot(p, Untroubled(script))); FirstStop(items, UntilDone(tag)) < |items|
    ensures Searched(AsItems(FromStart(p, script, n).polls), tag)
            == Searched(Wrapped(OneShot(p, Untroubled(script))), tag)
  {
    InitiallySound(p);
    assert Good(INITIAL, script) == Untroubled(script);
    CommandIgnoresChunking(p, INITIAL, script, n, UntilDone(tag), Collectors.IdsOf);
  }

  // ---- Several commands

  /** What a command has read, whether that has ended its loop, and what it leaves. */
  datatype Taken = Taken(read: seq<Item>, stopped: bool, d: Decoder, script: seq<Event>)

  /** A command polls, at most `n` times, until what it reads ends its loop. */
  function ReadCommand(p: Parser<Response>, d: Decoder, script: seq<Event>, loop: Loop, n: nat): (t: Taken)
    requires Lawful(p) && Sound(p, d)
    ensures Sound(p, t.d)
    decreases n
  {
    if n == 0 then Taken([], false, d, script)
    else
      PollAdvances(p, Skipping, d, script);
      var st := PollStep(p, Skipping, d, script);
      if st.poll.End? then Taken([], false, st.d, st.script)
      else if st.poll.Pending? then ReadCommand(p, st.d, st.script, loop, n - 1)
      else if Stops(loop, AsItem(st.poll)) then Taken([AsItem(st.poll)], true, st.d, st.script)
      else
        var more := ReadCommand(p, st.d, st.script, loop, n - 1);
        more.(read := [AsItem(st.poll)] + more.read)
  }

  /** What commands read, one after the other, each beginning with what the one before it leaves. */
  function ReadCommands(p: Parser<Response>, d: Decoder, script: seq<Event>, loops: seq<Loop>, n: nat): seq<seq<Item>>
    requires Lawful(p) && Sound(p, d)
    decreases |loops|
  {
    if loops == [] then []
    else
      var t := ReadCommand(p, d, script, loops[0], n);
      [t.read] + ReadCommands(p, t.d, t.script, loops[1..], n)
  }

  /** What a loop reads of a stream, whether that ends it, and what it leaves. */
  datatype Segment = Segment(read: seq<Item>, stopped: bool, left: seq<Item>)

  /** The items up to and with the one that ends the loop. */
  function SegmentOf(items: seq<Item>, loop: Loop): Segment {
    var stop := FirstStop(items, loop);
    if stop < |items| then Segment(items[..stop + 1], true, items[stop + 1..]) else Segment(items, false, [])
  }

  /** What each loop in turn reads. */
  function Segments(items: seq<Item>, loops: seq<Loop>): seq<seq<Item>>
    decreases |loops|
  {
    if loops == [] then []
    else [SegmentOf(items, loops[0]).read] + Segments(SegmentOf(items, loops[0]).left, loops[1..])
  }

  /** Every loop in turn is ended by an item. */
  predicate AllStop(items: seq<Item>, loops: seq<Loop>)
    decreases |loops|
  {
    loops == [] || (SegmentOf(items, loops[0]).stopped && AllStop(SegmentOf(items, loops[0]).left, loops[1..]))
  }

  /** What is still to come before anything goes wrong, as items. */
  function GoodItems(p: Parser<Response>, d: Decoder, script: seq<Event>): seq<Item>
    requires Lawful(p)
  {
    Wrapped(OneShot(p, Good(d, script)))
  }

  /** Enough polls for whatever the bytes and answers ahead hold. */
  function Enough(d: Decoder, script: seq<Event>): nat {
    |Ahead(d, script)| + |script| + 1
  }

  /** While an item is to come before anything goes wrong, a poll brings it or brings it nearer. */
  lemma OnePollOn(p: Parser<Response>, d: Decoder, script: seq<Event>)
    requires Lawful(p) && Sound(p, d) && GoodItems(p, d, script) != []
    ensures var st := PollStep(p, Skipping, d, script);
            && Sound(p, st.d) && Enough(st.d, st.script) < Enough(d, script)
            && (st.poll.Ready? || st.poll.Pending?)
            && (st.poll.Ready? ==> GoodItems(p, d, script) == [AsItem(st.poll)] + GoodItems(p, st.d, st.script))
            && (st.poll.Pending? ==> GoodItems(p, d, script) == GoodItems(p, st.d, st.script))
  {
    TroubleComesLater(p, Skipping, d, script);
    PollAdvances(p, Skipping, d, script);
    PollMakesProgress(p, Skipping, d, script);
    var st := PollStep(p, Skipping, d, script);
    OneShotStep(p, st.poll, Good(d, script), Good(st.d, st.script));
    var rest := OneShot(p, Good(st.d, st.script));
    assert st.script == [] ==> Good(st.d, st.script) == st.d.data;
    if st.poll.Ready? {
      assert Delivered([st.poll]) == [st.poll.r];
      WrappedCons(st.poll.r, rest);
    } else {
      assert Delivered([st.poll]) + rest == rest;
    }
  }

  lemma SegmentCons(item: Item, items: seq<Item>, loop: Loop)
    ensures SegmentOf([item] + items, loop) ==
              if Stops(loop, item) then Segment([item], true, items)
              else
                var more := SegmentOf(items, loop);
                more.(read := [item] + more.read)
  {
    var all, stop := [item] + items, FirstStop(items, loop);
    assert all[1..] == items && all[..1] == [item];
    if !Stops(loop, item) && stop < |items| {
      assert all[..stop + 2] == [item] + items[..stop + 1] && all[stop + 2..] == items[stop + 1..];
    }
  }

  /** What a command has read and leaves, as items. */
  function Reading(p: Parser<Response>, t: Taken): Segment
    requires Lawful(p)
  {
    Segment(t.read, t.stopped, GoodItems(p, t.d, t.script))
  }

  lemma CommandStep(p: Parser<Response>, d: Decoder, script: seq<Event>, loop: Loop, n: nat)
    requires Lawful(p) && Sound(p, d) && Sound(p, PollStep(p, Skipping, d, script).d) && n > 0
    requires var st := PollStep(p, Skipping, d, script); st.poll.Ready? || st.poll.Pending?
    ensures var st := PollStep(p, Skipping, d, script);
            ReadCommand(p, d, script, loop, n) ==
              if st.poll.Pending? then ReadCommand(p, st.d, st.script, loop, n - 1)
              else if Stops(loop, AsItem(st.poll)) then Taken([AsItem(st.poll)], true, st.d, st.script)
              else
                var more := ReadCommand(p, st.d, st.script, loop, n - 1);
                more.(read := [AsItem(st.poll)] + more.read)
  {
  }

  /** A command reads just through what ends its loop, and leaves the rest. */
  ghost predicate ReadsItsOwn(p: Parser<Response>, d: Decoder, script: seq<Event>, loop: Loop, n: nat)
    requires Lawful(p) && Sound(p, d)
  {
    Reading(p, ReadCommand(p, d, script, loop, n)) == SegmentOf(GoodItems(p, d, script), loop)
  }

  /** The loop has an end among the items to come before anything goes wrong. */
  predicate EndsIn(p: Parser<Response>, d: Decoder, script: seq<Event>, loop: Loop)
    requires Lawful(p)
  {
    SegmentOf(GoodItems(p, d, script), loop).stopped
  }

  /** One poll brings the end of the loop, or the end is still to come, and one poll more is needed. */
  lemma OnePollRead(p: Parser<Response>, d: Decoder, script: seq<Event>, loop: Loop, n: nat)
    requires Lawful(p) && Sound(p, d) && EndsIn(p, d, script, loop) && n > 0
    ensures var st := PollStep(p, Skipping, d, script);
            && Sound(p, st.d) && Enough(st.d, st.script) < Enough(d, script)
            && (ReadsItsOwn(p, d, script, loop, n)
                || (EndsIn(p, st.d, st.script, loop)
                    && (ReadsItsOwn(p, st.d, st.script, loop, n - 1) ==> ReadsItsOwn(p, d, script, loop, n))))
  {
    OnePollOn(p, d, script);
    CommandStep(p, d, script, loop, n);
    var st := PollStep(p, Skipping, d, script);
    if st.poll.Ready? {
      SegmentCons(AsItem(st.poll), GoodItems(p, st.d, st.script), loop);
    }
  }

  /** As long as the end of its loop is to come before anything goes wrong, a command reads its own. */
  lemma {:induction false} ReadsItsSegment(p: Parser<Response>, d: Decoder, script: seq<Event>, loop: Loop, n: nat)
    requires Lawful(p) && Sound(p, d) && n >= Enough(d, script) && EndsIn(p, d, script, loop)
    ensures ReadsItsOwn(p, d, script, loop, n)
    decreases n
  {
    OnePollRead(p, d, script, loop, n);
    var st := PollStep(p, Skipping, d, script);
    if EndsIn(p, st.d, st.script, loop) {
      ReadsItsSegment(p, st.d, st.script, loop, n - 1);
    }
  }

  lemma {:induction false} EnoughForMore(p: Parser<Response>, d: Decoder, script: seq<Event>, loop: Loop, n: nat)
    requires Lawful(p) && Sound(p, d)
    ensures var t := ReadCommand(p, d, script, loop, n); Enough(t.d, t.script) <= Enough(d, script)
    decreases n
  {
    if n > 0 {
      AheadShrinks(p, d, script);
      var st := PollStep(p, Skipping, d, script);
      EnoughForMore(p, st.d, st.script, loop, n - 1);
    }
  }

  lemma AheadShrinks(p: Parser<Response>, d: Decoder, script: seq<Event>)
    requires Lawful(p) && Sound(p, d)
    ensures var st := PollStep(p, Skipping, d, script); Sound(p, st.d) && Enough(st.d, st.script) <= Enough(d, script)
  {
    PollAdvances(p, Skipping, d, script);
    Bounds(p, Window(Ahead(d, script)));
  }

  /** Commands read one after the other split the one-shot parse between them, however the bytes are cut up:
      each reads from where the one before it has stopped through what ends its own loop, as long as all
      that arrives before anything goes wrong. */
  lemma {:induction false} CommandsIgnoreChunking(
      p: Parser<Response>, d: Decoder, script: seq<Event>, loops: seq<Loop>, n: nat)
    requires Lawful(p) && Sound(p, d) && n >= Enough(d, script)
    requires AllStop(GoodItems(p, d, script), loops)
    ensures ReadCommands(p, d, script, loops, n) == Segments(GoodItems(p, d, script), loops)
    decreases |loops|
  {
    if loops != [] {
      ReadsItsSegment(p, d, script, loops[0], n);
      EnoughForMore(p, d, script, loops[0], n);
      var t := ReadCommand(p, d, script, loops[0], n);
      CommandsIgnoreChunking(p, t.d, t.script, loops[1..], n);
    }
  }
}
