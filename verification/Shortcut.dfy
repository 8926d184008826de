/** What skipping attempts to decode changes: what a poll reports depends on the bytes that arrive
    before the next answer without bytes, however often the parser is called on them. */
module Shortcut {
  import opened Bytes
  import opened Wrappers
  import opened Parsing
  import opened Decoding
  import opened DecodingSteps
  import opened DecodingRuns
  import opened Endings
  import opened EndingRuns

  // ---- What a poll has to go by

  /** The next answer brings bytes. */
  predicate BytesNext(script: seq<Event>) {
    script != [] && script[0].Chunk? && script[0].bytes != []
  }

  /** The bytes that arrive before the next answer without bytes. */
  function Leading(script: seq<Event>): seq<byte> {
    if BytesNext(script) then script[0].bytes + Leading(script[1..]) else []
  }

  /** The answers from the next one without bytes on. */
  function Trailing(script: seq<Event>): seq<Event> {
    if BytesNext(script) then Trailing(script[1..]) else script
  }

  /** The bytes held, and those that arrive before the next answer without bytes. */
  function Front(d: Decoder, script: seq<Event>): seq<byte> {
    d.data + Leading(script)
  }

  /** What is reported for an answer without bytes: end of file is an error exactly when bytes are
      held. */
  function EmptyReport<R>(e: Event, data: seq<byte>): Poll<R> {
    match e
    case Blocked => Pending
    case Broken => IoError
    case Chunk(_) => if data == [] then End else UnexpectedEof
  }

  /** What a poll reports, the front after it, and the answers behind that. */
  datatype Outlook<+R> = Outlook(poll: Poll<R>, front: seq<byte>, rest: seq<Event>)

  /** The report of a poll by front and rest alone: the response that the front begins with, or else
      what comes behind the front. */
  function Expected<R>(p: Parser<R>, front: seq<byte>, rest: seq<Event>): Outlook<R>
    requires Lawful(p)
  {
    Bounds(p, Window(front));
    match p(Window(front))
    case Done(c, r) => Outlook(Ready(r), front[c..], rest)
    case _ =>
      if rest == [] then Outlook(Pending, front, [])
      else Outlook(EmptyReport(rest[0], front), front + Leading(rest[1..]), Trailing(rest[1..]))
  }

  function OutlookOf<R>(st: Step<R>): Outlook<R> {
    Outlook(st.poll, Front(st.d, st.script), Trailing(st.script))
  }

  /** A poll reports what is expected, and leaves it to be expected what is left; or it fails for good,
      and leaves all as it was.  A poll that waits has seen the whole front. */
  ghost predicate AsExpected<R>(p: Parser<R>, front: seq<byte>, rest: seq<Event>, st: Step<R>)
    requires Lawful(p)
  {
    && (if st.poll.Sticky() then OutlookOf(st) == Outlook(st.poll, front, rest)
        else OutlookOf(st) == Expected(p, front, rest))
    && (!st.poll.Sticky() && !st.poll.Ready? ==> st.d.data == front)
  }

  // ---- One poll

  lemma {:induction false} LeadingCons(e: Event, script: seq<Event>)
    requires e.Chunk? && e.bytes != []
    ensures Leading([e] + script) == e.bytes + Leading(script) && Trailing([e] + script) == Trailing(script)
  {
    assert ([e] + script)[1..] == script;
  }

  lemma {:induction false} ReadMovesFront(script: seq<Event>, room: nat)
    requires room > 0
    ensures var (e, rest) := Read(script, room);
            if e.Chunk? && e.bytes != [] then
              Leading(script) == e.bytes + Leading(rest) && Trailing(script) == Trailing(rest)
            else
              && Leading(script) == [] && Trailing(script) == script
              && (script == [] ==> e == Blocked && rest == [])
              && (script != [] ==> e == script[0] && rest == script[1..])
  {
    if BytesNext(script) && |script[0].bytes| > room {
      var bytes, tail := script[0].bytes, script[1..];
      LeadingCons(Chunk(bytes[room..]), tail);
      Associative(bytes[..room], bytes[room..], Leading(tail));
      assert bytes == bytes[..room] + bytes[room..];
    }
  }

  /** One round of the loop reports what is expected, or leaves all to go by as it was. */
  ghost predicate GoesBy<R>(p: Parser<R>, front: seq<byte>, rest: seq<Event>, round: Round<R>)
    requires Lawful(p)
  {
    match round
    case Report(st) => AsExpected(p, front, rest, st)
    case Again(d, script) => Front(d, script) == front && Trailing(script) == rest
  }

  /** A response found in the bytes held is the one the front begins with. */
  lemma AttemptIsExpected<R>(p: Parser<R>, policy: Policy, d: Decoder, script: seq<Event>)
    requires Lawful(p) && Sound(p, d)
    ensures GoesBy(p, Front(d, script), Trailing(script), AttemptRound(p, policy, d, script))
  {
    AttemptIsSound(p, policy, d);
    if Attempt(p, policy, d).1.Response? {
      Bounds(p, d.data);
      Stable(p, d.data, Window(Front(d, script)));
    }
  }

  /** Bytes received move from the front to the block. */
  lemma FrontStays<R>(p: Parser<R>, d: Decoder, script: seq<Event>)
    requires Lawful(p) && Sound(p, d) && |d.data| < d.capacity
    ensures var (e, rest) := Read(script, d.capacity - |d.data|);
            e.Chunk? && e.bytes != [] ==>
              var fuller := d.(data := d.data + e.bytes);
              && Sound(p, fuller)
              && Front(d, script) == Front(fuller, rest) && Trailing(script) == Trailing(rest)
  {
    ReadMovesFront(script, d.capacity - |d.data|);
    Received(p, d, script);
    var (e, rest) := Read(script, d.capacity - |d.data|);
    if e.Chunk? {
      Associative(d.data, e.bytes, Leading(rest));
    }
  }

  /** An answer without bytes is reported as expected. */
  lemma EmptyIsExpected<R>(p: Parser<R>, policy: Policy, d: Decoder, script: seq<Event>)
    requires Lawful(p) && Sound(p, d) && !p(d.data).Done? && |d.data| < d.capacity
    requires var e := Read(script, d.capacity - |d.data|).0; e.Chunk? ==> e.bytes == []
    ensures GoesBy(p, Front(d, script), Trailing(script), ReadAndAttempt(p, policy, d, script))
  {
    ReadMovesFront(script, d.capacity - |d.data|);
    assert d.data + [] == d.data;
  }

  lemma BytesAreExpected<R>(p: Parser<R>, policy: Policy, d: Decoder, script: seq<Event>)
    requires Lawful(p) && Sound(p, d) && |d.data| < d.capacity
    requires var e := Read(script, d.capacity - |d.data|).0; e.Chunk? && e.bytes != []
    ensures var (e, rest) := Read(script, d.capacity - |d.data|);
            GoesBy(p, Front(d, script), Trailing(script), AttemptRound(p, policy, d.(data := d.data + e.bytes), rest))
  {
    FrontStays(p, d, script);
    var (e, rest) := Read(script, d.capacity - |d.data|);
    AttemptIsExpected(p, policy, d.(data := d.data + e.bytes), rest);
  }

  lemma ReadIsExpected<R>(p: Parser<R>, policy: Policy, d: Decoder, script: seq<Event>)
    requires Lawful(p) && Sound(p, d) && !p(d.data).Done? && |d.data| < d.capacity
    ensures GoesBy(p, Front(d, script), Trailing(script), ReadAndAttempt(p, policy, d, script))
  {
    var e := Read(script, d.capacity - |d.data|).0;
    if e.Chunk? && e.bytes != [] {
      AttemptsOnBytes(p, policy, d, script);
      BytesAreExpected(p, policy, d, script);
    } else {
      EmptyIsExpected(p, policy, d, script);
    }
  }

  lemma RoundIsExpected<R>(p: Parser<R>, policy: Policy, d: Decoder, script: seq<Event>)
    requires Lawful(p) && Sound(p, d) && !p(d.data).Done?
    ensures GoesBy(p, Front(d, script), Trailing(script), OneRound(p, policy, d, script))
  {
    EnsuredIsEnough(|d.data|, d.capacity, d.needs);
    match Ensured(|d.data|, d.capacity, d.needs)
    case None =>
    case Some(capacity) =>
      ReadIsExpected(p, policy, d.(capacity := capacity), script);
  }

  lemma {:induction false} ReadLoopIsExpected<R>(p: Parser<R>, policy: Policy, d: Decoder, script: seq<Event>)
    requires Lawful(p) && Sound(p, d) && !p(d.data).Done?
    ensures AsExpected(p, Front(d, script), Trailing(script), ReadLoop(p, policy, d, script))
    decreases |Pouring(script)|
  {
    RoundShrinks(p, policy, d, script);
    RoundAdvances(p, policy, d, script);
    RoundIsExpected(p, policy, d, script);
    match OneRound(p, policy, d, script)
    case Report(st) =>
    case Again(d', rest) => ReadLoopIsExpected(p, policy, d', rest);
  }

  /** What a poll reports depends only on the bytes before the next answer without bytes and on the
      answers from there on, unless it fails for good. */
  lemma PollIsExpected<R>(p: Parser<R>, policy: Policy, d: Decoder, script: seq<Event>)
    requires Lawful(p) && Sound(p, d)
    ensures AsExpected(p, Front(d, script), Trailing(script), PollStep(p, policy, d, script))
  {
    AttemptAdvances(p, policy, d, script);
    AttemptIsExpected(p, policy, d, script);
    match AttemptRound(p, policy, d, script)
    case Report(st) =>
    case Again(d', rest) => ReadLoopIsExpected(p, policy, d', rest);
  }

  // ---- Two runs

  /** Two decoders that have the same to go by. */
  ghost predicate SameFront(d: Decoder, script: seq<Event>, d': Decoder, script': seq<Event>) {
    Front(d, script) == Front(d', script') && Trailing(script) == Trailing(script')
  }

  lemma {:induction false} AheadIsFront(d: Decoder, script: seq<Event>)
    ensures Ahead(d, script) == Front(d, script) + Pouring(Trailing(script))
    decreases |script|
  {
    PouringByFront(script);
    Associative(d.data, Leading(script), Pouring(Trailing(script)));
  }

  lemma {:induction false} PouringByFront(script: seq<Event>)
    ensures Pouring(script) == Leading(script) + Pouring(Trailing(script))
  {
    if BytesNext(script) {
      PouringByFront(script[1..]);
      Associative(script[0].bytes, Leading(script[1..]), Pouring(Trailing(script)));
    } else {
      assert [] + Pouring(script) == Pouring(script);
    }
  }

  /** Reports after which two runs may part, the first under `policy`: an error that is final in either.
      If the first always calls the parser, a parse failure in the second is none without one in the first. */
  predicate Part<R>(policy: Policy, x: Poll<R>, y: Poll<R>) {
    x.Sticky() || y.TooLarge? || (policy != Eager && y.ParseFailure?)
  }

  /** Reports agree until the runs may part. */
  ghost predicate Agree<R>(policy: Policy, xs: seq<Poll<R>>, ys: seq<Poll<R>>)
    requires |xs| == |ys|
  {
    forall k | 0 <= k < |xs| :: xs[k] == ys[k] || exists j :: 0 <= j <= k && Part(policy, xs[j], ys[j])
  }

  lemma AgreementExtends<R>(policy: Policy, xs: seq<Poll<R>>, ys: seq<Poll<R>>)
    requires |xs| == |ys| > 0 && xs[0] == ys[0]
    requires Agree(policy, xs[1..], ys[1..])
    ensures Agree(policy, xs, ys)
  {
    forall k | 0 <= k < |xs| ensures xs[k] == ys[k] || exists j :: 0 <= j <= k && Part(policy, xs[j], ys[j]) {
      if k > 0 && xs[k] != ys[k] {
        assert xs[1..][k - 1] != ys[1..][k - 1];
        var j :| 0 <= j <= k - 1 && Part(policy, xs[1..][j], ys[1..][j]);
        assert Part(policy, xs[j + 1], ys[j + 1]);
      }
    }
  }

  /** Two runs that begin with the same report agree if the rest of them do. */
  lemma AgreementStep<R>(
      policy: Policy, xs: seq<Poll<R>>, ys: seq<Poll<R>>, poll: Poll<R>, more: seq<Poll<R>>, more': seq<Poll<R>>)
    requires Joins(xs, poll, more) && Joins(ys, poll, more') && |more| == |more'|
    requires Agree(policy, more, more')
    ensures Agree(policy, xs, ys)
  {
    AgreementExtends(policy, xs, ys);
  }

  /** Once a poll fails for good, no run over the same bytes delivers anything. */
  lemma FailedDeliversNothing<R>(
      p: Parser<R>, policy: Policy, d: Decoder, script: seq<Event>,
      policy': Policy, d': Decoder, script': seq<Event>, n: nat)
    requires Lawful(p) && Sound(p, d) && Sound(p, d')
    requires PollStep(p, policy, d, script).poll.Sticky()
    requires Ahead(d, script) == Ahead(d', script')
    ensures Delivered(Polls(p, policy', d', script', n).polls) == []
  {
    PollAdvances(p, policy, d, script);
    NothingAhead(p, PollStep(p, policy, d, script));
    PollsFollowOneShot(p, policy', d', script', n);
  }

  /** A decoder that always calls the parser fails for good no later than another one finds that the
      bytes cannot be parsed. */
  lemma EagerSeesFailure<R>(
      p: Parser<R>, d: Decoder, script: seq<Event>, policy: Policy, d': Decoder, script': seq<Event>)
    requires Lawful(p) && Sound(p, d) && Sound(p, d') && SameFront(d, script, d', script')
    requires PollStep(p, policy, d', script').poll.ParseFailure?
    ensures PollStep(p, Eager, d, script).poll.Sticky()
  {
    PollAdvances(p, policy, d', script');
    PollIsExpected(p, policy, d', script');
    PollIsExpected(p, Eager, d, script);
    PollRests(p, Eager, d, script);
    PollAdvances(p, Eager, d, script);
    var front, held := Front(d, script), PollStep(p, policy, d', script').d.data;
    assert held <= front;
    Stable(p, held, front);
    Stable(p, held, Window(front));
  }

  /** Two polls with the same to go by report the same and leave the same to go by, or the runs may part
      here. */
  lemma PollsAgree<R>(
      p: Parser<R>, policy: Policy, d: Decoder, script: seq<Event>,
      policy': Policy, d': Decoder, script': seq<Event>)
    requires Lawful(p) && Sound(p, d) && Sound(p, d') && SameFront(d, script, d', script')
    ensures var st, st' := PollStep(p, policy, d, script), PollStep(p, policy', d', script');
            if st.poll.Sticky() || st'.poll.Sticky() then Part(policy, st.poll, st'.poll)
            else st.poll == st'.poll && SameFront(st.d, st.script, st'.d, st'.script)
  {
    PollIsExpected(p, policy, d, script);
    PollIsExpected(p, policy', d', script');
    if policy == Eager && PollStep(p, policy', d', script').poll.ParseFailure? {
      EagerSeesFailure(p, d, script, policy', d', script');
    }
  }

  /** Two runs with the same to go by deliver the same. */
  lemma {:induction false} RunsDeliverAlike<R>(
      p: Parser<R>, policy: Policy, d: Decoder, script: seq<Event>,
      policy': Policy, d': Decoder, script': seq<Event>, n: nat)
    requires Lawful(p) && Sound(p, d) && Sound(p, d') && SameFront(d, script, d', script')
    ensures Delivered(Polls(p, policy, d, script, n).polls) == Delivered(Polls(p, policy', d', script', n).polls)
    decreases n
  {
    if n > 0 {
      PollsAgree(p, policy, d, script, policy', d', script');
      var st, st' := PollStep(p, policy, d, script), PollStep(p, policy', d', script');
      if st.poll.Sticky() || st'.poll.Sticky() {
        NeitherDelivers(p, policy, d, script, policy', d', script', n);
      } else {
        FirstPoll(p, policy, d, script, n);
        FirstPoll(p, policy', d', script', n);
        RunsDeliverAlike(p, policy, st.d, st.script, policy', st'.d, st'.script, n - 1);
      }
    }
  }

  lemma NeitherDelivers<R>(
      p: Parser<R>, policy: Policy, d: Decoder, script: seq<Event>,
      policy': Policy, d': Decoder, script': seq<Event>, n: nat)
    requires Lawful(p) && Sound(p, d) && Sound(p, d') && SameFront(d, script, d', script')
    requires PollStep(p, policy, d, script).poll.Sticky() || PollStep(p, policy', d', script').poll.Sticky()
    ensures Delivered(Polls(p, policy, d, script, n).polls) == []
    ensures Delivered(Polls(p, policy', d', script', n).polls) == []
  {
    AheadIsFront(d, script);
    AheadIsFront(d', script');
    if PollStep(p, policy, d, script).poll.Sticky() {
      FailedDeliversNothing(p, policy, d, script, policy, d, script, n);
      FailedDeliversNothing(p, policy, d, script, policy', d', script', n);
    } else {
      FailedDeliversNothing(p, policy', d', script', policy, d, script, n);
      FailedDeliversNothing(p, policy', d', script', policy', d', script', n);
    }
  }

  /** They also report the same, poll by poll, until they may part, whatever they hold already, however the
      bytes are cut up and however often the parser is called. */
  lemma {:induction false} RunsAgree<R>(
      p: Parser<R>, policy: Policy, d: Decoder, script: seq<Event>,
      policy': Policy, d': Decoder, script': seq<Event>, n: nat)
    requires Lawful(p) && Sound(p, d) && Sound(p, d') && SameFront(d, script, d', script')
    ensures Agree(policy, Polls(p, policy, d, script, n).polls, Polls(p, policy', d', script', n).polls)
    decreases n
  {
    if n > 0 {
      PollsAgree(p, policy, d, script, policy', d', script');
      FirstPoll(p, policy, d, script, n);
      FirstPoll(p, policy', d', script', n);
      var st, st' := PollStep(p, policy, d, script), PollStep(p, policy', d', script');
      var xs, ys := Polls(p, policy, d, script, n).polls, Polls(p, policy', d', script', n).polls;
      if Part(policy, st.poll, st'.poll) {
        PartAtOnce(policy, xs, ys);
      } else {
        RunsAgree(p, policy, st.d, st.script, policy', st'.d, st'.script, n - 1);
        AgreementStep(policy, xs, ys, st.poll, Polls(p, policy, st.d, st.script, n - 1).polls,
                      Polls(p, policy', st'.d, st'.script, n - 1).polls);
      }
    }
  }

  lemma PartAtOnce<R>(policy: Policy, xs: seq<Poll<R>>, ys: seq<Poll<R>>)
    requires |xs| == |ys| > 0 && Part(policy, xs[0], ys[0])
    ensures Agree(policy, xs, ys)
  {
  }

  // ---- With and without the shortcut

  /** Skipping attempts is a sound shortcut.  With and without it the same responses are delivered, and
      poll by poll the reports are the same, until without it an error is final or with it the data is
      found too large; a parse failure never shows first with the shortcut. */
  lemma ShortcutIsSound<R>(
      p: Parser<R>, d: Decoder, script: seq<Event>, d': Decoder, script': seq<Event>, n: nat)
    requires Lawful(p) && Sound(p, d) && Sound(p, d') && SameFront(d, script, d', script')
    ensures var eager, skipping := Polls(p, Eager, d, script, n).polls, Polls(p, Skipping, d', script', n).polls;
            && Delivered(eager) == Delivered(skipping)
            && forall k | 0 <= k < n ::
                 eager[k] == skipping[k] || exists j :: 0 <= j <= k && (eager[j].Sticky() || skipping[j].TooLarge?)
  {
    RunsDeliverAlike(p, Eager, d, script, Skipping, d', script', n);
    RunsAgree(p, Eager, d, script, Skipping, d', script', n);
  }

  /** The hint of `p` on `b` is one that the largest block can hold, and then it is steady. */
  ghost predicate SteadyWithinOn<R>(p: Parser<R>, b: seq<byte>, more: seq<byte>) {
    p(b).NeedSize? && |b| + p(b).more <= MAX_CAPACITY ==> SteadyOn(p, b, more)
  }

  /** Hints that the largest block can hold are steady. */
  ghost predicate SteadyWithin<R>(p: Parser<R>) {
    forall b, more :: SteadyWithinOn(p, b, more)
  }

  lemma SteadyIsWithin<R>(p: Parser<R>)
    requires Steady(p)
    ensures SteadyWithin(p)
  {
    forall b, more ensures SteadyWithinOn(p, b, more) {
      assert SteadyOn(p, b, more);
    }
  }

  /** While fewer bytes have come than the decoder waits for, the parser would ask for just the rest. */
  ghost predicate Kept<R>(p: Parser<R>, d: Decoder) {
    |d.data| < d.needs ==> p(d.data) == NeedSize(d.needs - |d.data|)
  }

  /** What a skipped attempt would have come to: it makes a difference exactly if the parser would not
      have asked for just the rest. */
  lemma AttemptsAgreeIff<R>(p: Parser<R>, b: seq<byte>, more: seq<byte>, capacity: nat)
    requires Lawful(p) && p(b).NeedSize? && |more| < p(b).more
    ensures var d := Decoder(b + more, capacity, |b| + p(b).more);
            Attempt(p, Eager, d) == Attempt(p, Skipping, d) <==> SteadyOn(p, b, more)
  {
    Stable(p, b, b + more);
  }

  /** The same whatever the policy, and the hint is kept. */
  ghost predicate SameRound<R>(p: Parser<R>, eager: Round<R>, skipping: Round<R>) {
    eager == skipping && Kept(p, Afterwards(skipping))
  }

  lemma AttemptsAgree<R>(p: Parser<R>, d: Decoder, script: seq<Event>)
    requires Lawful(p) && Kept(p, d)
    ensures SameRound(p, AttemptRound(p, Eager, d, script), AttemptRound(p, Skipping, d, script))
  {
    Bounds(p, d.data);
  }

  lemma MoreIsKept<R>(p: Parser<R>, d: Decoder, bytes: seq<byte>)
    requires SteadyWithin(p) && Kept(p, d) && d.needs <= MAX_CAPACITY
    ensures Kept(p, d.(data := d.data + bytes))
  {
    assert SteadyWithinOn(p, d.data, bytes);
  }

  lemma ReadsAgree<R>(p: Parser<R>, d: Decoder, script: seq<Event>)
    requires Lawful(p) && SteadyWithin(p) && Kept(p, d)
    requires d.needs <= MAX_CAPACITY && |d.data| < d.capacity
    ensures SameRound(p, ReadAndAttempt(p, Eager, d, script), ReadAndAttempt(p, Skipping, d, script))
  {
    var (e, rest) := Read(script, d.capacity - |d.data|);
    if e.Chunk? && e.bytes != [] {
      AttemptsOnBytes(p, Eager, d, script);
      AttemptsOnBytes(p, Skipping, d, script);
      MoreIsKept(p, d, e.bytes);
      AttemptsAgree(p, d.(data := d.data + e.bytes), rest);
    }
  }

  lemma RoundsAgree<R>(p: Parser<R>, d: Decoder, script: seq<Event>)
    requires Lawful(p) && SteadyWithin(p) && Roomy(d) && Kept(p, d)
    ensures SameRound(p, OneRound(p, Eager, d, script), OneRound(p, Skipping, d, script))
  {
    EnsuredIsEnough(|d.data|, d.capacity, d.needs);
    match Ensured(|d.data|, d.capacity, d.needs)
    case None =>
    case Some(capacity) => ReadsAgree(p, d.(capacity := capacity), script);
  }

  lemma {:induction false} ReadLoopsAgree<R>(p: Parser<R>, d: Decoder, script: seq<Event>)
    requires Lawful(p) && SteadyWithin(p) && Roomy(d) && Kept(p, d)
    ensures ReadLoop(p, Eager, d, script) == ReadLoop(p, Skipping, d, script)
    ensures Kept(p, ReadLoop(p, Skipping, d, script).d)
    decreases |Pouring(script)|
  {
    RoundShrinks(p, Skipping, d, script);
    RoundsAgree(p, d, script);
    match OneRound(p, Skipping, d, script)
    case Report(st) =>
    case Again(d', rest) => ReadLoopsAgree(p, d', rest);
  }

  lemma PollsCoincide<R>(p: Parser<R>, d: Decoder, script: seq<Event>)
    requires Lawful(p) && SteadyWithin(p) && Roomy(d) && Kept(p, d)
    ensures PollStep(p, Eager, d, script) == PollStep(p, Skipping, d, script)
    ensures Kept(p, PollStep(p, Skipping, d, script).d)
  {
    AttemptKeepsRoom(p, Skipping, d);
    AttemptsAgree(p, d, script);
    match AttemptRound(p, Skipping, d, script)
    case Report(st) =>
    case Again(d', rest) => ReadLoopsAgree(p, d', rest);
  }

  /** If the hints that a block can hold are steady, the shortcut changes nothing at all: neither what is
      reported, final errors included, nor what is read, nor the decoder. */
  lemma {:induction false} ShortcutIsInvisible<R>(p: Parser<R>, d: Decoder, script: seq<Event>, n: nat)
    requires Lawful(p) && SteadyWithin(p) && Sound(p, d) && Kept(p, d)
    ensures Polls(p, Eager, d, script, n) == Polls(p, Skipping, d, script, n)
    decreases n
  {
    if n > 0 {
      PollsCoincide(p, d, script);
      PollAdvances(p, Skipping, d, script);
      var st := PollStep(p, Skipping, d, script);
      ShortcutIsInvisible(p, st.d, st.script, n - 1);
    }
  }

  ghost predicate RunAlike<R>(p: Parser<R>, d: Decoder, script: seq<Event>, n: nat)
    requires Lawful(p) && Fresh(d)
  {
    Polls(p, Eager, d, script, n) == Polls(p, Skipping, d, script, n)
  }

  /** With and without the shortcut, all runs are the same. */
  ghost predicate Invisible<R>(p: Parser<R>)
    requires Lawful(p)
  {
    forall d, script, n | Fresh(d) :: RunAlike(p, d, script, n)
  }

  /** A poll that has called the parser, read fewer bytes than asked for and called it again. */
  lemma EagerOnHint<R>(p: Parser<R>, b: seq<byte>, more: seq<byte>)
    requires Lawful(p) && p(b).NeedSize? && 0 < |more| < p(b).more && |b| + p(b).more <= MAX_CAPACITY
    ensures var st := PollStep(p, Eager, Holding(b), [Chunk(more), Blocked]);
            st.poll.Pending? && st.d.needs == |b| + p(b).more ==> SteadyOn(p, b, more)
  {
    var needs, script := |b| + p(b).more, [Chunk(more), Blocked];
    var hinted, fuller := Holding(b).(needs := needs), Decoder(b + more, MAX_CAPACITY, needs);
    Stable(p, b, b + more);
    Bounds(p, b + more);
    assert script[1..] == [Blocked];
    AttemptsOnBytes(p, Eager, hinted, script);
    assert OneRound(p, Eager, hinted, script) == AttemptRound(p, Eager, fuller, [Blocked]);
    RoundShrinks(p, Eager, hinted, script);
    if AttemptRound(p, Eager, fuller, [Blocked]).Again? {
      var again := AttemptRound(p, Eager, fuller, [Blocked]).d;
      ReadLoopKeepsNeeds(p, again);
    }
  }

  /** When the reader has nothing to give, what the decoder waits for stays. */
  lemma ReadLoopKeepsNeeds<R>(p: Parser<R>, d: Decoder)
    requires Lawful(p) && Roomy(d)
    ensures ReadLoop(p, Eager, d, [Blocked]).d.needs == d.needs
  {
    EnsuredIsEnough(|d.data|, d.capacity, d.needs);
    RoundShrinks(p, Eager, d, [Blocked]);
  }

  lemma InvisibleOn<R>(p: Parser<R>, b: seq<byte>, more: seq<byte>)
    requires Lawful(p) && Invisible(p)
    ensures SteadyWithinOn(p, b, more)
  {
    if p(b).NeedSize? && |b| + p(b).more <= MAX_CAPACITY && |more| < p(b).more {
      if more == [] {
        assert b + more == b;
      } else {
        var script := [Chunk(more), Blocked];
        assert RunAlike(p, Holding(b), script, 1);
        FirstPoll(p, Eager, Holding(b), script, 1);
        FirstPoll(p, Skipping, Holding(b), script, 1);
        HintIsHonoured(p, Holding(b), more, []);
        assert script + [] == script;
        EagerOnHint(p, b, more);
      }
    }
  }

  /** Exactly when the shortcut changes nothing, however the bytes arrive: when the hints that the largest
      block can hold are steady. */
  lemma ShortcutIsInvisibleIff<R>(p: Parser<R>)
    requires Lawful(p)
    ensures Invisible(p) <==> SteadyWithin(p)
  {
    if Invisible(p) {
      forall b, more ensures SteadyWithinOn(p, b, more) {
        InvisibleOn(p, b, more);
      }
    }
    if SteadyWithin(p) {
      forall d, script, n | Fresh(d) ensures RunAlike(p, d, script, n) {
        ShortcutIsInvisible(p, d, script, n);
      }
    }
  }

  // ---- The agreement goes no further

  /** A lawful parser that never finds a response: its hints depend on the number of bytes. */
  function Hints(second: nat): Parser<()>
    requires second > 0
  {
    (b: seq<byte>) =>
      if |b| == 1 then NeedSize(2)
      else if |b| == 2 then NeedSize(second)
      else if |b| == BLOCK_SIZE then NeedSize(MAX_CAPACITY)
      else NeedUnknown
  }

  lemma HintsAreLawful(second: nat)
    requires second > 0
    ensures Lawful(Hints(second))
  {
    forall b ensures WithinInput(Hints(second), b) {
    }
    forall b, more ensures StableOn(Hints(second), b, more) {
    }
  }

  function Zeros(n: nat): seq<byte> {
    seq(n, _ => 0)
  }

  /** Two bytes one after the other, and more than a block of them. */
  function BytesThenBlock(): seq<Event> {
    [Chunk(Zeros(1)), Chunk(Zeros(1)), Chunk(Zeros(5000))]
  }

  /** A hint that only the decoder with the shortcut meets may ask for too much: it fails for good while
      the other waits. */
  lemma SkippingMayFailFirst()
    ensures Lawful(Hints(5000))
    ensures PollStep(Hints(5000), Skipping, INITIAL, BytesThenBlock()).poll == TooLarge
    ensures PollStep(Hints(5000), Eager, INITIAL, BytesThenBlock()).poll == Pending
  {
    HintsAreLawful(5000);
    EagerWaits();
  }

  lemma EagerWaits()
    ensures Lawful(Hints(5000))
    ensures PollStep(Hints(5000), Eager, INITIAL, BytesThenBlock()).poll == Pending
  {
    HintsAreLawful(5000);
  }

  /** And the other way round. */
  lemma EagerMayFailFirst()
    ensures Lawful(Hints(MAX_CAPACITY))
    ensures var script := [Chunk(Zeros(1)), Chunk(Zeros(1))];
            && PollStep(Hints(MAX_CAPACITY), Eager, INITIAL, script).poll == TooLarge
            && PollStep(Hints(MAX_CAPACITY), Skipping, INITIAL, script).poll == Pending
  {
    HintsAreLawful(MAX_CAPACITY);
  }
}
