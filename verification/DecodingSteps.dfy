/** Single polls of the decoder against the simple thing they refine: parse the whole byte string,
    one response after another. */
module DecodingSteps {
  import opened Bytes
  import opened Parsing
  import opened Decoding
  import opened Wrappers

  // ---- The one-shot parse

  /** The bytes a response may be made of: as much as a block can ever hold. */
  function Window(s: seq<byte>): seq<byte> {
    if |s| <= MAX_CAPACITY then s else s[..MAX_CAPACITY]
  }

  function OneShot<R>(p: Parser<R>, s: seq<byte>): seq<R>
    requires Lawful(p)
    decreases |s|
  {
    Bounds(p, Window(s));
    match p(Window(s))
    case Done(c, r) => [r] + OneShot(p, s[c..])
    case _ => []
  }

  /** The bytes behind the last response. */
  function Remainder<R>(p: Parser<R>, s: seq<byte>): seq<byte>
    requires Lawful(p)
    decreases |s|
  {
    Bounds(p, Window(s));
    match p(Window(s))
    case Done(c, r) => Remainder(p, s[c..])
    case _ => s
  }

  ghost predicate Continues(longer: seq<byte>, b: seq<byte>) {
    b <= longer
  }

  /** No continuation of `b` shorter than `bound` is a response. */
  ghost predicate NoneBelow<R>(p: Parser<R>, b: seq<byte>, bound: nat) {
    forall longer {:trigger Continues(longer, b)} ::
      Continues(longer, b) && |longer| < bound ==> !p(longer).Done?
  }

  /** No continuation of `b` that a block can hold is a response. */
  ghost predicate Hopeless<R>(p: Parser<R>, b: seq<byte>) {
    NoneBelow(p, b, MAX_CAPACITY + 1)
  }

  /** The size hint is honest. */
  ghost predicate Hinted<R>(p: Parser<R>, d: Decoder) {
    NoneBelow(p, d.data, d.needs)
  }

  lemma NoneBelowGrows<R>(p: Parser<R>, b: seq<byte>, bound: nat, more: seq<byte>)
    requires NoneBelow(p, b, bound)
    ensures NoneBelow(p, b + more, bound)
  {
    forall longer | Continues(longer, b + more) && |longer| < bound ensures !p(longer).Done? {
      assert longer[..|b|] == (b + more)[..|b|] == b;
      assert Continues(longer, b);
    }
  }

  /** What holds of the decoder between any two calls. */
  ghost predicate Sound<R>(p: Parser<R>, d: Decoder) {
    Roomy(d) && Hinted(p, d)
  }

  lemma InitiallySound<R>(p: Parser<R>)
    requires Lawful(p)
    ensures Sound(p, INITIAL)
  {
  }

  // ---- One attempt

  lemma AttemptIsSound<R>(p: Parser<R>, policy: Policy, d: Decoder)
    requires Lawful(p) && Sound(p, d)
    ensures var (d', decoded) := Attempt(p, policy, d);
            && Sound(p, d')
            && (decoded.Response? ==>
                  p(d.data).Done? && decoded.r == p(d.data).response && d'.data == d.data[p(d.data).consumed..])
            && (!decoded.Response? ==> d'.data == d.data && d'.capacity == d.capacity && !p(d.data).Done?)
            && (decoded.Unparsable? ==> p(d.data).Fail?)
  {
    AttemptKeepsRoom(p, policy, d);
    var d' := Attempt(p, policy, d).0;
    forall longer | Continues(longer, d'.data) && |longer| < d'.needs ensures !p(longer).Done? {
      if d'.needs != d.needs {
        Stable(p, d.data, longer);
      }
    }
  }

  // ---- One poll

  /** How a poll moves through the bytes: `s` is what was held and still to come before it, `s'`
      after it.  Only a response takes bytes away, and it is the one that `s` begins with. */
  ghost predicate Advances<R>(p: Parser<R>, poll: Poll<R>, s: seq<byte>, s': seq<byte>) {
    if poll.Ready? then
      && p(Window(s)).Done?
      && p(Window(s)).response == poll.r
      && p(Window(s)).consumed <= |s|
      && s' == s[p(Window(s)).consumed..]
    else s' == s
  }

  /** What a report says about the bytes that are held after it. */
  ghost predicate Truthful<R>(p: Parser<R>, st: Step<R>) {
    && (!st.poll.Ready? ==> !p(st.d.data).Done?)
    && (st.poll.ParseFailure? ==> p(st.d.data).Fail?)
    && (st.poll.TooLarge? ==> Hopeless(p, st.d.data))
    && (st.poll.End? ==> st.d.data == [])
    && (st.poll.UnexpectedEof? ==> st.d.data != [])
    && (!st.poll.Ready? && !st.poll.Sticky() ==> |st.d.data| < st.d.capacity)
  }

  /** Ahead of the decoder: the bytes it holds, then those still to be read. */
  function Ahead(d: Decoder, script: seq<Event>): seq<byte> {
    d.data + Pouring(script)
  }

  lemma ResponseAdvances<R>(p: Parser<R>, policy: Policy, d: Decoder, script: seq<Event>)
    requires Lawful(p) && Sound(p, d)
    requires Attempt(p, policy, d).1.Response?
    ensures var (d', decoded) := Attempt(p, policy, d);
            Advances(p, Ready(decoded.r), Ahead(d, script), Ahead(d', script))
  {
    AttemptIsSound(p, policy, d);
    Bounds(p, d.data);
    Stable(p, d.data, Window(Ahead(d, script)));
  }

  lemma TooLargeIsHopeless<R>(p: Parser<R>, d: Decoder)
    requires Lawful(p) && Sound(p, d)
    requires !p(d.data).Done?
    requires Ensured(|d.data|, d.capacity, d.needs).None?
    ensures Hopeless(p, d.data)
  {
    EnsuredIsEnough(|d.data|, d.capacity, d.needs);
    forall longer | Continues(longer, d.data) && |longer| <= MAX_CAPACITY ensures !p(longer).Done? {
      if |d.data| == MAX_CAPACITY {
        assert longer == d.data;
      }
    }
  }

  /** What every poll guarantees: the decoder stays sound, the report is true, the bytes ahead move
      as they should, and a poll that neither delivers nor fails for good uses up an answer. */
  ghost predicate Keeps<R>(p: Parser<R>, d: Decoder, script: seq<Event>, st: Step<R>) {
    && Sound(p, st.d)
    && Truthful(p, st)
    && Advances(p, st.poll, Ahead(d, script), Ahead(st.d, st.script))
    && |st.script| <= |script|
    && (script != [] && !st.poll.Ready? && !st.poll.Sticky() ==> |st.script| < |script|)
  }

  /** Bytes that arrive while there is no response move from the reader to the block. */
  lemma Received<R>(p: Parser<R>, d: Decoder, script: seq<Event>)
    requires Lawful(p) && Sound(p, d) && |d.data| < d.capacity
    ensures var (e, rest) := Read(script, d.capacity - |d.data|);
            e.Chunk? ==>
              var fuller := d.(data := d.data + e.bytes);
              && Sound(p, fuller)
              && Ahead(d, script) == Ahead(fuller, rest)
  {
    ReadMovesBytes(script, d.capacity - |d.data|);
    var (e, rest) := Read(script, d.capacity - |d.data|);
    if e.Chunk? {
      var fuller := d.(data := d.data + e.bytes);
      NoneBelowGrows(p, d.data, d.needs, e.bytes);
      assert d.data + (e.bytes + Pouring(rest)) == fuller.data + Pouring(rest);
    }
  }

  /** One round of the loop either ends the poll as it should, or leaves the same bytes ahead and no
      response among those held. */
  ghost predicate Onward<R>(p: Parser<R>, d: Decoder, script: seq<Event>, round: Round<R>) {
    match round
    case Report(st) => Keeps(p, d, script, st)
    case Again(d', rest) =>
      Sound(p, d') && !p(d'.data).Done? && |rest| <= |script| && Ahead(d, script) == Ahead(d', rest)
  }

  lemma OnwardFrom<R>(p: Parser<R>, d: Decoder, script: seq<Event>, d': Decoder, rest: seq<Event>, round: Round<R>)
    requires Onward(p, d', rest, round)
    requires Ahead(d, script) == Ahead(d', rest)
    requires |rest| <= |script|
    ensures Onward(p, d, script, round)
  {
  }

  lemma AttemptAdvances<R>(p: Parser<R>, policy: Policy, d: Decoder, script: seq<Event>)
    requires Lawful(p) && Sound(p, d)
    ensures Onward(p, d, script, AttemptRound(p, policy, d, script))
  {
    AttemptIsSound(p, policy, d);
    if Attempt(p, policy, d).1.Response? {
      ResponseAdvances(p, policy, d, script);
    }
  }

  /** Reading bytes either leads to a report or leaves the same bytes ahead. */
  lemma BytesAdvance<R>(p: Parser<R>, policy: Policy, d: Decoder, script: seq<Event>)
    requires Lawful(p) && Sound(p, d) && |d.data| < d.capacity
    requires Read(script, d.capacity - |d.data|).0.Chunk?
    ensures var (e, rest) := Read(script, d.capacity - |d.data|);
            Onward(p, d, script, AttemptRound(p, policy, d.(data := d.data + e.bytes), rest))
  {
    ReadMovesBytes(script, d.capacity - |d.data|);
    var (e, rest) := Read(script, d.capacity - |d.data|);
    Received(p, d, script);
    var fuller := d.(data := d.data + e.bytes);
    AttemptAdvances(p, policy, fuller, rest);
    OnwardFrom(p, d, script, fuller, rest, AttemptRound(p, policy, fuller, rest));
  }

  /** An answer without bytes is reported, and leaves the decoder as it is. */
  lemma EmptyAnswerAdvances<R>(p: Parser<R>, policy: Policy, d: Decoder, script: seq<Event>)
    requires Lawful(p) && Sound(p, d) && !p(d.data).Done? && |d.data| < d.capacity
    requires var e := Read(script, d.capacity - |d.data|).0; e.Chunk? ==> e.bytes == []
    ensures Onward(p, d, script, ReadAndAttempt(p, policy, d, script))
  {
    ReadMovesBytes(script, d.capacity - |d.data|);
  }

  lemma ReadAndAttemptAdvances<R>(p: Parser<R>, policy: Policy, d: Decoder, script: seq<Event>)
    requires Lawful(p) && Sound(p, d) && !p(d.data).Done? && |d.data| < d.capacity
    ensures Onward(p, d, script, ReadAndAttempt(p, policy, d, script))
  {
    var e := Read(script, d.capacity - |d.data|).0;
    if e.Chunk? && e.bytes != [] {
      AttemptsOnBytes(p, policy, d, script);
      BytesAdvance(p, policy, d, script);
    } else {
      EmptyAnswerAdvances(p, policy, d, script);
    }
  }

  /** One round of the loop: what it reports, or the decoder that enters the next round. */
  lemma RoundAdvances<R>(p: Parser<R>, policy: Policy, d: Decoder, script: seq<Event>)
    requires Lawful(p) && Sound(p, d) && !p(d.data).Done?
    ensures Onward(p, d, script, OneRound(p, policy, d, script))
  {
    EnsuredIsEnough(|d.data|, d.capacity, d.needs);
    match Ensured(|d.data|, d.capacity, d.needs)
    case None => TooLargeIsHopeless(p, d);
    case Some(capacity) =>
      var roomy := d.(capacity := capacity);
      ReadAndAttemptAdvances(p, policy, roomy, script);
      OnwardFrom(p, d, script, roomy, script, ReadAndAttempt(p, policy, roomy, script));
  }

  lemma {:induction false} ReadLoopAdvances<R>(p: Parser<R>, policy: Policy, d: Decoder, script: seq<Event>)
    requires Lawful(p) && Sound(p, d) && !p(d.data).Done?
    ensures Keeps(p, d, script, ReadLoop(p, policy, d, script))
    decreases |Pouring(script)|
  {
    RoundShrinks(p, policy, d, script);
    RoundAdvances(p, policy, d, script);
    match OneRound(p, policy, d, script)
    case Report(st) =>
    case Again(d', rest) =>
      ReadLoopAdvances(p, policy, d', rest);
      OnwardFrom(p, d, script, d', rest, Report(ReadLoop(p, policy, d', rest)));
  }

  /** Every poll keeps the decoder sound, loses, repeats and reorders no byte, and tells the truth
      about the bytes it keeps: without a response in hand, none is there. */
  lemma PollAdvances<R>(p: Parser<R>, policy: Policy, d: Decoder, script: seq<Event>)
    requires Lawful(p) && Sound(p, d)
    ensures Keeps(p, d, script, PollStep(p, policy, d, script))
  {
    AttemptAdvances(p, policy, d, script);
    match AttemptRound(p, policy, d, script)
    case Report(st) =>
    case Again(d', rest) =>
      ReadLoopAdvances(p, policy, d', rest);
      OnwardFrom(p, d, script, d', rest, Report(ReadLoop(p, policy, d', rest)));
  }

  // ---- A decoder at rest

  /** An attempt on `d` achieves nothing and changes nothing. */
  ghost predicate Calm<R>(p: Parser<R>, policy: Policy, d: Decoder)
    requires Lawful(p)
  {
    Attempt(p, policy, d) == (d, Nothing)
  }

  /** How a poll that delivers nothing leaves the decoder. */
  ghost predicate AtRest<R>(p: Parser<R>, policy: Policy, st: Step<R>)
    requires Lawful(p)
  {
    match st.poll
    case Ready(r) => true
    case ParseFailure => p(st.d.data).Fail? && st.d.needs == 0
    case TooLarge => Calm(p, policy, st.d) && Ensured(|st.d.data|, st.d.capacity, st.d.needs) == None
    case _ => Calm(p, policy, st.d) && Ensured(|st.d.data|, st.d.capacity, st.d.needs) == Some(st.d.capacity)
  }

  lemma AttemptCalms<R>(p: Parser<R>, policy: Policy, d: Decoder)
    requires Lawful(p)
    ensures var (d', decoded) := Attempt(p, policy, d);
            && (decoded.Nothing? ==> Calm(p, policy, d'))
            && (decoded.Unparsable? ==> p(d'.data).Fail? && d'.needs == 0)
  {
    Bounds(p, d.data);
  }

  lemma ReadAndAttemptRests<R>(p: Parser<R>, policy: Policy, d: Decoder, script: seq<Event>)
    requires Lawful(p) && Calm(p, policy, d) && |d.data| < d.capacity
    requires Ensured(|d.data|, d.capacity, d.needs) == Some(d.capacity)
    ensures match ReadAndAttempt(p, policy, d, script)
            case Report(st) => AtRest(p, policy, st)
            case Again(d', rest) => Calm(p, policy, d')
  {
    var e := Read(script, d.capacity - |d.data|).0;
    if e.Chunk? {
      AttemptCalms(p, policy, d.(data := d.data + e.bytes));
    }
  }

  lemma RoundRests<R>(p: Parser<R>, policy: Policy, d: Decoder, script: seq<Event>)
    requires Lawful(p) && Roomy(d) && Calm(p, policy, d)
    ensures match OneRound(p, policy, d, script)
            case Report(st) => AtRest(p, policy, st)
            case Again(d', rest) => Calm(p, policy, d')
  {
    EnsuredIsEnough(|d.data|, d.capacity, d.needs);
    match Ensured(|d.data|, d.capacity, d.needs)
    case None =>
    case Some(capacity) => ReadAndAttemptRests(p, policy, d.(capacity := capacity), script);
  }

  lemma {:induction false} ReadLoopRests<R>(p: Parser<R>, policy: Policy, d: Decoder, script: seq<Event>)
    requires Lawful(p) && Roomy(d) && Calm(p, policy, d)
    ensures AtRest(p, policy, ReadLoop(p, policy, d, script))
    decreases |Pouring(script)|
  {
    RoundShrinks(p, policy, d, script);
    RoundRests(p, policy, d, script);
    match OneRound(p, policy, d, script)
    case Report(st) =>
    case Again(d', rest) => ReadLoopRests(p, policy, d', rest);
  }

  lemma PollRests<R>(p: Parser<R>, policy: Policy, d: Decoder, script: seq<Event>)
    requires Lawful(p) && Roomy(d)
    ensures AtRest(p, policy, PollStep(p, policy, d, script))
  {
    AttemptKeepsRoom(p, policy, d);
    AttemptCalms(p, policy, d);
    var (d', decoded) := Attempt(p, policy, d);
    if decoded.Nothing? {
      ReadLoopRests(p, policy, d', script);
    }
  }

  /** A size hint is honoured: if fewer bytes arrive than it asks for, the poll ends without a call of
      the parser on them, whatever the parser would say.  By then the block has room for all that were
      asked for, unless that exceeds the limit, and then the poll fails before it reads. */
  lemma HintIsHonoured<R>(p: Parser<R>, d: Decoder, b: seq<byte>, later: seq<Event>)
    requires Lawful(p) && Roomy(d) && d.needs <= |d.data|
    requires p(d.data).NeedSize? && 0 < |b| < p(d.data).more
    ensures var needs, script := |d.data| + p(d.data).more, [Chunk(b), Blocked] + later;
            var st := PollStep(p, Skipping, d, script);
            if needs > MAX_CAPACITY then st == Step(d.(needs := needs), TooLarge, script)
            else st == Step(Decoder(d.data + b, st.d.capacity, needs), Pending, later) && needs <= st.d.capacity
  {
    var needs, script := |d.data| + p(d.data).more, [Chunk(b), Blocked] + later;
    EnsuredIsEnough(|d.data|, d.capacity, needs);
    if needs <= MAX_CAPACITY {
      var hinted, roomy := d.(needs := needs), Ensured(|d.data|, d.capacity, needs).value;
      assert script[1..] == [Blocked] + later;
      assert OneRound(p, Skipping, hinted, script)
             == Again(Decoder(d.data + b, roomy, needs), [Blocked] + later);
      WaitingRound(p, Decoder(d.data + b, roomy, needs), later);
    }
  }

  lemma WaitingRound<R>(p: Parser<R>, d: Decoder, later: seq<Event>)
    requires Lawful(p) && Roomy(d) && |d.data| < d.needs <= d.capacity
    ensures ReadLoop(p, Skipping, d, [Blocked] + later) == Step(d, Pending, later)
  {
    EnsuredIsEnough(|d.data|, d.capacity, d.needs);
    assert ([Blocked] + later)[1..] == later;
    RoundShrinks(p, Skipping, d, [Blocked] + later);
  }

  lemma StickyAtRest<R>(p: Parser<R>, policy: Policy, st: Step<R>, later: seq<Event>)
    requires Lawful(p) && Roomy(st.d) && AtRest(p, policy, st) && st.poll.Sticky()
    ensures PollStep(p, policy, st.d, later) == Step(st.d, st.poll, later)
  {
  }

  /** A parse failure and "too large" are final: whatever the reader holds later, the next poll
      gives the same error, touches nothing and does not read. */
  lemma StickyError<R>(p: Parser<R>, policy: Policy, d: Decoder, script: seq<Event>, later: seq<Event>)
    requires Lawful(p) && Sound(p, d)
    requires PollStep(p, policy, d, script).poll.Sticky()
    ensures var st := PollStep(p, policy, d, script);
            Sound(p, st.d) && PollStep(p, policy, st.d, later) == Step(st.d, st.poll, later)
  {
    PollAdvances(p, policy, d, script);
    PollRests(p, policy, d, script);
    StickyAtRest(p, policy, PollStep(p, policy, d, script), later);
  }

  /** After a poll that delivered nothing and did not fail for good, an answer without bytes is
      reported and changes no decoder state. */
  lemma EmptyAnswerIsTransparent<R>(p: Parser<R>, policy: Policy, st: Step<R>, e: Event, later: seq<Event>)
    requires Lawful(p) && Sound(p, st.d) && AtRest(p, policy, st)
    requires !st.poll.Ready? && !st.poll.Sticky()
    requires e.Chunk? ==> e.bytes == []
    ensures PollStep(p, policy, st.d, [e] + later) ==
              match e
              case Blocked => Step(st.d, Pending, later)
              case Broken => Step(st.d, IoError, later)
              case Chunk(_) => Step(st.d, if st.d.data == [] then End else UnexpectedEof, later)
  {
    EnsuredIsEnough(|st.d.data|, st.d.capacity, st.d.needs);
    assert ([e] + later)[1..] == later;
    assert Read([e] + later, st.d.capacity - |st.d.data|) == (e, later);
    RoundShrinks(p, policy, st.d, [e] + later);
  }
}
