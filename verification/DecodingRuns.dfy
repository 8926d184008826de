/** Whole runs of polls: what they deliver and when they stop.  The reader's answers are arbitrary
    throughout: any split of the bytes into reads, with "not ready", errors and ends of file anywhere
    between them. */
module DecodingRuns {
  import opened Bytes
  import opened Wrappers
  import opened Parsing
  import opened Decoding
  import opened DecodingSteps
  import opened Endings

  /** `n` polls in a row, whatever they report. */
  datatype Run<+R> = Run(polls: seq<Poll<R>>, d: Decoder, script: seq<Event>)

  function Polls<R>(p: Parser<R>, policy: Policy, d: Decoder, script: seq<Event>, n: nat): (run: Run<R>)
    requires Lawful(p) && Sound(p, d)
    ensures |run.polls| == n && Sound(p, run.d)
    decreases n
  {
    if n == 0 then Run([], d, script)
    else
      PollAdvances(p, policy, d, script);
      var st := PollStep(p, policy, d, script);
      var run := Polls(p, policy, st.d, st.script, n - 1);
      Run([st.poll] + run.polls, run.d, run.script)
  }

  /** `n` polls of the program on a new connection. */
  function FromStart<R>(p: Parser<R>, script: seq<Event>, n: nat): Run<R>
    requires Lawful(p)
  {
    InitiallySound(p);
    Polls(p, Skipping, INITIAL, script, n)
  }

  function Delivered<R>(polls: seq<Poll<R>>): seq<R> {
    if polls == [] then []
    else (if polls[0].Ready? then [polls[0].r] else []) + Delivered(polls[1..])
  }

  /** The last poll of a run has nothing to wait for: everything has been read, or it has failed for
      good. */
  predicate Settled<R>(run: Run<R>) {
    run.polls != [] &&
    var last := run.polls[|run.polls| - 1];
    last.Sticky() || (run.script == [] && !last.Ready?)
  }

  lemma OneShotStep<R>(p: Parser<R>, poll: Poll<R>, s: seq<byte>, s': seq<byte>)
    requires Lawful(p) && Advances(p, poll, s, s')
    ensures OneShot(p, s) == Delivered([poll]) + OneShot(p, s')
    ensures Remainder(p, s) == Remainder(p, s')
  {
    Bounds(p, Window(s));
  }

  lemma FirstPoll<R>(p: Parser<R>, policy: Policy, d: Decoder, script: seq<Event>, n: nat)
    requires Lawful(p) && Sound(p, d) && n > 0
    ensures var st := PollStep(p, policy, d, script);
            && Keeps(p, d, script, st)
            && var run, rest := Polls(p, policy, d, script, n), Polls(p, policy, st.d, st.script, n - 1);
            && run == Run([st.poll] + rest.polls, rest.d, rest.script)
            && Joins(run.polls, st.poll, rest.polls)
  {
    PollAdvances(p, policy, d, script);
    var st := PollStep(p, policy, d, script);
    PollThenMore(st.poll, Polls(p, policy, st.d, st.script, n - 1).polls);
  }

  /** `polls` is `first` and then `more`. */
  ghost predicate Joins<R>(polls: seq<Poll<R>>, first: Poll<R>, more: seq<Poll<R>>) {
    && |polls| == 1 + |more|
    && polls[0] == first
    && polls[1..] == more
    && (more != [] ==> polls[|more|] == more[|more| - 1])
    && Delivered(polls) == Delivered([first]) + Delivered(more)
  }

  lemma PollThenMore<R>(first: Poll<R>, more: seq<Poll<R>>)
    ensures Joins([first] + more, first, more)
  {
    assert ([first] + more)[1..] == more;
  }

  /** What the bytes `s` hold has been delivered, up to what `ahead` still holds. */
  ghost predicate Follows<R>(p: Parser<R>, s: seq<byte>, polls: seq<Poll<R>>, ahead: seq<byte>)
    requires Lawful(p)
  {
    OneShot(p, s) == Delivered(polls) + OneShot(p, ahead) && Remainder(p, s) == Remainder(p, ahead)
  }

  lemma OnePollFollows<R>(p: Parser<R>, policy: Policy, d: Decoder, script: seq<Event>, n: nat)
    requires Lawful(p) && Sound(p, d) && n > 0
    ensures var st := PollStep(p, policy, d, script);
            && Sound(p, st.d)
            && OneShot(p, Ahead(d, script)) == Delivered([st.poll]) + OneShot(p, Ahead(st.d, st.script))
            && Remainder(p, Ahead(d, script)) == Remainder(p, Ahead(st.d, st.script))
            && var run, rest := Polls(p, policy, d, script, n), Polls(p, policy, st.d, st.script, n - 1);
            && run.d == rest.d && run.script == rest.script
            && Delivered(run.polls) == Delivered([st.poll]) + Delivered(rest.polls)
  {
    FirstPoll(p, policy, d, script, n);
    var st := PollStep(p, policy, d, script);
    OneShotStep(p, st.poll, Ahead(d, script), Ahead(st.d, st.script));
  }

  /** After any number of polls the responses delivered are a prefix of the one-shot parse, and the
      rest of that parse is what the bytes ahead still hold. */
  lemma {:induction false} PollsFollowOneShot<R>(
      p: Parser<R>, policy: Policy, d: Decoder, script: seq<Event>, n: nat)
    requires Lawful(p) && Sound(p, d)
    ensures var run := Polls(p, policy, d, script, n);
            Follows(p, Ahead(d, script), run.polls, Ahead(run.d, run.script))
    decreases n
  {
    if n > 0 {
      OnePollFollows(p, policy, d, script, n);
      var st := PollStep(p, policy, d, script);
      PollsFollowOneShot(p, policy, st.d, st.script, n - 1);
      var rest := Polls(p, policy, st.d, st.script, n - 1);
      Associative(Delivered([st.poll]), Delivered(rest.polls), OneShot(p, Ahead(rest.d, rest.script)));
    }
  }

  /** The last poll of a run tells the truth and leaves the decoder at rest. */
  lemma {:induction false} PollsEndTruthfully<R>(p: Parser<R>, policy: Policy, d: Decoder, script: seq<Event>, n: nat)
    requires Lawful(p) && Sound(p, d) && n > 0
    ensures var run := Polls(p, policy, d, script, n);
            var last := Step(run.d, run.polls[n - 1], run.script);
            Sound(p, run.d) && Truthful(p, last) && AtRest(p, policy, last)
    decreases n
  {
    FirstPoll(p, policy, d, script, n);
    PollRests(p, policy, d, script);
    var st := PollStep(p, policy, d, script);
    if n > 1 {
      PollsEndTruthfully(p, policy, st.d, st.script, n - 1);
    }
  }

  /** What the last poll of a settled run says about the bytes behind the last response. */
  ghost predicate Verdict<R>(p: Parser<R>, last: Poll<R>, held: seq<byte>, remainder: seq<byte>) {
    && held <= remainder
    && (last.ParseFailure? ==> p(held).Fail?)
    && (last.TooLarge? ==> Hopeless(p, remainder))
    && (!last.Sticky() ==> held == remainder && |held| < MAX_CAPACITY)
  }

  lemma {:induction false} PollsForesee<R>(p: Parser<R>, policy: Policy, d: Decoder, script: seq<Event>, n: nat)
    requires Lawful(p) && HintsHold(p) && Sound(p, d) && Foreseen(p, d)
    ensures Foreseen(p, Polls(p, policy, d, script, n).d)
    decreases n
  {
    if n > 0 {
      PollAdvances(p, policy, d, script);
      PollForesees(p, policy, d, script);
      var st := PollStep(p, policy, d, script);
      PollsForesee(p, policy, st.d, st.script, n - 1);
    }
  }

  /** While size hints hold, the bytes behind the last response alone decide how a settled run ends. */
  lemma SettledRunEnds<R>(p: Parser<R>, policy: Policy, d: Decoder, script: seq<Event>, n: nat)
    requires Lawful(p) && HintsHold(p) && Sound(p, d) && Foreseen(p, d)
    requires Settled(Polls(p, policy, d, script, n))
    ensures LastWordOf(Polls(p, policy, d, script, n).polls[n - 1]) == Prospect(p, Remainder(p, Ahead(d, script)))
  {
    PollsFollowOneShot(p, policy, d, script, n);
    PollsEndTruthfully(p, policy, d, script, n);
    PollsForesee(p, policy, d, script, n);
    var run := Polls(p, policy, d, script, n);
    var last := Step(run.d, run.polls[n - 1], run.script);
    NothingAhead(p, last);
    EndsAsForeseen(p, policy, last);
  }

  /** A settled run has delivered exactly the one-shot parse of all bytes, and while size hints hold it
      ends as the bytes behind that call for. */
  lemma SettledRunIsOneShot<R>(p: Parser<R>, policy: Policy, d: Decoder, script: seq<Event>, n: nat)
    requires Lawful(p) && Sound(p, d)
    requires Settled(Polls(p, policy, d, script, n))
    ensures var run := Polls(p, policy, d, script, n);
            && Delivered(run.polls) == OneShot(p, Ahead(d, script))
            && Verdict(p, run.polls[n - 1], run.d.data, Remainder(p, Ahead(d, script)))
            && (HintsHold(p) && Foreseen(p, d) ==>
                  LastWordOf(run.polls[n - 1]) == Prospect(p, Remainder(p, Ahead(d, script))))
  {
    if HintsHold(p) && Foreseen(p, d) {
      SettledRunEnds(p, policy, d, script, n);
    }
    PollsFollowOneShot(p, policy, d, script, n);
    PollsEndTruthfully(p, policy, d, script, n);
    var run := Polls(p, policy, d, script, n);
    NothingAhead(p, Step(run.d, run.polls[n - 1], run.script));
  }

  /** Behind a settled poll there is no further response. */
  lemma NothingAhead<R>(p: Parser<R>, st: Step<R>)
    requires Lawful(p) && Sound(p, st.d) && Truthful(p, st)
    requires st.poll.Sticky() || (st.script == [] && !st.poll.Ready?)
    ensures var ahead := Ahead(st.d, st.script);
            && OneShot(p, ahead) == [] && Remainder(p, ahead) == ahead
            && Verdict(p, st.poll, st.d.data, ahead)
  {
    var data, ahead := st.d.data, Ahead(st.d, st.script);
    if st.poll.ParseFailure? {
      Stable(p, data, Window(ahead));
    } else if st.poll.TooLarge? {
      NoneBelowGrows(p, data, MAX_CAPACITY + 1, Pouring(st.script));
      assert Continues(Window(ahead), data);
    } else {
      assert ahead == data;
    }
  }

  /** With nothing left to read and no response held, polls stay without a response. */
  lemma {:induction false} QuietStaysQuiet<R>(p: Parser<R>, policy: Policy, d: Decoder, n: nat)
    requires Lawful(p) && Sound(p, d) && !p(d.data).Done? && n > 0
    ensures Settled(Polls(p, policy, d, [], n))
    decreases n
  {
    PollAdvances(p, policy, d, []);
    assert Ahead(d, []) == d.data;
    var st := PollStep(p, policy, d, []);
    if n > 1 {
      QuietStaysQuiet(p, policy, st.d, n - 1);
    }
  }

  /** Once an error is final, every further poll repeats it. */
  lemma {:induction false} FailedStaysFailed<R>(
      p: Parser<R>, policy: Policy, d: Decoder, script: seq<Event>, n: nat)
    requires Lawful(p) && Sound(p, d)
    requires PollStep(p, policy, d, script).poll.Sticky()
    ensures forall i | 0 <= i < n :: Polls(p, policy, d, script, n).polls[i] == PollStep(p, policy, d, script).poll
    decreases n
  {
    if n > 0 {
      var st := PollStep(p, policy, d, script);
      StickyError(p, policy, d, script, st.script);
      FailedStaysFailed(p, policy, st.d, st.script, n - 1);
    }
  }

  /** A poll that delivers takes bytes away, and one that waits uses up an answer. */
  lemma PollMakesProgress<R>(p: Parser<R>, policy: Policy, d: Decoder, script: seq<Event>)
    requires Lawful(p) && Sound(p, d)
    ensures Sound(p, PollStep(p, policy, d, script).d)
    ensures var st := PollStep(p, policy, d, script);
            st.poll.Sticky()
            || (script == st.script == [] && !st.poll.Ready? && !p(st.d.data).Done?)
            || |Ahead(st.d, st.script)| + |st.script| < |Ahead(d, script)| + |script|
  {
    PollAdvances(p, policy, d, script);
    Bounds(p, Window(Ahead(d, script)));
  }

  /** Enough polls settle every run: as many as there are bytes and answers, and one more. */
  lemma {:induction false} RunsSettle<R>(p: Parser<R>, policy: Policy, d: Decoder, script: seq<Event>, n: nat)
    requires Lawful(p) && Sound(p, d)
    requires n > |Ahead(d, script)| + |script|
    ensures Settled(Polls(p, policy, d, script, n))
    decreases n
  {
    PollMakesProgress(p, policy, d, script);
    var st := PollStep(p, policy, d, script);
    if st.poll.Sticky() {
      SettledByFailure(p, policy, d, script, n);
    } else if |Ahead(st.d, st.script)| + |st.script| < |Ahead(d, script)| + |script| {
      RunsSettle(p, policy, st.d, st.script, n - 1);
      SettledLater(p, policy, d, script, n);
    } else {
      SettledFromHere(p, policy, d, script, n);
    }
  }

  lemma SettledByFailure<R>(p: Parser<R>, policy: Policy, d: Decoder, script: seq<Event>, n: nat)
    requires Lawful(p) && Sound(p, d) && n > 0
    requires PollStep(p, policy, d, script).poll.Sticky()
    ensures Settled(Polls(p, policy, d, script, n))
  {
    FailedStaysFailed(p, policy, d, script, n);
  }

  lemma SettledFromHere<R>(p: Parser<R>, policy: Policy, d: Decoder, script: seq<Event>, n: nat)
    requires Lawful(p) && Sound(p, d) && n > 0
    requires var st := PollStep(p, policy, d, script);
             Sound(p, st.d) && st.script == [] && !st.poll.Ready? && !p(st.d.data).Done?
    ensures Settled(Polls(p, policy, d, script, n))
  {
    FirstPoll(p, policy, d, script, n);
    if n > 1 {
      QuietStaysQuiet(p, policy, PollStep(p, policy, d, script).d, n - 1);
    }
  }

  lemma SettledLater<R>(p: Parser<R>, policy: Policy, d: Decoder, script: seq<Event>, n: nat)
    requires Lawful(p) && Sound(p, d) && n > 1
    requires Sound(p, PollStep(p, policy, d, script).d)
    requires var st := PollStep(p, policy, d, script); Settled(Polls(p, policy, st.d, st.script, n - 1))
    ensures Settled(Polls(p, policy, d, script, n))
  {
    FirstPoll(p, policy, d, script, n);
  }

  // ---- Chunking independence

  /** Two settled runs over the same bytes deliver the same responses, however the bytes were split
      into reads and whatever came between them.  If one of them has failed for good, no bytes that a
      block can hold would give either of them another response; if neither has, both hold the same
      bytes.  While size hints hold, they end with the same error or both without. */
  lemma ChunkingIndependence<R>(
      p: Parser<R>, script: seq<Event>, n: nat, script': seq<Event>, n': nat)
    requires Lawful(p)
    requires Pouring(script) == Pouring(script')
    requires Settled(FromStart(p, script, n))
    requires Settled(FromStart(p, script', n'))
    ensures var run, run' := FromStart(p, script, n), FromStart(p, script', n');
            && Delivered(run.polls) == Delivered(run'.polls) == OneShot(p, Pouring(script))
            && (run.polls[n - 1].Sticky() ==> Hopeless(p, Remainder(p, Pouring(script))))
            && (!run.polls[n - 1].Sticky() && !run'.polls[n' - 1].Sticky() ==> run.d.data == run'.d.data)
            && (HintsHold(p) ==>
                  LastWordOf(run.polls[n - 1]) == LastWordOf(run'.polls[n' - 1])
                  == Prospect(p, Remainder(p, Pouring(script))))
  {
    InitiallySound(p);
    SettledRunIsOneShot(p, Skipping, INITIAL, script, n);
    SettledRunIsOneShot(p, Skipping, INITIAL, script', n');
    assert Ahead(INITIAL, script) == Pouring(script);
    assert Ahead(INITIAL, script') == Pouring(script');
    var run := FromStart(p, script, n);
    if run.polls[n - 1].ParseFailure? {
      FailedIsHopeless(p, run.d.data, Remainder(p, Pouring(script)));
    }
  }

  lemma FailedIsHopeless<R>(p: Parser<R>, b: seq<byte>, longer: seq<byte>)
    requires Lawful(p) && p(b).Fail? && b <= longer
    ensures Hopeless(p, longer)
  {
    forall longest | Continues(longest, longer) && |longest| <= MAX_CAPACITY ensures !p(longest).Done? {
      Stable(p, b, longest);
    }
  }

  /** A remainder as long as the largest block ends every settled run in an error. */
  lemma OversizedFails<R>(p: Parser<R>, script: seq<Event>, n: nat)
    requires Lawful(p)
    requires Settled(FromStart(p, script, n))
    requires |Remainder(p, Pouring(script))| >= MAX_CAPACITY
    ensures FromStart(p, script, n).polls[n - 1].Sticky()
  {
    InitiallySound(p);
    SettledRunIsOneShot(p, Skipping, INITIAL, script, n);
    assert Ahead(INITIAL, script) == Pouring(script);
  }

  /** End of file after everything has been read: an error exactly when the one-shot parse leaves
      bytes over, and in either case the decoder is as before. */
  lemma EndOfFile<R>(p: Parser<R>, script: seq<Event>, n: nat, later: seq<Event>)
    requires Lawful(p)
    requires var run := FromStart(p, script, n); Settled(run) && !run.polls[n - 1].Sticky()
    ensures var run := FromStart(p, script, n);
            && Sound(p, run.d)
            && PollStep(p, Skipping, run.d, [Chunk([])] + later) ==
                 Step(run.d, if Remainder(p, Pouring(script)) == [] then End else UnexpectedEof, later)
  {
    InitiallySound(p);
    SettledRunIsOneShot(p, Skipping, INITIAL, script, n);
    assert Ahead(INITIAL, script) == Pouring(script);
    PollsEndTruthfully(p, Skipping, INITIAL, script, n);
    var run := FromStart(p, script, n);
    EmptyAnswerIsTransparent(p, Skipping, Step(run.d, run.polls[n - 1], run.script), Chunk([]), later);
  }

  /** Bytes that are left over, be they a failing, an oversized or a truncated response, end every run
      in an error once the stream ends, however they arrived. */
  lemma LeftoversAreAnError<R>(p: Parser<R>, script: seq<Event>, n: nat, later: seq<Event>)
    requires Lawful(p) && Settled(FromStart(p, script, n))
    requires Remainder(p, Pouring(script)) != []
    ensures var run := FromStart(p, script, n);
            Sound(p, run.d) &&
            var report := PollStep(p, Skipping, run.d, [Chunk([])] + later).poll;
            report.ParseFailure? || report.TooLarge? || report.UnexpectedEof?
  {
    InitiallySound(p);
    PollsEndTruthfully(p, Skipping, INITIAL, script, n);
    var run := FromStart(p, script, n);
    var last := Step(run.d, run.polls[n - 1], run.script);
    if last.poll.Sticky() {
      StickyAtRest(p, Skipping, last, [Chunk([])] + later);
    } else {
      EndOfFile(p, script, n, later);
    }
  }

  lemma {:induction false} PouringAppend(xs: seq<Event>, ys: seq<Event>)
    ensures Pouring(xs + ys) == Pouring(xs) + Pouring(ys)
  {
    if xs == [] {
      assert xs + ys == ys;
    } else {
      assert (xs + ys)[1..] == xs[1..] + ys;
      PouringAppend(xs[1..], ys);
    }
  }

  /** Splitting a chunk, or putting an answer without bytes anywhere, gives the same bytes, and so by
      `ChunkingIndependence` the same responses. */
  lemma RepackagedBytes(before: seq<Event>, x: seq<byte>, y: seq<byte>, e: Event, after: seq<Event>)
    requires e.Chunk? ==> e.bytes == []
    ensures Pouring(before + [Chunk(x), e, Chunk(y)] + after) == Pouring(before + [Chunk(x + y)] + after)
  {
    SplitChunk(x, y, e);
    PouringCongruent(before, [Chunk(x), e, Chunk(y)], [Chunk(x + y)], after);
  }

  lemma SplitChunk(x: seq<byte>, y: seq<byte>, e: Event)
    requires e.Chunk? ==> e.bytes == []
    ensures Pouring([Chunk(x), e, Chunk(y)]) == Pouring([Chunk(x + y)]) == x + y
  {
    PouringCons(Chunk(x + y), []);
    PouringCons(Chunk(y), []);
    PouringCons(e, [Chunk(y)]);
    PouringCons(Chunk(x), [e, Chunk(y)]);
    assert [Chunk(x)] + [e, Chunk(y)] == [Chunk(x), e, Chunk(y)];
    assert [e] + [Chunk(y)] == [e, Chunk(y)];
  }

  lemma PouringCongruent(before: seq<Event>, xs: seq<Event>, ys: seq<Event>, after: seq<Event>)
    requires Pouring(xs) == Pouring(ys)
    ensures Pouring(before + xs + after) == Pouring(before + ys + after)
  {
    PouringAppend(before + xs, after);
    PouringAppend(before, xs);
    PouringAppend(before + ys, after);
    PouringAppend(before, ys);
  }

  // ---- The size threshold

  /** A response that fits into the largest block is never refused: if the bytes ahead begin with
      one, a poll neither fails to parse it nor finds it too large, whatever hints have arisen. */
  lemma NeverRefused<R>(p: Parser<R>, policy: Policy, d: Decoder, script: seq<Event>)
    requires Lawful(p) && Sound(p, d)
    requires p(Window(Ahead(d, script))).Done?
    ensures !PollStep(p, policy, d, script).poll.Sticky()
  {
    PollAdvances(p, policy, d, script);
    var st := PollStep(p, policy, d, script);
    if st.poll.Sticky() {
      var window := Window(Ahead(st.d, st.script));
      assert Continues(window, st.d.data);
      Stable(p, st.d.data, window);
    }
  }

  /** The window does not matter for a parser that needs no byte after a response. */
  lemma WindowIsEnough<R>(p: Parser<R>, s: seq<byte>)
    requires Lawful(p) && SelfDelimiting(p)
    ensures p(Window(s)).Done? <==> p(s).Done? && p(s).consumed <= MAX_CAPACITY
    ensures p(Window(s)).Done? ==> p(Window(s)) == p(s)
  {
    Stable(p, Window(s), s);
    Bounds(p, Window(s));
    Bounds(p, s);
    if p(s).Done? && p(s).consumed <= MAX_CAPACITY {
      Stable(p, s[..p(s).consumed], Window(s));
    }
  }

  /** The plain parse of a byte string, one response after another, up to the first that is longer
      than the largest block. */
  function WholeParse<R>(p: Parser<R>, s: seq<byte>): seq<R>
    requires Lawful(p)
    decreases |s|
  {
    Bounds(p, s);
    match p(s)
    case Done(c, r) => if c <= MAX_CAPACITY then [r] + WholeParse(p, s[c..]) else []
    case _ => []
  }

  lemma {:induction false} OneShotIsWholeParse<R>(p: Parser<R>, s: seq<byte>)
    requires Lawful(p) && SelfDelimiting(p)
    ensures OneShot(p, s) == WholeParse(p, s)
    decreases |s|
  {
    WindowIsEnough(p, s);
    Bounds(p, Window(s));
    if p(Window(s)).Done? {
      OneShotIsWholeParse(p, s[p(s).consumed..]);
    }
  }

  /** The exact threshold: of a stream that begins with a response, any settled run delivers it
      first if it has at most 512 MiB, and otherwise delivers nothing and ends with
      "too large". */
  lemma SizeThreshold<R>(p: Parser<R>, script: seq<Event>, n: nat)
    requires Lawful(p) && SelfDelimiting(p)
    requires p(Pouring(script)).Done?
    requires Settled(FromStart(p, script, n))
    ensures var run := FromStart(p, script, n);
            if p(Pouring(script)).consumed <= 536_870_912 then
              Delivered(run.polls) != [] && Delivered(run.polls)[0] == p(Pouring(script)).response
            else
              Delivered(run.polls) == [] && run.polls[n - 1].TooLarge?
  {
    var s := Pouring(script);
    InitiallySound(p);
    SettledRunIsOneShot(p, Skipping, INITIAL, script, n);
    assert Ahead(INITIAL, script) == s;
    WindowIsEnough(p, s);
    var run := FromStart(p, script, n);
    if p(s).consumed > MAX_CAPACITY {
      assert Remainder(p, s) == s;
      Stable(p, run.d.data, s);
      Bounds(p, s);
    }
  }

  /** A stream made of complete responses, each within the limit, comes out as exactly those. */
  lemma {:induction false} FramesComeOut<R>(p: Parser<R>, frames: seq<seq<byte>>, rs: seq<R>, tail: seq<byte>)
    requires Lawful(p) && |frames| == |rs|
    requires forall i | 0 <= i < |frames| :: |frames[i]| <= MAX_CAPACITY && p(frames[i]) == Done(|frames[i]|, rs[i])
    ensures OneShot(p, Flatten(frames) + tail) == rs + OneShot(p, tail)
  {
    if frames == [] {
      assert Flatten(frames) + tail == tail;
    } else {
      var rest := Flatten(frames[1..]) + tail;
      FramesComeOut(p, frames[1..], rs[1..], tail);
      FrameComesOut(p, frames[0], rs[0], rest);
      Associative(frames[0], Flatten(frames[1..]), tail);
      Associative([rs[0]], rs[1..], OneShot(p, tail));
      assert rs == [rs[0]] + rs[1..];
    }
  }

  lemma FrameComesOut<R>(p: Parser<R>, frame: seq<byte>, r: R, rest: seq<byte>)
    requires Lawful(p) && |frame| <= MAX_CAPACITY && p(frame) == Done(|frame|, r)
    ensures OneShot(p, frame + rest) == [r] + OneShot(p, rest)
  {
    Stable(p, frame, Window(frame + rest));
    assert (frame + rest)[|frame|..] == rest;
  }
}
