/** When the end of a run does not depend on how its bytes were cut up. */
module EndingRuns {
  import opened Bytes
  import opened Parsing
  import opened Decoding
  import opened DecodingSteps
  import opened DecodingRuns
  import opened Endings

  /** The decoder holds bytes of which nothing is known yet, as it does behind a response. */
  ghost predicate Fresh(d: Decoder) {
    Roomy(d) && d.needs == 0
  }

  ghost predicate EndAlike<R>(
      p: Parser<R>, d: Decoder, script: seq<Event>, n: nat, d': Decoder, script': seq<Event>, n': nat)
    requires Lawful(p) && Fresh(d) && Fresh(d')
  {
    var run, run' := Polls(p, Skipping, d, script, n), Polls(p, Skipping, d', script', n');
    Ahead(d, script) == Ahead(d', script') && Settled(run) && Settled(run') ==>
      LastWordOf(run.polls[n - 1]) == LastWordOf(run'.polls[n' - 1])
  }

  /** Any two settled runs over the same bytes end with the same error, or both without. */
  ghost predicate EndsAlike<R>(p: Parser<R>)
    requires Lawful(p)
  {
    forall d, script, n, d', script', n' | Fresh(d) && Fresh(d') :: EndAlike(p, d, script, n, d', script', n')
  }

  /** A block that holds exactly these bytes. */
  function Holding(held: seq<byte>): Decoder {
    Decoder(held, MAX_CAPACITY, 0)
  }

  /** With all bytes in hand, a poll says what they call for. */
  lemma EndsAtOnce<R>(p: Parser<R>, held: seq<byte>)
    requires Lawful(p) && |held| <= MAX_CAPACITY && !p(held).Done?
    ensures Fresh(Holding(held))
    ensures var run := Polls(p, Skipping, Holding(held), [], 1);
            Settled(run) && LastWordOf(run.polls[0]) == Prospect(p, held)
  {
    var d := Holding(held);
    Bounds(p, held);
    QuietStaysQuiet(p, Skipping, d, 1);
    FirstPoll(p, Skipping, d, [], 1);
    if p(held).Incomplete() {
      var d' := Attempt(p, Skipping, d).0;
      EnsuredIsEnough(|held|, d.capacity, d'.needs);
      RoundShrinks(p, Skipping, d', []);
    }
  }

  /** With some of them yet to come, it says what those in hand call for. */
  lemma EndsWaiting<R>(p: Parser<R>, b: seq<byte>, more: seq<byte>)
    requires Lawful(p) && p(b).NeedSize? && 0 < |more| < p(b).more && |b + more| <= MAX_CAPACITY
    ensures Fresh(Holding(b))
    ensures var run := Polls(p, Skipping, Holding(b), [Chunk(more), Blocked], 1);
            Settled(run) && LastWordOf(run.polls[0]) == Prospect(p, b)
  {
    HintIsHonoured(p, Holding(b), more, []);
    assert [Chunk(more), Blocked] + [] == [Chunk(more), Blocked];
    FirstPoll(p, Skipping, Holding(b), [Chunk(more), Blocked], 1);
  }

  lemma EndsAlikeOn<R>(p: Parser<R>, b: seq<byte>, more: seq<byte>)
    requires Lawful(p) && EndsAlike(p)
    ensures ProspectStays(p, b, more)
  {
    if p(b).NeedSize? && |more| < p(b).more && |b + more| <= MAX_CAPACITY {
      if more == [] {
        assert b + more == b;
      } else {
        Stable(p, b, b + more);
        EndsAtOnce(p, b + more);
        EndsWaiting(p, b, more);
        PouringCons(Chunk(more), [Blocked]);
        assert [Chunk(more)] + [Blocked] == [Chunk(more), Blocked];
        assert Ahead(Holding(b), [Chunk(more), Blocked]) == b + more == Ahead(Holding(b + more), []);
        assert EndAlike(p, Holding(b), [Chunk(more), Blocked], 1, Holding(b + more), [], 1);
      }
    }
  }

  /** Exactly when the bytes alone decide how a run ends: when the prospect stays while fewer bytes have
      come than the parser has asked for. */
  lemma EndsAlikeIff<R>(p: Parser<R>)
    requires Lawful(p)
    ensures EndsAlike(p) <==> HintsHold(p)
  {
    if EndsAlike(p) {
      forall b, more ensures ProspectStays(p, b, more) {
        EndsAlikeOn(p, b, more);
      }
    }
    if HintsHold(p) {
      forall d, script, n, d', script', n' | Fresh(d) && Fresh(d')
        ensures EndAlike(p, d, script, n, d', script', n')
      {
        if Settled(Polls(p, Skipping, d, script, n)) && Settled(Polls(p, Skipping, d', script', n')) {
          SettledRunEnds(p, Skipping, d, script, n);
          SettledRunEnds(p, Skipping, d', script', n');
        }
      }
    }
  }

  // ---- A parser without that law

  /** It asks for two bytes more after the first, and then refuses the second. */
  function Fickle(): Parser<()> {
    (b: seq<byte>) => if b == [] then NeedUnknown else if |b| == 1 then NeedSize(2) else Fail
  }

  lemma FickleIsLawful()
    ensures Lawful(Fickle()) && !HintsHold(Fickle())
  {
    var p := Fickle();
    forall b ensures WithinInput(p, b) {
    }
    forall b, more ensures StableOn(p, b, more) {
    }
    assert !ProspectStays(p, [0], [0]);
  }

  /** Two bytes, one at a time: the stream waits for more. */
  lemma WaitsOnBytesApart()
    ensures Lawful(Fickle())
    ensures var run := FromStart(Fickle(), [Chunk([0]), Chunk([0])], 1); Settled(run) && run.polls == [Pending]
  {
    FickleIsLawful();
  }

  /** The same two bytes at once: it has failed. */
  lemma FailsOnBytesTogether()
    ensures Lawful(Fickle())
    ensures var run := FromStart(Fickle(), [Chunk([0, 0])], 1); Settled(run) && run.polls == [ParseFailure]
  {
    FickleIsLawful();
  }
}
