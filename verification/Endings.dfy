/** How a stream ends once no further response comes out of it: in an error that is final, or open to more
    bytes.  While size hints are kept, the bytes alone decide it. */
module Endings {
  import opened Bytes
  import opened Parsing
  import opened Decoding
  import opened DecodingSteps

  /** What a report says about the end. */
  datatype LastWord = Open | Failing | Exceeding

  function LastWordOf<R>(poll: Poll<R>): LastWord {
    match poll
    case ParseFailure => Failing
    case TooLarge => Exceeding
    case _ => Open
  }

  /** The end that the bytes behind the last response call for: an error if a block cannot be parsed, too
      much if they fill the largest block or ask for more than it holds. */
  function Prospect<R>(p: Parser<R>, held: seq<byte>): LastWord {
    if p(Window(held)).Fail? then Failing
    else if |held| >= MAX_CAPACITY || (p(held).NeedSize? && |held| + p(held).more > MAX_CAPACITY) then Exceeding
    else Open
  }

  /** While fewer bytes have come than `p` asks for on `b`, the prospect stays. */
  ghost predicate ProspectStays<R>(p: Parser<R>, b: seq<byte>, more: seq<byte>) {
    p(b).NeedSize? && |more| < p(b).more && |b + more| <= MAX_CAPACITY ==> Prospect(p, b + more) == Prospect(p, b)
  }

  /** A law beyond those of every parser, used only where a theorem says so. */
  ghost predicate HintsHold<R>(p: Parser<R>) {
    forall b, more :: ProspectStays(p, b, more)
  }

  lemma SteadyHintsHold<R>(p: Parser<R>)
    requires Lawful(p) && Steady(p)
    ensures HintsHold(p)
  {
    forall b, more ensures ProspectStays(p, b, more) {
      assert SteadyOn(p, b, more);
    }
  }

  // ---- What a hint foresees

  /** While fewer bytes have come than the decoder waits for, the end is foreseen. */
  ghost predicate Foreseen<R>(p: Parser<R>, d: Decoder) {
    forall longer {:trigger Continues(longer, d.data)} ::
      Continues(longer, d.data) && |longer| < d.needs && |longer| <= MAX_CAPACITY ==>
        Prospect(p, longer) == if d.needs > MAX_CAPACITY then Exceeding else Open
  }

  lemma AttemptForesees<R>(p: Parser<R>, policy: Policy, d: Decoder)
    requires Lawful(p) && HintsHold(p) && Roomy(d) && Foreseen(p, d)
    ensures Foreseen(p, Attempt(p, policy, d).0)
  {
    var d' := Attempt(p, policy, d).0;
    Bounds(p, d.data);
    if d' != d && d'.needs > 0 {
      forall longer | Continues(longer, d.data) && |longer| < d'.needs && |longer| <= MAX_CAPACITY
        ensures Prospect(p, longer) == if d'.needs > MAX_CAPACITY then Exceeding else Open
      {
        var more := longer[|d.data|..];
        assert longer == d.data + more;
        assert ProspectStays(p, d.data, more);
      }
    }
  }

  lemma MoreIsForeseen<R>(p: Parser<R>, d: Decoder, bytes: seq<byte>, capacity: nat)
    requires Foreseen(p, d)
    ensures Foreseen(p, d.(data := d.data + bytes, capacity := capacity))
  {
    forall longer | Continues(longer, d.data + bytes) && |longer| < d.needs && |longer| <= MAX_CAPACITY
      ensures Prospect(p, longer) == if d.needs > MAX_CAPACITY then Exceeding else Open
    {
      assert longer[..|d.data|] == (d.data + bytes)[..|d.data|] == d.data;
      assert Continues(longer, d.data);
    }
  }

  /** The decoder after a round. */
  function Afterwards<R>(round: Round<R>): Decoder {
    match round
    case Report(st) => st.d
    case Again(d, _) => d
  }

  lemma ReadForesees<R>(p: Parser<R>, policy: Policy, d: Decoder, script: seq<Event>)
    requires Lawful(p) && HintsHold(p) && Roomy(d) && Foreseen(p, d) && |d.data| < d.capacity
    ensures Foreseen(p, Afterwards(ReadAndAttempt(p, policy, d, script)))
  {
    ReadMovesBytes(script, d.capacity - |d.data|);
    var e := Read(script, d.capacity - |d.data|).0;
    if e.Chunk? && e.bytes != [] {
      AttemptsOnBytes(p, policy, d, script);
      MoreIsForeseen(p, d, e.bytes, d.capacity);
      AttemptForesees(p, policy, d.(data := d.data + e.bytes));
    }
  }

  lemma RoundForesees<R>(p: Parser<R>, policy: Policy, d: Decoder, script: seq<Event>)
    requires Lawful(p) && HintsHold(p) && Roomy(d) && Foreseen(p, d)
    ensures Foreseen(p, Afterwards(OneRound(p, policy, d, script)))
  {
    EnsuredIsEnough(|d.data|, d.capacity, d.needs);
    match Ensured(|d.data|, d.capacity, d.needs)
    case None =>
    case Some(capacity) =>
      MoreIsForeseen(p, d, [], capacity);
      assert d.data + [] == d.data;
      ReadForesees(p, policy, d.(capacity := capacity), script);
  }

  lemma {:induction false} ReadLoopForesees<R>(p: Parser<R>, policy: Policy, d: Decoder, script: seq<Event>)
    requires Lawful(p) && HintsHold(p) && Roomy(d) && Foreseen(p, d)
    ensures Foreseen(p, ReadLoop(p, policy, d, script).d)
    decreases |Pouring(script)|
  {
    RoundShrinks(p, policy, d, script);
    RoundForesees(p, policy, d, script);
    match OneRound(p, policy, d, script)
    case Report(st) =>
    case Again(d', rest) => ReadLoopForesees(p, policy, d', rest);
  }

  /** Every poll keeps what is foreseen. */
  lemma PollForesees<R>(p: Parser<R>, policy: Policy, d: Decoder, script: seq<Event>)
    requires Lawful(p) && HintsHold(p) && Roomy(d) && Foreseen(p, d)
    ensures Foreseen(p, PollStep(p, policy, d, script).d)
  {
    AttemptKeepsRoom(p, policy, d);
    AttemptForesees(p, policy, d);
    match AttemptRound(p, policy, d, script)
    case Report(st) =>
    case Again(d', rest) => ReadLoopForesees(p, policy, d', rest);
  }

  // ---- The end itself

  lemma ProspectOfWindow<R>(p: Parser<R>, s: seq<byte>)
    ensures Prospect(p, Window(s)) == Prospect(p, s)
  {
    assert Window(Window(s)) == Window(s);
  }

  /** An attempt that is not skipped and changes nothing has met no size hint. */
  lemma CalmMeans<R>(p: Parser<R>, policy: Policy, d: Decoder)
    requires Lawful(p) && Calm(p, policy, d) && d.needs <= |d.data|
    ensures p(d.data).NeedUnknown?
  {
    Bounds(p, d.data);
  }

  /** A poll with nothing left to wait for says what the bytes ahead of it call for. */
  lemma EndsAsForeseen<R>(p: Parser<R>, policy: Policy, st: Step<R>)
    requires Lawful(p) && Sound(p, st.d) && Foreseen(p, st.d)
    requires Truthful(p, st) && AtRest(p, policy, st)
    requires st.poll.Sticky() || (st.script == [] && !st.poll.Ready?)
    ensures LastWordOf(st.poll) == Prospect(p, Ahead(st.d, st.script))
  {
    var d, ahead := st.d, Ahead(st.d, st.script);
    ProspectOfWindow(p, ahead);
    assert Continues(Window(ahead), d.data);
    assert st.script == [] ==> ahead == d.data;
    if st.poll.ParseFailure? {
      Stable(p, d.data, Window(ahead));
    } else if st.poll.TooLarge? {
      EnsuredIsEnough(|d.data|, d.capacity, d.needs);
      if d.needs <= MAX_CAPACITY {
        assert Window(ahead) == d.data;
        CalmMeans(p, policy, d);
      }
    } else if d.needs <= |d.data| {
      CalmMeans(p, policy, d);
    }
  }
}
