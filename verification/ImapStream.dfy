/** The wrapper that turns a byte stream into a stream of responses. */
module ImapStreams {
  import opened Bytes
  import opened Parsing
  import opened Decoding
  import opened DecodingSteps
  import opened Buffers
  import opened Wrappers

  /** What one read comes to. */
  datatype Answer = NotReady | Failed | Count(numBytes: nat)

  /** The underlying reader.  What it will answer is a script. */
  class Transport {
    var script: seq<Event>
    /** Every byte ever handed out. */
    ghost var supplied: seq<byte>

    constructor (script: seq<Event>)
      ensures this.script == script && supplied == []
    {
      this.script := script;
      supplied := [];
    }

    /** One read into the tail of `buf`. */
    method PollRead(buf: array<byte>, from: nat) returns (answer: Answer)
      requires from <= buf.Length
      modifies this`script, this`supplied, buf
      ensures var (e, rest) := Read(old(script), buf.Length - from);
              && script == rest
              && (e.Blocked? <==> answer.NotReady?)
              && (e.Broken? <==> answer.Failed?)
              && (e.Chunk? ==> answer == Count(|e.bytes|)
                               && from + |e.bytes| <= buf.Length
                               && buf[from..][..|e.bytes|] == e.bytes)
              && supplied == old(supplied) + (if e.Chunk? then e.bytes else [])
      ensures buf[..from] == old(buf[..from])
    {
      var (e, rest) := Read(script, buf.Length - from);
      script := rest;
      match e
      case Blocked => answer := NotReady;
      case Broken => answer := Failed;
      case Chunk(bytes) =>
        forall i | 0 <= i < |bytes| {
          buf[from + i] := bytes[i];
        }
        supplied := supplied + bytes;
        answer := Count(|bytes|);
    }
  }

  /** The responses delivered are what a one-shot parse of the supplied bytes begins with, and what
      is held is what it goes on with, whatever else may be supplied. */
  ghost predicate AccountedWith<R>(
      p: Parser<R>, supplied: seq<byte>, delivered: seq<R>, held: seq<byte>, more: seq<byte>)
    requires Lawful(p)
  {
    OneShot(p, supplied + more) == delivered + OneShot(p, held + more)
  }

  ghost predicate Accounted<R>(p: Parser<R>, supplied: seq<byte>, delivered: seq<R>, held: seq<byte>)
    requires Lawful(p)
  {
    forall more :: AccountedWith(p, supplied, delivered, held, more)
  }

  lemma AccountedReading<R>(p: Parser<R>, supplied: seq<byte>, delivered: seq<R>, held: seq<byte>, bytes: seq<byte>)
    requires Lawful(p) && Accounted(p, supplied, delivered, held)
    ensures Accounted(p, supplied + bytes, delivered, held + bytes)
  {
    forall more ensures AccountedWith(p, supplied + bytes, delivered, held + bytes, more) {
      assert AccountedWith(p, supplied, delivered, held, bytes + more);
      assert (supplied + bytes) + more == supplied + (bytes + more);
      assert (held + bytes) + more == held + (bytes + more);
    }
  }

  lemma AccountedDelivering<R>(p: Parser<R>, supplied: seq<byte>, delivered: seq<R>, held: seq<byte>)
    requires Lawful(p) && Accounted(p, supplied, delivered, held)
    requires |held| <= MAX_CAPACITY && p(held).Done? && p(held).consumed <= |held|
    ensures Accounted(p, supplied, delivered + [p(held).response], held[p(held).consumed..])
  {
    var c, r := p(held).consumed, p(held).response;
    forall more ensures AccountedWith(p, supplied, delivered + [r], held[c..], more) {
      assert AccountedWith(p, supplied, delivered, held, more);
      Stable(p, held, Window(held + more));
      assert (held + more)[c..] == held[c..] + more;
      assert delivered + ([r] + OneShot(p, held[c..] + more)) == (delivered + [r]) + OneShot(p, held[c..] + more);
    }
  }

  /** The bytes of the response that `s` begins with. */
  function Head<R>(p: Parser<R>, s: seq<byte>): seq<byte>
    requires Lawful(p)
  {
    Bounds(p, Window(s));
    match p(Window(s))
    case Done(c, r) => s[..c]
    case _ => []
  }

  /** What more bytes follow does not matter to it. */
  lemma HeadStays<R>(p: Parser<R>, held: seq<byte>, s: seq<byte>)
    requires Lawful(p) && |held| <= MAX_CAPACITY && p(held).Done? && held <= s
    ensures Head(p, s) == Head(p, held)
  {
    Bounds(p, held);
    Stable(p, held, Window(s));
  }

  /** When the parser was shown `frame` and whatever else was held, it found `r` in exactly `frame`. */
  ghost predicate FrameOf<R>(p: Parser<R>, frame: seq<byte>, r: R) {
    exists rest :: |frame + rest| <= MAX_CAPACITY && p(frame + rest) == Done(|frame|, r)
  }

  ghost predicate FramesOf<R>(p: Parser<R>, frames: seq<seq<byte>>, rs: seq<R>) {
    |frames| == |rs| && forall i | 0 <= i < |frames| :: FrameOf(p, frames[i], rs[i])
  }

  /** A poll that delivers a response takes its bytes, those that `s` begins with; any other poll takes
      nothing. */
  ghost predicate Takes<R>(
      p: Parser<R>, s: seq<byte>, poll: Poll<R>,
      frames: seq<seq<byte>>, frames': seq<seq<byte>>, rs: seq<R>, rs': seq<R>)
    requires Lawful(p)
  {
    if poll.Ready? then frames' == frames + [Head(p, s)] && rs' == rs + [poll.r]
    else frames' == frames && rs' == rs
  }

  lemma TakesFromMore<R>(
      p: Parser<R>, held: seq<byte>, s: seq<byte>, poll: Poll<R>,
      frames: seq<seq<byte>>, frames': seq<seq<byte>>, rs: seq<R>, rs': seq<R>)
    requires Lawful(p) && Takes(p, held, poll, frames, frames', rs, rs')
    requires poll.Ready? ==> |held| <= MAX_CAPACITY && p(held).Done? && held <= s
    ensures Takes(p, s, poll, frames, frames', rs, rs')
  {
    if poll.Ready? {
      HeadStays(p, held, s);
    }
  }

  /** The outcome of a round: a report, or none. */
  ghost predicate Comes<R>(round: Round<R>, report: Option<Poll<R>>, d: Decoder, script: seq<Event>) {
    match round
    case Report(st) => report.Some? && Step(d, report.value, script) == st
    case Again(d', rest) => report.None? && d == d' && script == rest
  }

  /** Taking the bytes of a response out of what is held keeps the books. */
  lemma FrameTaken<R>(
      p: Parser<R>, supplied: seq<byte>, frames: seq<seq<byte>>, delivered: seq<R>, held: seq<byte>)
    requires Lawful(p) && Accounted(p, supplied, delivered, held)
    requires supplied == Flatten(frames) + held && FramesOf(p, frames, delivered)
    requires |held| <= MAX_CAPACITY && p(held).Done?
    ensures var c := p(held).consumed;
            && 1 <= c <= |held| && Head(p, held) == held[..c]
            && supplied == Flatten(frames + [held[..c]]) + held[c..]
            && FramesOf(p, frames + [held[..c]], delivered + [p(held).response])
            && Accounted(p, supplied, delivered + [p(held).response], held[c..])
  {
    FrameAdded(p, frames, delivered, held);
    Bounds(p, held);
    var c := p(held).consumed;
    AccountedDelivering(p, supplied, delivered, held);
    FlattenSnoc(frames, held[..c]);
    assert held == held[..c] + held[c..];
  }

  lemma FrameAdded<R>(p: Parser<R>, frames: seq<seq<byte>>, delivered: seq<R>, held: seq<byte>)
    requires Lawful(p) && FramesOf(p, frames, delivered) && |held| <= MAX_CAPACITY && p(held).Done?
    ensures p(held).consumed <= |held|
    ensures FramesOf(p, frames + [held[..p(held).consumed]], delivered + [p(held).response])
  {
    Bounds(p, held);
    var c, r := p(held).consumed, p(held).response;
    assert held[..c] + held[c..] == held;
    assert FrameOf(p, held[..c], r);
  }

  class ImapStream<R> {
    const parser: Parser<R>
    const inner: Transport
    const buffer: Buffer
    /** The number of bytes below which an attempt to decode is a waste of time; 0 if unknown. */
    var decodeNeeds: nat

    /** The bytes of the responses delivered so far, one by one, and the responses. */
    ghost var frames: seq<seq<byte>>
    ghost var delivered: seq<R>

    /** The decoder as a value. */
    ghost function Model(): Decoder
      requires buffer.offset <= buffer.block.Length
      reads this, buffer, buffer.block
    {
      Decoder(buffer.Data(), buffer.block.Length, decodeNeeds)
    }

    ghost predicate Valid()
      reads this, inner, buffer, buffer.block
    {
      && Lawful(parser)
      && buffer.Valid()
      && Sound(parser, Model())
      // every byte ever read is in a delivered response or still held, in order
      && inner.supplied == Flatten(frames) + buffer.Data()
      && FramesOf(parser, frames, delivered)
      && Accounted(parser, inner.supplied, delivered, buffer.Data())
    }

    constructor (parser: Parser<R>, inner: Transport)
      requires Lawful(parser) && inner.supplied == []
      ensures Valid() && Model() == INITIAL
      ensures this.parser == parser && this.inner == inner && fresh(buffer) && fresh(buffer.block)
      ensures frames == [] && delivered == []
    {
      this.parser := parser;
      this.inner := inner;
      buffer := new Buffer();
      decodeNeeds := 0;
      frames, delivered := [], [];
      new;
      InitiallySound(parser);
    }

    /** Attempts to take one response out of the buffer. */
    method Decode() returns (decoded: Decoded<R>)
      requires Valid()
      modifies this, buffer
      ensures Valid()
      ensures (Model(), decoded) == Attempt(parser, Skipping, old(Model()))
      ensures buffer.block == old(buffer.block) || fresh(buffer.block)
      ensures Takes(parser, old(buffer.Data()), if decoded.Response? then Ready(decoded.r) else Pending,
                    old(frames), frames, old(delivered), delivered)
    {
      if buffer.offset < decodeNeeds {
        return Nothing;
      }
      AttemptIsSound(parser, Skipping, Model());
      var used := buffer.offset;
      var block := buffer.TakeBlock();
      assert block[..used] == old(buffer.Data());
      match parser(block[..used])
      case Done(consumed, response) =>
        decodeNeeds := 0;
        FrameTaken(parser, inner.supplied, frames, delivered, block[..used]);
        assert block[..used][..consumed] == block[..consumed] && block[..used][consumed..] == block[consumed..used];
        frames, delivered := frames + [block[..consumed]], delivered + [response];
        buffer.ResetWithData(block[consumed..used]);
        decoded := Response(response);
      case NeedSize(more) =>
        decodeNeeds := used + more;
        buffer.ReturnBlock(block);
        decoded := Nothing;
      case NeedUnknown =>
        decodeNeeds := 0;
        buffer.ReturnBlock(block);
        decoded := Nothing;
      case Fail =>
        decodeNeeds := 0;
        buffer.ReturnBlock(block);
        decoded := Unparsable;
    }

    /** The invariant is restored once the bytes just read are marked as used. */
    lemma Supplied(roomy: Decoder, script: seq<Event>, bytes: seq<byte>)
      requires Lawful(parser) && Sound(parser, roomy) && |roomy.data| < roomy.capacity
      requires Read(script, roomy.capacity - |roomy.data|).0 == Chunk(bytes)
      requires FramesOf(parser, frames, delivered) && Accounted(parser, Flatten(frames) + roomy.data, delivered, roomy.data)
      requires buffer.Valid() && Model() == roomy.(data := roomy.data + bytes)
      requires inner.supplied == Flatten(frames) + roomy.data + bytes
      ensures Valid()
    {
      Received(parser, roomy, script);
      AccountedReading(parser, Flatten(frames) + roomy.data, delivered, roomy.data, bytes);
      assert Flatten(frames) + (roomy.data + bytes) == (Flatten(frames) + roomy.data) + bytes;
    }

    /** Reads into the free room and marks what has arrived as used. */
    method Fill() returns (answer: Answer)
      requires Valid() && buffer.offset < buffer.block.Length
      modifies this, inner`script, inner`supplied, buffer`offset, buffer.block
      ensures Valid()
      ensures var (e, rest) := Read(old(inner.script), old(buffer.block.Length - buffer.offset));
              && inner.script == rest
              && (e.Blocked? <==> answer.NotReady?)
              && (e.Broken? <==> answer.Failed?)
              && (e.Chunk? ==> answer == Count(|e.bytes|))
              && Model() == old(Model()).(data := old(buffer.Data()) + if e.Chunk? then e.bytes else [])
      ensures frames == old(frames) && delivered == old(delivered)
    {
      ghost var before, script := Model(), inner.script;
      answer := inner.PollRead(buffer.block, buffer.offset);
      assert buffer.Data() == before.data;
      if answer.Count? && answer.numBytes > 0 {
        buffer.ExtendUsed(answer.numBytes);
        Supplied(before, script, Read(script, before.capacity - |before.data|).0.bytes);
      }
    }

    /** Attempts to decode what is held.  `None` means there is nothing to report. */
    method DecodeHeld() returns (report: Option<Poll<R>>)
      requires Valid()
      modifies this, buffer
      ensures Valid()
      ensures Comes(AttemptRound(parser, Skipping, old(Model()), inner.script), report, Model(), inner.script)
      ensures report.Some? && report.value.Ready? ==> parser(old(buffer.Data())).Done?
      ensures buffer.block == old(buffer.block) || fresh(buffer.block)
      ensures Takes(parser, old(buffer.Data()), if report.Some? then report.value else Pending,
                    old(frames), frames, old(delivered), delivered)
    {
      AttemptIsSound(parser, Skipping, Model());
      var decoded := Decode();
      match decoded
      case Response(r) => report := Some(Ready(r));
      case Unparsable => report := Some(ParseFailure);
      case Nothing => report := None;
    }

    /** Reads and attempts to decode what has arrived.  `None` means there is nothing to report. */
    method ReadMore() returns (report: Option<Poll<R>>)
      requires Valid() && buffer.offset < buffer.block.Length
      modifies this, inner`script, inner`supplied, buffer, buffer.block
      ensures Valid()
      ensures Comes(ReadAndAttempt(parser, Skipping, old(Model()), old(inner.script)), report, Model(), inner.script)
      ensures buffer.block == old(buffer.block) || fresh(buffer.block)
      ensures Takes(parser, Ahead(old(Model()), old(inner.script)), if report.Some? then report.value else Pending,
                    old(frames), frames, old(delivered), delivered)
    {
      ghost var before, script := Model(), inner.script;
      var answer := Fill();
      match answer
      case NotReady => report := Some(Pending);
      case Failed => report := Some(IoError);
      case Count(numBytesRead) =>
        if numBytesRead == 0 {
          return Some(if buffer.offset > 0 then UnexpectedEof else End);
        }
        Received(parser, before, script);
        ghost var held := buffer.Data();
        report := DecodeHeld();
        TakesFromMore(parser, held, Ahead(before, script), if report.Some? then report.value else Pending,
                      old(frames), frames, old(delivered), delivered);
    }

    /** The loop of a poll: makes room, reads and attempts to decode until there is something to report. */
    method ReadUntilReport() returns (poll: Poll<R>)
      requires Valid() && !parser(buffer.Data()).Done?
      modifies this, inner`script, inner`supplied, buffer, buffer.block
      ensures Valid() && (!poll.Ready? ==> !parser(buffer.Data()).Done?)
      ensures Step(Model(), poll, inner.script) == ReadLoop(parser, Skipping, old(Model()), old(inner.script))
      ensures buffer.block == old(buffer.block) || fresh(buffer.block)
      ensures Takes(parser, Ahead(old(Model()), old(inner.script)), poll, old(frames), frames, old(delivered), delivered)
    {
      while true
        invariant Valid() && !parser(buffer.Data()).Done?
        invariant ReadLoop(parser, Skipping, Model(), inner.script)
                  == ReadLoop(parser, Skipping, old(Model()), old(inner.script))
        invariant buffer.block == old(buffer.block) || fresh(buffer.block)
        invariant frames == old(frames) && delivered == old(delivered)
        invariant Ahead(Model(), inner.script) == Ahead(old(Model()), old(inner.script))
        decreases |Pouring(inner.script)|
      {
        RoundShrinks(parser, Skipping, Model(), inner.script);
        RoundAdvances(parser, Skipping, Model(), inner.script);
        var ok := buffer.EnsureCapacity(decodeNeeds);
        if !ok {
          return TooLarge;
        }
        // The buffer has at least one free byte, so that reading nothing means end of file.
        var report := ReadMore();
        if report.Some? {
          return report.value;
        }
      }
    }

    /** One poll for the next response. */
    method PollNext() returns (poll: Poll<R>)
      requires Valid()
      modifies this, inner`script, inner`supplied, buffer, buffer.block
      ensures Valid()
      ensures Step(Model(), poll, inner.script) == PollStep(parser, Skipping, old(Model()), old(inner.script))
      ensures buffer.block == old(buffer.block) || fresh(buffer.block)
      ensures Takes(parser, Ahead(old(Model()), old(inner.script)), poll, old(frames), frames, old(delivered), delivered)
      // without a response in hand everything supplied has been parsed
      ensures !poll.Ready? ==> delivered == OneShot(parser, inner.supplied)
    {
      AttemptAdvances(parser, Skipping, Model(), inner.script);
      var report := DecodeHeld();
      if report.Some? {
        poll := report.value;
        TakesFromMore(parser, old(buffer.Data()), Ahead(old(Model()), old(inner.script)), poll,
                      old(frames), frames, old(delivered), delivered);
      } else {
        poll := ReadUntilReport();
      }
      if !poll.Ready? {
        NothingHeldBack();
      }
    }

    /** Without a response among the bytes held, everything supplied has been delivered. */
    lemma NothingHeldBack()
      requires Valid() && !parser(buffer.Data()).Done?
      ensures delivered == OneShot(parser, inner.supplied)
    {
      assert AccountedWith(parser, inner.supplied, delivered, buffer.Data(), []);
      assert inner.supplied + [] == inner.supplied && buffer.Data() + [] == buffer.Data();
    }
  }
}
