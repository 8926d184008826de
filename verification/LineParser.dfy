/** One parser that keeps the laws: it recognises where a response ends.  A response is a line that
    ends with CRLF, and a line that ends with `{n}` CRLF goes on with `n` bytes of any kind and
    another line (sections 2.2 and 4.3 of RFC 3501).  A lone CR or LF outside a literal is an error. */
module LineParser {
  import opened Bytes
  import opened Parsing
  import opened Decoding
  import opened DecodingSteps
  import opened DecodingRuns
  import opened Endings
  import opened EndingRuns
  import opened Shortcut
  import opened Decimals

  const CR: byte := 13
  const LF: byte := 10
  const OPEN: byte := 123
  const CLOSE: byte := 125
  const ZERO: byte := 48

  predicate IsDigit(b: byte) {
    ZERO <= b < ZERO + 10
  }

  /** How the text of the current line ends so far. */
  datatype Ending = Plain | Opened | Counting(n: nat) | Closed(n: nat)

  datatype State =
    | InText(ending: Ending)
    | AfterCr(ending: Ending)
    | InLiteral(left: nat)
    | Accepted
    | Rejected
  {
    predicate Final() {
      Accepted? || Rejected?
    }
  }

  const START: State := InText(Plain)

  function Extended(ending: Ending, b: byte): Ending {
    if b == OPEN then Opened
    else
      match ending
      case Opened => if IsDigit(b) then Counting((b - ZERO) as nat) else Plain
      case Counting(n) =>
        if IsDigit(b) then Counting(10 * n + (b - ZERO) as nat) else if b == CLOSE then Closed(n) else Plain
      case _ => Plain
  }

  /** Behind the announcement of a literal of `n` bytes. */
  function Literal(n: nat): State {
    if n == 0 then START else InLiteral(n)
  }

  function Next(st: State, b: byte): State {
    match st
    case InText(ending) =>
      if b == CR then AfterCr(ending) else if b == LF then Rejected else InText(Extended(ending, b))
    case AfterCr(ending) =>
      if b != LF then Rejected
      else if ending.Closed? then Literal(ending.n)
      else Accepted
    case InLiteral(left) => if left <= 1 then START else InLiteral(left - 1)
    case _ => st
  }

  /** The state reached, and where: a verdict stops the scan. */
  function Scan(st: State, b: seq<byte>, from: nat): (r: (State, nat))
    requires from <= |b|
    ensures from <= r.1 <= |b|
    ensures !r.0.Final() ==> r.1 == |b|
    decreases |b| - from
  {
    if from == |b| || st.Final() then (st, from) else Scan(Next(st, b[from]), b, from + 1)
  }

  function ParseLine(b: seq<byte>): Outcome<seq<byte>> {
    var (st, at) := Scan(START, b, 0);
    match st
    case Accepted => Done(at, b[..at])
    case Rejected => Fail
    case InLiteral(left) => NeedSize(left)
    case _ => NeedUnknown
  }

  // ---- The laws

  /** A verdict stays; without one the scan goes on where it stopped. */
  lemma {:induction false} ScanExtends(st: State, b: seq<byte>, from: nat, more: seq<byte>)
    requires from <= |b|
    ensures var (s, at) := Scan(st, b, from);
            Scan(st, b + more, from) == if s.Final() then (s, at) else Scan(s, b + more, |b|)
    decreases |b| - from
  {
    if from < |b| && !st.Final() {
      assert (b + more)[from] == b[from];
      ScanExtends(Next(st, b[from]), b, from + 1, more);
    }
  }

  /** The verdict rests on the bytes before it alone. */
  lemma {:induction false} ScanStopsAt(st: State, b: seq<byte>, from: nat)
    requires from <= |b|
    ensures var (s, at) := Scan(st, b, from);
            s.Final() ==> Scan(st, b[..at], from) == (s, at)
    decreases |b| - from
  {
    if from < |b| && !st.Final() {
      ScanStopsAt(Next(st, b[from]), b, from + 1);
      var at := Scan(st, b, from).1;
      assert b[..at][from] == b[from];
    }
  }

  /** A literal takes as many bytes as it has left, whatever they are. */
  lemma {:induction false} ScanLiteral(left: nat, b: seq<byte>, from: nat)
    requires 0 < left && from <= |b|
    ensures Scan(InLiteral(left), b, from) ==
              if |b| - from < left then (InLiteral(left - (|b| - from)), |b|)
              else Scan(START, b, from + left)
    decreases left
  {
    if from < |b| && left > 1 {
      ScanLiteral(left - 1, b, from + 1);
    }
  }

  /** A literal that has begun is not over, so that the size asked for is never zero. */
  lemma {:induction false} LiteralLeftIsPositive(st: State, b: seq<byte>, from: nat)
    requires from <= |b| && st != InLiteral(0)
    ensures Scan(st, b, from).0 != InLiteral(0)
    decreases |b| - from
  {
    if from < |b| && !st.Final() {
      LiteralLeftIsPositive(Next(st, b[from]), b, from + 1);
    }
  }

  lemma {:induction false} NotAtTheStart(st: State, b: seq<byte>, from: nat)
    requires from <= |b| && !st.Final()
    ensures Scan(st, b, from).0.Final() ==> Scan(st, b, from).1 > from
  {
  }

  lemma ParseLineIsStable(b: seq<byte>, more: seq<byte>)
    ensures StableOn(ParseLine, b, more)
  {
    ScanExtends(START, b, 0, more);
    var (s, at) := Scan(START, b, 0);
    if s.Accepted? {
      assert (b + more)[..at] == b[..at];
    } else if s.InLiteral? {
      LiteralLeftIsPositive(START, b, 0);
      ScanLiteral(s.left, b + more, |b|);
    }
  }

  lemma ParseLineIsLawful()
    ensures Lawful(ParseLine) && SelfDelimiting(ParseLine)
  {
    forall b ensures WithinInput(ParseLine, b) {
      NotAtTheStart(START, b, 0);
      LiteralLeftIsPositive(START, b, 0);
    }
    forall b, more ensures StableOn(ParseLine, b, more) {
      ParseLineIsStable(b, more);
    }
    forall b | ParseLine(b).Done? ensures ParseLine(b[..ParseLine(b).consumed]) == ParseLine(b) {
      ScanStopsAt(START, b, 0);
      var at := ParseLine(b).consumed;
      assert b[..at][..at] == b[..at];
    }
  }

  /** In a literal the parser asks for just the rest of it. */
  lemma ParseLineIsSteady()
    ensures Steady(ParseLine)
  {
    forall b, more ensures SteadyOn(ParseLine, b, more) {
      ScanExtends(START, b, 0, more);
      var st := Scan(START, b, 0).0;
      if st.InLiteral? {
        LiteralLeftIsPositive(START, b, 0);
        ScanLiteral(st.left, b + more, |b|);
      }
    }
  }

  // ---- Round trip

  /** A response as its sender sees it: pieces of text, each followed by a literal, and a last text. */
  datatype Message = Last(text: seq<byte>) | Piece(text: seq<byte>, literal: seq<byte>, rest: Message)

  function AsBytes(ds: seq<digit>): seq<byte> {
    seq(|ds|, i requires 0 <= i < |ds| => ZERO + ds[i] as byte)
  }

  /** What announces a literal: `{n}` CRLF. */
  function Announcement(n: nat): seq<byte> {
    [OPEN] + AsBytes(Digits(n)) + [CLOSE, CR, LF]
  }

  function Rendered(m: Message): seq<byte> {
    match m
    case Last(text) => text + [CR, LF]
    case Piece(text, literal, rest) => text + (Announcement(|literal|) + (literal + Rendered(rest)))
  }

  function EndingOf(ending: Ending, text: seq<byte>): Ending
    decreases |text|
  {
    if text == [] then ending else EndingOf(Extended(ending, text[0]), text[1..])
  }

  /** No text holds a CR or LF, and the last one does not itself announce a literal. */
  ghost predicate WellFormed(m: Message) {
    && CR !in m.text && LF !in m.text
    && (m.Last? ==> !EndingOf(Plain, m.text).Closed?)
    && (m.Piece? ==> WellFormed(m.rest))
  }

  lemma {:induction false} EndingSnoc(ending: Ending, text: seq<byte>, b: byte)
    ensures EndingOf(ending, text + [b]) == Extended(EndingOf(ending, text), b)
    decreases |text|
  {
    if text == [] {
      assert text + [b] == [b];
    } else {
      assert (text + [b])[1..] == text[1..] + [b];
      EndingSnoc(Extended(ending, text[0]), text[1..], b);
    }
  }

  /** Reading the digits of a number counts up to it. */
  lemma {:induction false} DigitsCount(ds: seq<digit>)
    requires ds != []
    ensures EndingOf(Opened, AsBytes(ds)) == Counting(Value(ds))
  {
    var front, d := ds[..|ds| - 1], ds[|ds| - 1];
    assert AsBytes(ds) == AsBytes(front) + [ZERO + d as byte];
    EndingSnoc(Opened, AsBytes(front), ZERO + d as byte);
    if front != [] {
      DigitsCount(front);
    }
  }

  /** `b` holds `part` at position `at`. */
  ghost predicate At(b: seq<byte>, at: nat, part: seq<byte>) {
    at + |part| <= |b| && b[at..at + |part|] == part
  }

  lemma AtParts(b: seq<byte>, at: nat, x: seq<byte>, y: seq<byte>)
    requires At(b, at, x + y)
    ensures At(b, at, x) && At(b, at + |x|, y)
  {
    assert b[at..at + |x|] == (x + y)[..|x|];
    assert b[at + |x|..at + |x| + |y|] == (x + y)[|x|..];
  }

  lemma {:induction false} ScanText(ending: Ending, b: seq<byte>, from: nat, text: seq<byte>)
    requires At(b, from, text) && CR !in text && LF !in text
    ensures Scan(InText(ending), b, from) == Scan(InText(EndingOf(ending, text)), b, from + |text|)
    decreases |text|
  {
    if text != [] {
      assert b[from] == b[from..from + |text|][0] == text[0];
      assert b[from + 1..from + |text|] == b[from..from + |text|][1..] == text[1..];
      ScanText(Extended(ending, text[0]), b, from + 1, text[1..]);
    }
  }

  predicate EndsLine(b: seq<byte>, at: nat) {
    at + 2 <= |b| && b[at] == CR && b[at + 1] == LF
  }

  lemma LineEnds(b: seq<byte>, at: nat)
    requires At(b, at, [CR, LF])
    ensures EndsLine(b, at)
  {
    assert b[at] == b[at..at + 2][0] == CR;
    assert b[at + 1] == b[at..at + 2][1] == LF;
  }

  lemma ScanLineEnd(ending: Ending, b: seq<byte>, at: nat)
    requires EndsLine(b, at)
    ensures Scan(InText(ending), b, at) == Scan(Next(AfterCr(ending), LF), b, at + 2)
  {
    assert Scan(InText(ending), b, at) == Scan(AfterCr(ending), b, at + 1);
  }

  lemma ScanAnnouncement(ending: Ending, b: seq<byte>, from: nat, n: nat)
    requires At(b, from, Announcement(n))
    ensures Scan(InText(ending), b, from)
            == Scan(Literal(n), b, from + |Announcement(n)|)
  {
    var braced := Braced(n);
    AnnouncementEnds(ending, n);
    assert Announcement(n) == braced + [CR, LF];
    AtParts(b, from, braced, [CR, LF]);
    LineEnds(b, from + |braced|);
    ScanBraced(ending, braced, b, from, n);
  }

  function Braced(n: nat): seq<byte> {
    [OPEN] + AsBytes(Digits(n)) + [CLOSE]
  }

  lemma ScanBraced(ending: Ending, braced: seq<byte>, b: seq<byte>, from: nat, n: nat)
    requires CR !in braced && LF !in braced && EndingOf(ending, braced) == Closed(n)
    requires At(b, from, braced) && EndsLine(b, from + |braced|)
    ensures Scan(InText(ending), b, from) == Scan(Literal(n), b, from + |braced| + 2)
  {
    ScanText(ending, b, from, braced);
    ScanLineEnd(Closed(n), b, from + |braced|);
  }

  lemma AnnouncementEnds(ending: Ending, n: nat)
    ensures EndingOf(ending, Braced(n)) == Closed(n)
  {
    var digits := AsBytes(Digits(n));
    EndingSnoc(ending, [OPEN] + digits, CLOSE);
    assert ([OPEN] + digits)[1..] == digits;
    DigitsCount(Digits(n));
    ValueOfDigits(n);
  }

  lemma ScanLiteralOf(literal: seq<byte>, b: seq<byte>, at: nat)
    requires At(b, at, literal)
    ensures Scan(Literal(|literal|), b, at) == Scan(START, b, at + |literal|)
  {
    if literal != [] {
      ScanLiteral(|literal|, b, at);
    }
  }

  lemma ScanAnnounced(
      ending: Ending, announcement: seq<byte>, literal: seq<byte>, rest: seq<byte>, b: seq<byte>, from: nat)
    requires announcement == Announcement(|literal|)
    requires At(b, from, announcement + (literal + rest))
    ensures var at := from + |announcement| + |literal|;
            At(b, at, rest) && Scan(InText(ending), b, from) == Scan(START, b, at)
  {
    AtParts(b, from, announcement, literal + rest);
    AtParts(b, from + |announcement|, literal, rest);
    ScanAnnouncement(ending, b, from, |literal|);
    ScanLiteralOf(literal, b, from + |announcement|);
  }

  lemma ScanPiece(
      text: seq<byte>, announcement: seq<byte>, literal: seq<byte>, rest: seq<byte>, b: seq<byte>, from: nat)
    requires CR !in text && LF !in text
    requires announcement == Announcement(|literal|)
    requires At(b, from, text + (announcement + (literal + rest)))
    ensures var at := from + |text| + |announcement| + |literal|;
            At(b, at, rest) && Scan(START, b, from) == Scan(START, b, at)
  {
    AtParts(b, from, text, announcement + (literal + rest));
    ScanText(Plain, b, from, text);
    ScanAnnounced(EndingOf(Plain, text), announcement, literal, rest, b, from + |text|);
  }

  lemma ScanLast(text: seq<byte>, b: seq<byte>, from: nat)
    requires WellFormed(Last(text)) && At(b, from, text + [CR, LF])
    ensures Scan(START, b, from) == (Accepted, from + |text| + 2)
  {
    AtParts(b, from, text, [CR, LF]);
    LineEnds(b, from + |text|);
    ScanText(Plain, b, from, text);
    ScanLineEnd(EndingOf(Plain, text), b, from + |text|);
  }

  /** A scan over a rendered message accepts exactly at its end. */
  lemma {:induction false} ScanMessage(m: Message, b: seq<byte>, from: nat)
    requires WellFormed(m) && At(b, from, Rendered(m))
    ensures Scan(START, b, from) == (Accepted, from + |Rendered(m)|)
    decreases m
  {
    match m
    case Last(text) => ScanLast(text, b, from);
    case Piece(text, literal, rest) =>
      var announcement := Announcement(|literal|);
      ScanPiece(text, announcement, literal, Rendered(rest), b, from);
      ScanMessage(rest, b, from + |text| + |announcement| + |literal|);
  }

  /** Parsing undoes rendering, and leaves whatever follows. */
  lemma ParseRendered(m: Message, rest: seq<byte>)
    requires WellFormed(m)
    ensures ParseLine(Rendered(m) + rest) == Done(|Rendered(m)|, Rendered(m))
  {
    ScanMessage(m, Rendered(m) + rest, 0);
    assert (Rendered(m) + rest)[..|Rendered(m)|] == Rendered(m);
  }

  function LineRun(script: seq<Event>, n: nat): Run<seq<byte>> {
    ParseLineIsLawful();
    FromStart(ParseLine, script, n)
  }

  /** End to end: well-formed messages within the limit, sent one after the other, come out of any
      settled run as they were sent, however the network cuts them up. */
  lemma MessagesComeOut(ms: seq<Message>, script: seq<Event>, n: nat)
    requires forall m | m in ms :: WellFormed(m) && |Rendered(m)| <= MAX_CAPACITY
    requires Pouring(script) == Flatten(seq(|ms|, i requires 0 <= i < |ms| => Rendered(ms[i])))
    requires Settled(LineRun(script, n))
    ensures Delivered(LineRun(script, n).polls)
            == seq(|ms|, i requires 0 <= i < |ms| => Rendered(ms[i]))
  {
    ParseLineIsLawful();
    var frames := seq(|ms|, i requires 0 <= i < |ms| => Rendered(ms[i]));
    forall i | 0 <= i < |frames|
      ensures |frames[i]| <= MAX_CAPACITY && ParseLine(frames[i]) == Done(|frames[i]|, frames[i])
    {
      assert ms[i] in ms;
      ParseRendered(ms[i], []);
      assert frames[i] + [] == frames[i];
    }
    FramesComeOut(ParseLine, frames, frames, []);
    assert Flatten(frames) + [] == Pouring(script);
    ChunkingIndependence(ParseLine, script, n, script, n);
    assert OneShot(ParseLine, []) == [];
  }

  /** What is behind the last complete line, and the literals in it. */
  function LineRemainder(s: seq<byte>): seq<byte> {
    ParseLineIsLawful();
    Remainder(ParseLine, s)
  }

  /** The bytes alone decide how a run over lines ends: with a parse failure exactly if what a block can
      hold of the remainder has a stray CR or LF, or else as too large exactly if it fills the largest block
      or announces a literal that goes beyond it. */
  lemma LinesEnd(script: seq<Event>, n: nat)
    requires Settled(LineRun(script, n))
    ensures var last, r := LineRun(script, n).polls[n - 1], LineRemainder(Pouring(script));
            && (last.ParseFailure? <==> Scan(START, Window(r), 0).0.Rejected?)
            && (last.TooLarge? <==>
                  && !Scan(START, Window(r), 0).0.Rejected?
                  && (|r| >= MAX_CAPACITY
                      || (Scan(START, r, 0).0.InLiteral? && |r| + Scan(START, r, 0).0.left > MAX_CAPACITY)))
  {
    ParseLineIsLawful();
    ParseLineIsSteady();
    SteadyHintsHold(ParseLine);
    InitiallySound(ParseLine);
    SettledRunEnds(ParseLine, Skipping, INITIAL, script, n);
    assert Ahead(INITIAL, script) == Pouring(script);
  }

  /** For lines the shortcut changes nothing. */
  lemma LinesNeedNoAttempts(script: seq<Event>, n: nat)
    ensures Lawful(ParseLine) && Sound(ParseLine, INITIAL)
    ensures Polls(ParseLine, Eager, INITIAL, script, n) == LineRun(script, n)
  {
    ParseLineIsLawful();
    ParseLineIsSteady();
    SteadyIsWithin(ParseLine);
    InitiallySound(ParseLine);
    ShortcutIsInvisible(ParseLine, INITIAL, script, n);
  }
}
