/** The handshake after AUTHENTICATE: one answer to each challenge, then the completion. */
module Authentication {
  import opened Wrappers
  import opened Responses
  import opened Collect
  import opened Channels
  import opened Collectors
  import opened CollectorFacts
  import opened Wires

  /** Base 64 as the program uses it; what is decoded is a string of octets. */
  datatype Base64 = Base64(encode: string -> string, decode: string -> Option<string>)

  ghost predicate IsBase64(b: Base64) {
    forall octets :: b.decode(b.encode(octets)) == Some(octets)
  }

  /** The caller's authenticator, which may remember earlier challenges: its answer to the last of the
      challenges so far. */
  type Authenticator = seq<string> -> string

  /** The challenge that a continuation carries, if it can be decoded. */
  function Challenge(item: Item, b: Base64): Option<string> {
    match item
    case Success(Continue(None)) => Some("")
    case Success(Continue(Some(text))) => b.decode(text)
    case _ => None
  }

  /** The challenges in the leading run of decodable continuations. */
  function Challenges(items: seq<Item>, b: Base64): (cs: seq<string>)
    ensures |cs| <= |items|
  {
    if items == [] || Challenge(items[0], b).None? then []
    else [Challenge(items[0], b).value] + Challenges(items[1..], b)
  }

  /** The answers to the first `k` of the challenges `cs`, each encoded, in order. */
  function Answers(cs: seq<string>, k: nat, b: Base64, process: Authenticator): (answers: seq<string>)
    requires k <= |cs|
    ensures |answers| == k
  {
    if k == 0 then [] else Answers(cs, k - 1, b, process) + [b.encode(process(cs[..k]))]
  }

  /** What the handshake comes to, given what follows the last challenge answered. */
  function Outcome(rest: seq<Item>, tag: Tag): Result<(), Error> {
    if rest == [] then Failure(ConnectionLost)
    else
      match rest[0]
      case Success(Continue(Some(text))) => Failure(Authentication(text))
      case _ => Checked(rest, FirstStop(rest, UntilChecked(tag)))
  }

  function LeftBehind(rest: seq<Item>, tag: Tag): seq<Item> {
    if rest == [] then []
    else if rest[0].Success? && rest[0].value.Continue? then rest[1..]
    else Behind(rest, FirstStop(rest, UntilChecked(tag)))
  }

  /** What the handshake writes: one line for each challenge of the leading run, and nothing more. */
  function Written(items: seq<Item>, b: Base64, process: Authenticator): string {
    var cs := Challenges(items, b);
    Joined(Answers(cs, |cs|, b, process))
  }

  /** What it comes to. */
  function Handshaken(items: seq<Item>, tag: Tag, b: Base64): Result<(), Error> {
    Outcome(items[|Challenges(items, b)|..], tag)
  }

  lemma {:induction false} ChallengesAt(items: seq<Item>, b: Base64)
    ensures var cs := Challenges(items, b);
            && (forall i | 0 <= i < |cs| :: Challenge(items[i], b) == Some(cs[i]))
            && (|cs| < |items| ==> Challenge(items[|cs|], b) == None)
  {
    if items != [] && Challenge(items[0], b).Some? {
      ChallengesAt(items[1..], b);
      var cs := Challenges(items, b);
      forall i | 0 <= i < |cs| ensures Challenge(items[i], b) == Some(cs[i]) {
        assert i > 0 ==> items[1..][i - 1] == items[i];
      }
      assert |cs| < |items| ==> items[1..][|cs| - 1] == items[|cs|];
    }
  }

  /** With `k` challenges answered: whether the next item is one more. */
  lemma OneMoreChallenge(items: seq<Item>, b: Base64, k: nat)
    requires k <= |Challenges(items, b)|
    ensures var cs := Challenges(items, b);
            if k < |items| && Challenge(items[k], b).Some? then k < |cs| && Challenge(items[k], b).value == cs[k]
            else k == |cs|
  {
    ChallengesAt(items, b);
  }

  lemma OneMoreAnswer(cs: seq<string>, k: nat, b: Base64, process: Authenticator)
    requires k < |cs|
    ensures Joined(Answers(cs, k + 1, b, process)) ==
              Joined(Answers(cs, k, b, process)) + Joined([b.encode(process(cs[..k + 1]))])
    ensures cs[..k + 1] == cs[..k] + [cs[k]]
  {
    JoinedAppend(Answers(cs, k, b, process), [b.encode(process(cs[..k + 1]))]);
  }

  /** Success or the error, without the session. */
  function Plain<T>(r: Result<T, Error>): Result<(), Error> {
    match r
    case Success(_) => Success(())
    case Failure(e) => Failure(e)
  }

  /** The challenge in a continuation, decoded. */
  method Decoded(b: Base64, information: Option<string>) returns (challenge: Result<string, Error>)
    ensures match Challenge(Success(Continue(information)), b)
            case Some(c) => challenge == Success(c)
            case None => information.Some? && challenge == Failure(Authentication(information.value))
  {
    if information.None? {
      return Success("");
    }
    var decoded := b.decode(information.value);
    challenge := if decoded.Some? then Success(decoded.value) else Failure(Authentication(information.value));
  }

  /** Writes exactly one answer per challenge of the leading run, and nothing afterwards; a session,
      with an empty queue of its own, exists exactly after a good completion. */
  method DoAuthHandshake(stream: ResponseStream, wire: Wire, tag: Tag, b: Base64, process: Authenticator)
    returns (r: Result<Channel, Error>)
    modifies stream, wire
    ensures wire.out == old(wire.out) + Written(old(stream.items), b, process)
    ensures Plain(r) == Handshaken(old(stream.items), tag, b)
    ensures var all := old(stream.items);
            stream.items == LeftBehind(all[|Challenges(all, b)|..], tag)
    ensures r.Success? ==> fresh(r.value) && r.value.Valid() && r.value.queue == []
  {
    ghost var all, k, out := stream.items, 0, wire.out;
    ghost var cs := Challenges(all, b);
    var seen: seq<string> := [];
    while true
      invariant k <= |cs| && stream.items == all[k..] && seen == cs[..k]
      invariant wire.out == out + Joined(Answers(cs, k, b, process))
      decreases |stream.items|
    {
      OneMoreChallenge(all, b, k);
      var next := stream.Next();
      if next.None? {
        return Failure(ConnectionLost);
      }
      if next.value.Failure? {
        return Failure(Io(next.value.error));
      }
      var res := next.value.value;
      if !res.Continue? {
        assert all[k..] == [Success(res)] + stream.items;
        r := Conclude(stream, tag, res);
        return;
      }
      var challenge := Decoded(b, res.information);
      if challenge.Failure? {
        return Failure(challenge.error);
      }
      OneMoreAnswer(cs, k, b, process);
      seen := seen + [challenge.value];
      RunCommandUntagged(wire, b.encode(process(seen)));
      k := k + 1;
    }
  }

  /** The first response that is no continuation: the rest is a check for the completion. */
  method Conclude(stream: ResponseStream, tag: Tag, res: Response) returns (r: Result<Channel, Error>)
    requires !res.Continue?
    modifies stream
    ensures var rest := [Success(res)] + old(stream.items);
            && stream.items == LeftBehind(rest, tag)
            && Plain(r) == Outcome(rest, tag)
    ensures r.Success? ==> fresh(r.value) && r.value.Valid() && r.value.queue == []
  {
    var checked := CheckDoneOkFrom(stream, null, tag, res);
    if checked.Failure? {
      return Failure(checked.error);
    }
    var queue := new Channel();
    r := Success(queue);
  }

  /** Authentication succeeds exactly if, after the answered challenges, no continuation that cannot be
      decoded follows, and a matching OK completion comes before any error and any failed completion. */
  lemma AuthenticatesIff(all: seq<Item>, tag: Tag, b: Base64)
    ensures var rest := all[|Challenges(all, b)|..];
            Handshaken(all, tag, b).Success? <==>
              (exists i :: CompletesWell(rest, tag, i)) && !(rest[0].Success? && rest[0].value.Continue?)
  {
    var rest := all[|Challenges(all, b)|..];
    ChallengesAt(all, b);
    CheckSucceedsIff(rest, tag);
    if rest != [] {
      assert rest[0] == all[|Challenges(all, b)|];
    }
  }

  /** Each answer decodes to what the authenticator said, and keeps to one line. */
  lemma {:induction false} AnswersDecode(cs: seq<string>, k: nat, b: Base64, process: Authenticator)
    requires k <= |cs| && IsBase64(b) && NoLineEnds(b)
    ensures forall i | 0 <= i < k ::
              var answer := Answers(cs, k, b, process)[i];
              !HasCrLf(answer) && b.decode(answer) == Some(process(cs[..i + 1]))
  {
    if k > 0 {
      AnswersDecode(cs, k - 1, b, process);
      var last := b.encode(process(cs[..k]));
      assert !HasCrLf(last) && b.decode(last) == Some(process(cs[..k]));
    }
  }

  ghost predicate NoLineEnds(b: Base64) {
    forall octets :: !HasCrLf(b.encode(octets))
  }

  /** What the server reads: the lines written after the command, decoded, are the authenticator's
      answers to the challenges of the leading run, in order, as long as base 64 has no line ends. */
  lemma AnswersReadBack(cs: seq<string>, b: Base64, process: Authenticator)
    requires IsBase64(b) && NoLineEnds(b)
    ensures var (lines, rest) := SplitLines(Joined(Answers(cs, |cs|, b, process)), "");
            && rest == "" && |lines| == |cs|
            && forall i | 0 <= i < |cs| :: b.decode(lines[i]) == Some(process(cs[..i + 1]))
  {
    AnswersDecode(cs, |cs|, b, process);
    CleanLinesReadBack(Answers(cs, |cs|, b, process));
  }

  // ---- The server's side

  /** The server begins with the challenges `xs`, in base 64 or, where empty, with no text. */
  ghost predicate Challenging(items: seq<Item>, xs: seq<string>, b: Base64) {
    |xs| <= |items| && forall i | 0 <= i < |xs| ::
      items[i] == Success(Continue(Some(b.encode(xs[i])))) || (xs[i] == "" && items[i] == Success(Continue(None)))
  }

  /** What it goes on with is no further challenge: nothing, no continuation, or one that cannot be
      decoded. */
  ghost predicate NoMoreChallenges(items: seq<Item>, n: nat, b: Base64) {
    n < |items| && items[n].Success? && items[n].value.Continue? ==>
      items[n].value.information.Some? && b.decode(items[n].value.information.value) == None
  }

  lemma {:induction false} ChallengesArrive(items: seq<Item>, xs: seq<string>, b: Base64)
    requires IsBase64(b) && Challenging(items, xs, b) && NoMoreChallenges(items, |xs|, b)
    ensures Challenges(items, b) == xs
  {
    ChallengesAt(items, b);
    var cs := Challenges(items, b);
    forall i | 0 <= i < |xs| ensures Challenge(items[i], b) == Some(xs[i]) {
      assert b.decode(b.encode(xs[i])) == Some(xs[i]);
    }
    assert |cs| == |xs|;
    forall i | 0 <= i < |xs| ensures cs[i] == xs[i] {
      assert Challenge(items[i], b) == Some(cs[i]);
    }
  }

  /** A server that sends the challenges `xs` reads, line by line, the authenticator's answers to them: the
      `i`-th line decodes to the answer to the first `i` challenges as the server meant them. */
  lemma ServerReadsAnswers(items: seq<Item>, xs: seq<string>, b: Base64, process: Authenticator)
    requires IsBase64(b) && NoLineEnds(b)
    requires Challenging(items, xs, b) && NoMoreChallenges(items, |xs|, b)
    ensures var (lines, rest) := SplitLines(Written(items, b, process), "");
            && rest == "" && |lines| == |xs|
            && forall i | 0 <= i < |xs| :: b.decode(lines[i]) == Some(process(xs[..i + 1]))
  {
    ChallengesArrive(items, xs, b);
    AnswersReadBack(xs, b, process);
  }

  /** What the server's next answer makes of the handshake. */
  lemma HandshakeDecides(items: seq<Item>, xs: seq<string>, b: Base64, tag: Tag)
    requires IsBase64(b) && Challenging(items, xs, b) && NoMoreChallenges(items, |xs|, b)
    ensures var r := Handshaken(items, tag, b);
            if |items| == |xs| then r == Failure(ConnectionLost)
            else
              match items[|xs|]
              case Failure(e) => r == Failure(Io(e))
              case Success(Continue(information)) =>
                information.Some? && r == Failure(Authentication(information.value))
              case Success(Done(_, No, code, information)) => r == Failure(NoResponse(code, information))
              case Success(Done(_, Bad, code, information)) => r == Failure(BadResponse(code, information))
              case Success(Done(t, Ok, _, _)) => t == tag ==> r == Success(())
              case _ => true
  {
    ChallengesArrive(items, xs, b);
    var rest := items[|xs|..];
    if rest != [] {
      assert rest[0] == items[|xs|];
      assert Stops(UntilChecked(tag), rest[0]) ==> FirstStop(rest, UntilChecked(tag)) == 0;
    }
  }
}
