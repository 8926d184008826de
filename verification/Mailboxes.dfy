/** The two collectors that gather a mailbox: SELECT and EXAMINE, and STATUS. */
module Mailboxes {
  import opened Wrappers
  import opened Responses
  import opened Collect
  import opened Channels
  import opened Collectors

  datatype Mailbox = Mailbox(
    flags: seq<string>,
    exists_: nat,
    recent: nat,
    unseen: Option<nat>,
    permanentFlags: seq<string>,
    uidNext: Option<nat>,
    uidValidity: Option<nat>,
    highestModSeq: Option<nat>)

  const DEFAULT: Mailbox := Mailbox([], 0, 0, None, [], None, None, None)

  // ---- SELECT, EXAMINE

  /** What a response announces about the selected mailbox. */
  datatype Field =
    | FlagsField
    | ExistsField
    | RecentField
    | UnseenField
    | PermanentFlagsField
    | UidNextField
    | UidValidityField
    | HighestModSeqField

  /** The code of an untagged OK. */
  function OkCode(item: Item): Option<Code> {
    match item
    case Success(Data(Ok, code, _)) => code
    case _ => None
  }

  function FlagsOf(item: Item): seq<string> {
    match item
    case Success(MailboxData(Flags(flags))) => flags
    case _ => []
  }

  function ExistsOf(item: Item): seq<nat> {
    match item
    case Success(MailboxData(Exists(n))) => [n]
    case _ => []
  }

  function RecentOf(item: Item): seq<nat> {
    match item
    case Success(MailboxData(Recent(n))) => [n]
    case _ => []
  }

  function UnseenOf(item: Item): seq<nat> {
    match OkCode(item)
    case Some(Unseen(n)) => [n]
    case _ => []
  }

  function PermanentFlagsOf(item: Item): seq<string> {
    match OkCode(item)
    case Some(PermanentFlags(flags)) => flags
    case _ => []
  }

  function UidNextOf(item: Item): seq<nat> {
    match OkCode(item)
    case Some(UidNext(n)) => [n]
    case _ => []
  }

  function UidValidityOf(item: Item): seq<nat> {
    match OkCode(item)
    case Some(UidValidity(n)) => [n]
    case _ => []
  }

  function HighestModSeqOf(item: Item): seq<nat> {
    match OkCode(item)
    case Some(HighestModSeq(n)) => [n]
    case _ => []
  }

  /** The mailbox that the responses announce: of each number the last, of each flag list all. */
  function Announced(items: seq<Item>): Mailbox {
    Mailbox(
      FlatMap(items, FlagsOf),
      LastOr(FlatMap(items, ExistsOf), 0),
      LastOr(FlatMap(items, RecentOf), 0),
      LastOf(FlatMap(items, UnseenOf)),
      FlatMap(items, PermanentFlagsOf),
      LastOf(FlatMap(items, UidNextOf)),
      LastOf(FlatMap(items, UidValidityOf)),
      LastOf(FlatMap(items, HighestModSeqOf)))
  }

  /** Untagged status and mailbox data other than STATUS stay here; the rest goes to the queue. */
  function NoMailbox(item: Item): seq<Response> {
    Forward(item, item.Success? && (item.value.Data? || (item.value.MailboxData? && !item.value.datum.MailboxStatus?)))
  }

  /** What a selection comes to: the status that ended it decides. */
  function Selected(items: seq<Item>, n: nat, mailbox: Mailbox): Result<Mailbox, Error> {
    if n >= |items| then Success(mailbox)
    else
      match items[n]
      case Failure(e) => Failure(Io(e))
      case Success(Done(_, status, code, information)) => Judged(status, code, information, mailbox)
      case Success(Data(status, code, information)) => Judged(status, code, information, mailbox)
      case _ => Success(mailbox)
  }

  function Judged<T>(status: Status, code: Option<Code>, information: Option<string>, t: T): Result<T, Error> {
    match CheckStatusOk(status, code, information)
    case Success(_) => Success(t)
    case Failure(e) => Failure(e)
  }

  /** `m'` is `m` after one more response. */
  ghost predicate Updated(m: Mailbox, item: Item, m': Mailbox) {
    && m'.flags == m.flags + FlagsOf(item)
    && m'.exists_ == LastOr(ExistsOf(item), m.exists_)
    && m'.recent == LastOr(RecentOf(item), m.recent)
    && m'.unseen == (if UnseenOf(item) == [] then m.unseen else LastOf(UnseenOf(item)))
    && m'.permanentFlags == m.permanentFlags + PermanentFlagsOf(item)
    && m'.uidNext == (if UidNextOf(item) == [] then m.uidNext else LastOf(UidNextOf(item)))
    && m'.uidValidity == (if UidValidityOf(item) == [] then m.uidValidity else LastOf(UidValidityOf(item)))
    && m'.highestModSeq == (if HighestModSeqOf(item) == [] then m.highestModSeq else LastOf(HighestModSeqOf(item)))
  }

  lemma AnnouncedSnoc(items: seq<Item>, item: Item)
    ensures Updated(Announced(items), item, Announced(items + [item]))
  {
    FlatMapSnoc(items, item, FlagsOf);
    FlatMapSnoc(items, item, ExistsOf);
    FlatMapSnoc(items, item, RecentOf);
    FlatMapSnoc(items, item, UnseenOf);
    FlatMapSnoc(items, item, PermanentFlagsOf);
    FlatMapSnoc(items, item, UidNextOf);
    FlatMapSnoc(items, item, UidValidityOf);
    FlatMapSnoc(items, item, HighestModSeqOf);
  }

  /** Takes in one response that does not end the selection. */
  method TakeIn(mailbox: Mailbox, resp: Response, ch: Channel) returns (m: Mailbox)
    requires ch.Valid()
    requires resp.Data? ==> resp.status == Ok
    modifies ch
    ensures ch.Valid()
    ensures Updated(mailbox, Success(resp), m)
    ensures ch.queue == Queued(old(ch.queue), NoMailbox(Success(resp)))
  {
    QueuedNone(ch.queue);
    m := mailbox;
    match resp
    case Data(_, code, _) =>
      match code {
        case Some(UidValidity(uid)) => m := m.(uidValidity := Some(uid));
        case Some(UidNext(unext)) => m := m.(uidNext := Some(unext));
        case Some(HighestModSeq(n)) => m := m.(highestModSeq := Some(n));
        case Some(Unseen(n)) => m := m.(unseen := Some(n));
        case Some(PermanentFlags(flags)) => m := m.(permanentFlags := m.permanentFlags + flags);
        case _ =>
      }
    case MailboxData(datum) =>
      match datum {
        case MailboxStatus(_, _) => HandleUnilateral(resp, ch);
        case Exists(e) => m := m.(exists_ := e);
        case Recent(n) => m := m.(recent := n);
        case Flags(flags) => m := m.(flags := m.flags + flags);
        case _ =>
      }
    case _ => HandleUnilateral(resp, ch);
  }

  method ParseMailbox(stream: ResponseStream, ch: Channel, tag: Tag) returns (r: Result<Mailbox, Error>)
    requires ch.Valid()
    modifies stream, ch
    ensures ch.Valid()
    ensures ReadThrough(old(stream.items), UntilSelected(tag), stream.items, old(ch.queue), ch.queue, NoMailbox)
    ensures var n := FirstStop(old(stream.items), UntilSelected(tag));
            r == Selected(old(stream.items), n, Announced(old(stream.items)[..n]))
  {
    var mailbox := DEFAULT;
    ghost var all, k, queue := stream.items, 0, ch.queue;
    StartReading(all, UntilSelected(tag), queue, NoMailbox);
    while true
      invariant ch.Valid()
      invariant Reading(all, UntilSelected(tag), k, stream.items, queue, ch.queue, NoMailbox)
      invariant mailbox == Announced(all[..k])
      decreases |stream.items|
    {
      Look(all, UntilSelected(tag), k, stream.items, queue, ch.queue, NoMailbox);
      StopsHere(all, UntilSelected(tag), k, stream.items);
      var next := stream.Next();
      if next.None? {
        return Success(mailbox);
      }
      if next.value.Failure? {
        return Failure(Io(next.value.error));
      }
      var resp := next.value.value;
      if IsDone(resp, tag) || (resp.Data? && resp.status != Ok) {
        return Judged(resp.status, resp.code, resp.information, mailbox);
      }
      AnnouncedSnoc(all[..k], next.value);
      if NoMailbox(next.value) == [] {
        QueuedNone(ch.queue);
      }
      mailbox := TakeIn(mailbox, resp, ch);
      k := k + 1;
    }
  }

  // ---- STATUS

  function MessagesIn(a: StatusAttribute): seq<nat> {
    if a.MessagesIs? then [a.n] else []
  }

  function RecentIn(a: StatusAttribute): seq<nat> {
    if a.RecentIs? then [a.n] else []
  }

  function UnseenIn(a: StatusAttribute): seq<nat> {
    if a.UnseenIs? then [a.n] else []
  }

  function UidNextIn(a: StatusAttribute): seq<nat> {
    if a.UidNextIs? then [a.n] else []
  }

  function UidValidityIn(a: StatusAttribute): seq<nat> {
    if a.UidValidityIs? then [a.n] else []
  }

  function HighestModSeqIn(a: StatusAttribute): seq<nat> {
    if a.HighestModSeqIs? then [a.n] else []
  }

  /** The mailbox that a list of status attributes describes: of each kind the last counts. */
  function Described(attributes: seq<StatusAttribute>): Mailbox {
    Mailbox(
      [],
      LastOr(FlatMap(attributes, MessagesIn), 0),
      LastOr(FlatMap(attributes, RecentIn), 0),
      LastOf(FlatMap(attributes, UnseenIn)),
      [],
      LastOf(FlatMap(attributes, UidNextIn)),
      LastOf(FlatMap(attributes, UidValidityIn)),
      LastOf(FlatMap(attributes, HighestModSeqIn)))
  }

  predicate IsStatusOf(item: Item, mailbox: string) {
    item.Success? && item.value.MailboxData? && item.value.datum.MailboxStatus? && item.value.datum.mailbox == mailbox
  }

  function AttributesOf(mailbox: string): Item -> seq<StatusAttribute> {
    (item: Item) => if IsStatusOf(item, mailbox) then item.value.datum.attributes else []
  }

  function NoStatusOf(mailbox: string): Item -> seq<Response> {
    (item: Item) => Forward(item, IsStatusOf(item, mailbox))
  }

  /** `m'` is `m` after one more attribute. */
  ghost predicate Entered(m: Mailbox, a: StatusAttribute, m': Mailbox) {
    && m'.flags == m.flags && m'.permanentFlags == m.permanentFlags
    && m'.exists_ == (if a.MessagesIs? then a.n else m.exists_)
    && m'.recent == (if a.RecentIs? then a.n else m.recent)
    && m'.unseen == (if a.UnseenIs? then Some(a.n) else m.unseen)
    && m'.uidNext == (if a.UidNextIs? then Some(a.n) else m.uidNext)
    && m'.uidValidity == (if a.UidValidityIs? then Some(a.n) else m.uidValidity)
    && m'.highestModSeq == (if a.HighestModSeqIs? then Some(a.n) else m.highestModSeq)
  }

  lemma DescribedSnoc(attributes: seq<StatusAttribute>, a: StatusAttribute)
    ensures Entered(Described(attributes), a, Described(attributes + [a]))
  {
    FlatMapSnoc(attributes, a, MessagesIn);
    FlatMapSnoc(attributes, a, RecentIn);
    FlatMapSnoc(attributes, a, UnseenIn);
    FlatMapSnoc(attributes, a, UidNextIn);
    FlatMapSnoc(attributes, a, UidValidityIn);
    FlatMapSnoc(attributes, a, HighestModSeqIn);
  }

  lemma DescribedStep(before: seq<StatusAttribute>, attributes: seq<StatusAttribute>, i: nat)
    requires i < |attributes|
    ensures Entered(Described(before + attributes[..i]), attributes[i], Described(before + attributes[..i + 1]))
  {
    DescribedSnoc(before + attributes[..i], attributes[i]);
    assert before + attributes[..i + 1] == (before + attributes[..i]) + [attributes[i]];
  }

  /** Enters the attributes of one STATUS response. */
  method Enter(mbox: Mailbox, ghost before: seq<StatusAttribute>, attributes: seq<StatusAttribute>)
    returns (m: Mailbox)
    requires mbox == Described(before)
    ensures m == Described(before + attributes)
  {
    m := mbox;
    assert before + attributes[..0] == before;
    assert attributes[..|attributes|] == attributes;
    for i := 0 to |attributes|
      invariant m == Described(before + attributes[..i])
    {
      DescribedStep(before, attributes, i);
      match attributes[i] {
        case HighestModSeqIs(n) => m := m.(highestModSeq := Some(n));
        case MessagesIs(n) => m := m.(exists_ := n);
        case RecentIs(n) => m := m.(recent := n);
        case UidNextIs(n) => m := m.(uidNext := Some(n));
        case UidValidityIs(n) => m := m.(uidValidity := Some(n));
        case UnseenIs(n) => m := m.(unseen := Some(n));
        case OtherAttribute(_) =>
      }
    }
  }

  method ParseStatus(stream: ResponseStream, expectedMailbox: string, ch: Channel, tag: Tag)
    returns (r: Result<Mailbox, Error>)
    requires ch.Valid()
    modifies stream, ch
    ensures ch.Valid()
    ensures ReadThrough(old(stream.items), UntilDone(tag), stream.items, old(ch.queue), ch.queue,
                        NoStatusOf(expectedMailbox))
    ensures var n := FirstStop(old(stream.items), UntilDone(tag));
            r == Selected(old(stream.items), n,
                          Described(FlatMap(old(stream.items)[..n], AttributesOf(expectedMailbox))))
  {
    var mbox := DEFAULT;
    ghost var all, k, queue := stream.items, 0, ch.queue;
    StartReading(all, UntilDone(tag), queue, NoStatusOf(expectedMailbox));
    while true
      invariant ch.Valid()
      invariant Reading(all, UntilDone(tag), k, stream.items, queue, ch.queue, NoStatusOf(expectedMailbox))
      invariant mbox == Described(FlatMap(all[..k], AttributesOf(expectedMailbox)))
      decreases |stream.items|
    {
      Look(all, UntilDone(tag), k, stream.items, queue, ch.queue, NoStatusOf(expectedMailbox));
      Gather(all, UntilDone(tag), k, stream.items, AttributesOf(expectedMailbox));
      ghost var before := FlatMap(all[..k], AttributesOf(expectedMailbox));
      var next := stream.Next();
      if next.None? {
        return Success(mbox);
      }
      if next.value.Failure? {
        return Failure(Io(next.value.error));
      }
      var resp := next.value.value;
      if IsDone(resp, tag) {
        return Judged(resp.status, resp.code, resp.information, mbox);
      }
      if IsStatusOf(next.value, expectedMailbox) {
        mbox := Enter(mbox, before, resp.datum.attributes);
      } else {
        assert before + [] == before;
        HandleUnilateral(resp, ch);
      }
      k := k + 1;
    }
  }

  // ---- What the order of announcements matters

  /** The field that a response writes, if it writes one. */
  function Writes(r: Response): Option<Field> {
    match r
    case MailboxData(Flags(_)) => Some(FlagsField)
    case MailboxData(Exists(_)) => Some(ExistsField)
    case MailboxData(Recent(_)) => Some(RecentField)
    case Data(Ok, Some(Unseen(_)), _) => Some(UnseenField)
    case Data(Ok, Some(PermanentFlags(_)), _) => Some(PermanentFlagsField)
    case Data(Ok, Some(UidNext(_)), _) => Some(UidNextField)
    case Data(Ok, Some(UidValidity(_)), _) => Some(UidValidityField)
    case Data(Ok, Some(HighestModSeq(_)), _) => Some(HighestModSeqField)
    case _ => None
  }

  lemma FlatMapSwap<S, T>(before: seq<S>, x: S, y: S, after: seq<S>, f: S -> seq<T>)
    requires f(x) == [] || f(y) == []
    ensures FlatMap(before + [x, y] + after, f) == FlatMap(before + [y, x] + after, f)
  {
    FlatMapPair(x, y, f);
    FlatMapPair(y, x, f);
    assert f(x) + f(y) == f(y) + f(x);
    FlatMapMiddle(before, [x, y], [y, x], after, f);
  }

  lemma NumbersSwap(before: seq<Item>, x: Item, y: Item, after: seq<Item>)
    requires x.Success? && y.Success?
    requires Writes(x.value) == None || Writes(x.value) != Writes(y.value)
    ensures var all, all' := before + [x, y] + after, before + [y, x] + after;
            && FlatMap(all, FlagsOf) == FlatMap(all', FlagsOf)
            && FlatMap(all, ExistsOf) == FlatMap(all', ExistsOf)
            && FlatMap(all, RecentOf) == FlatMap(all', RecentOf)
  {
    FlatMapSwap(before, x, y, after, FlagsOf);
    FlatMapSwap(before, x, y, after, ExistsOf);
    FlatMapSwap(before, x, y, after, RecentOf);
  }

  lemma CodesSwap(before: seq<Item>, x: Item, y: Item, after: seq<Item>)
    requires x.Success? && y.Success?
    requires Writes(x.value) == None || Writes(x.value) != Writes(y.value)
    ensures var all, all' := before + [x, y] + after, before + [y, x] + after;
            && FlatMap(all, UnseenOf) == FlatMap(all', UnseenOf)
            && FlatMap(all, PermanentFlagsOf) == FlatMap(all', PermanentFlagsOf)
            && FlatMap(all, UidNextOf) == FlatMap(all', UidNextOf)
            && FlatMap(all, UidValidityOf) == FlatMap(all', UidValidityOf)
            && FlatMap(all, HighestModSeqOf) == FlatMap(all', HighestModSeqOf)
  {
    FlatMapSwap(before, x, y, after, UnseenOf);
    FlatMapSwap(before, x, y, after, PermanentFlagsOf);
    FlatMapSwap(before, x, y, after, UidNextOf);
    FlatMapSwap(before, x, y, after, UidValidityOf);
    FlatMapSwap(before, x, y, after, HighestModSeqOf);
  }

  lemma AnnouncedSwap(before: seq<Item>, x: Item, y: Item, after: seq<Item>)
    requires x.Success? && y.Success?
    requires Writes(x.value) == None || Writes(x.value) != Writes(y.value)
    ensures Announced(before + [x, y] + after) == Announced(before + [y, x] + after)
  {
    NumbersSwap(before, x, y, after);
    CodesSwap(before, x, y, after);
  }

  /** What a selection returns, as a function of the stream. */
  function Selection(items: seq<Item>, tag: Tag): Result<Mailbox, Error> {
    var n := FirstStop(items, UntilSelected(tag));
    Selected(items, n, Announced(items[..n]))
  }

  /** Two neighbouring responses that do not end the selection, and that write different fields or no
      field, may change places anywhere in the stream: the selection returns the same. */
  lemma SwapAnnouncements(before: seq<Item>, x: Item, y: Item, after: seq<Item>, tag: Tag)
    requires !Stops(UntilSelected(tag), x) && !Stops(UntilSelected(tag), y)
    requires Writes(x.value) == None || Writes(x.value) != Writes(y.value)
    ensures Selection(before + [x, y] + after, tag) == Selection(before + [y, x] + after, tag)
  {
    var loop := UntilSelected(tag);
    SwapKeepsStop(before, x, y, after, loop);
    SwapKeepsStop(before, y, x, after, loop);
    var all, all' := before + [x, y] + after, before + [y, x] + after;
    var n := FirstStop(all, loop);
    if n >= |before| {
      var seen := after[..n - |before| - 2];
      assert all[..n] == before + [x, y] + seen && all'[..n] == before + [y, x] + seen;
      AnnouncedSwap(before, x, y, seen);
    } else {
      assert all[..n] == all'[..n];
    }
  }

  lemma SwapKeepsStop(before: seq<Item>, x: Item, y: Item, after: seq<Item>, loop: Loop)
    requires !Stops(loop, x) && !Stops(loop, y)
    ensures FirstStop(before + [x, y] + after, loop) ==
              if FirstStop(before, loop) < |before| then FirstStop(before, loop)
              else |before| + 2 + FirstStop(after, loop)
  {
    FirstStopAppend(before + [x, y], after, loop);
    FirstStopAppend(before, [x, y], loop);
    assert [x, y][1..] == [y];
    assert FirstStop([x, y], loop) == 2;
  }
}
