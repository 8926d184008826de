/** The eager collectors: each reads responses up to the completion of its own command, gathers what
    is meant for that command, and offers the rest to the queue. */
module Collectors {
  import opened Wrappers
  import opened Responses
  import opened Collect
  import opened Channels

  /** `stream` has been read through the item that ends the loop, and what `forward` finds before
      that item has been offered to the queue, in order. */
  ghost predicate ReadThrough(
      all: seq<Item>, loop: Loop, left: seq<Item>,
      queue: seq<Unsolicited>, queue': seq<Unsolicited>, forward: Item -> seq<Response>)
  {
    var n := FirstStop(all, loop);
    left == Behind(all, n) && queue' == Queued(queue, FlatMap(all[..n], forward))
  }

  /** The same, part of the way. */
  ghost predicate Reading(
      all: seq<Item>, loop: Loop, k: nat, left: seq<Item>,
      queue: seq<Unsolicited>, queue': seq<Unsolicited>, forward: Item -> seq<Response>)
  {
    && Passed(all, loop, k, left)
    && queue' == Queued(queue, FlatMap(all[..k], forward))
  }

  lemma StartReading(all: seq<Item>, loop: Loop, queue: seq<Unsolicited>, forward: Item -> seq<Response>)
    requires |queue| <= CAPACITY
    ensures Reading(all, loop, 0, all, queue, queue, forward)
    ensures all[..0] == []
  {
    QueuedNone(queue);
  }

  /** What can be said before the next item is read. */
  lemma Look(
      all: seq<Item>, loop: Loop, k: nat, left: seq<Item>,
      queue: seq<Unsolicited>, queue': seq<Unsolicited>, forward: Item -> seq<Response>)
    requires Reading(all, loop, k, left, queue, queue', forward)
    ensures left == [] ==>
              FirstStop(all, loop) == k == |all| && ReadThrough(all, loop, left, queue, queue', forward)
    ensures left != [] && Stops(loop, left[0]) ==>
              FirstStop(all, loop) == k < |all| && all[k] == left[0]
              && ReadThrough(all, loop, left[1..], queue, queue', forward)
    ensures left != [] && !Stops(loop, left[0]) && forward(left[0]) == [] ==>
              Reading(all, loop, k + 1, left[1..], queue, queue', forward)
    ensures left != [] && !Stops(loop, left[0]) && |forward(left[0])| == 1 ==>
              Reading(all, loop, k + 1, left[1..], queue, Queued(queue', forward(left[0])), forward)
  {
    StopsHere(all, loop, k, left);
    if left != [] {
      FlatMapSnoc(all[..k], left[0], forward);
      if |forward(left[0])| == 1 {
        QueuedSnoc(queue, FlatMap(all[..k], forward), forward(left[0])[0]);
      }
    }
  }

  lemma Gather<T>(all: seq<Item>, loop: Loop, k: nat, left: seq<Item>, f: Item -> seq<T>)
    requires Passed(all, loop, k, left)
    ensures left != [] ==> k < |all| && FlatMap(all[..k + 1], f) == FlatMap(all[..k], f) + f(left[0])
  {
    if left != [] {
      StopsHere(all, loop, k, left);
      FlatMapSnoc(all[..k], left[0], f);
    }
  }

  /** The next item, unless the stream ends or the item completes the command: the completion is
      read and dropped. */
  method NextOfCommand(stream: ResponseStream, tag: Tag) returns (next: Option<Item>)
    modifies stream
    ensures old(stream.items) == [] ==> next == None && stream.items == []
    ensures old(stream.items) != [] ==>
              && stream.items == old(stream.items)[1..]
              && next == (if OwnDone(old(stream.items)[0], tag) then None else Some(old(stream.items)[0]))
  {
    var item := stream.Next();
    if item.Some? && !OwnDone(item.value, tag) {
      return item;
    }
    next := None;
  }

  function Forward(item: Item, relevant: bool): seq<Response> {
    if item.Success? && !relevant then [item.value] else []
  }

  // ---- NOOP

  function Everything(item: Item): seq<Response> {
    Forward(item, false)
  }

  method ParseNoop(stream: ResponseStream, ch: Channel, tag: Tag) returns (r: Result<(), Error>)
    requires ch.Valid()
    modifies stream, ch
    ensures ch.Valid()
    ensures ReadThrough(old(stream.items), UntilDone(tag), stream.items, old(ch.queue), ch.queue, Everything)
    ensures r == Concluded(old(stream.items), FirstStop(old(stream.items), UntilDone(tag)), ())
  {
    ghost var all, k, queue := stream.items, 0, ch.queue;
    StartReading(all, UntilDone(tag), queue, Everything);
    while true
      invariant ch.Valid()
      invariant Reading(all, UntilDone(tag), k, stream.items, queue, ch.queue, Everything)
      decreases |stream.items|
    {
      Look(all, UntilDone(tag), k, stream.items, queue, ch.queue, Everything);
      var next := NextOfCommand(stream, tag);
      if next.None? {
        return Success(());
      }
      if next.value.Failure? {
        return Failure(Io(next.value.error));
      }
      HandleUnilateral(next.value.value, ch);
      k := k + 1;
    }
  }

  // ---- SEARCH

  function IdsOf(item: Item): seq<nat> {
    match item
    case Success(MailboxData(Search(ids))) => ids
    case _ => []
  }

  function NoIds(item: Item): seq<Response> {
    Forward(item, item.Success? && item.value.MailboxData? && item.value.datum.Search?)
  }

  method ParseIds(stream: ResponseStream, ch: Channel, tag: Tag) returns (r: Result<set<nat>, Error>)
    requires ch.Valid()
    modifies stream, ch
    ensures ch.Valid()
    ensures ReadThrough(old(stream.items), UntilDone(tag), stream.items, old(ch.queue), ch.queue, NoIds)
    ensures var n := FirstStop(old(stream.items), UntilDone(tag));
            r == Concluded(old(stream.items), n, SetOf(FlatMap(old(stream.items)[..n], IdsOf)))
  {
    var ids: set<nat> := {};
    ghost var all, k, queue := stream.items, 0, ch.queue;
    StartReading(all, UntilDone(tag), queue, NoIds);
    while true
      invariant ch.Valid()
      invariant Reading(all, UntilDone(tag), k, stream.items, queue, ch.queue, NoIds)
      invariant ids == SetOf(FlatMap(all[..k], IdsOf))
      decreases |stream.items|
    {
      Look(all, UntilDone(tag), k, stream.items, queue, ch.queue, NoIds);
      Gather(all, UntilDone(tag), k, stream.items, IdsOf);
      var next := NextOfCommand(stream, tag);
      if next.None? {
        return Success(ids);
      }
      if next.value.Failure? {
        return Failure(Io(next.value.error));
      }
      match next.value.value {
        case MailboxData(Search(cs)) => ids := Insert(ids, cs);
        case resp => HandleUnilateral(resp, ch);
      }
      k := k + 1;
    }
  }

  /** Adds the elements of `xs` one by one. */
  method Insert<T(==)>(into: set<T>, xs: seq<T>) returns (s: set<T>)
    ensures s == into + SetOf(xs)
  {
    s := into;
    for i := 0 to |xs|
      invariant s == into + SetOf(xs[..i])
    {
      s := s + {xs[i]};
    }
    assert xs[..|xs|] == xs;
  }

  // ---- CAPABILITY

  function CapsOf(item: Item): seq<string> {
    match item
    case Success(Capabilities(caps)) => caps
    case _ => []
  }

  function NoCaps(item: Item): seq<Response> {
    Forward(item, item.Success? && item.value.Capabilities?)
  }

  method ParseCapabilities(stream: ResponseStream, ch: Channel, tag: Tag) returns (r: Result<set<string>, Error>)
    requires ch.Valid()
    modifies stream, ch
    ensures ch.Valid()
    ensures ReadThrough(old(stream.items), UntilDone(tag), stream.items, old(ch.queue), ch.queue, NoCaps)
    ensures var n := FirstStop(old(stream.items), UntilDone(tag));
            r == Concluded(old(stream.items), n, SetOf(FlatMap(old(stream.items)[..n], CapsOf)))
  {
    var caps: set<string> := {};
    ghost var all, k, queue := stream.items, 0, ch.queue;
    StartReading(all, UntilDone(tag), queue, NoCaps);
    while true
      invariant ch.Valid()
      invariant Reading(all, UntilDone(tag), k, stream.items, queue, ch.queue, NoCaps)
      invariant caps == SetOf(FlatMap(all[..k], CapsOf))
      decreases |stream.items|
    {
      Look(all, UntilDone(tag), k, stream.items, queue, ch.queue, NoCaps);
      Gather(all, UntilDone(tag), k, stream.items, CapsOf);
      var next := NextOfCommand(stream, tag);
      if next.None? {
        return Success(caps);
      }
      if next.value.Failure? {
        return Failure(Io(next.value.error));
      }
      match next.value.value {
        case Capabilities(cs) => caps := Insert(caps, cs);
        case resp => HandleUnilateral(resp, ch);
      }
      k := k + 1;
    }
  }

  // ---- GETMETADATA

  function ValuesFor(name: string): Item -> seq<string> {
    (item: Item) =>
      if IsMetadataFor(item, name) then item.value.datum.values else []
  }

  predicate IsMetadataFor(item: Item, name: string) {
    item.Success? && item.value.MailboxData? && item.value.datum.MetadataSolicited? && item.value.datum.mailbox == name
  }

  function NoValuesFor(name: string): Item -> seq<Response> {
    (item: Item) => Forward(item, IsMetadataFor(item, name))
  }

  method ParseMetadata(stream: ResponseStream, mailboxName: string, ch: Channel, tag: Tag)
    returns (r: Result<seq<string>, Error>)
    requires ch.Valid()
    modifies stream, ch
    ensures ch.Valid()
    ensures ReadThrough(old(stream.items), UntilDone(tag), stream.items, old(ch.queue), ch.queue, NoValuesFor(mailboxName))
    ensures var n := FirstStop(old(stream.items), UntilDone(tag));
            r == Concluded(old(stream.items), n, FlatMap(old(stream.items)[..n], ValuesFor(mailboxName)))
  {
    var values: seq<string> := [];
    ghost var all, k, queue := stream.items, 0, ch.queue;
    StartReading(all, UntilDone(tag), queue, NoValuesFor(mailboxName));
    while true
      invariant ch.Valid()
      invariant Reading(all, UntilDone(tag), k, stream.items, queue, ch.queue, NoValuesFor(mailboxName))
      invariant values == FlatMap(all[..k], ValuesFor(mailboxName))
      decreases |stream.items|
    {
      Look(all, UntilDone(tag), k, stream.items, queue, ch.queue, NoValuesFor(mailboxName));
      Gather(all, UntilDone(tag), k, stream.items, ValuesFor(mailboxName));
      var next := NextOfCommand(stream, tag);
      if next.None? {
        return Success(values);
      }
      if next.value.Failure? {
        return Failure(Io(next.value.error));
      }
      match next.value.value {
        case MailboxData(MetadataSolicited(mailbox, vs)) =>
          if mailbox == mailboxName {
            values := values + vs;
          } else {
            HandleUnilateral(next.value.value, ch);
          }
        case resp => HandleUnilateral(resp, ch);
      }
      k := k + 1;
    }
  }

  // ---- ID

  function FieldsOf(item: Item): seq<Option<map<string, string>>> {
    match item
    case Success(Id(fields)) => [fields]
    case _ => []
  }

  function NoId(item: Item): seq<Response> {
    Forward(item, item.Success? && item.value.Id?)
  }

  method ParseId(stream: ResponseStream, ch: Channel, tag: Tag)
    returns (r: Result<Option<map<string, string>>, Error>)
    requires ch.Valid()
    modifies stream, ch
    ensures ch.Valid()
    ensures ReadThrough(old(stream.items), UntilDone(tag), stream.items, old(ch.queue), ch.queue, NoId)
    ensures var n := FirstStop(old(stream.items), UntilDone(tag));
            r == Concluded(old(stream.items), n, LastOr(FlatMap(old(stream.items)[..n], FieldsOf), None))
  {
    var id: Option<map<string, string>> := None;
    ghost var all, k, queue := stream.items, 0, ch.queue;
    StartReading(all, UntilDone(tag), queue, NoId);
    while true
      invariant ch.Valid()
      invariant Reading(all, UntilDone(tag), k, stream.items, queue, ch.queue, NoId)
      invariant id == LastOr(FlatMap(all[..k], FieldsOf), None)
      decreases |stream.items|
    {
      Look(all, UntilDone(tag), k, stream.items, queue, ch.queue, NoId);
      Gather(all, UntilDone(tag), k, stream.items, FieldsOf);
      var next := NextOfCommand(stream, tag);
      if next.None? {
        return Success(id);
      }
      if next.value.Failure? {
        return Failure(Io(next.value.error));
      }
      match next.value.value {
        case Id(fields) => id := fields;
        case resp => HandleUnilateral(resp, ch);
      }
      k := k + 1;
    }
  }

  // ---- GETQUOTA

  function QuotasOf(item: Item): seq<string> {
    match item
    case Success(Quota(q)) => [q]
    case _ => []
  }

  function NoQuota(item: Item): seq<Response> {
    Forward(item, item.Success? && item.value.Quota?)
  }

  /** The last quota, if there is one; an error on the way comes first. */
  function QuotaFound(items: seq<Item>, n: nat, quotas: seq<string>): Result<string, Error> {
    if n < |items| && items[n].Failure? then Failure(Io(items[n].error))
    else if quotas == [] then Failure(ExpectedResponseNotFound)
    else Success(quotas[|quotas| - 1])
  }

  method ParseGetQuota(stream: ResponseStream, ch: Channel, tag: Tag)
    returns (r: Result<string, Error>)
    requires ch.Valid()
    modifies stream, ch
    ensures ch.Valid()
    ensures ReadThrough(old(stream.items), UntilDone(tag), stream.items, old(ch.queue), ch.queue, NoQuota)
    ensures var n := FirstStop(old(stream.items), UntilDone(tag));
            r == QuotaFound(old(stream.items), n, FlatMap(old(stream.items)[..n], QuotasOf))
  {
    var quota: Option<string> := None;
    ghost var all, k, queue := stream.items, 0, ch.queue;
    StartReading(all, UntilDone(tag), queue, NoQuota);
    while true
      invariant ch.Valid()
      invariant Reading(all, UntilDone(tag), k, stream.items, queue, ch.queue, NoQuota)
      invariant quota == LastOf(FlatMap(all[..k], QuotasOf))
      decreases |stream.items|
    {
      Look(all, UntilDone(tag), k, stream.items, queue, ch.queue, NoQuota);
      Gather(all, UntilDone(tag), k, stream.items, QuotasOf);
      var next := NextOfCommand(stream, tag);
      if next.None? {
        return if quota.Some? then Success(quota.value) else Failure(ExpectedResponseNotFound);
      }
      if next.value.Failure? {
        return Failure(Io(next.value.error));
      }
      match next.value.value {
        case Quota(q) => quota := Some(q);
        case resp => HandleUnilateral(resp, ch);
      }
      k := k + 1;
    }
  }

  // ---- GETQUOTAROOT

  function RootsOf(item: Item): seq<string> {
    match item
    case Success(QuotaRoot(root)) => [root]
    case _ => []
  }

  function NoQuotaOrRoot(item: Item): seq<Response> {
    Forward(item, item.Success? && (item.value.Quota? || item.value.QuotaRoot?))
  }

  method ParseGetQuotaRoot(stream: ResponseStream, ch: Channel, tag: Tag)
    returns (r: Result<(seq<string>, seq<string>), Error>)
    requires ch.Valid()
    modifies stream, ch
    ensures ch.Valid()
    ensures ReadThrough(old(stream.items), UntilDone(tag), stream.items, old(ch.queue), ch.queue, NoQuotaOrRoot)
    ensures var n := FirstStop(old(stream.items), UntilDone(tag));
            var seen := old(stream.items)[..n];
            r == Concluded(old(stream.items), n, (FlatMap(seen, RootsOf), FlatMap(seen, QuotasOf)))
  {
    var roots: seq<string>, quotas: seq<string> := [], [];
    ghost var all, k, queue := stream.items, 0, ch.queue;
    StartReading(all, UntilDone(tag), queue, NoQuotaOrRoot);
    while true
      invariant ch.Valid()
      invariant Reading(all, UntilDone(tag), k, stream.items, queue, ch.queue, NoQuotaOrRoot)
      invariant roots == FlatMap(all[..k], RootsOf) && quotas == FlatMap(all[..k], QuotasOf)
      decreases |stream.items|
    {
      Look(all, UntilDone(tag), k, stream.items, queue, ch.queue, NoQuotaOrRoot);
      Gather(all, UntilDone(tag), k, stream.items, RootsOf);
      Gather(all, UntilDone(tag), k, stream.items, QuotasOf);
      var next := NextOfCommand(stream, tag);
      if next.None? {
        return Success((roots, quotas));
      }
      if next.value.Failure? {
        return Failure(Io(next.value.error));
      }
      match next.value.value {
        case QuotaRoot(root) => roots := roots + [root];
        case Quota(q) => quotas := quotas + [q];
        case resp => HandleUnilateral(resp, ch);
      }
      k := k + 1;
    }
  }

  // ---- Checking a completion

  function CheckStatusOk(status: Status, code: Option<Code>, information: Option<string>): Result<(), Error> {
    match status
    case Ok => Success(())
    case Bad => Failure(BadResponse(code, information))
    case No => Failure(NoResponse(code, information))
    case _ => Failure(OddStatus(status, code, information))
  }

  /** What a check comes to: the first failure there is, or the matching completion. */
  function Checked(items: seq<Item>, n: nat): Result<(), Error> {
    if n >= |items| then Failure(ConnectionLost)
    else
      match items[n]
      case Failure(e) => Failure(Io(e))
      case Success(Done(_, status, code, information)) => CheckStatusOk(status, code, information)
      case _ => Failure(ConnectionLost)
  }

  /** Reads on from `first` up to the completion of the command, or of any command that failed. */
  method CheckDoneOkFrom(stream: ResponseStream, ch: Channel?, tag: Tag, first: Response)
    returns (r: Result<(), Error>)
    requires ch != null ==> ch.Valid()
    modifies stream, ch
    ensures ch != null ==> ch.Valid()
    ensures var all := [Success(first)] + old(stream.items);
            var n := FirstStop(all, UntilChecked(tag));
            && r == Checked(all, n)
            && stream.items == Behind(all, n)
            && (ch != null ==> ch.queue == Queued(old(ch.queue), FlatMap(all[..n], Everything)))
  {
    var response := first;
    ghost var all, k: nat := [Success(first)] + stream.items, 0;
    ghost var queue := if ch != null then ch.queue else [];
    ghost var shadow := queue;
    StartReading(all, UntilChecked(tag), queue, Everything);
    while true
      invariant ch != null ==> ch.Valid() && ch.queue == shadow
      invariant k < |all| && stream.items == all[k + 1..] && all[k] == Success(response)
      invariant Reading(all, UntilChecked(tag), k, all[k..], queue, shadow, Everything)
      decreases |stream.items|
    {
      Look(all, UntilChecked(tag), k, all[k..], queue, shadow, Everything);
      assert all[k..][0] == all[k] && all[k..][1..] == all[k + 1..];
      if response.Done? {
        var checked := CheckStatusOk(response.status, response.code, response.information);
        if checked.Failure? {
          return checked;
        }
        if response.tag == tag {
          return Success(());
        }
      }
      shadow := Queued(shadow, [response]);
      if ch != null {
        HandleUnilateral(response, ch);
      }
      k := k + 1;
      Look(all, UntilChecked(tag), k, all[k..], queue, shadow, Everything);
      var next := stream.Next();
      if next.None? {
        return Failure(ConnectionLost);
      }
      if next.value.Failure? {
        return Failure(Io(next.value.error));
      }
      response := next.value.value;
    }
  }

  /** The same, with the first response still to be read. */
  method CheckDoneOk(stream: ResponseStream, ch: Channel?, tag: Tag) returns (r: Result<(), Error>)
    requires ch != null ==> ch.Valid()
    modifies stream, ch
    ensures ch != null ==> ch.Valid()
    ensures var all := old(stream.items);
            var n := FirstStop(all, UntilChecked(tag));
            && r == Checked(all, n)
            && stream.items == Behind(all, n)
            && (ch != null ==> ch.queue == Queued(old(ch.queue), FlatMap(all[..n], Everything)))
  {
    ghost var all := stream.items;
    if ch != null {
      QueuedNone(ch.queue);
    }
    var first := stream.Next();
    if first.None? {
      return Failure(ConnectionLost);
    }
    if first.value.Failure? {
      return Failure(Io(first.value.error));
    }
    assert all == [Success(first.value.value)] + stream.items;
    r := CheckDoneOkFrom(stream, ch, tag, first.value.value);
  }
}
