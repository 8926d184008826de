/** The lazy collectors (LIST, FETCH, EXPUNGE): streams that yield one relevant response at a time
    and may be dropped at any point. */
module LazyCollectors {
  import opened Wrappers
  import opened Responses
  import opened Collect
  import opened Channels
  import opened Collectors

  /** What a lazy collector is after. */
  datatype Kind = Names | Fetches | Expunges

  predicate Relevant(kind: Kind, r: Response) {
    match kind
    case Names => r.MailboxData? && r.datum.List?
    case Fetches => r.Fetch?
    case Expunges => r.Expunge?
  }

  type Yield = Result<Response, Error>

  /** One poll: what it yields, what it leaves, and what it passed over. */
  datatype Polled = Polled(y: Option<Yield>, items: seq<Item>, done: bool, passed: seq<Response>)

  function LazyPoll(items: seq<Item>, done: bool, kind: Kind, tag: Tag): Polled
    decreases |items|
  {
    if done || items == [] then Polled(None, items, done, [])
    else
      match items[0]
      case Failure(e) => Polled(Some(Failure(Io(e))), items[1..], false, [])
      case Success(r) =>
        if IsDone(r, tag) then Polled(None, items[1..], true, [])
        else if Relevant(kind, r) then Polled(Some(Success(r)), items[1..], false, [])
        else
          var more := LazyPoll(items[1..], false, kind, tag);
          more.(passed := [r] + more.passed)
  }

  class LazyCollector {
    const stream: ResponseStream
    const ch: Channel
    const kind: Kind
    const tag: Tag
    /** The completion has been seen: nothing more is taken from the stream. */
    var done: bool

    constructor (stream: ResponseStream, ch: Channel, kind: Kind, tag: Tag)
      ensures this.stream == stream && this.ch == ch && this.kind == kind && this.tag == tag && !done
    {
      this.stream, this.ch, this.kind, this.tag := stream, ch, kind, tag;
      done := false;
    }

    /** The stream up to the completion, which is read and dropped. */
    method TakeWhileNext() returns (item: Option<Item>)
      modifies this, stream
      ensures old(done) ==> item == None && done && stream.items == old(stream.items)
      ensures !old(done) && old(stream.items) == [] ==> item == None && !done && stream.items == []
      ensures !old(done) && old(stream.items) != [] ==>
                var first := old(stream.items)[0];
                && stream.items == old(stream.items)[1..]
                && done == OwnDone(first, tag)
                && item == (if OwnDone(first, tag) then None else Some(first))
    {
      if done {
        return None;
      }
      item := stream.Next();
      if item.Some? && OwnDone(item.value, tag) {
        done := true;
        item := None;
      }
    }

    method Next() returns (y: Option<Yield>)
      requires ch.Valid()
      modifies this, stream, ch
      ensures ch.Valid()
      ensures var polled := LazyPoll(old(stream.items), old(done), kind, tag);
              && y == polled.y && stream.items == polled.items && done == polled.done
              && ch.queue == Queued(old(ch.queue), polled.passed)
    {
      ghost var polled := LazyPoll(stream.items, done, kind, tag);
      ghost var queue := ch.queue;
      ghost var seen: seq<Response> := [];
      QueuedNone(queue);
      while true
        invariant ch.Valid() && done == old(done)
        invariant var more := LazyPoll(stream.items, done, kind, tag);
                  polled == more.(passed := seen + more.passed)
        invariant ch.queue == Queued(queue, seen)
        decreases |stream.items|
      {
        assert seen + [] == seen;
        ghost var items := stream.items;
        var item := TakeWhileNext();
        if item.None? {
          return None;
        }
        match item.value {
          case Failure(e) => return Some(Failure(Io(e)));
          case Success(resp) =>
            if Relevant(kind, resp) {
              return Some(Success(resp));
            }
            HandleUnilateral(resp, ch);
            QueuedSnoc(queue, seen, resp);
            Associative(seen, [resp], LazyPoll(items[1..], false, kind, tag).passed);
            seen := seen + [resp];
        }
      }
    }
  }

  // ---- Many polls

  /** `k` polls in a row. */
  datatype Drained = Drained(ys: seq<Option<Yield>>, items: seq<Item>, done: bool, passed: seq<Response>)

  function LazyPolls(items: seq<Item>, done: bool, kind: Kind, tag: Tag, k: nat): (d: Drained)
    ensures |d.ys| == k
    decreases k
  {
    if k == 0 then Drained([], items, done, [])
    else
      var first := LazyPoll(items, done, kind, tag);
      var rest := LazyPolls(first.items, first.done, kind, tag, k - 1);
      Drained([first.y] + rest.ys, rest.items, rest.done, first.passed + rest.passed)
  }

  /** What precedes the completion of the command; errors do not end it. */
  function Before(items: seq<Item>, tag: Tag): (read: seq<Item>)
    ensures |read| <= |items|
  {
    if items == [] || OwnDone(items[0], tag) then [] else [items[0]] + Before(items[1..], tag)
  }

  function YieldsOf(kind: Kind): Item -> seq<Yield> {
    (item: Item) =>
      match item
      case Failure(e) => [Failure(Io(e))]
      case Success(r) => if Relevant(kind, r) then [Success(r)] else []
  }

  function PassesOf(kind: Kind): Item -> seq<Response> {
    (item: Item) => Forward(item, item.Success? && Relevant(kind, item.value))
  }

  /** All yields up to the completion of the command. */
  function AllYields(items: seq<Item>, kind: Kind, tag: Tag): seq<Yield> {
    FlatMap(Before(items, tag), YieldsOf(kind))
  }

  /** The stream stands behind `read`: `ys` are the yields of that, the last item of which is itself
      one, and `passed` is everything else in it. */
  ghost predicate StandsBehind(
      items: seq<Item>, kind: Kind, read: seq<Item>, ys: seq<Yield>, left: seq<Item>, passed: seq<Response>)
  {
    && items == read + left
    && ys == FlatMap(read, YieldsOf(kind))
    && (read != [] ==> YieldsOf(kind)(read[|read| - 1]) != [])
    && passed == FlatMap(read, PassesOf(kind))
  }

  /** Where `k` polls leave a stream with the yields `all`, having taken in `read`: directly behind the
      `k`-th yield, or behind the completion if there are fewer. */
  ghost predicate LeftAt(
      items: seq<Item>, kind: Kind, tag: Tag, all: seq<Yield>, k: nat, read: seq<Item>, d: Drained)
  {
    if k <= |all| then
      !d.done && StandsBehind(items, kind, read, all[..k], d.items, d.passed)
    else
      && read == Before(items, tag)
      && d.items == Behind(items, |read|)
      && d.done == (|read| < |items|)
      && d.passed == FlatMap(read, PassesOf(kind))
  }

  /** `k` polls have yielded, one per poll, the first of `all` and then nothing. */
  ghost predicate YieldedInOrder(ys: seq<Option<Yield>>, all: seq<Yield>) {
    forall i | 0 <= i < |ys| :: ys[i] == if i < |all| then Some(all[i]) else None
  }

  /** Without errors, an eager collector stops where a lazy one is exhausted. */
  lemma {:induction false} EagerStopsAlike(items: seq<Item>, tag: Tag)
    requires forall i | 0 <= i < |items| :: items[i].Success?
    ensures Before(items, tag) == items[..FirstStop(items, UntilDone(tag))]
  {
    if items != [] && !OwnDone(items[0], tag) {
      EagerStopsAlike(items[1..], tag);
      var n := FirstStop(items[1..], UntilDone(tag));
      assert items[..1 + n] == [items[0]] + items[1..][..n];
    }
  }

  /** A lazy collector yields, one per poll, exactly what precedes the completion of its command and
      is either relevant or an error, and never reads ahead: after `k` yields it stands directly behind
      the `k`-th.  A further poll reads through the completion and yields nothing, and polls after
      that read nothing. */
  lemma LazyAgrees(items: seq<Item>, kind: Kind, tag: Tag, k: nat)
    ensures YieldedInOrder(LazyPolls(items, false, kind, tag, k).ys, AllYields(items, kind, tag))
    ensures exists read ::
              LeftAt(items, kind, tag, AllYields(items, kind, tag), k, read, LazyPolls(items, false, kind, tag, k))
  {
    PollsYieldInOrder(items, kind, tag, k);
    var read := DrainedAgrees(items, kind, tag, k, LazyPolls(items, false, kind, tag, k));
  }

  ghost predicate InOrder(items: seq<Item>, kind: Kind, tag: Tag, k: nat) {
    YieldedInOrder(LazyPolls(items, false, kind, tag, k).ys, AllYields(items, kind, tag))
  }

  lemma {:induction false} PollsYieldInOrder(items: seq<Item>, kind: Kind, tag: Tag, k: nat)
    ensures InOrder(items, kind, tag, k)
    decreases |items|
  {
    if k > 0 {
      if items == [] || OwnDone(items[0], tag) {
        ExhaustedAgrees(items, kind, tag, k);
      } else if YieldsOf(kind)(items[0]) == [] {
        PollsYieldInOrder(items[1..], kind, tag, k);
        PassesInOrder(items, kind, tag, k);
      } else {
        PollsYieldInOrder(items[1..], kind, tag, k - 1);
        YieldsInOrder(items, kind, tag, k);
      }
    }
  }

  lemma PassesInOrder(items: seq<Item>, kind: Kind, tag: Tag, k: nat)
    requires items != [] && !OwnDone(items[0], tag) && YieldsOf(kind)(items[0]) == [] && k > 0
    requires InOrder(items[1..], kind, tag, k)
    ensures InOrder(items, kind, tag, k)
  {
    AllYieldsFirst(items, kind, tag);
    PassesFirst(items, kind, tag, k);
  }

  lemma YieldsInOrder(items: seq<Item>, kind: Kind, tag: Tag, k: nat)
    requires items != [] && !OwnDone(items[0], tag) && YieldsOf(kind)(items[0]) != [] && k > 0
    requires InOrder(items[1..], kind, tag, k - 1)
    ensures InOrder(items, kind, tag, k)
  {
    AllYieldsFirst(items, kind, tag);
    YieldsFirst(items, kind, tag, k);
    InOrderCons(YieldsOf(kind)(items[0])[0], LazyPolls(items[1..], false, kind, tag, k - 1).ys,
                AllYields(items[1..], kind, tag));
  }

  lemma InOrderCons(y: Yield, ys: seq<Option<Yield>>, more: seq<Yield>)
    requires YieldedInOrder(ys, more)
    ensures YieldedInOrder([Some(y)] + ys, [y] + more)
  {
  }

  lemma AllYieldsFirst(items: seq<Item>, kind: Kind, tag: Tag)
    requires items != [] && !OwnDone(items[0], tag)
    ensures AllYields(items, kind, tag) == YieldsOf(kind)(items[0]) + AllYields(items[1..], kind, tag)
  {
    FlatMapCons(items[0], Before(items[1..], tag), YieldsOf(kind));
  }

  lemma {:induction false} DrainedAgrees(items: seq<Item>, kind: Kind, tag: Tag, k: nat, d: Drained)
    returns (read: seq<Item>)
    requires d == LazyPolls(items, false, kind, tag, k)
    ensures LeftAt(items, kind, tag, AllYields(items, kind, tag), k, read, d)
    decreases |items|
  {
    if k == 0 {
      assert [] + items == items && AllYields(items, kind, tag)[..0] == [];
      read := [];
    } else if items == [] || OwnDone(items[0], tag) {
      ExhaustedAgrees(items, kind, tag, k);
      read := [];
    } else if YieldsOf(kind)(items[0]) == [] {
      PassesFirst(items, kind, tag, k);
      var d' := LazyPolls(items[1..], false, kind, tag, k);
      var read' := DrainedAgrees(items[1..], kind, tag, k, d');
      read := OneMorePassed(items, kind, tag, k, read', d');
    } else {
      YieldsFirst(items, kind, tag, k);
      var d' := LazyPolls(items[1..], false, kind, tag, k - 1);
      var read' := DrainedAgrees(items[1..], kind, tag, k - 1, d');
      read := OneMoreYielded(items, kind, tag, k, YieldsOf(kind)(items[0])[0], read', d');
    }
  }

  lemma ExhaustedAgrees(items: seq<Item>, kind: Kind, tag: Tag, k: nat)
    requires k > 0 && (items == [] || OwnDone(items[0], tag))
    ensures var d := LazyPolls(items, false, kind, tag, k);
            && AllYields(items, kind, tag) == []
            && YieldedInOrder(d.ys, [])
            && LeftAt(items, kind, tag, [], k, [], d)
  {
    if items == [] {
      ExhaustedStaysExhausted([], false, kind, tag, k);
    } else {
      ExhaustedStaysExhausted(items[1..], true, kind, tag, k - 1);
    }
  }

  /** Yielding an item takes one poll and passes over nothing. */
  lemma YieldsFirst(items: seq<Item>, kind: Kind, tag: Tag, k: nat)
    requires items != [] && !OwnDone(items[0], tag) && YieldsOf(kind)(items[0]) != []
    requires k > 0
    ensures var d := LazyPolls(items[1..], false, kind, tag, k - 1);
            LazyPolls(items, false, kind, tag, k) == d.(ys := [Some(YieldsOf(kind)(items[0])[0])] + d.ys)
  {
    var d := LazyPolls(items[1..], false, kind, tag, k - 1);
    assert [] + d.passed == d.passed;
  }

  lemma {:induction false} ExhaustedStaysExhausted(items: seq<Item>, done: bool, kind: Kind, tag: Tag, k: nat)
    requires done || items == []
    ensures LazyPolls(items, done, kind, tag, k) == Drained(seq(k, _ => None), items, done, [])
    decreases k
  {
    if k > 0 {
      ExhaustedStaysExhausted(items, done, kind, tag, k - 1);
      var nothing: Option<Yield> := None;
      assert [nothing] + seq(k - 1, _ => nothing) == seq(k, _ => nothing);
    }
  }

  /** Passing over an item adds it to what is passed, and changes nothing else. */
  lemma PassesFirst(items: seq<Item>, kind: Kind, tag: Tag, k: nat)
    requires items != [] && items[0].Success? && !OwnDone(items[0], tag) && !Relevant(kind, items[0].value)
    requires k > 0
    ensures var d := LazyPolls(items[1..], false, kind, tag, k);
            LazyPolls(items, false, kind, tag, k) == d.(passed := [items[0].value] + d.passed)
  {
    var more := LazyPoll(items[1..], false, kind, tag);
    Associative([items[0].value], more.passed, LazyPolls(more.items, more.done, kind, tag, k - 1).passed);
  }

  lemma FlatMapCons<S, T>(x: S, xs: seq<S>, f: S -> seq<T>)
    ensures FlatMap([x] + xs, f) == f(x) + FlatMap(xs, f)
  {
    FlatMapAppend([x], xs, f);
    assert [x][..0] == [];
  }

  lemma OneMorePassed(items: seq<Item>, kind: Kind, tag: Tag, k: nat, read': seq<Item>, d: Drained)
    returns (read: seq<Item>)
    requires items != [] && items[0].Success? && !OwnDone(items[0], tag) && !Relevant(kind, items[0].value)
    requires k > 0 && LeftAt(items[1..], kind, tag, AllYields(items[1..], kind, tag), k, read', d)
    ensures LeftAt(items, kind, tag, AllYields(items, kind, tag), k, read,
                   d.(passed := [items[0].value] + d.passed))
  {
    read := [items[0]] + read';
    AllYieldsFirst(items, kind, tag);
    ReadOneMore(items, kind, read');
    Associative([items[0]], read', d.items);
  }

  lemma ReadOneMore(items: seq<Item>, kind: Kind, read': seq<Item>)
    requires items != []
    ensures items == [items[0]] + items[1..]
    ensures FlatMap([items[0]] + read', YieldsOf(kind)) == YieldsOf(kind)(items[0]) + FlatMap(read', YieldsOf(kind))
    ensures FlatMap([items[0]] + read', PassesOf(kind)) == PassesOf(kind)(items[0]) + FlatMap(read', PassesOf(kind))
  {
    FlatMapCons(items[0], read', YieldsOf(kind));
    FlatMapCons(items[0], read', PassesOf(kind));
  }

  lemma OneMoreYielded(items: seq<Item>, kind: Kind, tag: Tag, k: nat, y: Yield, read': seq<Item>, d: Drained)
    returns (read: seq<Item>)
    requires items != [] && !OwnDone(items[0], tag) && YieldsOf(kind)(items[0]) == [y]
    requires k > 0 && LeftAt(items[1..], kind, tag, AllYields(items[1..], kind, tag), k - 1, read', d)
    ensures LeftAt(items, kind, tag, AllYields(items, kind, tag), k, read, d.(ys := [Some(y)] + d.ys))
  {
    read := [items[0]] + read';
    AllYieldsFirst(items, kind, tag);
    ReadOneMore(items, kind, read');
    Associative([items[0]], read', d.items);
    var more := AllYields(items[1..], kind, tag);
    if k <= 1 + |more| {
      TakeCons(y, more, k);
    }
  }

  lemma TakeCons<T>(x: T, xs: seq<T>, k: nat)
    requires 0 < k <= 1 + |xs|
    ensures ([x] + xs)[..k] == [x] + xs[..k - 1]
  {
  }
}
