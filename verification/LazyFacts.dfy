/** What the lazy collectors yield and what they pass over, response by response. */
module LazyFacts {
  import opened Wrappers
  import opened Responses
  import opened Collect
  import opened Collectors
  import opened CollectorFacts
  import opened LazyCollectors

  /** The item at `i` comes before the completion with this tag.  Errors do not end a lazy collector. */
  ghost predicate ComesBefore(items: seq<Item>, tag: Tag, i: nat) {
    i < |items| && forall j | 0 <= j <= i && items[j].Success? && items[j].value.Done? :: items[j].value.tag != tag
  }

  lemma {:induction false} BeforeIsPrefix(items: seq<Item>, tag: Tag)
    ensures Before(items, tag) <= items
    ensures forall i | 0 <= i < |Before(items, tag)| :: !OwnDone(items[i], tag)
    ensures |Before(items, tag)| < |items| ==> OwnDone(items[|Before(items, tag)|], tag)
  {
    if items != [] && !OwnDone(items[0], tag) {
      BeforeIsPrefix(items[1..], tag);
      var n := |Before(items[1..], tag)|;
      forall i | 0 <= i < n + 1 ensures !OwnDone(items[i], tag) {
        assert i > 0 ==> items[i] == items[1..][i - 1];
      }
      assert n + 1 < |items| ==> items[n + 1] == items[1..][n];
    }
  }

  lemma ComesBeforeIff(items: seq<Item>, tag: Tag, i: nat)
    ensures ComesBefore(items, tag, i) <==> i < |Before(items, tag)|
    ensures i < |Before(items, tag)| ==> Before(items, tag)[i] == items[i]
  {
    BeforeIsPrefix(items, tag);
  }

  lemma {:induction false} FoundBeforeIff<T>(items: seq<Item>, tag: Tag, f: Item -> seq<T>, t: T)
    ensures t in FlatMap(Before(items, tag), f) <==> exists i: nat :: ComesBefore(items, tag, i) && t in f(items[i])
  {
    var read := Before(items, tag);
    InFlatMap(read, f, t);
    if i :| 0 <= i < |read| && t in f(read[i]) {
      ComesBeforeIff(items, tag, i);
      assert t in f(items[i]);
    }
    if i: nat :| ComesBefore(items, tag, i) && t in f(items[i]) {
      ComesBeforeIff(items, tag, i);
      assert t in f(read[i]);
    }
  }

  /** The item is in the answer to the command. */
  ghost predicate Answers(items: seq<Item>, tag: Tag, item: Item) {
    exists i: nat :: ComesBefore(items, tag, i) && items[i] == item
  }

  lemma {:induction false} AllYieldsIff(items: seq<Item>, kind: Kind, tag: Tag, y: Yield)
    ensures y in AllYields(items, kind, tag)
            <==> match y
                 case Success(r) => Answers(items, tag, Success(r)) && Relevant(kind, r)
                 case Failure(e) => e.Io? && Answers(items, tag, Failure(e.cause))
  {
    FoundBeforeIff(items, tag, YieldsOf(kind), y);
    if i: nat :| ComesBefore(items, tag, i) && y in YieldsOf(kind)(items[i]) {
      assert items[i] == match y case Success(r) => Success(r) case Failure(e) => Failure(e.cause);
    }
    var item: Item := match y case Success(r) => Success(r) case Failure(e) => Failure(if e.Io? then e.cause else "");
    if i: nat :| ComesBefore(items, tag, i) && items[i] == item {
      assert y in YieldsOf(kind)(items[i]) <==> match y case Success(r) => Relevant(kind, r) case Failure(e) => e.Io?;
    }
  }

  lemma {:induction false} AllPassedIff(items: seq<Item>, kind: Kind, tag: Tag, r: Response)
    ensures r in FlatMap(Before(items, tag), PassesOf(kind))
            <==> Answers(items, tag, Success(r)) && !Relevant(kind, r)
  {
    FoundBeforeIff(items, tag, PassesOf(kind), r);
    if i: nat :| ComesBefore(items, tag, i) && items[i] == Success(r) {
      assert r in PassesOf(kind)(items[i]) <==> !Relevant(kind, r);
    }
  }

  lemma {:induction false} FewYields(items: seq<Item>, f: Item -> seq<Yield>)
    requires forall item :: |f(item)| <= 1
    ensures |FlatMap(items, f)| <= |items|
  {
    if items != [] {
      FewYields(items[..|items| - 1], f);
    }
  }

  /** Enough polls yield all there is, and have passed over the rest. */
  lemma {:induction false} Exhausted(items: seq<Item>, kind: Kind, tag: Tag, k: nat)
    requires k > |items|
    ensures var d := LazyPolls(items, false, kind, tag, k);
            && (forall y :: Some(y) in d.ys <==> y in AllYields(items, kind, tag))
            && d.passed == FlatMap(Before(items, tag), PassesOf(kind))
  {
    FewYields(Before(items, tag), YieldsOf(kind));
    LazyAgrees(items, kind, tag, k);
    var d, all := LazyPolls(items, false, kind, tag, k), AllYields(items, kind, tag);
    forall y ensures Some(y) in d.ys <==> y in all {
      if y in all {
        var i :| 0 <= i < |all| && all[i] == y;
        assert d.ys[i] == Some(y);
      }
    }
  }

  /** What a collector of each kind yields, polled to the end: LIST the names, FETCH the messages fetched,
      EXPUNGE the messages gone, out of the answer to the command, and every error in it. */
  lemma YieldedIff(items: seq<Item>, kind: Kind, tag: Tag, k: nat, r: Response, cause: string)
    requires k > |items|
    ensures var ys := LazyPolls(items, false, kind, tag, k).ys;
            && (Some(Success(r)) in ys <==>
                  && Answers(items, tag, Success(r))
                  && match kind
                     case Names => exists name :: r == MailboxData(List(name))
                     case Fetches => exists n, attributes :: r == Fetch(n, attributes)
                     case Expunges => exists n :: r == Expunge(n))
            && (Some(Failure(Io(cause))) in ys <==> Answers(items, tag, Failure(cause)))
  {
    Exhausted(items, kind, tag, k);
    AllYieldsIff(items, kind, tag, Success(r));
    AllYieldsIff(items, kind, tag, Failure(Io(cause)));
    RelevantIff(kind, r);
  }

  /** Every other response in the answer is passed over, and so offered to the queue. */
  lemma PassedIff(items: seq<Item>, kind: Kind, tag: Tag, k: nat, r: Response)
    requires k > |items|
    ensures r in LazyPolls(items, false, kind, tag, k).passed <==>
              && Answers(items, tag, Success(r))
              && match kind
                 case Names => forall name :: r != MailboxData(List(name))
                 case Fetches => forall n, attributes :: r != Fetch(n, attributes)
                 case Expunges => forall n :: r != Expunge(n)
  {
    Exhausted(items, kind, tag, k);
    AllPassedIff(items, kind, tag, r);
    RelevantIff(kind, r);
  }

  lemma RelevantIff(kind: Kind, r: Response)
    ensures Relevant(kind, r) <==>
              match kind
              case Names => exists name :: r == MailboxData(List(name))
              case Fetches => exists n, attributes :: r == Fetch(n, attributes)
              case Expunges => exists n :: r == Expunge(n)
  {
    match r
    case MailboxData(List(name)) => assert r == MailboxData(List(name));
    case Fetch(n, attributes) => assert r == Fetch(n, attributes);
    case Expunge(n) => assert r == Expunge(n);
    case _ =>
  }

  /** One poll: it passes over what is not wanted, offers that in order, and stops directly behind the
      first response that is. */
  lemma {:induction false} FirstName(before: seq<Response>, name: string, later: seq<Item>, tag: Tag)
    requires forall r | r in before :: !(r.MailboxData? && r.datum.List?) && (r.Done? ==> r.tag != tag)
    ensures LazyPoll(seq(|before|, i requires 0 <= i < |before| => Success(before[i])) + [Success(MailboxData(List(name)))]
                     + later, false, Names, tag)
            == Polled(Some(Success(MailboxData(List(name)))), later, false, before)
  {
    var passed: seq<Item> := seq(|before|, i requires 0 <= i < |before| => Success(before[i]));
    var items := passed + [Success(MailboxData(List(name)))] + later;
    if before == [] {
      assert items[1..] == later;
    } else {
      var rest := before[1..];
      var more: seq<Item> := seq(|rest|, i requires 0 <= i < |rest| => Success(rest[i]));
      FirstName(rest, name, later, tag);
      assert before[0] in before;
      assert items[1..] == more + [Success(MailboxData(List(name)))] + later;
      assert [before[0]] + rest == before;
    }
  }
}
