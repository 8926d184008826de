/** Two commands from end to end: logging in, and searching. */
module Commands {
  import opened Wrappers
  import opened Responses
  import opened Collect
  import opened Channels
  import opened Collectors
  import opened Authentication
  import opened CommandText
  import opened Sessions
  import opened Tags
  import opened Wires

  function LoginText(username: string, password: string): string {
    "LOGIN " + (Quote(username) + (" " + Quote(password)))
  }

  /** Checks both strings, sends the command and waits for its completion. */
  method Login(stream: ResponseStream, wire: Wire, ids: IdGenerator, username: string, password: string)
    returns (r: Result<Channel, Error>)
    modifies stream, wire, ids
    ensures ValidateStr(username).Failure? || ValidateStr(password).Failure? ==>
              && r == Failure((if ValidateStr(username).Failure? then ValidateStr(username)
                               else ValidateStr(password)).error)
              && unchanged(stream) && unchanged(wire) && unchanged(ids)
    ensures ValidateStr(username).Success? && ValidateStr(password).Success? ==>
              var tag := TagOf(old(ids.next) + 1);
              var n := FirstStop(old(stream.items), UntilChecked(tag));
              && wire.out == old(wire.out) + Joined([tag + " " + LoginText(username, password)])
              && Plain(r) == Checked(old(stream.items), n)
              && stream.items == Behind(old(stream.items), n)
    ensures r.Success? ==> fresh(r.value) && r.value.Valid() && r.value.queue == []
  {
    var u := ValidateStr(username);
    if u.Failure? {
      return Failure(u.error);
    }
    var p := ValidateStr(password);
    if p.Failure? {
      return Failure(p.error);
    }
    var tag := RunCommand(wire, ids, "LOGIN " + (u.value + (" " + p.value)));
    var checked := CheckDoneOk(stream, null, tag);
    if checked.Failure? {
      return Failure(checked.error);
    }
    var queue := new Channel();
    r := Success(queue);
  }

  lemma LoginLine(tag: string, username: string, password: string)
    requires '\r' !in tag && '\r' !in username && '\r' !in password
    ensures var text := username + (" " + password);
            var line := tag + " " + ("LOGIN " + text);
            && SplitLines(Joined([line]), "") == ([line], "")
            && line[..|tag| + 7] == tag + " LOGIN " && line[|tag| + 7..] == text
  {
    var text := username + (" " + password);
    assert tag + " " + ("LOGIN " + text) == tag + " LOGIN " + text;
    CleanLinesReadBack([tag + " " + ("LOGIN " + text)]);
  }

  /** What the server makes of a login: one line, and in it, after the tag and the command name, a
      quoted string that reads as the user name and another that reads as the password. */
  lemma LoginReadsBack(n: nat, username: string, password: string)
    requires ValidateStr(username).Success? && ValidateStr(password).Success?
    ensures var line := TagOf(n) + " " + LoginText(username, password);
            && SplitLines(Joined([line]), "") == ([line], "")
            && line[..|TagOf(n)| + 7] == TagOf(n) + " LOGIN "
            && ReadQuoted(line[|TagOf(n)| + 7..], false) == Some((username, " " + Quote(password)))
            && ReadQuoted(Quote(password), false) == Some((password, ""))
  {
    TagShape(n);
    LoginLine(TagOf(n), Quote(username), Quote(password));
    ValidatedReadsBack(username, " " + Quote(password));
    ValidatedReadsBack(password, "");
    assert Quote(password) + "" == Quote(password);
  }

  /** Sends a search and gathers its result. */
  method Search(stream: ResponseStream, ch: Channel, wire: Wire, ids: IdGenerator, query: string)
    returns (r: Result<set<nat>, Error>)
    requires ch.Valid()
    modifies stream, ch, wire, ids
    ensures ch.Valid()
    ensures ids.next == old(ids.next) + 1
    ensures wire.out == old(wire.out) + Joined([TagOf(ids.next) + " " + ("SEARCH " + query)])
    ensures ReadThrough(old(stream.items), UntilDone(TagOf(ids.next)), stream.items, old(ch.queue), ch.queue, NoIds)
    ensures r == Searched(old(stream.items), TagOf(ids.next))
  {
    var tag := RunCommand(wire, ids, "SEARCH " + query);
    r := ParseIds(stream, ch, tag);
  }

  function Searched(items: seq<Item>, tag: Tag): Result<set<nat>, Error> {
    var n := FirstStop(items, UntilDone(tag));
    Concluded(items, n, SetOf(FlatMap(items[..n], IdsOf)))
  }

  /** The `n`-th command being a search, its result is the set of all ids in the answer to it and in
      whatever earlier commands have left unread, as long as those are among the previous 9 999; or an
      error, exactly if there is one in either. */
  lemma {:induction false} SearchFindsItsAnswer(unread: seq<Item>, body: seq<Item>, done: Item, later: seq<Item>, n: nat)
    requires n > 0 && Owned(unread, n - 1, PERIOD - 1)
    requires Untagged(body) && OwnDone(done, TagOf(n))
    ensures var r := Searched(unread + body + [done] + later, TagOf(n));
            if AllPass(ByTag, unread + body) then
              r == Success(SetOf(FlatMap(unread, IdsOf)) + SetOf(FlatMap(body, IdsOf)))
            else
              r.Failure?
  {
    StopsAtOwnIff(ByTag, unread, body, done, later, n);
    var all, before := unread + body + [done] + later, unread + body;
    assert all[|before|] == done && all[..|before|] == before;
    if AllPass(ByTag, before) {
      FlatMapAppend(unread, body, IdsOf);
      SetOfAppend(FlatMap(unread, IdsOf), FlatMap(body, IdsOf));
    } else {
      var n' := FirstStop(all, UntilDone(TagOf(n)));
      assert n' < |before| by {
        assert Stops(UntilDone(TagOf(n)), all[|before|]);
      }
      assert all[n'] == before[n'];
      StopsIff(ByTag, unread, body, n, before[n']);
    }
  }

  /** Exactly when that is the answer alone: when there is no error, and whatever ids have been left unread
      are in the answer too. */
  lemma {:induction false} SearchFindsOnlyItsAnswerIff(
      unread: seq<Item>, body: seq<Item>, done: Item, later: seq<Item>, n: nat)
    requires n > 0 && Owned(unread, n - 1, PERIOD - 1)
    requires Untagged(body) && OwnDone(done, TagOf(n))
    ensures Searched(unread + body + [done] + later, TagOf(n)) == Success(SetOf(FlatMap(body, IdsOf)))
            <==> && AllPass(ByTag, unread + body)
                 && forall id | id in FlatMap(unread, IdsOf) :: id in FlatMap(body, IdsOf)
  {
    SearchFindsItsAnswer(unread, body, done, later, n);
    var old', own := SetOf(FlatMap(unread, IdsOf)), SetOf(FlatMap(body, IdsOf));
    if old' + own == own {
      forall id | id in FlatMap(unread, IdsOf) ensures id in FlatMap(body, IdsOf) {
        assert id in old' + own;
      }
    }
  }

  /** A search whose stream ends before its completion succeeds with whatever has come. */
  lemma {:induction false} CutShortSearchSucceeds(some: seq<Item>, tag: Responses.Tag)
    requires Untagged(some) && AllPass(ByTag, some)
    ensures Searched(some, tag) == Success(SetOf(FlatMap(some, IdsOf)))
  {
    var n := FirstStop(some, UntilDone(tag));
    assert n == |some|;
    assert some[..n] == some;
  }

  /** Half an answer, and no completion. */
  lemma HalfAnAnswerSucceeds(tag: Responses.Tag)
    ensures Searched([Success(MailboxData(Datum.Search([1])))], tag) == Success({1})
  {
    var item: Item := Success(MailboxData(Datum.Search([1])));
    CutShortSearchSucceeds([item], tag);
    FlatMapSnoc([], item, IdsOf);
    assert [] + [item] == [item];
    assert FlatMap([item], IdsOf) == [1];
    assert SetOf(FlatMap([item], IdsOf)) == {1};
    assert Searched([item], tag) == Success({1});
  }

  function Found(id: nat): Item {
    Success(MailboxData(Datum.Search([id])))
  }

  function Completed(n: nat): Item {
    Success(Done(TagOf(n), Ok, None, None))
  }

  lemma OneIdFound(id: nat)
    ensures SetOf(FlatMap([Found(id)], IdsOf)) == {id}
  {
    FlatMapOne(Found(id), IdsOf);
  }

  /** The answer to a search for which one message was found, left unread. */
  lemma LeftUnread(id: nat, n: nat)
    ensures Owned([Found(id), Completed(n)], n, PERIOD - 1)
    ensures SetOf(FlatMap([Found(id), Completed(n)], IdsOf)) == {id}
  {
    assert OwnedBy(TagOf(n), n, PERIOD - 1);
    FlatMapPair(Found(id), Completed(n), IdsOf);
    assert [id] + [] == [id];
  }

  /** A search right after that finds its message too. */
  lemma StaleIdIsFound(n: nat, stale: nat, own: nat, later: seq<Item>)
    requires n > 0
    ensures Searched([Found(stale), Completed(n)] + [Found(own)] + [Completed(n + 1)] + later, TagOf(n + 1))
            == Success({stale} + {own})
  {
    LeftUnread(stale, n);
    OneIdFound(own);
    SearchFindsItsAnswer([Found(stale), Completed(n)], [Found(own)], Completed(n + 1), later, n + 1);
  }

  lemma SetOfAppend<T>(xs: seq<T>, ys: seq<T>)
    ensures SetOf(xs + ys) == SetOf(xs) + SetOf(ys)
  {
  }
}
