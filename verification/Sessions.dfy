/** Runs of many commands over one stream of responses, some of which are dropped before their
    completion has been read. */
module Sessions {
  import opened Wrappers
  import opened Responses
  import opened Collect
  import opened LazyCollectors
  import opened Tags
  import Idling
  import IdleRuns

  // ---- One command among what earlier ones have left

  /** Without completions. */
  ghost predicate Untagged(items: seq<Item>) {
    forall i | 0 <= i < |items| && items[i].Success? :: !items[i].value.Done?
  }

  /** Every completion belongs to one of the `window` commands up to the `n`-th. */
  ghost predicate Owned(items: seq<Item>, n: nat, window: nat) {
    forall i | 0 <= i < |items| && items[i].Success? && items[i].value.Done? :: OwnedBy(items[i].value.tag, n, window)
  }

  /** The tag is that of one of the `window` commands up to the `n`-th. */
  predicate OwnedBy(tag: Tag, n: nat, window: nat)
    decreases n
  {
    window > 0 && (tag == TagOf(n) || (n > 0 && OwnedBy(tag, n - 1, window - 1)))
  }

  /** Within a window of 10 000 commands no tag comes again. */
  lemma {:induction false} NotAmongOwners(tag: Tag, n: nat, window: nat, m: nat)
    requires OwnedBy(tag, n, window) && n < m && m - n + window <= PERIOD
    ensures tag != TagOf(m)
    decreases n
  {
    TagWindow(n, m);
    if tag != TagOf(n) {
      NotAmongOwners(tag, n - 1, window - 1, m);
    }
  }

  /** What ends the reading of a command that is read to its end: its completion alone, or also an
      untagged status, or also a completion of any command. */
  datatype Reading = ByTag | BySelection | ByCheck

  function LoopOf(reading: Reading, tag: Tag): Loop {
    match reading
    case ByTag => UntilDone(tag)
    case BySelection => UntilSelected(tag)
    case ByCheck => UntilChecked(tag)
  }

  /** An untagged status that is not OK. */
  predicate Objects(item: Item) {
    item.Success? && item.value.Data? && item.value.status != Ok
  }

  /** A completion that is not OK. */
  predicate HasFailed(item: Item) {
    item.Success? && item.value.Done? && item.value.status != Ok
  }

  /** Not in the way of a reading: neither an error, nor a status that it would take for its end. */
  predicate Passes(reading: Reading, item: Item) {
    && item.Success?
    && (reading.BySelection? ==> !Objects(item))
    && (reading.ByCheck? ==> !HasFailed(item))
  }

  ghost predicate AllPass(reading: Reading, items: seq<Item>) {
    forall i | 0 <= i < |items| :: Passes(reading, items[i])
  }

  /** Exactly when a collector finds its own completion: when there is no error, and nothing that is left
      unread carries its tag, that is, when no completion left unread belongs to a command whose number
      agrees with its own modulo 10 000. */
  lemma {:induction false} FindsOwnCompletionIff(
      unread: seq<Item>, owners: seq<nat>, body: seq<Item>, done: Item, later: seq<Item>, n: nat)
    requires |owners| == |unread|
    requires forall i | 0 <= i < |unread| && unread[i].Success? && unread[i].value.Done? ::
               unread[i].value.tag == TagOf(owners[i])
    requires Untagged(body) && OwnDone(done, TagOf(n))
    ensures FirstStop(unread + body + [done] + later, UntilDone(TagOf(n))) == |unread| + |body|
            <==> && AllPass(ByTag, unread + body)
                 && forall i | 0 <= i < |unread| && unread[i].Success? && unread[i].value.Done? ::
                      owners[i] % PERIOD != n % PERIOD
  {
    var all, before, loop := unread + body + [done] + later, unread + body, UntilDone(TagOf(n));
    forall i | 0 <= i < |before|
      ensures Stops(loop, all[i]) <==>
                !Passes(ByTag, before[i])
                || (i < |unread| && unread[i].value.Done? && owners[i] % PERIOD == n % PERIOD)
    {
      assert all[i] == before[i];
      if i < |unread| {
        TagsAgree(owners[i], n);
      }
    }
    assert Stops(loop, all[|before|]);
    if i :| 0 <= i < |unread| && unread[i].Success? && unread[i].value.Done? && owners[i] % PERIOD == n % PERIOD {
      assert Stops(loop, all[i]);
    }
  }

  /** If everything left unread belongs to the previous 9 999 commands, only the own completion or what does
      not pass ends a reading. */
  lemma StopsIff(reading: Reading, unread: seq<Item>, body: seq<Item>, n: nat, item: Item)
    requires n > 0 && Owned(unread, n - 1, PERIOD - 1) && Untagged(body)
    requires item in unread + body
    ensures Stops(LoopOf(reading, TagOf(n)), item) <==> !Passes(reading, item)
  {
    if item.Success? && item.value.Done? {
      assert item in unread;
      NotAmongOwners(item.value.tag, n - 1, PERIOD - 1, n);
    }
  }

  /** If everything left unread belongs to the previous 9 999 commands, a command reads exactly through its
      own completion, and leaves what comes later untouched, exactly if nothing is in the way. */
  lemma {:induction false} StopsAtOwnIff(
      reading: Reading, unread: seq<Item>, body: seq<Item>, done: Item, later: seq<Item>, n: nat)
    requires n > 0 && Owned(unread, n - 1, PERIOD - 1)
    requires Untagged(body) && OwnDone(done, TagOf(n))
    ensures var all := unread + body + [done] + later;
            && (FirstStop(all, LoopOf(reading, TagOf(n))) == |unread| + |body| <==> AllPass(reading, unread + body))
            && Behind(all, |unread| + |body|) == later
  {
    var all, before, loop := unread + body + [done] + later, unread + body, LoopOf(reading, TagOf(n));
    forall i | 0 <= i < |before| ensures Stops(loop, all[i]) <==> !Passes(reading, before[i]) {
      assert all[i] == before[i];
      StopsIff(reading, unread, body, n, before[i]);
    }
    assert Stops(loop, all[|before|]);
    assert all[|before| + 1..] == later;
  }

  /** A collector: when there is no error. */
  lemma Resynchronises(unread: seq<Item>, body: seq<Item>, done: Item, later: seq<Item>, n: nat)
    requires n > 0 && Owned(unread, n - 1, PERIOD - 1)
    requires Untagged(body) && OwnDone(done, TagOf(n))
    ensures var all := unread + body + [done] + later;
            && (FirstStop(all, UntilDone(TagOf(n))) == |unread| + |body|
                <==> forall i | 0 <= i < |unread + body| :: (unread + body)[i].Success?)
            && Behind(all, |unread| + |body|) == later
  {
    StopsAtOwnIff(ByTag, unread, body, done, later, n);
    assert AllPass(ByTag, unread + body) <==> forall i | 0 <= i < |unread + body| :: (unread + body)[i].Success?;
  }

  /** A check: when, besides, no completion left unread has failed. */
  lemma CheckResynchronisesIff(unread: seq<Item>, body: seq<Item>, done: Item, later: seq<Item>, n: nat)
    requires n > 0 && Owned(unread, n - 1, PERIOD - 1)
    requires Untagged(body) && OwnDone(done, TagOf(n))
    ensures FirstStop(unread + body + [done] + later, UntilChecked(TagOf(n))) == |unread| + |body|
            <==> && (forall i | 0 <= i < |unread| :: unread[i].Success? && !HasFailed(unread[i]))
                 && (forall i | 0 <= i < |body| :: body[i].Success?)
  {
    StopsAtOwnIff(ByCheck, unread, body, done, later, n);
    AllPassAppend(ByCheck, unread, body);
  }

  /** The selection of a mailbox: when, besides, neither what was left unread nor its own answer has an
      untagged status that is not OK. */
  lemma SelectionResynchronisesIff(unread: seq<Item>, body: seq<Item>, done: Item, later: seq<Item>, n: nat)
    requires n > 0 && Owned(unread, n - 1, PERIOD - 1)
    requires Untagged(body) && OwnDone(done, TagOf(n))
    ensures FirstStop(unread + body + [done] + later, UntilSelected(TagOf(n))) == |unread| + |body|
            <==> && (forall i | 0 <= i < |unread| :: unread[i].Success? && !Objects(unread[i]))
                 && (forall i | 0 <= i < |body| :: body[i].Success? && !Objects(body[i]))
  {
    StopsAtOwnIff(BySelection, unread, body, done, later, n);
    AllPassAppend(BySelection, unread, body);
  }

  lemma AllPassAppend(reading: Reading, xs: seq<Item>, ys: seq<Item>)
    ensures AllPass(reading, xs + ys) <==> AllPass(reading, xs) && AllPass(reading, ys)
  {
    if AllPass(reading, xs + ys) {
      forall i | 0 <= i < |xs| ensures Passes(reading, xs[i]) {
        assert xs[i] == (xs + ys)[i];
      }
      forall i | 0 <= i < |ys| ensures Passes(reading, ys[i]) {
        assert ys[i] == (xs + ys)[|xs| + i];
      }
    }
  }

  /** A server that refuses a selection with an untagged NO leaves its completion unread. */
  lemma ObjectionStopsSelection(n: nat)
    ensures var body: seq<Item> := [Success(Data(No, None, None))];
            var done: Item := Success(Done(TagOf(n), No, None, None));
            && FirstStop(body + [done], UntilSelected(TagOf(n))) == 0
            && Behind(body + [done], 0) == [done]
  {
    var no: Item, done: Item := Success(Data(No, None, None)), Success(Done(TagOf(n), No, None, None));
    assert ([no] + [done])[0] == no && Stops(UntilSelected(TagOf(n)), no);
  }

  // ---- Whole runs

  /** What a reader that may stop anywhere leaves of the items there are to read, by the tag of its command. */
  type Reader = (seq<Item>, Tag) -> seq<Item>

  /** It is the first items that it reads. */
  ghost predicate ReadsOn(reader: Reader) {
    forall items, tag :: SuffixOf(reader(items, tag), items)
  }

  /** How the caller uses a command: reads it to its end, or in part. */
  datatype Use = Whole(reading: Reading) | Partly(reader: Reader)

  /** A command: its use, and what the server sends for it. */
  datatype Command = Command(use: Use, body: seq<Item>, done: Item)

  /** The server answers the `n`-th command, counting from 1, with its own completion. */
  ghost predicate Answered(cmds: seq<Command>) {
    forall n | 0 < n <= |cmds| :: AnsweredAt(cmds, n)
  }

  ghost predicate AnsweredAt(cmds: seq<Command>, n: nat)
    requires 0 < n <= |cmds|
  {
    Answers(cmds[n - 1], n)
  }

  ghost predicate Answers(cmd: Command, n: nat) {
    && Untagged(cmd.body) && OwnDone(cmd.done, TagOf(n))
    && (cmd.use.Partly? ==> ReadsOn(cmd.use.reader))
  }

  /** What a command leaves of the items there are to read. */
  function LeftBy(use: Use, items: seq<Item>, tag: Tag): seq<Item> {
    match use
    case Whole(reading) => Behind(items, FirstStop(items, LoopOf(reading, tag)))
    case Partly(reader) => reader(items, tag)
  }

  /** Where a session stands: what is left unread, and how many commands in a row have left something
      unread, for whatever reason. */
  datatype Standing = Standing(unread: seq<Item>, streak: nat)

  /** What is there to read when the answer to a command has arrived. */
  function Arriving(unread: seq<Item>, cmd: Command): seq<Item> {
    unread + cmd.body + [cmd.done]
  }

  /** After one more command, the `n`-th. */
  function Next(st: Standing, cmd: Command, n: nat): Standing {
    var left := LeftBy(cmd.use, Arriving(st.unread, cmd), TagOf(n));
    Standing(left, if left == [] then 0 else st.streak + 1)
  }

  /** After the first `n` commands. */
  function After(cmds: seq<Command>, n: nat): Standing
    requires n <= |cmds|
  {
    if n == 0 then Standing([], 0) else Next(After(cmds, n - 1), cmds[n - 1], n)
  }

  function Unread(cmds: seq<Command>, n: nat): seq<Item>
    requires n <= |cmds|
  {
    After(cmds, n).unread
  }

  function Streak(cmds: seq<Command>, n: nat): nat
    requires n <= |cmds|
  {
    After(cmds, n).streak
  }

  function Arrived(cmds: seq<Command>, n: nat): seq<Item>
    requires 0 < n <= |cmds|
  {
    Arriving(Unread(cmds, n - 1), cmds[n - 1])
  }

  /** `left` is what remains of `items` when some first ones are gone. */
  ghost predicate SuffixOf(left: seq<Item>, items: seq<Item>) {
    left == items || (items != [] && SuffixOf(left, items[1..]))
  }

  lemma {:induction false} SuffixOfSuffix(left: seq<Item>, items: seq<Item>, all: seq<Item>)
    requires SuffixOf(left, items) && SuffixOf(items, all)
    ensures SuffixOf(left, all)
    decreases |all|
  {
    if items != all {
      SuffixOfSuffix(left, items, all[1..]);
    }
  }

  lemma {:induction false} LeftOver(read: seq<Item>, left: seq<Item>)
    ensures SuffixOf(left, read + left)
  {
    if read == [] {
      assert read + left == left;
    } else {
      LeftOver(read[1..], left);
      assert (read + left)[1..] == read[1..] + left;
    }
  }

  lemma {:induction false} AmongAll(left: seq<Item>, items: seq<Item>, item: Item)
    requires SuffixOf(left, items) && item in left
    ensures item in items
    decreases |items|
  {
    if left != items {
      AmongAll(left, items[1..], item);
    }
  }

  lemma BehindIsLeft(items: seq<Item>, n: nat)
    requires n <= |items|
    ensures SuffixOf(Behind(items, n), items)
  {
    var left := Behind(items, n);
    var read := items[..|items| - |left|];
    LeftOver(read, left);
    assert read + left == items;
  }

  lemma LeavesSuffix(use: Use, items: seq<Item>, tag: Tag)
    requires use.Partly? ==> ReadsOn(use.reader)
    ensures SuffixOf(LeftBy(use, items, tag), items)
  {
    if use.Whole? {
      BehindIsLeft(items, FirstStop(items, LoopOf(use.reading, tag)));
    }
  }

  lemma OwnedArrivals(unread: seq<Item>, body: seq<Item>, done: Item, n: nat, window: nat)
    requires n > 0 && Owned(unread, n - 1, window) && Untagged(body) && OwnDone(done, TagOf(n))
    ensures Owned(unread + body + [done], n, window + 1)
  {
    var all := unread + body + [done];
    forall i | 0 <= i < |all| && all[i].Success? && all[i].value.Done?
      ensures OwnedBy(all[i].value.tag, n, window + 1)
    {
      assert i < |unread| ==> all[i] == unread[i];
    }
  }

  /** What is unread belongs to the commands that have left something unread, in a row. */
  ghost predicate Owning(st: Standing, n: nat) {
    Owned(st.unread, n, st.streak)
  }

  lemma OwningStep(st: Standing, cmd: Command, n: nat)
    requires n > 0 && Owning(st, n - 1) && Answers(cmd, n)
    ensures Owning(Next(st, cmd, n), n)
  {
    var all, left := Arriving(st.unread, cmd), Next(st, cmd, n).unread;
    if left != [] {
      OwnedArrivals(st.unread, cmd.body, cmd.done, n, st.streak);
      LeavesSuffix(cmd.use, all, TagOf(n));
      OwnedSuffix(left, all, n, st.streak + 1);
    }
  }

  lemma {:induction false} UnreadIsOwned(cmds: seq<Command>, n: nat)
    requires n <= |cmds| && Answered(cmds)
    ensures Owning(After(cmds, n), n)
  {
    if n > 0 {
      UnreadIsOwned(cmds, n - 1);
      assert AnsweredAt(cmds, n);
      OwningStep(After(cmds, n - 1), cmds[n - 1], n);
    }
  }

  lemma Widen(items: seq<Item>, n: nat, window: nat, wider: nat)
    requires Owned(items, n, window) && window <= wider
    ensures Owned(items, n, wider)
  {
    forall i | 0 <= i < |items| && items[i].Success? && items[i].value.Done?
      ensures OwnedBy(items[i].value.tag, n, wider)
    {
      OwnersWiden(items[i].value.tag, n, window, wider);
    }
  }

  lemma {:induction false} OwnersWiden(tag: Tag, n: nat, window: nat, wider: nat)
    requires OwnedBy(tag, n, window) && window <= wider
    ensures OwnedBy(tag, n, wider)
    decreases n
  {
    if tag != TagOf(n) {
      OwnersWiden(tag, n - 1, window - 1, wider - 1);
    }
  }

  lemma OwnedSuffix(left: seq<Item>, items: seq<Item>, n: nat, window: nat)
    requires SuffixOf(left, items) && Owned(items, n, window)
    ensures Owned(left, n, window)
  {
    forall i | 0 <= i < |left| && left[i].Success? && left[i].value.Done?
      ensures OwnedBy(left[i].value.tag, n, window)
    {
      AmongAll(left, items, left[i]);
    }
  }

  /** The `n`-th command, read to its end, stops at its own completion. */
  predicate InStep(cmds: seq<Command>, n: nat)
    requires 0 < n <= |cmds| && cmds[n - 1].use.Whole?
  {
    FirstStop(Arrived(cmds, n), LoopOf(cmds[n - 1].use.reading, TagOf(n))) == |Arrived(cmds, n)| - 1
  }

  /** A loop that stops at the last item at the latest leaves nothing exactly if it stops there. */
  lemma {:induction false} LeavesNothingIff(all: seq<Item>, loop: Loop)
    requires all != [] && Stops(loop, all[|all| - 1])
    ensures FirstStop(all, loop) == |all| - 1 <==> Behind(all, FirstStop(all, loop)) == []
  {
  }

  lemma OwnCompletionEnds(reading: Reading, done: Item, n: nat)
    requires OwnDone(done, TagOf(n))
    ensures Stops(LoopOf(reading, TagOf(n)), done)
  {
  }

  lemma Beforehand(cmds: seq<Command>, n: nat)
    requires 0 < n <= |cmds| && Answered(cmds) && Streak(cmds, n - 1) < PERIOD
    ensures Owned(Unread(cmds, n - 1), n - 1, PERIOD - 1)
  {
    UnreadIsOwned(cmds, n - 1);
    OwnedWithin(After(cmds, n - 1), n - 1);
  }

  lemma OwnedWithin(st: Standing, n: nat)
    requires Owning(st, n) && st.streak < PERIOD
    ensures Owned(st.unread, n, PERIOD - 1)
  {
    Widen(st.unread, n, st.streak, PERIOD - 1);
  }

  lemma AnswerTo(cmds: seq<Command>, n: nat)
    requires 0 < n <= |cmds| && Answered(cmds)
    ensures Untagged(cmds[n - 1].body) && OwnDone(cmds[n - 1].done, TagOf(n))
  {
    assert AnsweredAt(cmds, n);
  }

  lemma ReadToItsEnd(reading: Reading, unread: seq<Item>, body: seq<Item>, done: Item, n: nat)
    requires n > 0 && Owned(unread, n - 1, PERIOD - 1)
    requires Untagged(body) && OwnDone(done, TagOf(n))
    ensures var all := unread + body + [done];
            var stop := FirstStop(all, LoopOf(reading, TagOf(n)));
            && (stop == |all| - 1 <==> AllPass(reading, unread + body))
            && (stop == |all| - 1 <==> Behind(all, stop) == [])
  {
    StopsAtOwnIff(reading, unread, body, done, [], n);
    assert unread + body + [done] + [] == unread + body + [done];
    OwnCompletionEnds(reading, done, n);
    LeavesNothingIff(unread + body + [done], LoopOf(reading, TagOf(n)));
  }

  /** A session stays in step: as long as no more than 9 999 commands in a row have left something
      unread, the next command that is read to its end stops at its own completion exactly if nothing is
      in the way, and leaves nothing for the one after it exactly then. */
  lemma {:induction false} SessionStaysInStep(cmds: seq<Command>, n: nat)
    requires 0 < n <= |cmds| && Answered(cmds)
    requires cmds[n - 1].use.Whole? && Streak(cmds, n - 1) < PERIOD
    ensures InStep(cmds, n) <==> AllPass(cmds[n - 1].use.reading, Unread(cmds, n - 1) + cmds[n - 1].body)
    ensures InStep(cmds, n) <==> Unread(cmds, n) == []
  {
    Beforehand(cmds, n);
    AnswerTo(cmds, n);
    ReadToItsEnd(cmds[n - 1].use.reading, Unread(cmds, n - 1), cmds[n - 1].body, cmds[n - 1].done, n);
  }

  // ---- By what the caller and the server do

  /** The answers to the commands in a row up to the `n`-th that are not read to their end are in the way
      of no such reading. */
  ghost predicate PassingRow(cmds: seq<Command>, n: nat, reading: Reading)
    requires n <= |cmds|
  {
    n == 0 || cmds[n - 1].use.Whole?
    || (AllPass(reading, cmds[n - 1].body + [cmds[n - 1].done]) && PassingRow(cmds, n - 1, reading))
  }

  /** Whatever is dropped right before a command that is read to its end is not in its way, and neither is
      what comes before its completion. */
  ghost predicate Orderly(cmds: seq<Command>) {
    forall n | 0 < n <= |cmds| :: OrderlyAt(cmds, n)
  }

  ghost predicate OrderlyAt(cmds: seq<Command>, n: nat)
    requires 0 < n <= |cmds|
  {
    var use := cmds[n - 1].use;
    use.Whole? ==> PassingRow(cmds, n - 1, use.reading) && AllPass(use.reading, cmds[n - 1].body)
  }

  /** How many commands in a row up to the `n`-th are not read to their end. */
  function DroppedInARow(cmds: seq<Command>, n: nat): nat
    requires n <= |cmds|
  {
    if n == 0 || cmds[n - 1].use.Whole? then 0 else 1 + DroppedInARow(cmds, n - 1)
  }

  lemma OrderlyStep(cmds: seq<Command>, n: nat)
    requires 0 < n <= |cmds| && Answered(cmds) && OrderlyAt(cmds, n)
    requires cmds[n - 1].use.Whole? && Streak(cmds, n - 1) < PERIOD
    requires AllPass(cmds[n - 1].use.reading, Unread(cmds, n - 1))
    ensures InStep(cmds, n) && Unread(cmds, n) == []
  {
    AllPassAppend(cmds[n - 1].use.reading, Unread(cmds, n - 1), cmds[n - 1].body);
    SessionStaysInStep(cmds, n);
  }

  lemma DroppedStep(cmds: seq<Command>, n: nat, reading: Reading)
    requires 0 < n <= |cmds| && AnsweredAt(cmds, n)
    requires !cmds[n - 1].use.Whole? && PassingRow(cmds, n, reading)
    requires AllPass(reading, Unread(cmds, n - 1))
    ensures AllPass(reading, Unread(cmds, n))
  {
    var cmd := cmds[n - 1];
    LeavesSuffix(cmd.use, Arrived(cmds, n), TagOf(n));
    PassingSuffix(reading, Unread(cmds, n), Unread(cmds, n - 1), cmd.body, cmd.done);
  }

  /** Before the `n`-th command no more than 9 999 in a row have been dropped. */
  ghost predicate FewDropped(cmds: seq<Command>, n: nat)
    requires n <= |cmds|
  {
    n == 0 || (DroppedInARow(cmds, n - 1) < PERIOD && FewDropped(cmds, n - 1))
  }

  lemma PassingSuffix(reading: Reading, left: seq<Item>, unread: seq<Item>, body: seq<Item>, done: Item)
    requires AllPass(reading, unread) && AllPass(reading, body + [done]) && SuffixOf(left, unread + body + [done])
    ensures AllPass(reading, left)
  {
    var all := unread + body + [done];
    assert all == unread + (body + [done]);
    AllPassAppend(reading, unread, body + [done]);
    forall i | 0 <= i < |left| ensures Passes(reading, left[i]) {
      AmongAll(left, all, left[i]);
    }
  }

  /** In particular, if the caller never drops more than 9 999 commands in a row, and neither what is dropped
      right before a command that is read to its end nor its own answer has an error or a status that would
      end it, then every such command stops at its own completion and leaves nothing for the next.  No more
      commands leave something unread than are dropped. */
  lemma {:induction false} OrderlySession(cmds: seq<Command>, n: nat)
    requires n <= |cmds| && Answered(cmds) && Orderly(cmds) && FewDropped(cmds, n)
    ensures n > 0 && cmds[n - 1].use.Whole? ==> InStep(cmds, n) && Unread(cmds, n) == []
    ensures Streak(cmds, n) <= DroppedInARow(cmds, n)
    ensures forall reading | PassingRow(cmds, n, reading) :: AllPass(reading, Unread(cmds, n))
  {
    if n > 0 {
      OrderlySession(cmds, n - 1);
      assert OrderlyAt(cmds, n);
      if cmds[n - 1].use.Whole? {
        OrderlyStep(cmds, n);
      } else {
        forall reading | PassingRow(cmds, n, reading) ensures AllPass(reading, Unread(cmds, n)) {
          assert PassingRow(cmds, n - 1, reading);
          DroppedStep(cmds, n, reading);
        }
      }
    }
  }

  // ---- Readers that may stop anywhere

  /** A lazy collector that is polled a few times and then dropped. */
  function Dropped(kind: Kind, polls: nat): Reader {
    (items, tag) => LazyPolls(items, false, kind, tag, polls).items
  }

  /** IDLE with a few waits. */
  function Idle(waits: seq<Idling.Wait>): Reader {
    (items, tag) => IdleRuns.Bracket(items, tag, waits).left
  }

  lemma {:induction false} LazyPollLeavesSuffix(items: seq<Item>, done: bool, kind: Kind, tag: Tag)
    ensures SuffixOf(LazyPoll(items, done, kind, tag).items, items)
    decreases |items|
  {
    if items != [] {
      LazyPollLeavesSuffix(items[1..], false, kind, tag);
    }
  }

  lemma {:induction false} LazyPollsLeaveSuffix(items: seq<Item>, done: bool, kind: Kind, tag: Tag, k: nat)
    ensures SuffixOf(LazyPolls(items, done, kind, tag, k).items, items)
    decreases k
  {
    if k > 0 {
      var first := LazyPoll(items, done, kind, tag);
      LazyPollLeavesSuffix(items, done, kind, tag);
      LazyPollsLeaveSuffix(first.items, first.done, kind, tag, k - 1);
      SuffixOfSuffix(LazyPolls(first.items, first.done, kind, tag, k - 1).items, first.items, items);
    }
  }

  lemma DroppedReadsOn(kind: Kind, polls: nat)
    ensures ReadsOn(Dropped(kind, polls))
  {
    forall items, tag ensures SuffixOf(Dropped(kind, polls)(items, tag), items) {
      LazyPollsLeaveSuffix(items, false, kind, tag, polls);
    }
  }

  lemma IdleReadsOn(waits: seq<Idling.Wait>)
    ensures ReadsOn(Idle(waits))
  {
    forall items, tag ensures SuffixOf(Idle(waits)(items, tag), items) {
      IdleRuns.BracketAccounts(items, tag, waits);
      var t := IdleRuns.Bracket(items, tag, waits);
      LeftOver(Idling.Items(t.log), t.left);
    }
  }

  lemma OwnCompletionIsLast(unread: seq<Item>, body: seq<Item>, done: Item, n: nat, i: nat)
    requires n > 0 && Owned(unread, n - 1, PERIOD - 1)
    requires Untagged(body) && OwnDone(done, TagOf(n))
    requires i < |unread + body + [done]| && OwnDone((unread + body + [done])[i], TagOf(n))
    ensures i == |unread| + |body|
  {
    var all := unread + body + [done];
    assert i < |unread| ==> all[i] == unread[i];
    if i < |unread| {
      NotAmongOwners(all[i].value.tag, n - 1, PERIOD - 1, n);
    }
  }

  lemma LastRead(items: seq<Item>, t: IdleRuns.Trace, n: nat)
    requires IdleRuns.Accounts(items, TagOf(n), t.left, t.log)
    requires t.log != [] && t.log[|t.log| - 1].fate == Idling.Completion
    ensures |t.left| < |items| && OwnDone(items[|items| - |t.left| - 1], TagOf(n))
  {
    var last := |t.log| - 1;
    assert IdleRuns.Deserved(t.log[last], TagOf(n));
    assert items[last] == Idling.Items(t.log)[last] == t.log[last].item;
  }

  lemma NothingIsLeft(unread: seq<Item>, body: seq<Item>, done: Item, n: nat, t: IdleRuns.Trace)
    requires n > 0 && Owned(unread, n - 1, PERIOD - 1)
    requires Untagged(body) && OwnDone(done, TagOf(n))
    requires IdleRuns.Accounts(unread + body + [done], TagOf(n), t.left, t.log)
    requires t.log != [] && t.log[|t.log| - 1].fate == Idling.Completion
    ensures t.left == []
  {
    var all := unread + body + [done];
    LastRead(all, t, n);
    OwnCompletionIsLast(unread, body, done, n, |all| - |t.left| - 1);
  }

  /** IDLE that goes well leaves nothing either. */
  lemma IdleLeavesNothing(unread: seq<Item>, body: seq<Item>, done: Item, n: nat, waits: seq<Idling.Wait>)
    requires n > 0 && Owned(unread, n - 1, PERIOD - 1)
    requires Untagged(body) && OwnDone(done, TagOf(n))
    requires IdleRuns.Bracket(unread + body + [done], TagOf(n), waits).ok
    ensures Idle(waits)(unread + body + [done], TagOf(n)) == []
  {
    IdleRuns.BracketAccounts(unread + body + [done], TagOf(n), waits);
    NothingIsLeft(unread, body, done, n, IdleRuns.Bracket(unread + body + [done], TagOf(n), waits));
  }

  // ---- Out of step

  /** It reads nothing. */
  ghost predicate Untouched(reader: Reader) {
    forall items, tag :: reader(items, tag) == items
  }

  /** Such is a lazy collector dropped without a single poll. */
  lemma UnpolledIsUntouched(kind: Kind)
    ensures Untouched(Dropped(kind, 0))
  {
  }

  /** One failed completion that is left unread puts every later check out of step for as long as the
      commands fail: each stops at the failure of the command before, and leaves its own unread. */
  lemma {:induction false} FailuresShift(cmds: seq<Command>, n: nat)
    requires 0 < n <= |cmds| && Answered(cmds)
    requires cmds[0].use.Partly? && Untouched(cmds[0].use.reader)
    requires forall i | 0 < i < n :: cmds[i].use == Whole(ByCheck)
    requires forall i | 0 <= i < n :: HasFailed(cmds[i].done) && AllPass(ByCheck, cmds[i].body)
    ensures Unread(cmds, n) == cmds[n - 1].body + [cmds[n - 1].done]
    ensures n > 1 ==> FirstStop(Arrived(cmds, n), UntilChecked(TagOf(n))) == |cmds[n - 2].body|
  {
    if n == 1 {
      assert Unread(cmds, 0) + cmds[0].body == cmds[0].body;
    } else {
      FailuresShift(cmds, n - 1);
      AnswerTo(cmds, n - 1);
      ShiftStep(After(cmds, n - 1), cmds[n - 2].body, cmds[n - 2].done, cmds[n - 1], n);
    }
  }

  lemma ShiftStep(st: Standing, before: seq<Item>, stale: Item, cmd: Command, n: nat)
    requires st.unread == before + [stale] && Untagged(before) && AllPass(ByCheck, before) && HasFailed(stale)
    requires cmd.use == Whole(ByCheck)
    ensures Next(st, cmd, n).unread == cmd.body + [cmd.done]
    ensures FirstStop(Arriving(st.unread, cmd), UntilChecked(TagOf(n))) == |before|
  {
    StopsAtStaleFailure(before, stale, cmd.body, cmd.done, TagOf(n));
  }

  lemma StopsAtStaleFailure(before: seq<Item>, stale: Item, body: seq<Item>, done: Item, tag: Tag)
    requires Untagged(before) && AllPass(ByCheck, before) && HasFailed(stale)
    ensures var all := before + [stale] + body + [done];
            FirstStop(all, UntilChecked(tag)) == |before| && Behind(all, |before|) == body + [done]
  {
    var all := before + [stale] + body + [done];
    forall i | 0 <= i < |before| ensures !Stops(UntilChecked(tag), all[i]) {
      assert all[i] == before[i];
    }
    assert Stops(UntilChecked(tag), all[|before|]);
    assert all[|before| + 1..] == body + [done];
  }

  /** Commands dropped at once leave everything unread. */
  lemma {:induction false} NothingRead(cmds: seq<Command>, n: nat)
    requires 0 < n <= |cmds|
    requires forall i | 0 <= i < n :: cmds[i].use.Partly? && Untouched(cmds[i].use.reader)
    ensures cmds[0].body + [cmds[0].done] <= Unread(cmds, n)
  {
    if n > 1 {
      NothingRead(cmds, n - 1);
    } else {
      assert Unread(cmds, 0) + cmds[0].body == cmds[0].body;
    }
  }

  /** The bound is sharp: after 10 000 commands dropped unread, the completion of the first of them is
      taken for that of the next. */
  lemma TenThousandIsTooMany(cmds: seq<Command>)
    requires Answered(cmds) && |cmds| == PERIOD + 1
    requires forall i | 0 <= i < PERIOD :: cmds[i].use.Partly? && Untouched(cmds[i].use.reader)
    ensures FirstStop(Arrived(cmds, PERIOD + 1), UntilDone(TagOf(PERIOD + 1))) < |Arrived(cmds, PERIOD + 1)| - 1
  {
    NothingRead(cmds, PERIOD);
    var all, first := Arrived(cmds, PERIOD + 1), |cmds[0].body|;
    assert all[first] == cmds[0].done by {
      assert all[first] == Unread(cmds, PERIOD)[first] == (cmds[0].body + [cmds[0].done])[first];
    }
    assert AnsweredAt(cmds, 1);
    TagsAgree(1, PERIOD + 1);
    assert Stops(UntilDone(TagOf(PERIOD + 1)), all[first]);
    assert FirstStop(all, UntilDone(TagOf(PERIOD + 1))) <= first;
  }
}
