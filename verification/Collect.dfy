/** What a loop over the response stream reads and gathers, said without the loop: the first item
    that ends it, and the relevant data of the items before that one. */
module Collect {
  import opened Wrappers
  import opened Responses

  // ---- Where a loop stops

  /** The loops over the response stream, by what ends them. */
  datatype Loop =
    /** The collectors that read up to the completion of their own command. */
    | UntilDone(tag: Tag)
    /** Selecting a mailbox: also ends at an untagged status that is not OK. */
    | UntilSelected(tag: Tag)
    /** Checking a completion: also ends at a completion of any command that is not OK. */
    | UntilChecked(tag: Tag)
    /** Starting IDLE: ends at a continuation, or when the server finds the command bad. */
    | UntilIdling(tag: Tag)
    /** Waiting in IDLE: ends at anything that is news. */
    | UntilNews

  predicate IsDone(r: Response, tag: Tag) {
    r.Done? && r.tag == tag
  }

  /** The completion of the command with this tag. */
  predicate OwnDone(item: Item, tag: Tag) {
    item.Success? && IsDone(item.value, tag)
  }

  /** The response ends the loop. */
  predicate Ends(loop: Loop, r: Response) {
    match loop
    case UntilDone(tag) => IsDone(r, tag)
    case UntilSelected(tag) => IsDone(r, tag) || (r.Data? && r.status != Ok)
    case UntilChecked(tag) => r.Done? && (r.status != Ok || r.tag == tag)
    case UntilIdling(tag) => r.Continue? || (IsDone(r, tag) && r.status == Bad)
    case UntilNews => !(r.Data? && r.status == Ok) && !r.Continue? && !r.Done?
  }

  /** Every loop also ends at an error. */
  predicate Stops(loop: Loop, item: Item) {
    item.Failure? || Ends(loop, item.value)
  }

  /** The number of items before the first that ends the loop. */
  function FirstStop(items: seq<Item>, loop: Loop): (n: nat)
    ensures n <= |items|
    ensures forall i | 0 <= i < n :: !Stops(loop, items[i])
    ensures n < |items| ==> Stops(loop, items[n])
  {
    if items == [] || Stops(loop, items[0]) then 0
    else
      var n := FirstStop(items[1..], loop);
      assert forall i | 0 < i <= n :: items[i] == items[1..][i - 1];
      1 + n
  }

  lemma {:induction false} FirstStopAppend(xs: seq<Item>, ys: seq<Item>, loop: Loop)
    ensures FirstStop(xs + ys, loop) ==
              if FirstStop(xs, loop) < |xs| then FirstStop(xs, loop) else |xs| + FirstStop(ys, loop)
  {
    if xs == [] {
      assert xs + ys == ys;
    } else {
      assert (xs + ys)[0] == xs[0] && (xs + ys)[1..] == xs[1..] + ys;
      FirstStopAppend(xs[1..], ys, loop);
    }
  }

  /** The items behind the one that ended the loop. */
  function Behind(items: seq<Item>, n: nat): seq<Item> {
    if n < |items| then items[n + 1..] else []
  }

  /** A loop has gone over `k` of the items of `all` and `left` are still to come. */
  ghost predicate Passed(all: seq<Item>, loop: Loop, k: nat, left: seq<Item>) {
    && k <= |all|
    && left == all[k..]
    && forall i | 0 <= i < k :: !Stops(loop, all[i])
  }

  lemma StopsHere(all: seq<Item>, loop: Loop, k: nat, left: seq<Item>)
    requires Passed(all, loop, k, left)
    ensures left == [] ==> FirstStop(all, loop) == k == |all|
    ensures left != [] && Stops(loop, left[0]) ==> FirstStop(all, loop) == k < |all| && left[1..] == Behind(all, k)
    ensures left != [] && !Stops(loop, left[0]) ==> Passed(all, loop, k + 1, left[1..])
    ensures left != [] ==> left[0] == all[k] && all[..k + 1] == all[..k] + [left[0]]
  {
  }

  // ---- What a loop gathers

  function FlatMap<S, T>(xs: seq<S>, f: S -> seq<T>): seq<T> {
    if xs == [] then [] else FlatMap(xs[..|xs| - 1], f) + f(xs[|xs| - 1])
  }

  lemma FlatMapSnoc<S, T>(xs: seq<S>, x: S, f: S -> seq<T>)
    ensures FlatMap(xs + [x], f) == FlatMap(xs, f) + f(x)
  {
    assert (xs + [x])[..|xs|] == xs;
  }

  lemma AppendLast<S>(xs: seq<S>, ys: seq<S>)
    requires ys != []
    ensures xs + ys == (xs + ys[..|ys| - 1]) + [ys[|ys| - 1]]
  {
  }

  lemma {:induction false} FlatMapAppend<S, T>(xs: seq<S>, ys: seq<S>, f: S -> seq<T>)
    ensures FlatMap(xs + ys, f) == FlatMap(xs, f) + FlatMap(ys, f)
  {
    if ys == [] {
      assert xs + ys == xs;
    } else {
      var front, y := ys[..|ys| - 1], ys[|ys| - 1];
      AppendLast(xs, ys);
      FlatMapSnoc(xs + front, y, f);
      FlatMapAppend(xs, front, f);
      Associative(FlatMap(xs, f), FlatMap(front, f), f(y));
    }
  }

  lemma FlatMapMiddle<S, T>(before: seq<S>, xs: seq<S>, ys: seq<S>, after: seq<S>, f: S -> seq<T>)
    requires FlatMap(xs, f) == FlatMap(ys, f)
    ensures FlatMap(before + xs + after, f) == FlatMap(before + ys + after, f)
  {
    FlatMapAppend(before + xs, after, f);
    FlatMapAppend(before, xs, f);
    FlatMapAppend(before + ys, after, f);
    FlatMapAppend(before, ys, f);
  }

  lemma FlatMapPair<S, T>(x: S, y: S, f: S -> seq<T>)
    ensures FlatMap([x, y], f) == f(x) + f(y)
  {
    FlatMapSnoc([x], y, f);
    FlatMapOne(x, f);
    assert [x] + [y] == [x, y];
  }

  lemma FlatMapOne<S, T>(x: S, f: S -> seq<T>)
    ensures FlatMap([x], f) == f(x)
  {
    FlatMapSnoc([], x, f);
    assert [] + [x] == [x];
    assert [] + f(x) == f(x);
  }

  function LastOf<T>(xs: seq<T>): Option<T> {
    if xs == [] then None else Some(xs[|xs| - 1])
  }

  function LastOr<T>(xs: seq<T>, default: T): T {
    if xs == [] then default else xs[|xs| - 1]
  }

  function SetOf<T>(xs: seq<T>): set<T> {
    set x | x in xs
  }

  /** The result of a loop that gathers `gathered` and gives up at an error. */
  function Concluded<T>(items: seq<Item>, n: nat, gathered: T): Result<T, Error> {
    if n < |items| && items[n].Failure? then Failure(Io(items[n].error)) else Success(gathered)
  }
}
