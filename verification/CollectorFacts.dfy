/** What follows about the collectors from what their loops read and gather. */
module CollectorFacts {
  import opened Wrappers
  import opened Responses
  import opened Collect
  import opened Collectors

  // ---- Where they stop

  /** A loop that has stopped does not depend on what the server sends afterwards, and leaves it. */
  lemma LaterItemsDoNotMatter(items: seq<Item>, loop: Loop, later: seq<Item>)
    requires FirstStop(items, loop) < |items|
    ensures FirstStop(items + later, loop) == FirstStop(items, loop)
    ensures Behind(items + later, FirstStop(items, loop)) == Behind(items, FirstStop(items, loop)) + later
  {
    FirstStopAppend(items, later, loop);
  }

  /** Exactly when the success of a collector that stops by tag means that its completion has been
      read: when an error or a completion with its tag is in the stream at all.  Otherwise the stream
      ends first, and that is reported as a success too. */
  lemma {:induction false} SuccessMeansCompletedIff<T>(items: seq<Item>, tag: Tag, gathered: T)
    ensures var n := FirstStop(items, UntilDone(tag));
            (Concluded(items, n, gathered).Success? ==> n < |items| && OwnDone(items[n], tag))
            <==> exists i: nat :: i < |items| && Stops(UntilDone(tag), items[i])
  {
    var n := FirstStop(items, UntilDone(tag));
    if n < |items| {
      assert Stops(UntilDone(tag), items[n]);
    }
  }

  // ---- Checking a completion

  /** The item at `i` is a matching completion with status OK, no error precedes it, and neither does
      the completion of any command with another status. */
  ghost predicate CompletesWell(items: seq<Item>, tag: Tag, i: nat) {
    && i < |items|
    && OwnDone(items[i], tag) && items[i].value.status == Ok
    && forall j | 0 <= j < i :: items[j].Success? && (items[j].value.Done? ==> items[j].value.status == Ok)
  }

  /** A check succeeds exactly when a matching OK completion comes before any error and before any
      completion, of any command, that is not OK. */
  lemma {:induction false} CheckSucceedsIff(items: seq<Item>, tag: Tag)
    ensures Checked(items, FirstStop(items, UntilChecked(tag))).Success?
            <==> exists i :: CompletesWell(items, tag, i)
  {
    var n := FirstStop(items, UntilChecked(tag));
    if Checked(items, n).Success? {
      assert CompletesWell(items, tag, n) by {
        forall j | 0 <= j < n
          ensures items[j].Success? && (items[j].value.Done? ==> items[j].value.status == Ok)
        {
          assert !Stops(UntilChecked(tag), items[j]);
        }
      }
    }
    if i: nat :| CompletesWell(items, tag, i) {
      assert Stops(UntilChecked(tag), items[i]);
      assert n <= i;
    }
  }

  /** Otherwise it reports the first failure: the end of the stream, the first error, or the first
      completion that is not OK, whichever comes first. */
  lemma CheckReportsFirstFailure(items: seq<Item>, tag: Tag)
    requires Checked(items, FirstStop(items, UntilChecked(tag))).Failure?
    ensures var n := FirstStop(items, UntilChecked(tag));
            var e := Checked(items, n).error;
            && (forall j | 0 <= j < n :: items[j].Success? && (items[j].value.Done? ==> items[j].value.status == Ok))
            && (n == |items| ==> e == ConnectionLost)
            && (n < |items| && items[n].Failure? ==> e == Io(items[n].error))
            && (n < |items| && items[n].Success? ==>
                  && items[n].value.Done?
                  && var status, code, information := items[n].value.status, items[n].value.code, items[n].value.information;
                  match status
                  case Ok => false
                  case No => e == NoResponse(code, information)
                  case Bad => e == BadResponse(code, information)
                  case _ => e == OddStatus(status, code, information))
  {
    var n := FirstStop(items, UntilChecked(tag));
    forall j | 0 <= j < n
      ensures items[j].Success? && (items[j].value.Done? ==> items[j].value.status == Ok)
    {
      assert !Stops(UntilChecked(tag), items[j]);
    }
  }

  // ---- What is read

  /** The item at `i` is read before the collector for `tag` stops: up to it there is neither an error
      nor a completion with that tag. */
  ghost predicate ReadAt(items: seq<Item>, tag: Tag, i: nat) {
    i < |items| && forall j | 0 <= j <= i :: items[j].Success? && (items[j].value.Done? ==> items[j].value.tag != tag)
  }

  lemma {:induction false} ReadAtIff(items: seq<Item>, tag: Tag, i: nat)
    ensures ReadAt(items, tag, i) <==> i < FirstStop(items, UntilDone(tag))
  {
    var n := FirstStop(items, UntilDone(tag));
    if i < n {
      forall j | 0 <= j <= i ensures items[j].Success? && (items[j].value.Done? ==> items[j].value.tag != tag) {
        assert !Stops(UntilDone(tag), items[j]);
      }
    }
  }

  /** A collector reports an error exactly if a read fails before its completion, and then that one. */
  lemma {:induction false} CollectorFailsIff<T>(items: seq<Item>, tag: Tag, gathered: T, cause: string)
    ensures Concluded(items, FirstStop(items, UntilDone(tag)), gathered) == Failure(Io(cause))
            <==> exists i: nat :: i < |items| && items[i] == Failure(cause) && (i > 0 ==> ReadAt(items, tag, i - 1))
  {
    var n := FirstStop(items, UntilDone(tag));
    if n > 0 {
      ReadAtIff(items, tag, n - 1);
    }
    if i: nat :| i < |items| && items[i] == Failure(cause) && (i > 0 ==> ReadAt(items, tag, i - 1)) {
      if i > 0 {
        ReadAtIff(items, tag, i - 1);
      }
      assert Stops(UntilDone(tag), items[i]);
    }
  }

  lemma {:induction false} GatheredIff<T>(items: seq<Item>, tag: Tag, f: Item -> seq<T>, t: T)
    ensures t in FlatMap(items[..FirstStop(items, UntilDone(tag))], f)
            <==> exists i: nat :: ReadAt(items, tag, i) && t in f(items[i])
  {
    var seen := items[..FirstStop(items, UntilDone(tag))];
    InFlatMap(seen, f, t);
    if i :| 0 <= i < |seen| && t in f(seen[i]) {
      ReadAtIff(items, tag, i);
      assert t in f(items[i]);
    }
    if i: nat :| ReadAt(items, tag, i) && t in f(items[i]) {
      ReadAtIff(items, tag, i);
      assert t in f(seen[i]);
    }
  }

  /** The response is read before the collector stops. */
  ghost predicate Reads(items: seq<Item>, tag: Tag, r: Response) {
    exists i: nat :: ReadAt(items, tag, i) && items[i] == Success(r)
  }

  /** If `f` keeps `r` back, or else offers it, so does the collector. */
  lemma {:induction false} OfferedIff(items: seq<Item>, tag: Tag, f: Item -> seq<Response>, r: Response, kept: bool)
    requires forall item {:trigger f(item)} :: r in f(item) <==> item == Success(r) && !kept
    ensures r in FlatMap(items[..FirstStop(items, UntilDone(tag))], f) <==> Reads(items, tag, r) && !kept
  {
    GatheredIff(items, tag, f, r);
    if i: nat :| ReadAt(items, tag, i) && items[i] == Success(r) {
      assert !kept ==> r in f(items[i]);
    }
  }

  /** The result of a search: the ids in the SEARCH responses before its completion. */
  lemma {:induction false} SearchGathers(items: seq<Item>, tag: Tag, id: nat)
    ensures id in SetOf(FlatMap(items[..FirstStop(items, UntilDone(tag))], IdsOf))
            <==> exists ids :: Reads(items, tag, MailboxData(Search(ids))) && id in ids
  {
    GatheredIff(items, tag, IdsOf, id);
    if i: nat :| ReadAt(items, tag, i) && id in IdsOf(items[i]) {
      assert Reads(items, tag, MailboxData(Search(items[i].value.datum.ids)));
    }
    if ids :| Reads(items, tag, MailboxData(Search(ids))) && id in ids {
      var i: nat :| ReadAt(items, tag, i) && items[i] == Success(MailboxData(Search(ids)));
      assert id in IdsOf(items[i]);
    }
  }

  /** The capabilities of a connection: likewise. */
  lemma {:induction false} CapabilitiesGather(items: seq<Item>, tag: Tag, cap: string)
    ensures cap in SetOf(FlatMap(items[..FirstStop(items, UntilDone(tag))], CapsOf))
            <==> exists caps :: Reads(items, tag, Capabilities(caps)) && cap in caps
  {
    GatheredIff(items, tag, CapsOf, cap);
    if i: nat :| ReadAt(items, tag, i) && cap in CapsOf(items[i]) {
      assert Reads(items, tag, Capabilities(items[i].value.caps));
    }
    if caps :| Reads(items, tag, Capabilities(caps)) && cap in caps {
      var i: nat :| ReadAt(items, tag, i) && items[i] == Success(Capabilities(caps));
      assert cap in CapsOf(items[i]);
    }
  }

  /** Every other response that these two read is offered to the queue. */
  lemma OthersAreOffered(items: seq<Item>, tag: Tag, r: Response)
    ensures var seen := items[..FirstStop(items, UntilDone(tag))];
            && (r in FlatMap(seen, NoIds) <==> Reads(items, tag, r) && !(r.MailboxData? && r.datum.Search?))
            && (r in FlatMap(seen, NoCaps) <==> Reads(items, tag, r) && !r.Capabilities?)
  {
    OfferedIff(items, tag, NoIds, r, r.MailboxData? && r.datum.Search?);
    OfferedIff(items, tag, NoCaps, r, r.Capabilities?);
  }

  // ---- What is read, in order

  lemma FlatMapAround<S, T>(before: seq<S>, x: S, after: seq<S>, f: S -> seq<T>)
    ensures FlatMap(before + [x] + after, f) == FlatMap(before, f) + f(x) + FlatMap(after, f)
  {
    FlatMapAppend(before + [x], after, f);
    FlatMapSnoc(before, x, f);
  }

  lemma {:induction false} FlatMapNone<S, T>(xs: seq<S>, f: S -> seq<T>)
    requires forall x | x in xs :: f(x) == []
    ensures FlatMap(xs, f) == []
  {
    if xs != [] {
      FlatMapNone(xs[..|xs| - 1], f);
      assert xs[|xs| - 1] in xs;
    }
  }

  /** NOOP and the checks offer every response that they pass over, in order. */
  lemma {:induction false} EverythingIsOffered(rs: seq<Response>)
    ensures FlatMap(seq(|rs|, i requires 0 <= i < |rs| => Success(rs[i])), Everything) == rs
  {
    if rs != [] {
      var front := rs[..|rs| - 1];
      var items: seq<Item> := seq(|rs|, i requires 0 <= i < |rs| => Success(rs[i]));
      EverythingIsOffered(front);
      assert items[..|items| - 1] == seq(|front|, i requires 0 <= i < |front| => Success(front[i]));
    }
  }

  /** Metadata: the values for the named mailbox count, in order, and stay. */
  lemma MetadataGathers(before: seq<Item>, name: string, values: seq<string>, after: seq<Item>)
    ensures var all := before + [Success(MailboxData(MetadataSolicited(name, values)))] + after;
            && FlatMap(all, ValuesFor(name))
               == FlatMap(before, ValuesFor(name)) + values + FlatMap(after, ValuesFor(name))
            && FlatMap(all, NoValuesFor(name)) == FlatMap(before, NoValuesFor(name)) + [] + FlatMap(after, NoValuesFor(name))
  {
    var item: Item := Success(MailboxData(MetadataSolicited(name, values)));
    FlatMapAround(before, item, after, ValuesFor(name));
    FlatMapAround(before, item, after, NoValuesFor(name));
  }

  /** Any other response counts for nothing, and is offered. */
  lemma MetadataOffers(before: seq<Item>, r: Response, after: seq<Item>, name: string)
    requires forall values :: r != MailboxData(MetadataSolicited(name, values))
    ensures var all := before + [Success(r)] + after;
            && FlatMap(all, ValuesFor(name)) == FlatMap(before, ValuesFor(name)) + [] + FlatMap(after, ValuesFor(name))
            && FlatMap(all, NoValuesFor(name))
               == FlatMap(before, NoValuesFor(name)) + [r] + FlatMap(after, NoValuesFor(name))
  {
    FlatMapAround(before, Success(r), after, ValuesFor(name));
    FlatMapAround(before, Success(r), after, NoValuesFor(name));
  }

  /** The identification is that of the last ID response, NIL included; without one there is none. */
  lemma IdGathers(before: seq<Item>, fields: Option<map<string, string>>, after: seq<Item>)
    requires forall item | item in after && item.Success? :: !item.value.Id?
    ensures LastOr(FlatMap(before + [Success(Id(fields))] + after, FieldsOf), None) == fields
    ensures LastOr(FlatMap(after, FieldsOf), None) == None
  {
    FlatMapAround(before, Success(Id(fields)), after, FieldsOf);
    FlatMapNone(after, FieldsOf);
  }

  /** Only ID responses are kept back from the queue. */
  lemma IdOffers(before: seq<Item>, r: Response, after: seq<Item>)
    ensures FlatMap(before + [Success(r)] + after, NoId)
            == FlatMap(before, NoId) + (match r case Id(_) => [] case _ => [r]) + FlatMap(after, NoId)
  {
    FlatMapAround(before, Success(r), after, NoId);
  }

  /** The quota is that of the last QUOTA response, or an error if there is none; an error met in reading
      comes first. */
  lemma QuotaGathers(items: seq<Item>, n: nat, before: seq<Item>, quota: string, after: seq<Item>)
    requires forall item | item in after && item.Success? :: !item.value.Quota?
    ensures var some := QuotaFound(items, n, FlatMap(before + [Success(Quota(quota))] + after, QuotasOf));
            var none := QuotaFound(items, n, FlatMap(after, QuotasOf));
            if n < |items| && items[n].Failure? then some == none == Failure(Io(items[n].error))
            else some == Success(quota) && none == Failure(ExpectedResponseNotFound)
  {
    FlatMapAround(before, Success(Quota(quota)), after, QuotasOf);
    FlatMapNone(after, QuotasOf);
  }

  /** QUOTAROOT responses give roots and QUOTA responses give quotas, in order; only these are kept back
      from the queue. */
  lemma QuotaRootGathers(before: seq<Item>, r: Response, after: seq<Item>)
    ensures var all := before + [Success(r)] + after;
            && FlatMap(all, RootsOf)
               == FlatMap(before, RootsOf) + (match r case QuotaRoot(root) => [root] case _ => []) + FlatMap(after, RootsOf)
            && FlatMap(all, QuotasOf)
               == FlatMap(before, QuotasOf) + (match r case Quota(q) => [q] case _ => []) + FlatMap(after, QuotasOf)
            && FlatMap(all, NoQuotaOrRoot)
               == FlatMap(before, NoQuotaOrRoot)
                  + (match r case QuotaRoot(_) => [] case Quota(_) => [] case _ => [r]) + FlatMap(after, NoQuotaOrRoot)
            && FlatMap(all, NoQuota)
               == FlatMap(before, NoQuota) + (match r case Quota(_) => [] case _ => [r]) + FlatMap(after, NoQuota)
  {
    FlatMapAround(before, Success(r), after, RootsOf);
    FlatMapAround(before, Success(r), after, QuotasOf);
    FlatMapAround(before, Success(r), after, NoQuotaOrRoot);
    FlatMapAround(before, Success(r), after, NoQuota);
  }

  // ---- Sets

  lemma {:induction false} InFlatMap<S, T>(xs: seq<S>, f: S -> seq<T>, t: T)
    ensures t in FlatMap(xs, f) <==> exists i :: 0 <= i < |xs| && t in f(xs[i])
  {
    if xs != [] {
      var front := xs[..|xs| - 1];
      InFlatMap(front, f, t);
      if i :| 0 <= i < |xs| && t in f(xs[i]) {
        assert i < |front| ==> front[i] == xs[i];
      }
      if t in FlatMap(front, f) {
        var i :| 0 <= i < |front| && t in f(front[i]);
        assert xs[i] == front[i];
      }
    }
  }

  /** What ids a response carries matters, not in which response or in which order they come: two
      streams of responses that mention the same ids give the same search result. */
  lemma {:induction false} SearchIgnoresGrouping(xs: seq<Item>, ys: seq<Item>)
    requires forall i, id | 0 <= i < |xs| && id in IdsOf(xs[i]) :: exists j :: 0 <= j < |ys| && id in IdsOf(ys[j])
    requires forall j, id | 0 <= j < |ys| && id in IdsOf(ys[j]) :: exists i :: 0 <= i < |xs| && id in IdsOf(xs[i])
    ensures SetOf(FlatMap(xs, IdsOf)) == SetOf(FlatMap(ys, IdsOf))
  {
    forall id ensures id in SetOf(FlatMap(xs, IdsOf)) <==> id in SetOf(FlatMap(ys, IdsOf)) {
      InFlatMap(xs, IdsOf, id);
      InFlatMap(ys, IdsOf, id);
    }
  }

  /** In particular the order of the responses does not matter. */
  lemma SearchIgnoresOrder(xs: seq<Item>, ys: seq<Item>)
    requires multiset(xs) == multiset(ys)
    ensures SetOf(FlatMap(xs, IdsOf)) == SetOf(FlatMap(ys, IdsOf))
  {
    forall i, id | 0 <= i < |xs| && id in IdsOf(xs[i]) ensures exists j :: 0 <= j < |ys| && id in IdsOf(ys[j]) {
      assert xs[i] in multiset(ys);
      var j :| 0 <= j < |ys| && ys[j] == xs[i];
    }
    forall j, id | 0 <= j < |ys| && id in IdsOf(ys[j]) ensures exists i :: 0 <= i < |xs| && id in IdsOf(xs[i]) {
      assert ys[j] in multiset(xs);
      var i :| 0 <= i < |xs| && xs[i] == ys[j];
    }
    SearchIgnoresGrouping(xs, ys);
  }

  /** Nor does it matter how ids are split between responses. */
  lemma SearchIgnoresSplitting(before: seq<Item>, ids: seq<nat>, more: seq<nat>, after: seq<Item>)
    ensures FlatMap(before + [Success(MailboxData(Search(ids))), Success(MailboxData(Search(more)))] + after, IdsOf)
            == FlatMap(before + [Success(MailboxData(Search(ids + more)))] + after, IdsOf)
  {
    var x: Item, y: Item := Success(MailboxData(Search(ids))), Success(MailboxData(Search(more)));
    var xy: Item := Success(MailboxData(Search(ids + more)));
    FlatMapPair(x, y, IdsOf);
    FlatMapOne(xy, IdsOf);
    FlatMapMiddle(before, [x, y], [xy], after, IdsOf);
  }
}
