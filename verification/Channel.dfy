/** The queue of unsolicited responses: bounded, and dropping what does not fit. */
module Channels {
  import opened Wrappers
  import opened Responses

  const CAPACITY: nat := 100

  datatype Unsolicited =
    | StatusChange(mailbox: string, attributes: seq<StatusAttribute>)
    | RecentCount(n: nat)
    | ExistsCount(n: nat)
    | Expunged(n: nat)
    | Unrelated(response: Response)

  function AsUnsolicited(r: Response): Unsolicited {
    match r
    case MailboxData(MailboxStatus(mailbox, attributes)) => StatusChange(mailbox, attributes)
    case MailboxData(Recent(n)) => RecentCount(n)
    case MailboxData(Exists(n)) => ExistsCount(n)
    case Expunge(n) => Expunged(n)
    case _ => Unrelated(r)
  }

  function AllUnsolicited(rs: seq<Response>): seq<Unsolicited> {
    seq(|rs|, i requires 0 <= i < |rs| => AsUnsolicited(rs[i]))
  }

  function Take<T>(xs: seq<T>, n: nat): seq<T> {
    if |xs| <= n then xs else xs[..n]
  }

  /** The queue after `rs` have been offered to it, one by one: as much as fits. */
  function Queued(queue: seq<Unsolicited>, rs: seq<Response>): seq<Unsolicited> {
    Take(queue + AllUnsolicited(rs), CAPACITY)
  }

  lemma QueuedNone(queue: seq<Unsolicited>)
    requires |queue| <= CAPACITY
    ensures Queued(queue, []) == queue
  {
    assert queue + [] == queue;
  }

  lemma QueuedSnoc(queue: seq<Unsolicited>, rs: seq<Response>, r: Response)
    ensures Queued(queue, rs + [r]) == Queued(Queued(queue, rs), [r])
  {
    assert AllUnsolicited(rs + [r]) == AllUnsolicited(rs) + [AsUnsolicited(r)];
    assert queue + AllUnsolicited(rs + [r]) == (queue + AllUnsolicited(rs)) + [AsUnsolicited(r)];
    assert AllUnsolicited([r]) == [AsUnsolicited(r)];
  }

  lemma QueuedAppend(queue: seq<Unsolicited>, rs: seq<Response>, more: seq<Response>)
    ensures Queued(Queued(queue, rs), more) == Queued(queue, rs + more)
  {
    assert AllUnsolicited(rs + more) == AllUnsolicited(rs) + AllUnsolicited(more);
    assert queue + AllUnsolicited(rs + more) == (queue + AllUnsolicited(rs)) + AllUnsolicited(more);
  }

  /** What a receiver makes of a response offered to a queue that is not full: the numbers, the expunged
      message and the status under their own names, and any other response as it is.  A queue of 100 takes
      nothing more. */
  lemma OfferedIsSeen(queue: seq<Unsolicited>, r: Response)
    ensures |queue| == 100 ==> Queued(queue, [r]) == queue
    ensures |queue| < 100 ==>
              && |Queued(queue, [r])| == |queue| + 1 && queue <= Queued(queue, [r])
              && var last := Queued(queue, [r])[|queue|];
              && (forall n :: last == ExistsCount(n) <==> r == MailboxData(Exists(n)))
              && (forall n :: last == RecentCount(n) <==> r == MailboxData(Recent(n)))
              && (forall n :: last == Expunged(n) <==> r == Expunge(n))
              && (forall mailbox, attributes ::
                    last == StatusChange(mailbox, attributes) <==> r == MailboxData(MailboxStatus(mailbox, attributes)))
              && (forall other :: last == Unrelated(other) <==>
                    && other == r && !r.Expunge?
                    && !(r.MailboxData? && (r.datum.Exists? || r.datum.Recent? || r.datum.MailboxStatus?)))
  {
    assert AllUnsolicited([r]) == [AsUnsolicited(r)];
    if |queue| < 100 {
      assert Queued(queue, [r])[|queue|] == AsUnsolicited(r);
    } else {
      assert (queue + AllUnsolicited([r]))[..|queue|] == queue;
    }
  }

  class Channel {
    var queue: seq<Unsolicited>

    ghost predicate Valid()
      reads this
    {
      |queue| <= CAPACITY
    }

    constructor ()
      ensures Valid() && queue == []
    {
      queue := [];
    }

    method IsFull() returns (full: bool)
      ensures full <==> |queue| >= CAPACITY
    {
      full := |queue| >= CAPACITY;
    }

    /** Sending waits while the queue is full; here it may only be called when it need not wait. */
    method Send(u: Unsolicited)
      requires |queue| < CAPACITY
      modifies this
      ensures queue == old(queue) + [u]
    {
      queue := queue + [u];
    }
  }

  /** Offers a response that is not for the command in progress. */
  method HandleUnilateral(r: Response, ch: Channel)
    requires ch.Valid()
    modifies ch
    ensures ch.Valid()
    ensures ch.queue == Queued(old(ch.queue), [r])
  {
    assert AllUnsolicited([r]) == [AsUnsolicited(r)];
    var full := ch.IsFull();
    if full {
      return;
    }
    match r
    case MailboxData(MailboxStatus(mailbox, attributes)) => ch.Send(StatusChange(mailbox, attributes));
    case MailboxData(Recent(n)) => ch.Send(RecentCount(n));
    case MailboxData(Exists(n)) => ch.Send(ExistsCount(n));
    case Expunge(n) => ch.Send(Expunged(n));
    case _ => ch.Send(Unrelated(r));
  }
}
