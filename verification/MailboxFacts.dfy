/** What SELECT, EXAMINE and STATUS come to, response by response. */
module MailboxFacts {
  import opened Wrappers
  import opened Responses
  import opened Collect
  import opened Collectors
  import opened CollectorFacts
  import opened Mailboxes

  // ---- Success and failure

  /** Before the item at `n` there is no error, no completion of the command, and no untagged status that
      is not OK. */
  ghost predicate Undecided(items: seq<Item>, tag: Tag, n: nat) {
    n <= |items| && forall i | 0 <= i < n ::
      && items[i].Success?
      && (items[i].value.Done? ==> items[i].value.tag != tag)
      && (items[i].value.Data? ==> items[i].value.status == Ok)
  }

  /** The same for a command whose loop reads on behind untagged statuses. */
  ghost predicate Unanswered(items: seq<Item>, tag: Tag, n: nat) {
    n <= |items| && forall i | 0 <= i < n ::
      items[i].Success? && (items[i].value.Done? ==> items[i].value.tag != tag)
  }

  lemma {:induction false} UndecidedIff(items: seq<Item>, tag: Tag, n: nat)
    ensures Undecided(items, tag, n) <==> n <= FirstStop(items, UntilSelected(tag))
  {
    var stop := FirstStop(items, UntilSelected(tag));
    if n <= stop {
      forall i | 0 <= i < n
        ensures && items[i].Success?
                && (items[i].value.Done? ==> items[i].value.tag != tag)
                && (items[i].value.Data? ==> items[i].value.status == Ok)
      {
        assert !Stops(UntilSelected(tag), items[i]);
      }
    }
  }

  lemma {:induction false} UnansweredIff(items: seq<Item>, tag: Tag, n: nat)
    ensures Unanswered(items, tag, n) <==> n <= FirstStop(items, UntilDone(tag))
  {
    var stop := FirstStop(items, UntilDone(tag));
    if n > 0 {
      ReadAtIff(items, tag, n - 1);
    }
    if n <= stop && n > 0 {
      assert ReadAt(items, tag, n - 1);
    }
    if Unanswered(items, tag, n) && n > 0 {
      assert ReadAt(items, tag, n - 1);
    }
  }

  /** A selection succeeds exactly if its own OK completion comes before anything that fails it, or if the
      stream ends before either. */
  lemma {:induction false} SelectionSucceedsIff(items: seq<Item>, tag: Tag)
    ensures Selection(items, tag).Success? <==>
              || Undecided(items, tag, |items|)
              || exists n: nat, code, information ::
                   Undecided(items, tag, n) && n < |items| && items[n] == Success(Done(tag, Ok, code, information))
  {
    var stop := FirstStop(items, UntilSelected(tag));
    UndecidedIff(items, tag, stop);
    UndecidedIff(items, tag, |items|);
    if Selection(items, tag).Success? && stop < |items| {
      assert items[stop] == Success(Done(tag, Ok, items[stop].value.code, items[stop].value.information));
    }
    if n: nat, code, information :|
        Undecided(items, tag, n) && n < |items| && items[n] == Success(Done(tag, Ok, code, information)) {
      UndecidedIff(items, tag, n);
      assert Stops(UntilSelected(tag), items[n]);
      assert n == stop;
    }
  }

  /** What decides a selection: the first error, own completion or untagged status that is not OK. */
  lemma {:induction false} SelectionDecides(items: seq<Item>, tag: Tag, n: nat)
    requires Undecided(items, tag, n) && n < |items|
    ensures var r := Selection(items, tag);
            match items[n]
            case Failure(e) => r == Failure(Io(e))
            case Success(Done(t, status, code, information)) =>
              t == tag ==>
                (match status
                 case Ok => r.Success?
                 case No => r == Failure(NoResponse(code, information))
                 case Bad => r == Failure(BadResponse(code, information))
                 case _ => r == Failure(OddStatus(status, code, information)))
            case Success(Data(status, code, information)) =>
              (match status
               case Ok => true
               case No => r == Failure(NoResponse(code, information))
               case Bad => r == Failure(BadResponse(code, information))
               case _ => r == Failure(OddStatus(status, code, information)))
            case _ => true
  {
    UndecidedIff(items, tag, n);
    if Stops(UntilSelected(tag), items[n]) {
      assert FirstStop(items, UntilSelected(tag)) == n;
    }
  }

  /** What a STATUS command comes to. */
  function StatusAnswer(items: seq<Item>, mailbox: string, tag: Tag): Result<Mailbox, Error> {
    var n := FirstStop(items, UntilDone(tag));
    Selected(items, n, Described(FlatMap(items[..n], AttributesOf(mailbox))))
  }

  lemma {:induction false} StatusSucceedsIff(items: seq<Item>, mailbox: string, tag: Tag)
    ensures StatusAnswer(items, mailbox, tag).Success? <==>
              || Unanswered(items, tag, |items|)
              || exists n: nat, code, information ::
                   Unanswered(items, tag, n) && n < |items| && items[n] == Success(Done(tag, Ok, code, information))
  {
    var stop := FirstStop(items, UntilDone(tag));
    UnansweredIff(items, tag, stop);
    UnansweredIff(items, tag, |items|);
    if StatusAnswer(items, mailbox, tag).Success? && stop < |items| {
      assert items[stop] == Success(Done(tag, Ok, items[stop].value.code, items[stop].value.information));
    }
    if n: nat, code, information :|
        Unanswered(items, tag, n) && n < |items| && items[n] == Success(Done(tag, Ok, code, information)) {
      UnansweredIff(items, tag, n);
      assert Stops(UntilDone(tag), items[n]);
      assert n == stop;
    }
  }

  lemma {:induction false} StatusDecides(items: seq<Item>, mailbox: string, tag: Tag, n: nat)
    requires Unanswered(items, tag, n) && n < |items|
    ensures var r := StatusAnswer(items, mailbox, tag);
            match items[n]
            case Failure(e) => r == Failure(Io(e))
            case Success(Done(t, status, code, information)) =>
              t == tag ==>
                (match status
                 case Ok => r.Success?
                 case No => r == Failure(NoResponse(code, information))
                 case Bad => r == Failure(BadResponse(code, information))
                 case _ => r == Failure(OddStatus(status, code, information)))
            case _ => true
  {
    UnansweredIff(items, tag, n);
    if Stops(UntilDone(tag), items[n]) {
      assert FirstStop(items, UntilDone(tag)) == n;
    }
  }

  // ---- The mailbox

  /** The mailbox of a selection that succeeds: nothing is known at first, and each response that is read
      adds what it announces.  A number replaces the one before it, flags join those before them. */
  lemma {:induction false} SelectionAnnounces(items: seq<Item>, tag: Tag)
    ensures var n := FirstStop(items, UntilSelected(tag));
            Selection(items, tag).Success? ==> Selection(items, tag).value == Announced(items[..n])
    ensures Announced([]) == Mailbox([], 0, 0, None, [], None, None, None)
  {
  }

  lemma AnnouncesOneMore(items: seq<Item>, r: Response)
    ensures var m := Announced(items);
            Announced(items + [Success(r)]) ==
              match r
              case MailboxData(Flags(flags)) => m.(flags := m.flags + flags)
              case MailboxData(Exists(n)) => m.(exists_ := n)
              case MailboxData(Recent(n)) => m.(recent := n)
              case Data(Ok, Some(Unseen(n)), _) => m.(unseen := Some(n))
              case Data(Ok, Some(PermanentFlags(flags)), _) => m.(permanentFlags := m.permanentFlags + flags)
              case Data(Ok, Some(UidNext(n)), _) => m.(uidNext := Some(n))
              case Data(Ok, Some(UidValidity(n)), _) => m.(uidValidity := Some(n))
              case Data(Ok, Some(HighestModSeq(n)), _) => m.(highestModSeq := Some(n))
              case _ => m
  {
    AnnouncedSnoc(items, Success(r));
  }

  /** Of what a selection reads, STATUS responses and whatever is neither mailbox data nor an untagged
      status are offered to the queue. */
  lemma SelectionOffers(before: seq<Item>, r: Response, after: seq<Item>)
    ensures FlatMap(before + [Success(r)] + after, NoMailbox) ==
              FlatMap(before, NoMailbox)
              + (match r
                 case MailboxData(MailboxStatus(_, _)) => [r]
                 case MailboxData(_) => []
                 case Data(_, _, _) => []
                 case _ => [r])
              + FlatMap(after, NoMailbox)
  {
    FlatMapAround(before, Success(r), after, NoMailbox);
  }

  lemma StatusDescribes(items: seq<Item>, mailbox: string, tag: Tag)
    ensures var n := FirstStop(items, UntilDone(tag));
            StatusAnswer(items, mailbox, tag).Success? ==>
              StatusAnswer(items, mailbox, tag).value == Described(FlatMap(items[..n], AttributesOf(mailbox)))
  {
  }

  /** The same for STATUS, attribute by attribute. */
  lemma DescribesOneMore(attributes: seq<StatusAttribute>, a: StatusAttribute)
    ensures Described([]) == Mailbox([], 0, 0, None, [], None, None, None)
    ensures var m := Described(attributes);
            Described(attributes + [a]) ==
              match a
              case MessagesIs(n) => m.(exists_ := n)
              case RecentIs(n) => m.(recent := n)
              case UnseenIs(n) => m.(unseen := Some(n))
              case UidNextIs(n) => m.(uidNext := Some(n))
              case UidValidityIs(n) => m.(uidValidity := Some(n))
              case HighestModSeqIs(n) => m.(highestModSeq := Some(n))
              case OtherAttribute(_) => m
  {
    DescribedSnoc(attributes, a);
  }

  /** The attributes for the named mailbox count, in order, and their response stays; any other response is
      offered to the queue. */
  lemma StatusGathers(before: seq<Item>, r: Response, after: seq<Item>, name: string)
    ensures var all := before + [Success(r)] + after;
            var own := r.MailboxData? && r.datum.MailboxStatus? && r.datum.mailbox == name;
            && FlatMap(all, AttributesOf(name))
               == FlatMap(before, AttributesOf(name)) + (if own then r.datum.attributes else [])
                  + FlatMap(after, AttributesOf(name))
            && FlatMap(all, NoStatusOf(name))
               == FlatMap(before, NoStatusOf(name)) + (if own then [] else [r]) + FlatMap(after, NoStatusOf(name))
  {
    FlatMapAround(before, Success(r), after, AttributesOf(name));
    FlatMapAround(before, Success(r), after, NoStatusOf(name));
  }

  /** A server that refuses a selection. */
  lemma RefusedSelectionFails(tag: Tag)
    ensures Selection([Success(Done(tag, No, None, Some("no such mailbox")))], tag)
            == Failure(NoResponse(None, Some("no such mailbox")))
  {
    var items: seq<Item> := [Success(Done(tag, No, None, Some("no such mailbox")))];
    SelectionDecides(items, tag, 0);
  }
}
