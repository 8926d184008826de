/** Server responses as the collectors see them, and the stream they come from. */
module Responses {
  import opened Wrappers

  type Tag = string

  datatype Status = Ok | No | Bad | PreAuth | Bye

  datatype Code =
    | UidValidity(n: nat)
    | UidNext(n: nat)
    | HighestModSeq(n: nat)
    | Unseen(n: nat)
    | PermanentFlags(flags: seq<string>)
    | OtherCode(text: string)

  datatype StatusAttribute =
    | HighestModSeqIs(n: nat)
    | MessagesIs(n: nat)
    | RecentIs(n: nat)
    | UidNextIs(n: nat)
    | UidValidityIs(n: nat)
    | UnseenIs(n: nat)
    | OtherAttribute(text: string)

  datatype Datum =
    | Exists(n: nat)
    | Recent(n: nat)
    | Flags(flags: seq<string>)
    | List(name: string)
    | Search(ids: seq<nat>)
    | Sort(ids: seq<nat>)
    | MailboxStatus(mailbox: string, attributes: seq<StatusAttribute>)
    | MetadataSolicited(mailbox: string, values: seq<string>)
    | MetadataUnsolicited(mailbox: string, names: seq<string>)
    | OtherDatum(text: string)

  datatype Response =
    | Capabilities(caps: seq<string>)
    | Continue(information: Option<string>)
    | Done(tag: Tag, status: Status, code: Option<Code>, information: Option<string>)
    | Data(status: Status, code: Option<Code>, information: Option<string>)
    | Expunge(n: nat)
    | Fetch(n: nat, attributes: seq<string>)
    | MailboxData(datum: Datum)
    | Quota(quota: string)
    | QuotaRoot(root: string)
    | Id(fields: Option<map<string, string>>)
    | Other(text: string)

  datatype Error =
    | Io(cause: string)
    | BadResponse(code: Option<Code>, information: Option<string>)
    | NoResponse(code: Option<Code>, information: Option<string>)
    | OddStatus(status: Status, code: Option<Code>, information: Option<string>)
    | ConnectionLost
    | ConnectionRefused(text: string)
    | ExpectedResponseNotFound
    | Authentication(text: string)
    | Validate(c: char)
    /** The program stops here: it unwraps text that is not there. */
    | Panic

  /** What the response stream yields: a response, or the error met in reading one. */
  type Item = Result<Response, string>

  /** The responses that are still to come.  The stream ends when there are none. */
  class ResponseStream {
    var items: seq<Item>

    constructor (items: seq<Item>)
      ensures this.items == items
    {
      this.items := items;
    }

    method Next() returns (item: Option<Item>)
      modifies this
      ensures old(items) == [] ==> item == None && items == []
      ensures old(items) != [] ==> item == Some(old(items)[0]) && items == old(items)[1..]
    {
      if items == [] {
        return None;
      }
      item := Some(items[0]);
      items := items[1..];
    }
  }
}
