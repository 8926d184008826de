/** What the incremental decoder does, on values: the state between two polls, one attempt to
    decode, and one poll.  The class `ImapStream` is proved to do exactly this. */
module Decoding {
  import opened Bytes
  import opened Parsing
  import opened Wrappers

  const BLOCK_SIZE: nat := 1024 * 4
  const MAX_CAPACITY: nat := 512 * 1024 * 1024

  /** `data` is the used part of the block, `capacity` the length of the whole block, `needs` the
      length below which an attempt to decode is skipped. */
  datatype Decoder = Decoder(data: seq<byte>, capacity: nat, needs: nat)

  const INITIAL: Decoder := Decoder([], BLOCK_SIZE, 0)

  // ---- Sizes of the block

  ghost predicate WholeBlocks(capacity: nat) {
    0 < capacity <= MAX_CAPACITY && capacity % BLOCK_SIZE == 0
  }

  /** The least multiple of the block size that is not below `n`. */
  function RoundUp(n: nat): (size: nat)
    ensures size % BLOCK_SIZE == 0 && n <= size < n + BLOCK_SIZE
  {
    (n + BLOCK_SIZE - 1) / BLOCK_SIZE * BLOCK_SIZE
  }

  /** The capacity after room has been made for one more byte and for `required` bytes in all. */
  function Ensured(used: nat, capacity: nat, required: nat): Option<nat> {
    if required > MAX_CAPACITY || used >= MAX_CAPACITY then None
    else if required > capacity then Some(RoundUp(required))
    else if used == capacity then Some(capacity + BLOCK_SIZE)
    else Some(capacity)
  }

  lemma RoundUpIsLeast(n: nat, size: nat)
    requires size % BLOCK_SIZE == 0 && n <= size
    ensures RoundUp(n) <= size
  {
  }

  lemma OneMoreBlock(capacity: nat)
    requires WholeBlocks(capacity) && capacity < MAX_CAPACITY
    ensures WholeBlocks(capacity + BLOCK_SIZE)
  {
  }

  lemma RoundUpIsWhole(n: nat)
    requires 0 < n <= MAX_CAPACITY
    ensures WholeBlocks(RoundUp(n))
  {
    RoundUpIsLeast(n, MAX_CAPACITY);
  }

  lemma EnsuredIsEnough(used: nat, capacity: nat, required: nat)
    requires WholeBlocks(capacity) && used <= capacity
    ensures Ensured(used, capacity, required).None?
            <==> required > MAX_CAPACITY || used == capacity == MAX_CAPACITY
    ensures Ensured(used, capacity, required).Some? ==>
              var roomy := Ensured(used, capacity, required).value;
              && WholeBlocks(roomy) && capacity <= roomy && used < roomy && required <= roomy
              && Ensured(used, roomy, required) == Some(roomy)
  {
    if capacity < required <= MAX_CAPACITY {
      RoundUpIsWhole(required);
    } else if used == capacity < MAX_CAPACITY {
      OneMoreBlock(capacity);
    }
  }

  /** No more room is made than is needed: a block that keeps what is there, in whole units of 4096 bytes up to
      512 MiB, with a free byte and all that is required, is at least as large. */
  lemma EnsuredIsLeast(used: nat, capacity: nat, required: nat, size: nat)
    requires WholeBlocks(capacity) && used <= capacity
    requires size % 4096 == 0 && size <= 536_870_912
    requires capacity <= size && used < size && required <= size
    ensures Ensured(used, capacity, required).Some? && Ensured(used, capacity, required).value <= size
  {
    EnsuredIsEnough(used, capacity, required);
    RoundUpIsLeast(required, size);
  }

  /** The capacity of the new block that receives `leftover` bytes after a response. */
  function ResetCapacity(leftover: nat): nat {
    RoundUp(leftover + 1)
  }

  lemma ResetCapacityFits(leftover: nat)
    requires leftover < MAX_CAPACITY
    ensures WholeBlocks(ResetCapacity(leftover)) && leftover < ResetCapacity(leftover)
  {
    RoundUpIsLeast(leftover + 1, MAX_CAPACITY);
  }

  lemma ResetCapacityIsLeast(leftover: nat, size: nat)
    requires size % 4096 == 0 && leftover < size
    ensures ResetCapacity(leftover) <= size
  {
    RoundUpIsLeast(leftover + 1, size);
  }

  // ---- What the network does

  /** One answer of the underlying reader: not ready, an error, or bytes (none: end of file). */
  datatype Event = Blocked | Broken | Chunk(bytes: seq<byte>)

  /** All bytes a script of answers still holds. */
  function Pouring(script: seq<Event>): seq<byte> {
    if script == [] then []
    else (if script[0].Chunk? then script[0].bytes else []) + Pouring(script[1..])
  }

  /** One read into `room` free bytes.  A chunk that does not fit is delivered in part; a reader
      that has nothing left to say is not ready. */
  function Read(script: seq<Event>, room: nat): (Event, seq<Event>) {
    if script == [] then (Blocked, [])
    else if script[0].Chunk? && |script[0].bytes| > room then
      (Chunk(script[0].bytes[..room]), [Chunk(script[0].bytes[room..])] + script[1..])
    else (script[0], script[1..])
  }

  lemma {:induction false} ReadMovesBytes(script: seq<Event>, room: nat)
    requires 0 < room
    ensures var (e, rest) := Read(script, room);
            && (e.Chunk? ==> |e.bytes| <= room && Pouring(script) == e.bytes + Pouring(rest))
            && (!e.Chunk? ==> Pouring(script) == Pouring(rest))
            && |rest| <= |script|
            && (script != [] && (!e.Chunk? || e.bytes == []) ==> |rest| < |script|)
  {
    if script != [] {
      var tail := Pouring(script[1..]);
      match script[0]
      case Blocked => assert Pouring(script) == tail;
      case Broken => assert Pouring(script) == tail;
      case Chunk(bytes) =>
        assert Pouring(script) == bytes + tail;
        if |bytes| > room {
          PouringCons(Chunk(bytes[room..]), script[1..]);
          assert bytes + tail == bytes[..room] + (bytes[room..] + tail);
        }
    }
  }

  lemma {:induction false} PouringCons(e: Event, script: seq<Event>)
    ensures Pouring([e] + script) == (if e.Chunk? then e.bytes else []) + Pouring(script)
  {
    assert ([e] + script)[1..] == script;
  }

  // ---- Attempts and polls

  /** `Skipping` is the program: it does not call the parser on fewer than `needs` bytes.  `Eager`
      is the same program without that shortcut: it calls the parser every time, and remembers every
      hint all the same. */
  datatype Policy = Skipping | Eager

  datatype Decoded<+R> = Response(r: R) | Nothing | Unparsable

  function Attempt<R>(p: Parser<R>, policy: Policy, d: Decoder): (Decoder, Decoded<R>)
    requires Lawful(p)
  {
    Bounds(p, d.data);
    if policy == Skipping && |d.data| < d.needs then (d, Nothing)
    else
      match p(d.data)
      case Done(c, r) => (Decoder(d.data[c..], ResetCapacity(|d.data| - c), 0), Response(r))
      case Fail => (d.(needs := 0), Unparsable)
      case NeedSize(m) => (d.(needs := |d.data| + m), Nothing)
      case NeedUnknown => (d.(needs := 0), Nothing)
  }

  /** What a poll reports. */
  datatype Poll<+R> =
    | Ready(r: R)
    | Pending
    | End
    | IoError
    | UnexpectedEof
    | ParseFailure
    | TooLarge
  {
    /** The two errors that the decoder never leaves again. */
    predicate Sticky() {
      ParseFailure? || TooLarge?
    }
  }

  /** The decoder after a poll, the report, and what the reader still holds. */
  datatype Step<+R> = Step(d: Decoder, poll: Poll<R>, script: seq<Event>)

  ghost predicate Roomy(d: Decoder) {
    WholeBlocks(d.capacity) && |d.data| <= d.capacity
  }

  lemma AttemptKeepsRoom<R>(p: Parser<R>, policy: Policy, d: Decoder)
    requires Lawful(p) && Roomy(d)
    ensures Roomy(Attempt(p, policy, d).0)
    ensures Attempt(p, policy, d).1.Nothing? ==> Attempt(p, policy, d).0.data == d.data
  {
    Bounds(p, d.data);
    if p(d.data).Done? {
      ResetCapacityFits(|d.data| - p(d.data).consumed);
    }
  }

  /** One round of the loop in a poll ends it with a report or goes round again. */
  datatype Round<+R> = Report(st: Step<R>) | Again(d: Decoder, script: seq<Event>)

  /** Try to decode what is held. */
  function AttemptRound<R>(p: Parser<R>, policy: Policy, d: Decoder, script: seq<Event>): Round<R>
    requires Lawful(p)
  {
    var (d', decoded) := Attempt(p, policy, d);
    match decoded
    case Response(r) => Report(Step(d', Ready(r), script))
    case Unparsable => Report(Step(d', ParseFailure, script))
    case Nothing => Again(d', script)
  }

  /** Read into the free room and try to decode what has arrived. */
  function ReadAndAttempt<R>(p: Parser<R>, policy: Policy, d: Decoder, script: seq<Event>): Round<R>
    requires Lawful(p) && |d.data| < d.capacity
  {
    var (e, rest) := Read(script, d.capacity - |d.data|);
    match e
    case Blocked => Report(Step(d, Pending, rest))
    case Broken => Report(Step(d, IoError, rest))
    case Chunk(bytes) =>
      if bytes == [] then Report(Step(d, if d.data == [] then End else UnexpectedEof, rest))
      else AttemptRound(p, policy, d.(data := d.data + bytes), rest)
  }

  lemma AttemptsOnBytes<R>(p: Parser<R>, policy: Policy, d: Decoder, script: seq<Event>)
    requires Lawful(p) && |d.data| < d.capacity
    requires var e := Read(script, d.capacity - |d.data|).0; e.Chunk? && e.bytes != []
    ensures var (e, rest) := Read(script, d.capacity - |d.data|);
            ReadAndAttempt(p, policy, d, script) == AttemptRound(p, policy, d.(data := d.data + e.bytes), rest)
  {
  }

  /** Make room first; without room the data is too large. */
  function OneRound<R>(p: Parser<R>, policy: Policy, d: Decoder, script: seq<Event>): Round<R>
    requires Lawful(p) && Roomy(d)
  {
    EnsuredIsEnough(|d.data|, d.capacity, d.needs);
    match Ensured(|d.data|, d.capacity, d.needs)
    case None => Report(Step(d, TooLarge, script))
    case Some(capacity) => ReadAndAttempt(p, policy, d.(capacity := capacity), script)
  }

  lemma RoundShrinks<R>(p: Parser<R>, policy: Policy, d: Decoder, script: seq<Event>)
    requires Lawful(p) && Roomy(d)
    ensures var round := OneRound(p, policy, d, script);
            round.Again? ==>
              && Roomy(round.d)
              && |Pouring(round.script)| < |Pouring(script)|
              && |round.script| <= |script|
  {
    EnsuredIsEnough(|d.data|, d.capacity, d.needs);
    match Ensured(|d.data|, d.capacity, d.needs)
    case None =>
    case Some(capacity) =>
      ReadMovesBytes(script, capacity - |d.data|);
      var e := Read(script, capacity - |d.data|).0;
      if e.Chunk? {
        AttemptKeepsRoom(p, policy, d.(capacity := capacity, data := d.data + e.bytes));
      }
  }

  function ReadLoop<R>(p: Parser<R>, policy: Policy, d: Decoder, script: seq<Event>): Step<R>
    requires Lawful(p) && Roomy(d)
    decreases |Pouring(script)|
  {
    RoundShrinks(p, policy, d, script);
    match OneRound(p, policy, d, script)
    case Report(st) => st
    case Again(d', rest) => ReadLoop(p, policy, d', rest)
  }

  function PollStep<R>(p: Parser<R>, policy: Policy, d: Decoder, script: seq<Event>): Step<R>
    requires Lawful(p) && Roomy(d)
  {
    AttemptKeepsRoom(p, policy, d);
    match AttemptRound(p, policy, d, script)
    case Report(st) => st
    case Again(d', rest) => ReadLoop(p, policy, d', rest)
  }
}
