/** Bytes as they arrive from the network. */
module Bytes {
  newtype byte = x: int | 0 <= x < 256

  function Flatten(parts: seq<seq<byte>>): seq<byte> {
    if parts == [] then [] else parts[0] + Flatten(parts[1..])
  }

  lemma {:induction false} FlattenSnoc(parts: seq<seq<byte>>, last: seq<byte>)
    ensures Flatten(parts + [last]) == Flatten(parts) + last
  {
    if parts == [] {
      assert Flatten([last]) == last + Flatten([]) == last;
      assert parts + [last] == [last];
    } else {
      assert (parts + [last])[1..] == parts[1..] + [last];
      FlattenSnoc(parts[1..], last);
    }
  }
}

/** The streaming response parser is a library.  It appears here as an arbitrary function of the
    bytes held so far, and everything proved about the decoder assumes only the laws below. */
module Parsing {
  import opened Bytes

  /** What the parser says about the bytes it is shown. */
  datatype Outcome<+R> =
    | Done(consumed: nat, response: R)
    | NeedSize(more: nat)
    | NeedUnknown
    | Fail
  {
    predicate Incomplete() {
      NeedSize? || NeedUnknown?
    }
  }

  type Parser<!R> = seq<byte> -> Outcome<R>

  /** What `p` said about `b` limits what it may say once `more` has arrived too. */
  ghost predicate StableOn<R>(p: Parser<R>, b: seq<byte>, more: seq<byte>) {
    && (p(b).Done? ==> p(b + more) == p(b))
    && (p(b).Fail? ==> p(b + more).Fail?)
    && (p(b).NeedSize? && |more| < p(b).more ==> !p(b + more).Done?)
  }

  ghost predicate WithinInput<R>(p: Parser<R>, b: seq<byte>) {
    && (p(b).Done? ==> 1 <= p(b).consumed <= |b|)
    && (p(b).NeedSize? ==> 1 <= p(b).more)
  }

  /** The laws of a streaming parser: a response is made of bytes that are there, a verdict is
      final, no bytes are no response, and a size hint never overshoots. */
  ghost predicate Lawful<R>(p: Parser<R>) {
    && p([]).Incomplete()
    && (forall b :: WithinInput(p, b))
    && (forall b, more :: StableOn(p, b, more))
  }

  /** A further law, used only where a theorem says so: a response is recognised from its own
      bytes, without looking at the byte after it. */
  ghost predicate SelfDelimiting<R>(p: Parser<R>) {
    forall b | p(b).Done? && p(b).consumed <= |b| :: p(b[..p(b).consumed]) == p(b)
  }

  /** While fewer bytes have come than `p` asks for on `b`, it asks for just the rest. */
  ghost predicate SteadyOn<R>(p: Parser<R>, b: seq<byte>, more: seq<byte>) {
    p(b).NeedSize? && |more| < p(b).more ==> p(b + more) == NeedSize(p(b).more - |more|)
  }

  /** Another law that is used only where a theorem says so. */
  ghost predicate Steady<R>(p: Parser<R>) {
    forall b, more :: SteadyOn(p, b, more)
  }

  lemma Stable<R>(p: Parser<R>, b: seq<byte>, longer: seq<byte>)
    requires Lawful(p) && b <= longer
    ensures p(b).Done? ==> p(longer) == p(b)
    ensures p(b).Fail? ==> p(longer).Fail?
    ensures p(b).NeedSize? && |longer| < |b| + p(b).more ==> !p(longer).Done?
  {
    assert longer == b + longer[|b|..];
    assert StableOn(p, b, longer[|b|..]);
  }

  lemma Bounds<R>(p: Parser<R>, b: seq<byte>)
    requires Lawful(p)
    ensures p(b).Done? ==> 1 <= p(b).consumed <= |b|
    ensures p(b).NeedSize? ==> 1 <= p(b).more
  {
    assert WithinInput(p, b);
  }
}
