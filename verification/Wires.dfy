/** What the client writes. */
module Wires {
  import opened Wrappers
  import opened Tags

  /** The writing half of a connection, with everything written so far. */
  class Wire {
    var out: string

    constructor ()
      ensures out == ""
    {
      out := "";
    }

    method WriteAll(text: string)
      modifies this
      ensures out == old(out) + text
    {
      out := out + text;
    }
  }

  /** A request: its tag, if it has one, and its text. */
  datatype Request = Request(tag: Option<string>, text: string)

  /** The line that carries a request. */
  function Line(msg: Request): string {
    (if msg.tag.Some? then msg.tag.value + " " else "") + msg.text
  }

  function Lines(msgs: seq<Request>): seq<string> {
    seq(|msgs|, i requires 0 <= i < |msgs| => Line(msgs[i]))
  }

  /** Lines on the wire. */
  function Joined(lines: seq<string>): string {
    if lines == [] then "" else lines[0] + ("\r\n" + Joined(lines[1..]))
  }

  method Encode(wire: Wire, msg: Request)
    modifies wire
    ensures wire.out == old(wire.out) + Joined([Line(msg)])
  {
    if msg.tag.Some? {
      wire.WriteAll(msg.tag.value);
      wire.WriteAll(" ");
    }
    wire.WriteAll(msg.text);
    wire.WriteAll("\r\n");
    assert Joined([Line(msg)]) == Line(msg) + ("\r\n" + Joined([]));
  }

  /** Sends a command under the next tag. */
  method RunCommand(wire: Wire, ids: IdGenerator, command: string) returns (tag: string)
    modifies wire, ids
    ensures ids.next == old(ids.next) + 1 && tag == TagOf(ids.next)
    ensures wire.out == old(wire.out) + Joined([tag + " " + command])
  {
    tag := ids.Next();
    Encode(wire, Request(Some(tag), command));
  }

  method RunCommandUntagged(wire: Wire, command: string)
    modifies wire
    ensures wire.out == old(wire.out) + Joined([command])
  {
    Encode(wire, Request(None, command));
    assert Line(Request(None, command)) == command;
  }

  /** A caller's run of requests, encoded in turn. */
  method EncodeAll(wire: Wire, msgs: seq<Request>)
    modifies wire
    ensures wire.out == old(wire.out) + Joined(Lines(msgs))
  {
    assert Lines(msgs[..0]) == [];
    for i := 0 to |msgs|
      invariant wire.out == old(wire.out) + Joined(Lines(msgs[..i]))
    {
      Encode(wire, msgs[i]);
      OneLineMore(old(wire.out), msgs, i);
    }
    assert msgs[..|msgs|] == msgs;
  }

  lemma OneLineMore(out: string, msgs: seq<Request>, i: nat)
    requires i < |msgs|
    ensures out + Joined(Lines(msgs[..i])) + Joined([Line(msgs[i])]) == out + Joined(Lines(msgs[..i + 1]))
  {
    assert Lines(msgs[..i + 1]) == Lines(msgs[..i]) + [Line(msgs[i])];
    JoinedAppend(Lines(msgs[..i]), [Line(msgs[i])]);
    Associative(out, Joined(Lines(msgs[..i])), Joined([Line(msgs[i])]));
  }

  // ---- Reading the lines back

  /** Splits text at every CRLF; what follows the last is the rest.  `current` is the line begun. */
  function SplitLines(text: string, current: string): (seq<string>, string)
    decreases |text|
  {
    if text == "" then ([], current)
    else if "\r\n" <= text then
      var (lines, rest) := SplitLines(text[2..], "");
      ([current] + lines, rest)
    else SplitLines(text[1..], current + [text[0]])
  }

  predicate HasCrLf(line: string) {
    exists i :: 0 <= i < |line| - 1 && line[i] == '\r' && line[i + 1] == '\n'
  }

  lemma {:induction false} SplitOneLine(line: string, more: string, current: string)
    requires !HasCrLf(line)
    ensures SplitLines(line + ("\r\n" + more), current)
            == ([current + line] + SplitLines(more, "").0, SplitLines(more, "").1)
    decreases |line|
  {
    var text := line + ("\r\n" + more);
    if line == "" {
      assert text == "\r\n" + more && text[2..] == more && current + line == current;
    } else {
      assert !("\r\n" <= text) by {
        if |line| >= 2 {
          assert text[0] == line[0] && text[1] == line[1];
        } else {
          assert text[1] == '\r';
        }
      }
      assert text[1..] == line[1..] + ("\r\n" + more);
      forall i | 0 <= i < |line[1..]| - 1 ensures line[1..][i] != '\r' || line[1..][i + 1] != '\n' {
        assert line[1..][i] == line[i + 1] && line[1..][i + 1] == line[i + 2];
      }
      SplitOneLine(line[1..], more, current + [line[0]]);
      assert current + [line[0]] + line[1..] == current + line;
    }
  }

  /** Each CRLF that is written ends a line, also those inside a line. */
  lemma {:induction false} SplitCounts(text: string, more: string, current: string)
    ensures |SplitLines(text + ("\r\n" + more), current).0| >= 1 + |SplitLines(more, "").0|
    ensures HasCrLf(text) ==> |SplitLines(text + ("\r\n" + more), current).0| >= 2 + |SplitLines(more, "").0|
    decreases |text|
  {
    var all := text + ("\r\n" + more);
    if text == "" {
      assert all[2..] == more;
    } else if |text| > 1 && "\r\n" <= all {
      assert all[2..] == text[2..] + ("\r\n" + more);
      SplitCounts(text[2..], more, "");
    } else {
      assert |text| == 1 ==> all[1] == '\r';
      assert all[1..] == text[1..] + ("\r\n" + more);
      if HasCrLf(text) {
        var i :| 0 <= i < |text| - 1 && text[i] == '\r' && text[i + 1] == '\n';
        assert all[0] == text[0] && all[1] == text[1];
        assert i > 0;
        assert text[1..][i - 1] == '\r' && text[1..][i] == '\n';
      }
      SplitCounts(text[1..], more, current + [text[0]]);
    }
  }

  lemma {:induction false} SplitCountsAll(lines: seq<string>)
    ensures |SplitLines(Joined(lines), "").0| >= |lines|
    ensures (exists i :: 0 <= i < |lines| && HasCrLf(lines[i])) ==> |SplitLines(Joined(lines), "").0| > |lines|
  {
    if lines != [] {
      SplitCounts(lines[0], Joined(lines[1..]), "");
      SplitCountsAll(lines[1..]);
      if i :| 0 <= i < |lines| && HasCrLf(lines[i]) {
        assert i > 0 ==> lines[1..][i - 1] == lines[i];
      }
    }
  }

  /** Lines that are written split back into exactly themselves if and only if none contains a CRLF of
      its own. */
  lemma {:induction false} LinesReadBack(lines: seq<string>)
    ensures SplitLines(Joined(lines), "") == (lines, "") <==> forall i | 0 <= i < |lines| :: !HasCrLf(lines[i])
  {
    SplitCountsAll(lines);
    if forall i | 0 <= i < |lines| :: !HasCrLf(lines[i]) {
      CleanLinesReadBack(lines);
    }
  }

  /** What `EncodeAll` writes for any run of requests splits back into exactly their lines if and only
      if no request makes a line with a CRLF of its own. */
  lemma RequestsReadBack(msgs: seq<Request>)
    ensures SplitLines(Joined(Lines(msgs)), "") == (Lines(msgs), "")
            <==> forall i | 0 <= i < |msgs| :: !HasCrLf(Line(msgs[i]))
  {
    LinesReadBack(Lines(msgs));
    assert forall i | 0 <= i < |msgs| :: Lines(msgs)[i] == Line(msgs[i]);
  }

  lemma {:induction false} CleanLinesReadBack(lines: seq<string>)
    requires forall i | 0 <= i < |lines| :: !HasCrLf(lines[i])
    ensures SplitLines(Joined(lines), "") == (lines, "")
  {
    if lines != [] {
      SplitOneLine(lines[0], Joined(lines[1..]), "");
      CleanLinesReadBack(lines[1..]);
      assert "" + lines[0] == lines[0] && [lines[0]] + lines[1..] == lines;
    }
  }

  lemma {:induction false} JoinedAppend(xs: seq<string>, ys: seq<string>)
    ensures Joined(xs + ys) == Joined(xs) + Joined(ys)
  {
    if xs == [] {
      assert xs + ys == ys;
    } else {
      assert (xs + ys)[1..] == xs[1..] + ys;
      JoinedAppend(xs[1..], ys);
      assert xs[0] + ("\r\n" + (Joined(xs[1..]) + Joined(ys))) == xs[0] + ("\r\n" + Joined(xs[1..])) + Joined(ys);
    }
  }
}
