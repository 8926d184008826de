/** Strings inside commands: quoting, and the identification list of the ID command, against a reader
    of quoted strings as section 9 of RFC 3501 defines them. */
module CommandText {
  import opened Wrappers
  import opened Responses

  // ---- Quoting

  /** Every `c` replaced. */
  function Replace(s: string, c: char, with: string): string {
    if s == "" then "" else (if s[0] == c then with else [s[0]]) + Replace(s[1..], c, with)
  }

  /** Two passes: first the backslashes, then the quotes. */
  function Escape(s: string): string {
    Replace(Replace(s, '\\', "\\\\"), '"', "\\\"")
  }

  function Quote(s: string): string {
    "\"" + Escape(s) + "\""
  }

  /** One pass: a backslash before every special character. */
  function EscapeEach(s: string): string {
    if s == "" then ""
    else (if s[0] == '\\' || s[0] == '"' then ['\\', s[0]] else [s[0]]) + EscapeEach(s[1..])
  }

  lemma {:induction false} ReplaceAppend(x: string, y: string, c: char, with: string)
    ensures Replace(x + y, c, with) == Replace(x, c, with) + Replace(y, c, with)
  {
    if x == "" {
      assert x + y == y;
    } else {
      assert (x + y)[1..] == x[1..] + y;
      ReplaceAppend(x[1..], y, c, with);
    }
  }

  /** The second pass does not disturb the backslashes that the first has added. */
  lemma {:induction false} TwoPassesAreOne(s: string)
    ensures Escape(s) == EscapeEach(s)
  {
    if s != "" {
      var first := if s[0] == '\\' then "\\\\" else [s[0]];
      var rest := Replace(s[1..], '\\', "\\\\");
      ReplaceAppend(first, rest, '"', "\\\"");
      TwoPassesAreOne(s[1..]);
      if s[0] == '\\' {
        assert first[1..] == "\\" && first[1..][1..] == "";
        assert Replace(first, '"', "\\\"") == "\\" + ("\\" + "");
      } else {
        assert first[1..] == "";
        assert Replace(first, '"', "\\\"") == (if s[0] == '"' then "\\\"" else [s[0]]) + "";
      }
    }
  }

  lemma EscapeAppend(x: string, y: string)
    ensures Escape(x + y) == Escape(x) + Escape(y)
  {
    ReplaceAppend(x, y, '\\', "\\\\");
    ReplaceAppend(Replace(x, '\\', "\\\\"), Replace(y, '\\', "\\\\"), '"', "\\\"");
  }

  predicate PlainText(s: string) {
    '\\' !in s && '"' !in s
  }

  lemma {:induction false} PlainIsKept(s: string)
    requires PlainText(s)
    ensures Escape(s) == s
  {
    TwoPassesAreOne(s);
    if s != "" {
      TwoPassesAreOne(s[1..]);
      PlainIsKept(s[1..]);
      assert s == [s[0]] + s[1..];
    }
  }

  lemma SpecialsAreEscaped()
    ensures Escape("\\") == "\\\\" && Escape("\"") == "\\\""
  {
    TwoPassesAreOne("\\");
    TwoPassesAreOne("\"");
  }

  lemma EscapeAround(x: string, c: string, y: string)
    requires PlainText(x) && PlainText(y)
    ensures Escape(x + c + y) == x + Escape(c) + y
  {
    PlainIsKept(x);
    PlainIsKept(y);
    EscapeAppend(x + c, y);
    EscapeAppend(x, c);
  }

  /** Quoting adds a quote at either end, and a backslash before a quote or a backslash within. */
  lemma QuoteAdds(x: string, y: string)
    requires PlainText(x) && PlainText(y)
    ensures Quote(x) == "\"" + x + "\""
    ensures Quote(x + "\\" + y) == "\"" + (x + "\\\\" + y) + "\""
    ensures Quote(x + "\"" + y) == "\"" + (x + "\\\"" + y) + "\""
  {
    PlainIsKept(x);
    SpecialsAreEscaped();
    EscapeAround(x, "\\", y);
    EscapeAround(x, "\"", y);
  }

  function ValidateStr(value: string): Result<string, Error> {
    if '\n' in Quote(value) then Failure(Validate('\n'))
    else if '\r' in Quote(value) then Failure(Validate('\r'))
    else Success(Quote(value))
  }

  lemma {:induction false} EscapeKeeps(s: string, c: char)
    requires c != '\\' && c != '"'
    ensures c in EscapeEach(s) <==> c in s
  {
    if s != "" {
      EscapeKeeps(s[1..], c);
      assert s == [s[0]] + s[1..];
    }
  }

  /** A string is refused exactly for a line feed, or else a carriage return, of its own. */
  lemma ValidatedByContent(value: string)
    ensures ValidateStr(value) ==
              if '\n' in value then Failure(Validate('\n'))
              else if '\r' in value then Failure(Validate('\r'))
              else Success(Quote(value))
  {
    TwoPassesAreOne(value);
    EscapeKeeps(value, '\n');
    EscapeKeeps(value, '\r');
  }

  // ---- Reading quoted strings

  /** What may stand in a quoted string: no CR or LF, and in the letter of the standard only characters
      of seven bits other than NUL. */
  predicate TextChar(c: char, sevenBit: bool) {
    c != '\r' && c != '\n' && (sevenBit ==> 0 < c as int < 128)
  }

  predicate AllText(s: string, sevenBit: bool) {
    forall i | 0 <= i < |s| :: TextChar(s[i], sevenBit)
  }

  /** The contents of a quoted string up to its closing quote, and what follows. */
  function ReadRest(s: string, sevenBit: bool): (r: Option<(string, string)>)
    ensures r.Some? ==> |r.value.1| < |s|
    decreases |s|
  {
    if s == "" || !TextChar(s[0], sevenBit) then None
    else if s[0] == '"' then Some(("", s[1..]))
    else if s[0] != '\\' then Prepend(s[0], ReadRest(s[1..], sevenBit))
    else if |s| >= 2 && (s[1] == '\\' || s[1] == '"') then Prepend(s[1], ReadRest(s[2..], sevenBit))
    else None
  }

  function Prepend(c: char, r: Option<(string, string)>): Option<(string, string)> {
    match r
    case None => None
    case Some((value, rest)) => Some(([c] + value, rest))
  }

  /** A quoted string at the start of `s`: its value, and what follows. */
  function ReadQuoted(s: string, sevenBit: bool): (r: Option<(string, string)>)
    ensures r.Some? ==> |r.value.1| < |s|
  {
    if s == "" || s[0] != '"' then None else ReadRest(s[1..], sevenBit)
  }

  lemma {:induction false} ReadEscaped(v: string, rest: string, sevenBit: bool)
    ensures ReadRest(EscapeEach(v) + ("\"" + rest), sevenBit) ==
              if AllText(v, sevenBit) then Some((v, rest)) else None
    decreases |v|
  {
    var s := EscapeEach(v) + ("\"" + rest);
    if v == "" {
      assert s == "\"" + rest && s[1..] == rest;
    } else {
      ReadEscaped(v[1..], rest, sevenBit);
      var more := EscapeEach(v[1..]) + ("\"" + rest);
      assert v == [v[0]] + v[1..];
      assert AllText(v, sevenBit) <==> TextChar(v[0], sevenBit) && AllText(v[1..], sevenBit) by {
        if AllText(v, sevenBit) {
          forall i | 0 <= i < |v[1..]| ensures TextChar(v[1..][i], sevenBit) {
            assert v[1..][i] == v[i + 1];
          }
        }
      }
      if v[0] == '\\' || v[0] == '"' {
        assert s == ['\\', v[0]] + more && s[2..] == more;
      } else {
        assert s == [v[0]] + more && s[1..] == more;
      }
    }
  }

  /** The reader recovers a quoted string, whatever follows it, exactly if all its characters may
      stand in one. */
  lemma QuoteReadsBack(v: string, rest: string, sevenBit: bool)
    ensures ReadQuoted(Quote(v) + rest, sevenBit) == if AllText(v, sevenBit) then Some((v, rest)) else None
  {
    TwoPassesAreOne(v);
    ReadEscaped(v, rest, sevenBit);
    assert (Quote(v) + rest)[1..] == EscapeEach(v) + ("\"" + rest);
  }

  /** Every validated string is recovered by a reader that refuses only CR and LF.  A reader that keeps
      to seven bits recovers it exactly if it has no other character. */
  lemma ValidatedReadsBack(v: string, rest: string)
    requires ValidateStr(v).Success?
    ensures ReadQuoted(ValidateStr(v).value + rest, false) == Some((v, rest))
    ensures ReadQuoted(ValidateStr(v).value + rest, true) == Some((v, rest)) <==> AllText(v, true)
  {
    ValidatedByContent(v);
    QuoteReadsBack(v, rest, false);
    QuoteReadsBack(v, rest, true);
  }

  /** Validation does let through strings that the standard does not allow in quotes. */
  lemma ValidationAdmitsNul()
    ensures ValidateStr("\0").Success? && ReadQuoted(ValidateStr("\0").value, true).None?
  {
    ValidatedByContent("\0");
    QuoteReadsBack("\0", "", true);
    assert Quote("\0") + "" == Quote("\0");
    assert !TextChar("\0"[0], true);
  }

  // ---- The ID command

  type Pair = (string, Option<string>)

  function FormatPair(pair: Pair): string {
    Quote(pair.0) + (" " + if pair.1.Some? then Quote(pair.1.value) else "NIL")
  }

  function Join(parts: seq<string>): string {
    if parts == [] then ""
    else if |parts| == 1 then parts[0]
    else parts[0] + (" " + Join(parts[1..]))
  }

  function Formatted(id: seq<Pair>): seq<string> {
    seq(|id|, i requires 0 <= i < |id| => FormatPair(id[i]))
  }

  function FormatIdentification(id: seq<Pair>): string {
    Join(Formatted(id))
  }

  predicate PairText(pair: Pair, sevenBit: bool) {
    AllText(pair.0, sevenBit) && (pair.1.Some? ==> AllText(pair.1.value, sevenBit))
  }

  /** A quoted string, a space, and NIL or another quoted string. */
  function ReadPair(s: string, sevenBit: bool): (r: Option<(Pair, string)>)
    ensures r.Some? ==> |r.value.1| < |s|
  {
    match ReadQuoted(s, sevenBit)
    case None => None
    case Some((key, rest)) =>
      if rest == "" || rest[0] != ' ' then None
      else if "NIL" <= rest[1..] then Some(((key, None), rest[4..]))
      else
        match ReadQuoted(rest[1..], sevenBit)
        case None => None
        case Some((value, rest')) => Some(((key, Some(value)), rest'))
  }

  function ReadPairs(s: string, sevenBit: bool): Option<seq<Pair>>
    decreases |s|
  {
    match ReadPair(s, sevenBit)
    case None => None
    case Some((pair, rest)) =>
      if rest == "" then Some([pair])
      else if rest[0] != ' ' then None
      else
        match ReadPairs(rest[1..], sevenBit)
        case None => None
        case Some(pairs) => Some([pair] + pairs)
  }

  function ReadIdentification(s: string, sevenBit: bool): Option<seq<Pair>> {
    if s == "" then Some([]) else ReadPairs(s, sevenBit)
  }

  lemma PairReadsBack(pair: Pair, rest: string, sevenBit: bool)
    ensures ReadPair(FormatPair(pair) + rest, sevenBit) ==
              if PairText(pair, sevenBit) then Some((pair, rest)) else None
  {
    var (key, value) := pair;
    var text := if value.Some? then Quote(value.value) else "NIL";
    QuoteReadsBack(key, " " + (text + rest), sevenBit);
    assert FormatPair(pair) + rest == Quote(key) + (" " + (text + rest));
    var after := " " + (text + rest);
    assert after[1..] == text + rest;
    if value.Some? {
      QuoteReadsBack(value.value, rest, sevenBit);
      assert (text + rest)[0] == '"';
    } else {
      assert after[4..] == rest;
    }
  }

  ghost predicate AllPairText(id: seq<Pair>, sevenBit: bool) {
    forall i | 0 <= i < |id| :: PairText(id[i], sevenBit)
  }

  lemma AllPairTextCons(pair: Pair, more: seq<Pair>, sevenBit: bool)
    ensures AllPairText([pair] + more, sevenBit) <==> PairText(pair, sevenBit) && AllPairText(more, sevenBit)
  {
    var id := [pair] + more;
    assert id[0] == pair;
    assert forall i | 0 <= i < |more| :: more[i] == id[i + 1];
  }

  lemma {:induction false} PairsReadBack(id: seq<Pair>, sevenBit: bool)
    requires id != []
    ensures ReadPairs(Join(Formatted(id)), sevenBit) == if AllPairText(id, sevenBit) then Some(id) else None
    decreases |id|
  {
    var more := id[1..];
    assert id == [id[0]] + more;
    AllPairTextCons(id[0], more, sevenBit);
    if more == [] {
      PairReadsBack(id[0], "", sevenBit);
      assert Formatted(id) == [FormatPair(id[0])] && FormatPair(id[0]) + "" == FormatPair(id[0]);
      assert id == [id[0]];
    } else {
      PairsReadBack(more, sevenBit);
      PairThenMore(id[0], more, sevenBit);
    }
  }

  lemma PairThenMore(pair: Pair, more: seq<Pair>, sevenBit: bool)
    requires more != []
    ensures ReadPairs(Join(Formatted([pair] + more)), sevenBit) ==
              if !PairText(pair, sevenBit) || ReadPairs(Join(Formatted(more)), sevenBit).None? then None
              else Some([pair] + ReadPairs(Join(Formatted(more)), sevenBit).value)
  {
    var rest := Join(Formatted(more));
    assert Formatted([pair] + more) == [FormatPair(pair)] + Formatted(more);
    assert Join([FormatPair(pair)] + Formatted(more)) == FormatPair(pair) + (" " + rest);
    PairReadsBack(pair, " " + rest, sevenBit);
    assert (" " + rest)[1..] == rest;
  }

  /** The identification list is read back exactly if its keys and values have only characters that may
      stand in quoted strings: the formatting checks none of them. */
  lemma IdentificationReadsBack(id: seq<Pair>, sevenBit: bool)
    ensures ReadIdentification(FormatIdentification(id), sevenBit) == if AllPairText(id, sevenBit) then Some(id) else None
  {
    if id != [] {
      PairsReadBack(id, sevenBit);
      assert Formatted(id)[0] == FormatPair(id[0]);
      assert FormatIdentification(id) != "";
    }
  }

  /** One value with a line feed, and nothing is read back. */
  lemma LineFeedIsNotReadBack()
    ensures ReadIdentification(FormatIdentification([("name", Some("a\nb"))]), false) == None
  {
    var id: seq<Pair> := [("name", Some("a\nb"))];
    IdentificationReadsBack(id, false);
    assert "a\nb"[1] == '\n';
    assert !PairText(id[0], false);
  }
}
