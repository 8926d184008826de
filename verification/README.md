# async-imap, modelled and proved in Dafny

The project models the core of the `async-imap` client: how bytes from the network become responses,
how responses reach the command they answer, and what the client writes. `dafny verify dfyconfig.toml`
checks all of it.

**Bytes to responses.** `Buffers` and `ImapStreams` are the growable block and the stream around it, with
the fields the program updates in place: the block is taken away for the parser, handed back or replaced,
and `offset` meanwhile describes a block that is not there. `Decoding` says on values what they do, and
`DecodingSteps` and `DecodingRuns` prove what follows for every script of answers the network may give:
any split into reads, with "not ready", errors and ends of file anywhere. The response parser is a
library; it is an arbitrary function that keeps the laws of `Parsing.Lawful`. `LineParser` is one function
that keeps them. `Endings` and `EndingRuns` say when the bytes alone decide how a stream ends, and `Shortcut`
compares two decoders poll by poll: with and without the skipping of attempts to decode, or with the same
bytes cut up differently.

**Responses to commands.** The collectors are loops over a `ResponseStream` object. Where each stops is
`Collect.FirstStop`, what each gathers is a `FlatMap` over what it has passed, and what it forwards goes to
the bounded queue of `Channels`. `ChannelRuns` puts that queue under every interleaving, `LazyCollectors`
treats the streams that may be dropped half-way, and `CollectorFacts`, `LazyFacts`, `MailboxFacts` and
`IdleFacts` say of each what it answers and what it offers, response by response. `Sessions` proves when whole
sessions stay in step although tags repeat after 10 000 commands, some loops also end at statuses, and some
commands are read only in part.

**What is written.** `Tags`, `CommandText` and `Wires` are tags, quoting and framing, each with a reader
that undoes it. `Authentication`, `Idling` and `IdleRuns` are the two conversations that are more than a
command and its answer. `Commands` puts the layers together for LOGIN and SEARCH, and `EndToEnd` shows that
the result of a command does not depend on how the network cuts up the bytes, or on what goes wrong behind
its answer.

Findings on the way, each with the condition under which the code does what one would expect:

- Validation refuses only CR and LF. A NUL or an eight-bit character passes it, though section 9 of
  RFC 3501 does not allow them in quoted strings (`ValidatedReadsBack`, `ValidationAdmitsNul`).
- The ID command checks nothing: its list reads back exactly if no key or value has a CR or LF
  (`IdentificationReadsBack`, `LineFeedIsNotReadBack`).
- A collector finds its own completion exactly if no read fails and no unread one has the same number modulo
  10 000, so dropping 10 000 commands in a row unread breaks the session (`FindsOwnCompletionIff`,
  `TenThousandIsTooMany`).
- A check for OK is also stopped by an unread failure of another command, and finds its own completion
  exactly if, besides, none is unread (`CheckResynchronisesIff`); the selection of a mailbox does exactly if
  neither what is unread nor its own answer has an untagged status that is not OK
  (`SelectionResynchronisesIff`, `ObjectionStopsSelection`). Either otherwise leaves its own completion for the next command, so that one unread failure makes each check report the
  failure of the command before it for as long as commands fail (`FailuresShift`). `SessionStaysInStep` has the
  exact condition for every command of every session.
- A search after dropped commands also returns the ids that those have left unread (`SearchFindsItsAnswer`,
  `StaleIdIsFound`); it returns its own alone exactly if no read fails and those are among its own
  (`SearchFindsOnlyItsAnswerIff`).
- Starting IDLE unwraps the text of a refusal, and so stops the program exactly if the server finds the
  command bad without a text before any error or continuation (`StartPanicsIff`, `BareBadPanics`).
- Collectors that stop by tag report success when the stream ends before their completion. Their success
  means that the completion has been read exactly if there is an error or that completion in the stream at
  all (`SuccessMeansCompletedIff`); half an answer succeeds otherwise (`CutShortSearchSucceeds`,
  `HalfAnAnswerSucceeds`).
- Skipping attempts to decode never changes what is delivered (`ShortcutIsSound`), but may change when and as
  what a stream fails: a size hint that only one of the two decoders meets can be too large
  (`SkippingMayFailFirst`, `EagerMayFailFirst`). It changes nothing at all exactly if the parser is steady:
  while fewer bytes have come than it has asked for, and a block can hold those, it asks for just the rest
  (`ShortcutIsInvisibleIff`).
- How the bytes are cut up never changes what is delivered, but may change which error ends the stream, if any
  (`WaitsOnBytesApart`, `FailsOnBytesTogether`). The bytes alone decide that exactly if the end they call for
  stays the same while fewer of them have come than the parser has asked for (`EndsAlikeIff`); a steady parser
  meets this too (`SteadyHintsHold`), and so does one of lines with literals (`ParseLineIsSteady`).

## Model

| member | source | states |
|---|---|---|
| Parsing.Stable | src/imap_stream.rs:87-110 | a verdict of the parser is final, and a size hint never overshoots: the laws the decoder relies on, for any longer input |
| Decoding.EnsuredIsEnough | src/imap_stream.rs:172-211 | making room fails exactly if more than 512 MiB is required or the block is full at that size; otherwise there is a free byte, room for all that is required, and the block is whole blocks within the limit |
| Decoding.EnsuredIsLeast | src/imap_stream.rs:172-211 | and no more room is made than that: any block of whole 4096-byte units up to 512 MiB that would do is at least as large |
| Decoding.ResetCapacityFits | src/imap_stream.rs:225-245 | although no bound is checked, the new block for the bytes behind a response is within the limit and has free room |
| Decoding.ResetCapacityIsLeast | src/imap_stream.rs:235-241 | and it is the smallest such block |
| Decoding.ReadMovesBytes | src/imap_stream.rs:281-290 | a read moves bytes from the reader to the block and loses none, also when a chunk fits only in part |
| Decoding.RoundShrinks | src/imap_stream.rs:270-305 | a trip round the loop of a poll that does not end it has read something, so polls terminate |
| Buffers.Buffer.constructor | src/imap_stream.rs:138-143 | a new buffer is one block, all free |
| Buffers.Buffer.ExtendUsed | src/imap_stream.rs:155-170 | the bytes written behind the used ones become used; too many mark the whole block |
| Buffers.Buffer.EnsureCapacity | src/imap_stream.rs:172-185 | keeps the data; fails, changing nothing, exactly in the two cases above; otherwise the new size is the required size rounded up, or one more block, or unchanged |
| Buffers.Buffer.Grow | src/imap_stream.rs:187-211 | the new size is the sum rounded up to whole blocks, refused exactly above the limit |
| Buffers.Buffer.TakeBlock | src/imap_stream.rs:213-223 | hands out the very block with its data and leaves a fresh one, while `offset` still describes the old |
| Buffers.Buffer.ResetWithData | src/imap_stream.rs:225-245 | a fresh block holding exactly the data, and the invariant again if that is below the limit |
| Buffers.Buffer.ReturnBlock | src/imap_stream.rs:247-250 | putting the block back restores the invariant |
| Buffers.GrowthIsEnsured | src/imap_stream.rs:174-180 | the increase the code computes always leads to the required size rounded up to a block |
| Buffers.ResetByRemainder | src/imap_stream.rs:236-240 | both rounding branches equal (n / BLOCK_SIZE + 1) * BLOCK_SIZE |
| ImapStreams.ImapStream.constructor | src/imap_stream.rs:33-39 | the initial state, with all books empty |
| ImapStreams.ImapStream.Decode | src/imap_stream.rs:71-123 | one attempt, across taking and returning the block; the books gain exactly the bytes that the parser consumed and the response it found in them, so that every byte supplied is in the frame of a delivered response or still held, in order |
| ImapStreams.ImapStream.Fill | src/imap_stream.rs:272-301 | a read into the free tail adds exactly the bytes read to those held |
| ImapStreams.ImapStream.PollNext | src/imap_stream.rs:265-306 | one poll does what `PollStep` says; with a response the books gain it and the bytes that the one-shot parse takes for it, without one nothing, and then what has been delivered is exactly the one-shot parse of all bytes supplied |
| DecodingSteps.AttemptIsSound | src/imap_stream.rs:74-123 | an attempt keeps `decode_needs` honest and takes away exactly the bytes of the response it delivers |
| DecodingSteps.PollAdvances | src/imap_stream.rs:265-306 | every poll loses, repeats and reorders nothing, delivers only what the bytes ahead begin with, and without a response in hand holds none back |
| DecodingSteps.HintIsHonoured | src/imap_stream.rs:94-98 | when fewer bytes come than a size hint asks for, the poll ends waiting without asking the parser about them, with room for all that were asked for; if those exceed the limit it fails before it reads |
| DecodingSteps.StickyError | src/imap_stream.rs:104-121 | after a parse failure or "too large" every later poll gives the same error, changes nothing and does not read |
| DecodingSteps.EmptyAnswerIsTransparent | src/imap_stream.rs:292-300 | end of file, "not ready" and read errors are reported and change no decoder state; end of file is an error exactly if bytes are held |
| DecodingRuns.PollsFollowOneShot | src/imap_stream.rs:265-306 | after any number of polls what has been delivered is a prefix of the one-shot parse and the rest is ahead |
| DecodingRuns.SettledRunIsOneShot | src/imap_stream.rs:265-306 | a settled run has delivered exactly the one-shot parse of all bytes, and its last report is true of what is left; while size hints hold, the bytes behind the last response alone decide which error it ends with, or none |
| DecodingRuns.RunsSettle | src/imap_stream.rs:265-306 | every run settles after at most as many polls as there are bytes and answers, and one |
| DecodingRuns.ChunkingIndependence | src/imap_stream.rs:265-306 | two runs over the same bytes deliver the same responses however they were split; if one has failed for good neither could deliver more, otherwise both hold the same; while size hints hold both end with the same error, or both without |
| DecodingRuns.SettledRunEnds | src/imap_stream.rs:265-306 | while size hints hold: the run ends with a parse failure exactly if what a block can hold of the remainder cannot be parsed, or else as too large exactly if the remainder fills the largest block or asks for more than it holds |
| Endings.SteadyHintsHold | src/imap_stream.rs:94-98 | steady size hints are such |
| EndingRuns.EndsAlikeIff | src/imap_stream.rs:71-123 | for every lawful parser: any two settled runs over the same bytes end alike exactly if its size hints hold |
| EndingRuns.WaitsOnBytesApart | src/imap_stream.rs:75-79 | a concrete parser and two bytes, one at a time, on which the stream waits |
| EndingRuns.FailsOnBytesTogether | src/imap_stream.rs:75-79 | the same bytes at once, on which it has failed |
| DecodingRuns.OversizedFails | src/imap_stream.rs:196-211 | a remainder as long as the largest block ends every settled run in an error |
| DecodingRuns.EndOfFile | CHANGELOG.md:71-73 | end of file after everything has been read is an error exactly if the one-shot parse leaves bytes over, and the decoder can go on as before |
| DecodingRuns.LeftoversAreAnError | src/imap_stream.rs:292-298 | left-over bytes, be they a failing, an oversized or a truncated response, end every run in an error once the stream ends |
| DecodingRuns.RepackagedBytes | src/imap_stream.rs:265-306 | splitting a chunk and inserting ends of file, errors or "not ready" gives the same bytes |
| DecodingRuns.NeverRefused | src/imap_stream.rs:192-211 | while the bytes ahead begin with a response that a block can hold, no poll fails, whatever hints arose |
| DecodingRuns.OneShotIsWholeParse | src/imap_stream.rs:87-93 | for self-delimiting parsers the one-shot parse is the plain parse of the whole string up to the first response longer than the limit |
| DecodingRuns.SizeThreshold | src/imap_stream.rs:135-136 | exact threshold: a response of at most 512 MiB is delivered, a longer one ends the run as too large |
| DecodingRuns.FramesComeOut | src/imap_stream.rs:265-306 | a stream made of complete responses comes out as exactly those |
| Shortcut.PollIsExpected | src/imap_stream.rs:265-306 | what a poll reports and leaves depends only on the bytes before the next answer without bytes and on the answers from there on, unless it fails for good |
| Shortcut.RunsDeliverAlike | src/imap_stream.rs:265-306 | two runs with the same to go by, however the bytes are cut up and however often the parser is called, deliver the same |
| Shortcut.RunsAgree | src/imap_stream.rs:265-306 | and they report the same, poll by poll, up to the first final error of either |
| Shortcut.ShortcutIsSound | src/imap_stream.rs:75-79 | with and without skipping attempts the same is delivered, and the reports agree until without it an error is final or with it the data is too large |
| Shortcut.AttemptsAgreeIff | src/imap_stream.rs:75-79 | a skipped attempt would have come to the same exactly if the parser would have asked for just the rest |
| Shortcut.ShortcutIsInvisible | src/imap_stream.rs:75-79 | while hints that a block can hold are steady, runs with and without the shortcut are the same in every report, read and state |
| Shortcut.ShortcutIsInvisibleIff | src/imap_stream.rs:75-79 | for every lawful parser: all such runs are the same exactly if those hints are steady |
| Shortcut.SkippingMayFailFirst | src/imap_stream.rs:94-98 | a concrete parser and script where only the decoder that skips finds the data too large |
| Shortcut.EagerMayFailFirst | src/imap_stream.rs:94-98 | and another where only the one that does not skip does |
| LineParser.ParseLineIsLawful | src/imap_stream.rs:87-110 | the laws are inhabited: a parser of lines with literals keeps them all |
| LineParser.ParseLineIsSteady | src/imap_stream.rs:94-98 | in a literal it asks for just the rest of it |
| LineParser.LinesEnd | src/imap_stream.rs:265-306 | over lines, the exact condition on the bytes for each of the two final errors, however they are cut up |
| LineParser.LinesNeedNoAttempts | src/imap_stream.rs:75-79 | over lines the shortcut changes nothing |
| LineParser.ParseRendered | src/imap_stream.rs:87-93 | parsing undoes rendering of any well-formed message, and leaves whatever follows |
| LineParser.MessagesComeOut | src/imap_stream.rs:265-306 | end to end: messages sent one after the other come out as sent, however the network cuts them up |
| Channels.HandleUnilateral | src/parse.rs:431-477 | adds the response in its unsolicited form if the queue is not full, and never waits |
| Channels.OfferedIsSeen | src/parse.rs:437-477 | what a receiver sees: EXISTS, RECENT, EXPUNGE and STATUS arrive under their own names and with their own values, and exactly the other responses as they are; a queue of 100 takes nothing |
| ChannelRuns.RunIsOrderly | src/parse.rs:433-477 | under every interleaving with receivers: the bound of 100 holds, a send after a passed check never waits, order is kept, and offered = received + queued + on its way + dropped |
| ChannelRuns.DropsNeedAFullQueue | src/parse.rs:437-440 | as many elements are dropped as checks of an element found the queue full, under every interleaving |
| ChannelRuns.OffersFillTheQueue | src/client.rs:312-319 | without receivers in between, offering is exactly what the collectors' contracts say |
| Collectors.NextOfCommand | src/parse.rs:44-63 | the next item, unless it is the completion with this tag, which is read and dropped; errors pass |
| Collectors.ParseNoop | src/parse.rs:224-239 | reads through its completion, offers everything before it, in order |
| Collectors.ParseIds | src/parse.rs:369-395 | the set of all ids in the SEARCH responses before the completion; the rest is offered |
| Collectors.ParseCapabilities | src/parse.rs:196-222 | the set of all capabilities before the completion; the rest is offered |
| Collectors.ParseMetadata | src/parse.rs:397-429 | the values for this mailbox, concatenated; others are offered |
| Collectors.ParseId | src/extensions/id.rs:38-65 | the last ID response, which may be NIL; the rest is offered |
| Collectors.ParseGetQuota | src/extensions/quota.rs:18-44 | the last quota, or an error if there is none; the rest is offered |
| Collectors.ParseGetQuotaRoot | src/extensions/quota.rs:46-74 | all roots and all quotas in order; the rest is offered |
| Collectors.CheckDoneOkFrom | src/client.rs:1404-1435 | stops at the first error, failed completion or matching completion, reports that, and offers everything passed over exactly once if there is a queue |
| Collectors.CheckDoneOk | src/client.rs:1392-1402 | the same with the first response still to be read |
| CollectorFacts.LaterItemsDoNotMatter | src/parse.rs:203-207 | a loop that has stopped does not depend on what is sent afterwards, and leaves it |
| CollectorFacts.SuccessMeansCompletedIff | src/parse.rs:203-221 | the success of a collector that stops by tag means that its completion has been read exactly if an error or that completion is in the stream |
| CollectorFacts.CollectorFailsIff | src/parse.rs:203-208 | a collector reports a failed read exactly if one comes before its completion, and the first of them |
| CollectorFacts.SearchGathers | src/parse.rs:376-394 | an id is in the result of a search exactly if a SEARCH response before its completion has it |
| CollectorFacts.CapabilitiesGather | src/parse.rs:203-221 | a capability is found exactly if a CAPABILITY response before the completion has it |
| CollectorFacts.OthersAreOffered | src/parse.rs:383-391 | every other response that these two read, and no other, is offered |
| CollectorFacts.EverythingIsOffered | src/parse.rs:224-239 | NOOP and the checks offer all they pass over, in order |
| CollectorFacts.MetadataGathers | src/parse.rs:412-418 | the values for the named mailbox count in their place, and are not offered |
| CollectorFacts.MetadataOffers | src/parse.rs:420-425 | any other response counts for nothing, and is offered in its place |
| CollectorFacts.IdGathers | src/extensions/id.rs:51-58 | the last ID response counts, also if it is NIL; without one there is none |
| CollectorFacts.IdOffers | src/extensions/id.rs:59-61 | exactly the other responses are offered |
| CollectorFacts.QuotaGathers | src/extensions/quota.rs:30-43 | the last quota counts, and without one the command fails; a failed read comes first |
| CollectorFacts.QuotaRootGathers | src/extensions/quota.rs:58-70 | roots and quotas each count in their place; exactly the other responses are offered |
| CollectorFacts.CheckSucceedsIff | src/client.rs:1404-1462 | a check succeeds exactly if a matching OK completion comes before any error and any failed completion of any tag |
| CollectorFacts.CheckReportsFirstFailure | src/client.rs:1437-1462 | otherwise it reports whichever failure comes first: a NO, a BAD, another status, a failed read or the end, each as its own error |
| CollectorFacts.SearchIgnoresGrouping | src/parse.rs:383-387 | the search result depends only on which ids are mentioned |
| CollectorFacts.SearchIgnoresOrder | src/parse.rs:383-387 | in particular not on the order of the SEARCH responses |
| CollectorFacts.SearchIgnoresSplitting | src/parse.rs:383-387 | nor on how ids are split between them |
| Mailboxes.TakeIn | src/parse.rs:286-363 | one response updates exactly the field it announces, and is offered, or ignored, or neither |
| Mailboxes.ParseMailbox | src/parse.rs:241-367 | each number is the last announced, each flag list the concatenation; the status that ends the loop decides the result; the rest is offered |
| MailboxFacts.SelectionSucceedsIff | src/parse.rs:248-366 | a selection succeeds exactly if its own OK completion comes before any failed read and any untagged status that is not OK, or if the stream ends before all of these |
| MailboxFacts.SelectionDecides | src/parse.rs:259-338 | otherwise the first of these decides: NO, BAD, another status or a failed read each give their own error, with code and text |
| MailboxFacts.RefusedSelectionFails | src/parse.rs:269-274 | a concrete refusal |
| MailboxFacts.SelectionAnnounces | src/parse.rs:246-246 | the mailbox of a success is what was announced, beginning with the default |
| MailboxFacts.AnnouncesOneMore | src/parse.rs:296-352 | each response replaces the number, or adds the flags, that it announces, and nothing else |
| MailboxFacts.SelectionOffers | src/parse.rs:339-363 | STATUS and whatever is neither mailbox data nor an untagged status is offered in its place, and nothing else |
| Mailboxes.ParseStatus | src/parse.rs:94-166 | the last value of each attribute for this mailbox; the completion's status decides; the rest is offered |
| MailboxFacts.StatusSucceedsIff | src/parse.rs:102-165 | STATUS succeeds exactly if its own OK completion comes before any failed read, or the stream ends before both |
| MailboxFacts.StatusDecides | src/parse.rs:105-140 | otherwise its completion or the failed read gives the error |
| MailboxFacts.DescribesOneMore | src/parse.rs:143-157 | each attribute replaces its own number |
| MailboxFacts.StatusGathers | src/parse.rs:140-162 | exactly the attributes for the named mailbox count; every other response is offered in its place |
| Mailboxes.Enter | src/parse.rs:143-157 | entering the attributes of one response continues the description of those before |
| Mailboxes.SwapAnnouncements | src/parse.rs:286-359 | neighbouring responses that write different fields may change places anywhere without changing what the selection returns |
| LazyCollectors.LazyCollector.TakeWhileNext | src/parse.rs:20-21 | yields the stream up to the completion, and takes nothing more once that has been seen |
| LazyCollectors.LazyCollector.Next | src/parse.rs:65-92 | one poll: the next relevant response or error; what it passes over is offered |
| LazyCollectors.LazyAgrees | src/parse.rs:13-42 | k polls yield the first k relevant responses and errors before the completion, leaving the stream directly behind the k-th; more polls read through the completion once and then nothing |
| LazyFacts.YieldedIff | src/parse.rs:13-42 | polled to the end: LIST yields exactly the LIST responses before its completion, FETCH the FETCH responses and EXPUNGE the expunges, and each every failed read there |
| LazyFacts.PassedIff | src/parse.rs:27-35 | exactly the other responses there are offered |
| LazyFacts.FirstName | src/parse.rs:27-35 | one poll of LIST stops directly behind the first LIST response, and has offered all before it in order |
| LazyCollectors.EagerStopsAlike | src/parse.rs:44-63 | without errors an eager collector stops exactly where a lazy one is exhausted |
| Tags.IdGenerator.Next | src/types/id_generator.rs:25-28 | counts on and returns the tag of the new number |
| Tags.TagShape | src/types/id_generator.rs:27 | a tag is `A` and exactly four digits |
| Tags.TagReadsBack | src/types/id_generator.rs:25-28 | its digits read as the number of the command modulo 10 000 |
| Tags.TagsAgree | src/types/id_generator.rs:25-28 | two tags are equal exactly if the numbers agree modulo 10 000 |
| Tags.TagWindow | src/types/id_generator.rs:25-28 | any 10 000 commands in a row have different tags |
| Sessions.FindsOwnCompletionIff | src/parse.rs:52-63 | a collector stops at its own completion exactly if there is no error before it and no unread completion has a number equal to its own modulo 10 000 |
| Sessions.StopsAtOwnIff | src/client.rs:1371-1378 | if all that is unread belongs to the previous 9 999 commands, a command of any of the three kinds reads exactly through its own completion and leaves the rest exactly if no error, and no status that would end it, comes before |
| Sessions.Resynchronises | src/parse.rs:203-221 | for a collector: exactly if no read before it fails |
| Sessions.UnreadIsOwned | src/parse.rs:65-92 | in every session, what is unread belongs to the last commands in a row that have left something unread |
| Sessions.SessionStaysInStep | src/client.rs:1371-1378 | in every session in which no more than 9 999 commands in a row have left something unread, the next that is read to its end, by tag, as a check or as a selection, stops at its own completion and leaves nothing exactly if no failed read and no status in what is unread or in its answer ends its loop earlier |
| Sessions.OrderlySession | src/client.rs:1371-1378 | by what caller, server and network do: if at most 9 999 commands in a row are dropped, and neither what is dropped before a command read to its end nor its own answer has an error or a status that would end it, that command stops at its own completion and leaves nothing |
| Sessions.DroppedReadsOn | src/parse.rs:65-92 | a lazy stream polled any number of times leaves a final part of what was there |
| Sessions.IdleReadsOn | src/extensions/idle.rs:132-231 | so does a run of IDLE with any waits |
| Sessions.IdleLeavesNothing | src/extensions/idle.rs:217-231 | and one that goes well among at most 9 999 commands' unread responses leaves nothing |
| Sessions.FailuresShift | src/client.rs:1404-1435 | after one unread failure every check stops at the failure of the command before it and leaves its own answer, for as long as the commands fail |
| Sessions.TenThousandIsTooMany | src/types/id_generator.rs:27 | the bound is sharp: after 10 000 commands dropped unread the next stops too early |
| Sessions.UnpolledIsUntouched | src/parse.rs:65-92 | a lazy stream dropped without a poll leaves everything unread |
| Sessions.CheckResynchronisesIff | src/client.rs:1411-1423 | a check finds its own completion among unread ones exactly if none of those failed, and no read before it |
| Sessions.SelectionResynchronisesIff | src/parse.rs:241-367 | a selection finds its own completion exactly if neither what is unread nor its own answer has an untagged status that is not OK, or a failed read |
| Sessions.ObjectionStopsSelection | src/parse.rs:286-338 | a concrete answer that stops a selection and leaves its completion unread |
| CommandText.TwoPassesAreOne | src/client.rs:25-29 | replacing backslashes and then quotes is escaping each special character once |
| CommandText.QuoteAdds | src/client.rs:25-29 | quoting adds a quote at either end and a backslash before a quote or backslash within |
| CommandText.ValidatedByContent | src/client.rs:1465-1474 | a string is refused exactly for its own LF, or else CR |
| CommandText.QuoteReadsBack | src/client.rs:25-29 | a reader of quoted strings recovers the string, whatever follows, exactly if its characters may stand in one |
| CommandText.ValidatedReadsBack | src/client.rs:1465-1474 | every validated string is recovered; by a strict reader exactly if it is seven-bit without NUL |
| CommandText.ValidationAdmitsNul | src/client.rs:1465-1474 | a concrete string that is validated though the standard does not allow it |
| CommandText.PairReadsBack | src/extensions/id.rs:27-33 | a key and its value, or NIL, are read back exactly if their characters may stand in quoted strings |
| CommandText.IdentificationReadsBack | src/extensions/id.rs:23-36 | so is every identification list |
| CommandText.LineFeedIsNotReadBack | src/extensions/id.rs:23-36 | a concrete list with a line feed that is not |
| Wires.Encode | src/imap_stream.rs:41-56 | a request becomes one line: tag and space if there is a tag, text, CRLF |
| Wires.RunCommand | src/client.rs:1371-1378 | sends the command under the next tag and returns that |
| Wires.RunCommandUntagged | src/client.rs:1363-1369 | sends the text as a line of its own |
| Wires.LinesReadBack | src/imap_stream.rs:41-56 | lines, each ended with a CRLF, split back into exactly these lines if and only if none has a CRLF of its own |
| Wires.EncodeAll | src/imap_stream.rs:41-56 | a run of requests, encoded in turn, writes exactly their lines, in order |
| Wires.RequestsReadBack | src/imap_stream.rs:41-56 | and what it writes splits back into exactly these lines if and only if no request has a CRLF in its line |
| Authentication.DoAuthHandshake | src/client.rs:254-301 | writes exactly one answer per challenge in the leading run of decodable continuations and nothing afterwards; a session, with an empty queue, exactly after a good outcome |
| Authentication.AuthenticatesIff | src/client.rs:264-298 | success exactly if no undecodable continuation follows the challenges and a matching OK completion comes before any failure |
| Authentication.AnswersReadBack | src/client.rs:280-287 | the lines written decode to the authenticator's answers, in order |
| Authentication.ServerReadsAnswers | src/client.rs:264-287 | from the server's side: to the challenges it has sent, encoded or empty, it reads the authenticator's answers, one line each, in order |
| Authentication.HandshakeDecides | src/client.rs:264-298 | what the server's next answer makes of it: a session, or the error with its code and text |
| Idling.Handle.Start | src/extensions/idle.rs:181-215 | writes the tagged IDLE and reads through the continuation, the refusal or an error; everything before it is offered |
| Idling.StartPanicsIff | src/extensions/idle.rs:197-204 | starting stops the program exactly if the first error, continuation or refusal is a refusal without text |
| Idling.BareBadPanics | src/extensions/idle.rs:197-204 | a concrete stream with which it does |
| IdleFacts.StartDecides | src/extensions/idle.rs:181-215 | starting succeeds at the first continuation, or fails with the text of the refusal, the failed read, or the end before it |
| IdleFacts.StartOffers | src/extensions/idle.rs:206-211 | all responses before that are offered, in order |
| Idling.Handle.WaitWithTimeout | src/extensions/idle.rs:132-179 | stops at news, error, end, timeout or interrupt; skips keepalives and continuations, offers completions |
| IdleFacts.TimesOutIff | src/extensions/idle.rs:152-154 | a wait times out exactly if it has seen as many responses as it had time for, none of them news, and was not interrupted |
| IdleFacts.ComesBackIff | src/extensions/idle.rs:156-158 | it returns without news exactly if it has seen none and was interrupted or the stream ended |
| IdleFacts.BringsNewsIff | src/extensions/idle.rs:160-175 | it returns a response exactly if that is the first item other than an untagged OK, a continuation or a completion, and comes in time; it leaves what is behind |
| IdleFacts.WaitFailsIff | src/extensions/idle.rs:160-160 | it fails exactly if that item is a failed read |
| IdleFacts.WaitOffersIff | src/extensions/idle.rs:170-172 | exactly the completions that it passes over are offered |
| IdleFacts.SilentWaits | src/extensions/idle.rs:152-158 | a silent stream: a timeout is a timeout, an interrupt an interrupt |
| Idling.Handle.Finished | src/extensions/idle.rs:217-231 | writes DONE and checks for the completion of IDLE |
| IdleRuns.BracketAccounts | src/extensions/idle.rs:132-231 | every response of a run is accounted for once and in order; a good run has one continuation awaited, exactly the news its waits returned, and ends with its own good completion |
| IdleRuns.Idle | src/extensions/idle.rs:132-231 | a caller's run does that, and if it goes well writes exactly the tagged IDLE and DONE |
| Commands.Login | src/client.rs:181-195 | invalid strings write nothing; otherwise one LOGIN line, and a session exactly after a good completion |
| Commands.LoginReadsBack | src/client.rs:186-192 | the server reads one line: the tag, LOGIN, the user name and then the password |
| Commands.Search | src/client.rs:1191-1203 | sends the search and gathers its result |
| EndToEnd.ItemsOfRun | src/imap_stream.rs:262-306 | for every script, the responses in the stream that a command reads are, in order, what the one-shot parse begins with, and all of it in a settled run without an end of file |
| EndToEnd.TroubleComesLater | src/imap_stream.rs:265-306 | while a response has arrived before the first read error or end of file, a poll delivers it or waits |
| EndToEnd.CommandIgnoresChunking | src/imap_stream.rs:262-306 | for every loop and every gathering function: if what ends the loop arrives before anything goes wrong, every settled run stops it there and gathers what the one-shot parse has before it |
| EndToEnd.CommandsIgnoreChunking | src/imap_stream.rs:262-306 | commands read one after the other, each from where the one before it has stopped, split the one-shot parse between them, however the bytes are cut up |
| EndToEnd.SearchIgnoresChunking | src/parse.rs:369-395 | in particular the result of a search, from bytes to the set of ids |
| Commands.SearchFindsItsAnswer | src/client.rs:1191-1203 | the result is all ids in its answer and in what the previous 9 999 commands have left unread, or an error exactly if a read fails before |
| Commands.SearchFindsOnlyItsAnswerIff | src/client.rs:1191-1203 | that is its answer alone exactly if no read fails and the ids left unread are all in it |
| Commands.StaleIdIsFound | src/client.rs:1191-1203 | a concrete search that also finds what the one before it has left |
| Commands.CutShortSearchSucceeds | src/parse.rs:369-395 | a search whose stream ends before its completion succeeds with what has come |
| Commands.HalfAnAnswerSucceeds | src/parse.rs:369-395 | a concrete stream without a completion |

## Left out

- The response grammar of `imap_proto`: the parser is any function that keeps the stated laws; `LineParser` only finds where responses end.
- Raw blocks inside responses: a response is a value; that it borrows the block it was parsed from is not modelled.
- Sockets, TLS, runtimes, wakers and pinning: a read is one answer of a script, a poll is a method call; writes always succeed and are accepted whole.
- Flushing and write errors: a failing write would end a command early with an I/O error.
- UTF-8: what is written is a sequence of characters, what is read a sequence of bytes.
- Base 64: any pair of functions that undo each other; an authenticator is any function of the challenges so far.
- Real time: a wait is cut off after some number of responses, by its timeout or by an interrupt, and every number is considered.
- Error texts: errors carry the code and the information they are formatted from.
- Conversions of `Name`, `Fetch`, `Quota`, `Flag` and `Capability`: collected values are kept as the server sends them.
- APPEND, and the other commands of a session: they only format a string and call a collector modelled here.
- Closed queues: a queue whose receivers have all gone makes the program stop; here it stays open.
- 64-bit overflow of sizes and of the command counter: natural numbers are used.
- SessionStaysInStep: a session is one in which the server answers every command with its completion.
