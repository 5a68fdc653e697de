# Verified model of the node's stream layer and its state-changing utilities

A Dafny 4.11 model of the parts of the SubstratumNode repository where bytes, packets, settings and
files are moved about under conditions nobody controls: streams cut anywhere, sockets that accept
part of a write, registries whose writes fail, configuration files edited at offsets. `dafny verify
dfyconfig.toml` checks the whole project.

Methods of classes follow the source's fields and loops; each is proved equal to a function on
values, and the theorems are lemmas about those functions, quantified over every input, every
schedule or every run.

| file | what it models |
|---|---|
| `JsonFramer.dfy` | the one-pass reading of a clandestine stream (`JsonAutomaton`) and the rescanning framer that refines it (`JsonFraming`) |
| `JsonGrammar.dfy` | what a frame is, as a grammar of nested objects and literals |
| `Codecs.dfy` | UTF-8 (section 4 of RFC 3629) and Base64 (section 4 of RFC 4648) |
| `JsonMasquerader.dfy` | JSON text (sections 3 to 7 of RFC 8259) and the masquerader |
| `JsonValues.dfy` | the grammar of JSON values, and that the parser accepts exactly these |
| `JsonWire.dfy` | what masked payloads look like on the wire, in the characters of the standards |
| `Discriminator.dfy` | the discriminator, its drain loop, and the end-to-end law of the codec |
| `StreamWriter.dfy` | the reorder buffer and the sorted writer against a hostile channel and socket |
| `StreamReader.dfy` | the reader over any discriminators: its choice between them, the numbering of inbound chunks, and reader-to-writer order |
| `ClandestineStream.dfy` | the reader over the JSON discriminator, from socket bytes to dispatcher messages |
| `WinDns.dfy` | the Windows DNS transaction with rollback over a registry whose writes may fail |
| `ResolvConf.dfy` | the resolv.conf editor: regular expressions, offsets, in-place edits, subversion |
| `ResolvInspect.dfy` | what the expressions match and where, and inspection |
| `ResolvRevert.dfy` | reverting resolv.conf, and how it undoes a subversion |
| `HttpStart.dfy` | the search for the start of an HTTP request (methods of section 4.1 of RFC 7231, and PATCH of section 2 of RFC 5789) |
| `LayeredConfig.dfy` | command lines, their merging, parsing and printing |
| `BanCache.dfy` | the ban table and its cache, called sequentially and concurrently |
| `WalletConfig.dfy` | the write-once wallet settings |
| `Basics.dfy` | sequences, options and results |

## What the proofs found

For each, a lemma says exactly when the code does what one would expect, and another shows an input
for which it does not.

- A frame that no masquerader understands makes the drain loop stop early: complete frames behind it
  stay undelivered until more data arrives (`Discriminating.DrainEmptiesIff`,
  `Discriminating.DrainStallsBehindBadFrame`).
- The sorted writer reports success when its channel closes even if packets wait behind a missing
  number; they are lost (`OrderedWriting.ReadyMeansWritten`, `OrderedWriting.ReadyDropsPastGap`).
- Whether a read is a CONNECT is judged on the whole 64 KiB buffer, so a short read can be judged by
  what an earlier read of the same poll left behind it (`StreamReading.ConnectJudgedByOwnBytes`,
  `StreamReading.LeftoversMakeAConnect`).
- A failing Windows `subvert` can reset interfaces that an earlier call had subverted, exactly when
  such an interface is followed by one that still has to be subverted (`WinDns.FailsCleanlyIff`,
  `WinDns.FailureResetsSubverted`).
- Reverting resolv.conf takes the first character of every nameserver entry left, also of one that is
  still active, which is thereby lost: the nameservers active afterwards are those that were comments
  (`ResolvRevert.RevertFile`, `ResolvRevert.RevertLosesActive`).
- It takes any address that begins with 127.0.0.1 for the local resolver, and so spoils files that
  were never subverted; and it overlooks a second entry for 127.0.0.1 right below the first
  (`ResolvRevert.RevertOutcome`, `ResolvRevert.RevertLeavesAloneIff`, `ResolvRevert.RevertSpoilsFile`).
- Concurrent bans and unbans can leave the cache and the table different for good, exactly when one
  address is changed by two calls and changed back by a third (`BanCache.AgreementIff`,
  `BanCache.HazardMeansDisagreement`).

## Model

| member | source | states |
|---|---|---|
| `JsonAutomaton.Conservation` | node/src/json_framer.rs:21-138 | every stream splits as g0 f1 g1 … fn gn tail: the f are the frames read, each closing at its first balanced point, no g holds an opening brace, the tail is what is held |
| `JsonAutomaton.ReadsTheSplit` | node/src/json_framer.rs:21-138 | the converse: any such split is the one that is read, so it is unique |
| `JsonAutomaton.TrimmingIsInvisible` | node/src/json_framer.rs:34-43 | trimming the buffer to the possible start changes neither later frames nor any later state |
| `JsonAutomaton.FeedKeepsReachable` | node/src/json_framer.rs:82-138 | one byte keeps the held bytes an unclosed frame, and a frame that ends is a frame |
| `JsonFraming.JsonFramer.AddData` | node/src/json_framer.rs:17-19 | the new bytes follow the buffered ones |
| `JsonFraming.JsonFramer.TakeFrame` | node/src/json_framer.rs:21-47 | the rescan yields the first frame to close and the right remaining buffer; the panic arm is unreachable |
| `JsonFraming.JsonFramer.Reset` | node/src/json_framer.rs:63-70 | the scan state is that of an idle automaton, the buffer untouched |
| `JsonFraming.JsonFramer.CheckDataChunk` | node/src/json_framer.rs:72-80 | hands out exactly the frame that the automaton has just ended |
| `JsonFraming.JsonFramer.UpdateState` | node/src/json_framer.rs:82-95 | the mutable fields keep tracking the automaton over one byte |
| `JsonFraming.JsonFramer.HandleQuotes` | node/src/json_framer.rs:97-116 | each kind of quote toggles only inside a frame and outside the other kind |
| `JsonFraming.JsonFramer.HandleBraces` | node/src/json_framer.rs:118-138 | where frames open, nest, close, and where a stray closing brace is ignored |
| `JsonFraming.TakeReads` | node/src/json_framer.rs:21-47 | one take removes exactly the first frame from what the buffer reads as |
| `JsonFraming.SessionRefinesOnePass` | node/src/json_framer.rs:17-47 | for every interleaving of adds and takes, frames handed out plus frames still buffered are those of one pass over the whole stream |
| `JsonFraming.DrainedSession` | node/src/json_framer.rs:21-47 | after a take that finds nothing, all frames have been handed out and only the tail is kept |
| `JsonGrammar.FrameMeans` | node/src/json_framer.rs:82-138 | a frame is exactly a sentence of the grammar: braces around other bytes, quoted literals of either kind with their escapes, and objects nested to any depth |
| `JsonGrammar.TailMeans` | node/src/json_framer.rs:34-43 | what is kept is exactly what begins with a brace and has no sentence in front |
| `JsonGrammar.TakeSentence` | node/src/json_framer.rs:21-33 | a take on a buffer that begins with a sentence takes the sentence and leaves the rest |
| `JsonGrammar.TakeNested` | node/src/json_framer.rs:122-128 | a frame inside braces is inside one larger frame, which is taken whole |
| `JsonGrammar.TakeTwoBraces` | node/src/json_framer.rs:118-138 | the nested empty object is one frame |
| `Utf8.EncodeAllIsValid` | node/src/json_masquerader.rs:27-30 | text made of scalar values passes the UTF-8 test that decides between text and binary |
| `Utf8.ValidIsEncoding` | node/src/json_masquerader.rs:68-75 | and only such text passes it |
| `Base64.DecodeEncode` | node/src/json_masquerader.rs:62-66 | decoding undoes encoding, for all bytes |
| `Base64.EncodeDecode` | node/src/json_masquerader.rs:96-107 | a text that decodes is the encoding of what it decodes to |
| `JsonText.ReadLiteralQuote` | node/src/json_masquerader.rs:57-60 | a string printed as a JSON literal reads back as itself, whatever follows |
| `JsonText.EscapeIsUtf8` | node/src/json_masquerader.rs:57-60 | escaping keeps UTF-8 |
| `JsonText.ReadQuote` | node/src/json_framer.rs:82-116 | a printed literal leaves the framer inside the same object, whatever quotes, backslashes and braces it holds |
| `JsonMasquerading.UnmaskMask` | node/src/json_masquerader.rs:25-66 | unmasking undoes masking, for every payload, text or binary |
| `JsonMasquerading.UnmaskTwoFields` | node/src/json_masquerader.rs:77-115 | a member besides the payload: ignored when unknown, a schema error when repeated, unresolvable when both bodies are present |
| `JsonMasquerading.MaskIsFrame` | node/src/json_masquerader.rs:25-34 | a masked payload is one frame, closing at its last byte |
| `JsonWire.MaskedText` | node/src/json_masquerader.rs:27-30 | a payload that encodes characters is the value of bodyText on the wire |
| `JsonWire.MaskedBinary` | node/src/json_masquerader.rs:27-30 | any other payload is, in Base64, the value of bodyData |
| `JsonWire.TextOnTheWire` | node/src/json_masquerader.rs:57-60 | the very bytes of a masked payload of printable text |
| `JsonWire.BinaryOnTheWire` | node/src/json_masquerader.rs:62-66 | the very bytes of a masked payload that is not text |
| `JsonWire.EscapeTable` | node/src/json_masquerader.rs:57-60 | how each byte of a string is printed, by the table of the standard |
| `JsonWire.UnescapeTable` | node/src/json_masquerader.rs:77-83 | short escapes are read by the same table |
| `JsonWire.UnicodeEscapeReads` | node/src/json_masquerader.rs:77-83 | a character escaped by number, or as a surrogate pair, is read as its encoding |
| `JsonWire.GroupIsOneNumber` | node/src/json_masquerader.rs:62-66 | three bytes as one number are four symbols of the alphabet as one number to the base 64 |
| `JsonWire.OneLeftIsPadded` | node/src/json_masquerader.rs:62-66 | a byte left over is padded with zero bits and two signs |
| `JsonWire.TwoLeftArePadded` | node/src/json_masquerader.rs:62-66 | two bytes left over are padded with zero bits and one sign |
| `JsonWire.UnmaskOneField` | node/src/json_masquerader.rs:50-55 | one field: text as it is, data decoded or refused, anything else refused for lack of a body |
| `JsonWire.UnmaskRefuses` | node/src/json_masquerader.rs:68-94 | which items meet the low-level and which the mid-level error, exactly |
| `JsonValues.SkipsValue` | node/src/json_masquerader.rs:77-83 | every JSON value is skipped where a member is unknown, however deep and whatever follows it |
| `JsonValues.SkippedIsValue` | node/src/json_masquerader.rs:77-83 | and nothing else is |
| `JsonValues.UnknownValueIsIgnored` | node/src/json_masquerader.rs:130-135 | an unknown member is ignored whatever its value |
| `JsonValues.NullIsAbsent` | node/src/json_masquerader.rs:130-135 | a known member that is null counts as absent, and repeated is refused |
| `JsonValues.StructureIsObject` | node/src/json_masquerader.rs:77-94 | every structure that is accepted is one JSON object |
| `Discriminating.Discriminator.constructor` | node/src/discriminator.rs:42-51 | holds its framer and its masqueraders, of which there must be one |
| `Discriminating.Discriminator.AddData` | node/src/discriminator.rs:53-55 | bytes go to the framer |
| `Discriminating.Discriminator.TakeChunk` | node/src/discriminator.rs:57-72 | the chunk of the first masquerader that understands the next frame; a frame that none understands is dropped |
| `Discriminating.FirstUnmaskedMeans` | node/src/discriminator.rs:62-71 | the answer taken is that of the first masquerader that has one; none only if all refuse |
| `Discriminating.ClearOrMasked` | node/src/null_masquerader.rs:9-11 | clear frames pass as they are and are to be numbered, masked ones are not |
| `Discriminating.ChunksAreUnmaskedFrames` | node/src/discriminator.rs:53-72 | over every session, the chunks are the understood frames of the framer, in order |
| `Discriminating.DeliversInOrder` | node/src/discriminator.rs:53-72 | at every moment, what was delivered is an initial part of the payloads that were masked |
| `Discriminating.EndToEnd` | node/src/json_masquerader.rs:25-116 | masked payloads with brace-free garbage, cut anywhere, taken in any interleaving until nothing comes: exactly the payloads, in order, once each |
| `Discriminating.AddAndDrain` | node/src/stream_reader.rs:128-177 | adding bytes and taking chunks until none comes is the drain that the laws below are about |
| `Discriminating.DrainAll` | node/src/stream_reader.rs:130-177 | a drain whose frames are all understood delivers them all and keeps the tail |
| `Discriminating.DrainedDelivery` | node/src/stream_reader.rs:128-177 | the same law for the drain after each read: exactly the payloads, and an empty framer |
| `Discriminating.DrainEmptiesIff` | node/src/stream_reader.rs:130-177 | a drain leaves no complete frame behind if and only if every frame but the last is understood |
| `Discriminating.DrainStallsBehindBadFrame` | node/src/discriminator.rs:57-72 | after an empty object, a good frame stays undelivered |
| `SequenceBuffering.SequenceBuffer.constructor` | node/src/sub_lib/sequence_buffer.rs:165-172 | empty, expecting number 0 |
| `SequenceBuffering.SequenceBuffer.Push` | node/src/sub_lib/sequence_buffer.rs:174-187 | numbers handed out or waiting are dropped, others wait |
| `SequenceBuffering.SequenceBuffer.Poll` | node/src/sub_lib/sequence_buffer.rs:189-215 | hands out the next expected number if it waits |
| `SequenceBuffering.SequenceBuffer.Repush` | node/src/sub_lib/sequence_buffer.rs:217-225 | makes the packet just polled the next one again |
| `SequenceBuffering.InsertAdds` | node/src/sub_lib/sequence_buffer.rs:22-29 | the heap stays ordered by number and gains exactly the new packet |
| `SequenceBuffering.Without` | node/src/sub_lib/sequence_buffer.rs:199-204 | the number leaves the list of seen ones, and no other does |
| `OrderedWriting.StreamWriterSorted.ReadDataFromChannel` | node/src/stream_writer_sorted.rs:69-83 | all packets the channel holds are pushed |
| `OrderedWriting.StreamWriterSorted.WriteFromBufferToStream` | node/src/stream_writer_sorted.rs:85-146 | the write loop against any script of partial writes, refusals and errors |
| `OrderedWriting.StreamWriterSorted.Poll` | node/src/stream_writer_sorted.rs:25-40 | one poll: new state and result |
| `OrderedWriting.WriteOutKeepsInv` | node/src/stream_writer_sorted.rs:85-146 | the write loop keeps the writer's invariant, or dies with a prefix written |
| `OrderedWriting.RunKeepsInv` | node/src/stream_writer_sorted.rs:25-146 | every run keeps it: written bytes and held remainder are packets 0 … next |
| `OrderedWriting.PrefixSafety` | node/src/stream_writer_sorted.rs:69-146 | in every run, even a failing one, the accepted bytes are a prefix of the data in sequence order |
| `OrderedWriting.NothingLost` | node/src/stream_writer_sorted.rs:69-146 | written and waiting bytes below the first missing number are exactly those packets, nothing lost or repeated |
| `OrderedWriting.NothingAfterLastData` | node/src/stream_writer_sorted.rs:112-143 | once a packet marked last is written in full, the output ends with it, and no later poll writes a byte |
| `OrderedWriting.ReadyMeansWritten` | node/src/stream_writer_sorted.rs:33-39 | completion without a last packet needs a closed channel and everything below the first missing number written; nothing is dropped if and only if nothing arrived past it |
| `OrderedWriting.ReadyDropsPastGap` | node/src/stream_writer_sorted.rs:33-39 | a lone packet numbered 1 is lost while success is reported |
| `OrderedWriting.WillingSocketDrains` | node/src/stream_writer_sorted.rs:85-146 | progress: a socket that takes every write whole gets exactly the data up to the first missing number, or up to and including the last packet |
| `OrderedWriting.EagerSocketDrains` | node/src/stream_writer_sorted.rs:85-146 | the same for a socket that takes a byte at a time and fails now and then in ways that are retried |
| `OrderedWriting.AnswersMean` | node/src/stream_writer_sorted.rs:91-111 | whatever came before: a dead stream fails the loop at once, a socket not ready ends it with everything in place, a retried error changes nothing |
| `OrderedWriting.PollReports` | node/src/stream_writer_sorted.rs:25-67 | what a poll reports, from the state before and after: failures only with a cause, done exactly when closed, all written and shut down |
| `OrderedWriting.FailureHasACause` | node/src/stream_writer_sorted.rs:85-139 | a run fails only if some socket was dead or could not be shut down |
| `OrderedWriting.ReadyIff` | node/src/stream_writer_sorted.rs:25-67 | when a run that has not failed is done, exactly |
| `OrderedWriting.OrderedDelivery` | node/src/stream_writer_sorted.rs:85-146 | chunks numbered from 0, permuted and spread over polls arbitrarily, are written in order |
| `OrderedWriting.ClosedDelivery` | node/src/proxy_server/mod.rs:555-568 | with the closing packet that reports the removal among them, all chunks are written in order and the writer shuts down |
| `StreamReading.IsConnectMeans` | node/src/proxy_server/http_protocol_pack.rs:80-92 | when a buffer counts as a CONNECT request |
| `StreamReading.ConnectJudgedByOwnBytes` | node/src/stream_reader.rs:36-57 | a read is judged by its own bytes, whatever the buffer held, if and only if it is not an initial part of the word CONNECT |
| `StreamReading.LeftoversMakeAConnect` | node/src/stream_reader.rs:36-57 | a CONNECT request and then the letter C in one poll: the letter's chunk is sent as number 0 and takes no number |
| `StreamReading.StreamReader.constructor` | node/src/stream_reader.rs:85-117 | a fresh reader over its discriminators, of which there must be one |
| `StreamReading.StreamReader.NextSequenceNumber` | node/src/sub_lib/sequencer.rs:13-17 | numbers count up from 0 |
| `StreamReading.StreamReader.WrangleDiscriminators` | node/src/stream_reader.rs:119-178 | the bytes go to the discriminator that the kind of read calls for, and every chunk it yields is sent |
| `StreamReading.StreamReader.SendChunks` | node/src/stream_reader.rs:130-177 | chunks are taken until none comes, each sent in order |
| `StreamReading.StreamReader.Send` | node/src/stream_reader.rs:138-170 | a chunk is sent with the number its kind of read calls for |
| `StreamReading.StreamReader.Shutdown` | node/src/stream_reader.rs:180-199 | a non-clandestine removal takes the next number |
| `StreamReading.StreamReader.Poll` | node/src/stream_reader.rs:35-81 | one poll over any script of reads and errors, with any discriminators |
| `StreamReading.RunIsWellNumbered` | node/src/stream_reader.rs:119-199 | over every run, with any discriminators, ordinary chunks get 0, 1, 2, … without gap or repeat, CONNECT reads consume none, the removal carries the next |
| `StreamReading.ReaderToWriter` | node/src/stream_reader.rs:119-199 | the numbered chunks of any run, and the closing packet, permuted arbitrarily, come out of a completed sorted writer in the order they were read; it shuts down if and only if the reader was removed |
| `StreamReading.RunRoutes` | node/src/stream_reader.rs:35-178 | over every run with any number of discriminators: the second of them gets the reads at which the buffer began with CONNECT and a space, the first all others; all they yield is sent in the order of the reads; and the run ends as the stream did |
| `ClandestineStream.ClandestineDelivery` | node/src/stream_reader.rs:119-178 | a run over masked payloads, read in any pieces, sends the dispatcher exactly the payloads |
| `WinDns.WinDnsModifier.SubvertOne` | dns_utility/src/win_dns_modifier.rs:237-261 | one interface forward: backup, then localhost, stopping where a write fails |
| `WinDns.WinDnsModifier.RollBackSubvertOne` | dns_utility/src/win_dns_modifier.rs:298-314 | and back |
| `WinDns.WinDnsModifier.RevertOne` | dns_utility/src/win_dns_modifier.rs:316-338 | one interface reverted from its backup |
| `WinDns.WinDnsModifier.RollBackRevertOne` | dns_utility/src/win_dns_modifier.rs:340-357 | and back |
| `WinDns.WinDnsModifier.SweepInterfaces` | dns_utility/src/win_dns_modifier.rs:31-43 | interfaces in turn until one fails, that one counted as touched |
| `WinDns.WinDnsModifier.Subvert` | dns_utility/src/win_dns_modifier.rs:27-53 | the whole call: new registry and result |
| `WinDns.WinDnsModifier.Revert` | dns_utility/src/win_dns_modifier.rs:55-81 | the whole call: new registry and result |
| `WinDns.Select` | dns_utility/src/win_dns_modifier.rs:149-160 | exactly the interfaces that qualify: gateway and name servers, or a backup |
| `WinDns.SubvertedMakesNoSense` | dns_utility/src/win_dns_modifier.rs:373-379 | a subverted list makes no sense as an original, so it is never backed up |
| `WinDns.SubvertedMeansFirst` | dns_utility/src/win_dns_modifier.rs:373-375 | a list is subverted exactly when its first address is the local one |
| `WinDns.NoSenseMeans` | dns_utility/src/win_dns_modifier.rs:377-379 | a list makes no sense exactly when the local address stands in it somewhere between commas |
| `WinDns.SweepIsPointwise` | dns_utility/src/win_dns_modifier.rs:31-49 | a sweep touches a leading part of the interfaces, each once and on its own |
| `WinDns.StepForward` | dns_utility/src/win_dns_modifier.rs:237-338 | a step from a recoverable interface leaves it recoverable, or one write short of it |
| `WinDns.StepBack` | dns_utility/src/win_dns_modifier.rs:298-357 | rolling back a step, wherever it failed, gives the original or the state before |
| `WinDns.CallIsPointwise` | dns_utility/src/win_dns_modifier.rs:27-81 | what a call does to each interface, by its result |
| `WinDns.SubvertSucceedsIff` | dns_utility/src/win_dns_modifier.rs:27-53 | when a subvert succeeds, exactly, in terms of the values of the interfaces and the faults |
| `WinDns.SubvertTakesEffect` | dns_utility/src/win_dns_modifier.rs:237-261 | a successful subvert sets every interface it took on to localhost with its list backed up, leaves those subverted already, and touches no other |
| `WinDns.FindsIff` | dns_utility/src/win_dns_modifier.rs:141-179 | interfaces are found exactly when some qualify and all that do share a gateway, DHCP first |
| `WinDns.SelectInOrder` | dns_utility/src/win_dns_modifier.rs:149-160 | they are worked on in the order of enumeration |
| `WinDns.RevertSucceedsIff` | dns_utility/src/win_dns_modifier.rs:55-81 | when a revert succeeds, exactly |
| `WinDns.RevertTakesEffect` | dns_utility/src/win_dns_modifier.rs:316-338 | a successful revert puts every backup it can reach back, deletes it, and touches nothing else |
| `WinDns.FaultlessRollback` | dns_utility/src/win_dns_modifier.rs:298-357 | a rollback that meets no faults does not panic, in either direction |
| `WinDns.AllOrNothing` | dns_utility/src/win_dns_modifier.rs:31-80 | a failed revert changes nothing; a failed subvert resets the interfaces it reached to their originals, and so changes nothing when there are no backups |
| `WinDns.FailsCleanlyIff` | dns_utility/src/win_dns_modifier.rs:27-53 | whichever writes fail, a failed subvert leaves the registry as it was, if and only if no backed-up interface is followed by one still to be subverted, unless the sweep is sure to stop before it |
| `WinDns.ExposedMeansDamage` | dns_utility/src/win_dns_modifier.rs:44-50 | the one failing write that does the damage, for every such registry |
| `WinDns.FailureResetsSubverted` | dns_utility/src/win_dns_modifier.rs:44-50 | two interfaces, the second of which cannot be backed up: the first is reset |
| `WinDns.RunsAreRecoverable` | dns_utility/src/win_dns_modifier.rs:27-81 | after every run of calls with arbitrary failures, each interface is the original, or localhost with the original backed up |
| `WinDns.RoundTrip` | dns_utility/src/win_dns_modifier.rs:27-81 | a successful subvert and a successful revert restore the registry if and only if the revert reaches every interface that changed |
| `ResolvConf.ScanIsInBounds` | dns_utility/src/resolv_conf_dns_modifier.rs:176-196 | matches follow one another without overlap, inside the text |
| `ResolvConf.EditInPlace` | dns_utility/src/resolv_conf_dns_modifier.rs:114-120 | edits at descending offsets, in place |
| `ResolvConf.Subvert` | dns_utility/src/resolv_conf_dns_modifier.rs:107-123 | the whole operation, with its refusals |
| `ResolvConf.Revert` | dns_utility/src/resolv_conf_dns_modifier.rs:125-144 | the whole operation, with its refusals |
| `ResolvConf.EntryIsLocal` | dns_utility/src/resolv_conf_dns_modifier.rs:176-196 | on a regular line a match does not depend on the lines below, though white space may cross lines |
| `ResolvConf.ScanFile` | dns_utility/src/resolv_conf_dns_modifier.rs:176-196 | on a regular file the expressions find exactly the entries of the single lines |
| `ResolvConf.EditFile` | dns_utility/src/resolv_conf_dns_modifier.rs:114-120 | the descending-offset edits equal one pass over the lines |
| `ResolvConf.HashedLine` | dns_utility/src/resolv_conf_dns_modifier.rs:115-143 | a hashed line is inactive and regular, and taking the hash off restores it |
| `ResolvConf.PrometheusIpMeans` | dns_utility/src/resolv_conf_dns_modifier.rs:198-207 | an entry is the local resolver if and only if its argument is 127.0.0.1, a comment aside |
| `ResolvConf.SubvertOutcome` | dns_utility/src/resolv_conf_dns_modifier.rs:107-123 | for any text at all: which of the two refusals it meets, whether it is left alone or changed, in terms of what its entries name |
| `ResolvConf.SubvertIsOnePass` | dns_utility/src/resolv_conf_dns_modifier.rs:107-123 | subversion is one hash per nameserver line and the appended line |
| `ResolvConf.SubvertWorks` | dns_utility/src/resolv_conf_dns_modifier.rs:107-161 | afterwards 127.0.0.1 is the only active nameserver and a second subvert changes nothing |
| `ResolvConf.OnlyLocal` | dns_utility/src/dns_utility.rs:95-100 | then inspection gives the one text whose status is "subverted" |
| `ResolvInspect.EntryIsMatched` | dns_utility/src/resolv_conf_dns_modifier.rs:176-196 | every text of the shape blank, comment sign, keyword, blank, word is matched, and the match is the entry and no more |
| `ResolvInspect.MatchIsEntry` | dns_utility/src/resolv_conf_dns_modifier.rs:176-196 | and everything matched has that shape |
| `ResolvInspect.ScanFindsNothingIff` | dns_utility/src/resolv_conf_dns_modifier.rs:176-196 | nothing is found exactly when nothing matches at the start or at a newline |
| `ResolvInspect.ScanFindsLeftmost` | dns_utility/src/resolv_conf_dns_modifier.rs:176-196 | what is found first is the leftmost match, and the search goes on behind it |
| `ResolvInspect.InspectMeans` | dns_utility/src/resolv_conf_dns_modifier.rs:146-174 | inspection of any text: refused without an active entry, otherwise their addresses in order, a line each |
| `ResolvInspect.StatusIff` | dns_utility/src/dns_utility.rs:95-100 | the status is "subverted" exactly when the one active nameserver is the local resolver |
| `ResolvRevert.LocalEntryMeans` | dns_utility/src/resolv_conf_dns_modifier.rs:209-218 | what the expression for the local resolver matches: an entry whose address begins with 127.0.0.1 |
| `ResolvRevert.RevertOutcome` | dns_utility/src/resolv_conf_dns_modifier.rs:125-144 | for any text at all: left alone if and only if no such entry begins a line; else what is cut out, when a second one or the lack of entries is refused, and the edit otherwise |
| `ResolvRevert.RevertLeavesAloneIff` | dns_utility/src/resolv_conf_dns_modifier.rs:209-227 | a regular file is left alone if and only if no active entry's argument begins with 127.0.0.1 |
| `ResolvRevert.HiddenLocal` | dns_utility/src/resolv_conf_dns_modifier.rs:176-227 | off regular files this fails: an entry that the one expression finds and the other, running across the line break, does not |
| `ResolvRevert.RevertLines` | dns_utility/src/resolv_conf_dns_modifier.rs:125-144 | a regular file with the first such line anywhere: refused if a further one is found, the line right below excepted; else the entry goes |
| `ResolvRevert.RevertFile` | dns_utility/src/resolv_conf_dns_modifier.rs:125-144 | then one pass over the lines that are left, and the nameservers active afterwards are exactly the former comments, in order |
| `ResolvRevert.RevertAppended` | dns_utility/src/resolv_conf_dns_modifier.rs:125-144 | the same for the line a subversion appends, with other lines above and below it |
| `ResolvRevert.RevertActivatesIff` | dns_utility/src/resolv_conf_dns_modifier.rs:138-142 | an entry is active after the edit if and only if it was a comment before |
| `ResolvRevert.RevertLosesActive` | dns_utility/src/resolv_conf_dns_modifier.rs:125-144 | a nameserver below the local line loses its first letter, even a second 127.0.0.1, and none is active any more |
| `ResolvRevert.RevertMistakesAddress` | dns_utility/src/resolv_conf_dns_modifier.rs:209-227 | a never-subverted file with a longer address and a nameserver below it: both are spoilt |
| `ResolvRevert.RevertSpoilsFile` | dns_utility/src/resolv_conf_dns_modifier.rs:209-227 | the file with 127.0.0.11 and 8.8.8.8, and what becomes of it |
| `ResolvRevert.RoundTrip` | dns_utility/src/resolv_conf_dns_modifier.rs:107-144 | revert after subvert: the text plus a newline, one more hash on lines already commented, the same active nameservers |
| `HttpStart.IndexOf` | node/src/sub_lib/utils.rs:50-75 | the first occurrence, or none; nothing for an empty needle |
| `HttpStart.HttpFramerState.FirstMethodOffset` | node/src/http_request_start_finder.rs:21-24 | the offset of the leftmost method in the data |
| `HttpStart.HttpFramerState.SeekPacketStart` | node/src/http_request_start_finder.rs:19-48 | cuts at the leftmost method or keeps seven bytes, and what happens to the other fields |
| `HttpStart.MethodNames` | node/src/http_request_start_finder.rs:11-14 | which methods there are, and that none is longer than seven bytes |
| `HttpStart.NoMethodInsideAnother` | node/src/http_request_start_finder.rs:11-14 | no method is a substring of another |
| `HttpStart.MethodInPrefix` | node/src/http_request_start_finder.rs:34-42 | seven bytes are enough to hold any method that may still be completed |
| `HttpStart.LeftmostIsStable` | node/src/http_request_start_finder.rs:21-33 | later data cannot put a method before the one found |
| `HttpStart.FindsLeftmostMethod` | node/src/http_request_start_finder.rs:11-48 | for every stream and every way of cutting it, the start found is that of the leftmost method of the whole stream |
| `LayeredConfig.MergeVcls` | node/src/multi_config.rs:156-185 | filtering with the shrinking name set keeps the first argument of each name, higher priority first |
| `LayeredConfig.MergeAllIsLastSourceWins` | node/src/multi_config.rs:53-58 | the fold gives each name once, with the setting of the last source that mentions it |
| `LayeredConfig.MergeIsAssociative` | node/src/multi_config.rs:156-185 | neighbouring layers may be merged in either order |
| `LayeredConfig.MergeKeepsOrder` | node/src/multi_config.rs:156-185 | a merged list is the first arguments of each name in their order, higher priority in front |
| `LayeredConfig.NewCommandLine` | node/src/multi_config.rs:207-231 | parsing, with the two panics as errors |
| `LayeredConfig.PrintParse` | node/src/multi_config.rs:84-89 | printing what was parsed gives the vector back with an empty command |
| `LayeredConfig.ParsePrint` | node/src/multi_config.rs:207-231 | parsing what was printed gives the arguments back if and only if all names are options and no value is |
| `LayeredConfig.ParseAcceptsIff` | node/src/multi_config.rs:207-231 | which vectors are accepted, and which of the two panics the others meet |
| `BanCache.BannedDao.constructor` | node/src/banned_dao.rs:52-62 | after loading, the cache agrees with the table |
| `BanCache.BannedDao.IsBanned` | node/src/banned_dao.rs:33-38 | answers from the cache what the table says, for every kind of wallet |
| `BanCache.BannedDao.Ban` | node/src/banned_dao.rs:92-114 | adds the address to table and cache |
| `BanCache.BannedDao.Unban` | node/src/banned_dao.rs:116-133 | removes it from both |
| `BanCache.ConcurrentCallsAgree` | node/src/banned_dao.rs:92-133 | concurrent calls with no address both banned and unbanned: in every state cache and table differ only where a call is between its writes, and at the end they agree and every call has taken effect |
| `BanCache.AgreementIff` | node/src/banned_dao.rs:92-133 | any concurrent calls: all complete schedules end in agreement if and only if no address is changed by two calls and changed back by a third |
| `BanCache.HazardMeansDisagreement` | node/src/banned_dao.rs:92-133 | the schedule that breaks agreement, for every such combination and any other calls beside it |
| `WalletConfig.PersistentConfiguration.SetDerivationPath` | node/src/persistent_configuration.rs:178-223 | the setter, its panics being refusals without effect |
| `WalletConfig.PersistentConfiguration.SetPublicKey` | node/src/persistent_configuration.rs:225-237 | the setter, its panics being refusals without effect |
| `WalletConfig.PersistentConfiguration.SetEarningAddress` | node/src/persistent_configuration.rs:260-279 | the setter, its panics being refusals without effect |
| `WalletConfig.WriteOnce` | node/src/persistent_configuration.rs:144-237 | over every run of setters: never both key and path, so no getter panics, and nothing set ever changes |
| `WalletConfig.EarningAddressAgain` | node/src/persistent_configuration.rs:260-279 | the first valid address is the one stored; a later one is accepted if and only if it is valid and differs at most in letter case |
| `WalletConfig.DerivationPathAgain` | node/src/persistent_configuration.rs:178-237 | a path accepted on a table with neither setting is what the getters give ever after; only the same path, and no key, is accepted again |
| `WalletConfig.PublicKeyAgain` | node/src/persistent_configuration.rs:178-237 | likewise a key; a path is then accepted exactly when it leads to that key |
| `WalletConfig.LastSeed` | node/src/persistent_configuration.rs:132-142 | the seed is the one last set |

## Left out

- Actor wiring, bootstrapping, listeners, privilege dropping, the dispatcher, the user interface, and the Docker test harnesses.
- The macOS dynamic store modifier, an easier version of the Windows one, and `inspect` on Windows.
- `HttpPacketFramer`, the TLS framer and the unsorted stream writer.
- JsonFraming.JsonFramer.TakeFrame: the nest counter is unbounded; it is an i32 in the source and never exceeds the number of buffered bytes.
- JsonMasquerading.UnmaskTwoFields: error messages are left out, as are serde_json's nesting limit and its array form of a structure, which no frame can be.
- Base64.EncodeDecode: the decoder is the strict one of RFC 4648; where a library version accepts missing padding or stray trailing bits, this converse does not hold of it.
- SequenceBuffering.SequenceBuffer.Push: sequence numbers are unbounded, u64 in the source, and the heap is an ordered sequence.
- OrderedWriting.StreamWriterSorted.Poll: scripts of socket answers are finite, so endless retryable errors, on which the source spins, are not covered; a channel error, on which it panics, does not occur.
- StreamReading.StreamReader.Poll: a discriminator is any deterministic one whose drains end; the JSON one takes its place in `ClandestineStream`, the HTTP and TLS ones are not modelled.
- WinDns.WinDnsModifier.Subvert: a failed write has no effect, a read fails only when the value is absent, netsh sets the `NameServer` value, adapter names are injective; error messages are left out. `WinDns.RunsAreRecoverable` is about runs without a panic during rollback.
- ResolvConf.Subvert: file access is left out, offsets count characters, `\d` is an ASCII digit, messages are error kinds.
- ResolvRevert.RoundTrip: is about line-regular files; on others white space in the expressions crosses lines. `ResolvRevert.RevertFile` also needs what is left of the local resolver's own line to be regular.
- HttpStart.FindsLeftmostMethod: covers one search for a start, not the packets that follow it.
- LayeredConfig.MergeAllIsLastSourceWins: environment variables, TOML files and the matching of arguments against a schema are left out.
- BanCache.BannedDao.Ban: the table is a set of addresses; database corruption, on which the source panics, is left out.
- WalletConfig.WriteOnce: is about an intact table; key derivation and address syntax are arbitrary functions, and lower-casing is that of ASCII.
