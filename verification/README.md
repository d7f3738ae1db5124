# A verified model of FreeRADIUS packet handling

A Dafny model of five parts of FreeRADIUS 4 and of what they guarantee over whole exchanges and whole runs. Code that updates objects or buffers in place is modelled by classes, arrays and loops, each tied to a function of its input; the theorems are about those functions, for all inputs, all runs and all reachable states. `dafny verify dfyconfig.toml` checks everything. The model was written from the source text; nothing of the original was executed.

| module | part of the system |
|---|---|
| `Bytes` | octets, network order, lists of chunks |
| `EapPacket` | the EAP packet layer: wire format, EAP-Message attributes, validation, expanded types |
| `EapTls`, `EapTlsRuns`, `EapTlsOutcomes` | EAP-TLS record transfer: fragmenter, reassembler, the session state machine, its runs and its answer to every packet |
| `EapSession`, `EapSessionRuns` | EAP sessions: rounds, identifiers, freezing and thawing, and which packets are taken |
| `Radsniff`, `RadsniffLaws`, `RadsniffMatches` | the request/response matcher of radsniff, its counting laws, and which packets it matches |
| `RawAttribute`, `Hex` | the raw RADIUS attribute encoder of the unit test tool, and its hex text |
| `AkaDecode`, `AkaVector`, `AkaWire`, `AkaLawful` | the EAP-SIM/AKA attribute decoder, its initialisation vector, the packets it inverts and those it refuses |
| `Retries`, `RetryTimes`, `Radclient` | the retransmission state machine of radclient, its times, and the list it walks |

What the outside world decides is a parameter: the answers of OpenSSL (`Ssl`), the block cipher (`Cipher`), clocks, timers, replies and the fate of a transmission (`Oracle`, `Poll`).

Main results, hardest first:

- `EapTlsRuns.RecordDelivered`: two ends that both run `eap_tls_process` over any faithful channel transfer every record, for every MTU and length setting, with exactly the predicted statuses and number of fragments. EAP-Message attributes are such a channel (`AttributesFaithful`, `DeliveredInAttributes`).
- `EapTlsRuns.RunSafe`, `RunKeepsTransfer`, `FragmentedRecordExact`, `OverrunNeverCompletes`: safety of establishment and of reassembly over every run, whatever the peer sends and whatever fails, with the exact condition for the latter. `EapTlsOutcomes.EstablishedExactly` and the lemmas beside it give status, reply and establishment for every packet, from its octets.
- `RadsniffLaws.RunBalanced`, `RunPartition`, `RunTallied`: the counting laws in every reachable state of the matcher, whose heap version `Radsniff.Matcher` keeps its invariant at every event. `RadsniffMatches.LinkedExactly` and the lemmas beside it say over every run, in the fields of the packets captured, which request a response is linked to and which a request repeats.
- `AkaVector.LookAheadIsKnowing`, `EveryContainerUsesTheVector`, `VectorMayComeLater`: looking ahead for AT_IV comes to the same as having known it, so the place of AT_IV does not matter. `AkaWire.PacketDecodes`: every packet written as RFC 4187 says, with arrays and encrypted, padded containers, is decoded, to exactly its attributes if and only if no array has several elements of one octet. `AkaLawful.DecodedIsLawful`, `UnknownRefused` and `ValueExactly` say what is refused and what every value means.
- `RawAttribute.FragmentInPlace`, `EncodedRoundTrip`: fragmentation by moving octets within the buffer, and an independent reader that recovers every attribute.
- `Radclient.Client.Walk`, `Retries.TransmissionBound`, `ResendBoundExactly`: the linked list stays intact while the walk frees requests from it, and the number of transmissions is bounded, exactly when the stated condition holds. `RetryTimes.VisitWaiting` and `SentAtEveryDueVisit` say when a request is sent, waits and is given up, from the times of the visits.
- `EapPacket.FourStageRoundTrip`, `EapSession.RequestIdsDistinct`, `EapSessionRuns.AcceptedExactly`, `FiftyAccepted`, `Hex.ParseInPlace`, `Hex.TerminatorTakenForDigit`: round trips and freshness.

## Where the code does not do what one would expect

Each is kept as the code has it; the lemma named gives the exact condition.

- A vendor-0 expanded type is refused when no type data follows it, and an expanded Notification is let through although the legacy one is refused (`ExpandedCollapsesToLegacy`, `AcceptedAgain`).
- A record that arrives whole, without a length, and is larger than the buffer fills it and is reported as FAIL; a first fragment then starts on top of what is left. The reassembly invariant holds all along a run without INVALID packets if and only if there is no such record (`StepKeepsTransfer`, `RunKeepsTransfer`; the failing run is `OversizeThenFirst`).
- Received data is not cleared when a transfer is given up, so it stands before the next record (`StaleBytesPrefixNextRecord`; the run that leads there is `GivenUpTransferLeaves`). Both effects are those of `eap_tls_process` by itself: every method that calls it gives up on INVALID and FAIL (src/modules/rlm_eap/types/rlm_eap_tls/rlm_eap_tls.c:156-160 rejects; rlm_eap_ttls.c:216-217, rlm_eap_peap.c:189-190 and rlm_eap_fast.c:430-431 fail), and the EAP module then destroys the session (src/modules/rlm_eap/rlm_eap.c:389-459, `EapSession.RefusalEndsSession`).
- Only the low 16 bits of the EAP-TLS length field are read, so that a fragmented record is as long as declared if and only if the other two octets are zero (`DeclaredLengthExact`).
- Two exits of `eap_session_continue` leave the session thawed, so that the assertion of the next thaw fails, exactly then (`ThawAssertionFailsExactly`).
- `rs_tv_add_ms` carries only above one million microseconds, so the sum may be exactly one million (`AddMsNormalised`). A request freed for want of a timer is in no counter (`FreedTallied`).
- `hex_to_bin` takes the terminator for a digit: among the texts without NUL that it accepts, exactly in those that end with an odd number of characters after the last space (`TerminatorTakenForDigit`; the shortest are `LoneDigitAccepted`).
- `encode_long_extended` checks that its first header and the data fit the buffer, not the repeated headers; the fragments stay within it if and only if those fit too (`CheckedRoomSuffices`). Attribute number 256 and vendor 2^24 pass the checks and do not fit (`EncodedRoundTrip`).
- An AKA array that announces no content is consumed only as far as its header (`WholeUnlessShort`). Of an array of single octets only the first element is read (`ArrayDecodes`). An AT_IV inside a container replaces the vector for what follows (`InnerVectorReplaces`).
- A reply that cannot be decoded, to the last packet due, makes radclient send the request again without bound (`ResendBoundExactly`, `NoBoundAfterLateFailure`). A timed-out request keeps its id, because the packet was yanked before the id is freed (`GiveUp`). A failed send ends the walk: when the walk then reports the end of the work, all requests that are left have been sent often enough if and only if those behind the failure had been (`Walk`; `FailedSendAbandons` is a walk that ends with a request unsent).
- The comment on `_rc_request_free` allows for requests that are not in the list; its assertions do so only when the list is empty (`FreeAssertions`).

## Model

| member | source | states |
|---|---|---|
| `EapPacket.Reply.WireFormat` | src/lib/eap/compose.c:89-145 | the packet becomes header, corrected length and, for requests and responses only, type and type data; under code 0 the rest is left undetermined; a packet built before is kept |
| `EapPacket.PacketToVp` | src/lib/eap/base.c:121-148 | the chunks concatenate to the packet; all but the last are 253 octets and the last is not empty |
| `EapPacket.SplitUnique` | src/lib/eap/base.c:121-148 | there is exactly one such list of chunks for every packet |
| `EapPacket.IsValid` | src/lib/eap/base.c:157-270 | accepts exactly the valid packets, and leaves in the buffer the packet with a vendor-0 expanded type collapsed |
| `EapPacket.PacketFromVp` | src/lib/eap/base.c:279-370 | the result depends only on the concatenated octets once the first chunk holds the header; the header length must equal the total |
| `EapPacket.ValidExactly` | src/lib/eap/base.c:157-270 | which octets are a valid packet, each code, length and type spelled out |
| `EapPacket.ReassembledExactly` | src/lib/eap/base.c:323-369 | which lists of attributes are accepted |
| `EapPacket.SplitHeader` | src/lib/eap/base.c:121-148 | the first chunk of a split packet holds the whole EAP header |
| `EapPacket.WireFields` | src/lib/eap/compose.c:89-145 | code, id, length, type and type data can be read back off the octets |
| `EapPacket.FourStageRoundTrip` | src/lib/eap/compose.c:555-601 | wire format, split, reassembly and parse give back the packet if and only if its type is 1 to 55 and not Notification |
| `EapPacket.ExpandedCollapsesToLegacy` | src/lib/eap/base.c:196-256 | a vendor-0 expanded packet becomes the octets of the legacy packet if and only if its type is known, not Nak, and has type data |
| `EapPacket.CollapseShape` | src/lib/eap/base.c:196-267 | what is left of an accepted packet has the right length and no expanded type |
| `EapPacket.AcceptedAgain` | src/lib/eap/base.c:157-270 | an accepted packet is accepted again unchanged, except exactly a collapsed Notification |
| `EapTls.Session.constructor` | src/lib/eap/tls.c:1125-1196 | a new session holds nothing, is not in phase 2 and reports nothing established |
| `EapTls.Session.TakeOut` | src/lib/tls/session.c:225-241 | as much as is asked for and there is; what is taken and what remains make up what was there |
| `EapTls.Session.AddIn` | src/lib/tls/session.c:205-216 | as much is added as fits the record buffer |
| `EapTls.Session.SendRequest` | src/lib/eap/tls.c:370-443 | one fragment, with flags and length as `Request` defines them |
| `EapTls.Session.SendAndReport` | src/lib/eap/tls.c:1086-1092 | the next fragment is sent and the packet reported as handled |
| `EapTls.Session.SessionStatus` | src/lib/eap/tls.c:482-535 | how an acknowledgement is taken, by the message last seen |
| `EapTls.Session.TransferFragment` | src/lib/eap/tls.c:655-788 | declared and received lengths, first, middle, last and whole records |
| `EapTls.Session.VerifyPacket` | src/lib/eap/tls.c:553-789 | status and transfer state as `Verify` defines them, acknowledgements included |
| `EapTls.Session.Feed` | src/lib/tls/session.c:1388-1402 | the record is handed to OpenSSL and the buffer emptied, also when OpenSSL does not take it |
| `EapTls.Session.ReceiveApplicationData` | src/lib/eap/tls.c:1046-1064 | phase 2 data: delivered only after the handshake, otherwise a failure |
| `EapTls.Session.RunHandshake` | src/lib/tls/session.c:1358-1405 | a handshake round: the record goes in, output may come out, and whether it succeeded |
| `EapTls.Session.ResumeHandshake` | src/lib/eap/tls.c:800-907 | send what is pending, report success and enter phase 2, or fail, as `HandshakeResume` says; what that is, `HandshakeOutcome` says |
| `EapTls.Session.AbsorbData` | src/lib/eap/tls.c:1009-1071 | a fragment is buffered and acknowledged, a complete record processed |
| `EapTls.Session.ProcessPacket` | src/lib/eap/tls.c:957-1109 | one packet takes the session where `Process` says, with the reply it says |
| `EapTlsRuns.OneFragment` | src/lib/eap/tls.c:370-443 | each call drains a non-empty prefix; M is set exactly when something remains; L and the total are right |
| `EapTlsRuns.PacketsFit` | src/lib/eap/tls.c:141-187 | no EAP packet exceeds the configured fragment size; one that is not the last is MTU + 6 octets long |
| `EapTlsRuns.AckSendsNext` | src/lib/eap/tls.c:482-535 | an acknowledgement produces the next fragment if and only if the last message seen allows it |
| `EapTlsRuns.TakesFragment` | src/lib/eap/tls.c:553-789 | a fragment that is not the last is taken as FIRST or MORE, appended and acknowledged |
| `EapTlsRuns.TakesLast` | src/lib/eap/tls.c:553-789 | the last fragment completes the record and hands it over |
| `EapTlsRuns.RecordDelivered` | src/lib/eap/tls.c:957-1109 | a record arrives exactly, with statuses FIRST, MORE..., COMPLETE, as many as the fragment count formula says; OpenSSL has it if it takes it |
| `EapTlsRuns.AttributesFaithful` | src/lib/eap/base.c:121-148 | EAP-Message attributes carry every packet of a known type unchanged |
| `EapTlsRuns.DeliveredInAttributes` | src/lib/eap/base.c:279-370 | delivery of a record over EAP-Message attributes, split and joined as the server does |
| `EapTlsRuns.StepSafe` | src/lib/eap/tls.c:957-1109 | one event keeps establishment safety; phase 2 and the finished handshake never revert |
| `EapTlsRuns.VerifyKeepsTransfer` | src/lib/eap/tls.c:655-788 | what each verdict adds to the transfer in progress, within the declared length |
| `EapTlsRuns.StepKeepsTransfer` | src/lib/eap/tls.c:1011-1039 | an event that is not INVALID keeps the reassembly invariant if and only if it is no whole record larger than the buffer |
| `EapTlsRuns.RunSafe` | src/lib/eap/tls.c:506-521 | over every run phase 2 means the handshake finished, and success is reported only then and with nothing left to send |
| `EapTlsRuns.RunKeepsTransfer` | src/lib/eap/tls.c:655-788 | without INVALID packets, the buffer always holds exactly what was received, within the declared length, if and only if no whole record was larger than the buffer |
| `EapTlsRuns.OversizeThenFirst` | src/lib/eap/tls.c:1026-1039 | the run that breaks it: a whole record that is too large, then an empty first fragment |
| `EapTlsRuns.FragmentedRecordExact` | src/lib/eap/tls.c:655-788 | a fragmented record that completes is the concatenation of its fragments and as long as the two octets that are read declare |
| `EapTlsRuns.DeclaredLengthExact` | src/lib/eap/tls.c:655-661 | it is as long as all four octets declare if and only if the first two are zero |
| `EapTlsRuns.OverrunNeverCompletes` | src/lib/eap/tls.c:729-775 | no packets complete a transfer that received more than declared |
| `EapTlsRuns.StaleBytesPrefixNextRecord` | src/lib/eap/tls.c:1026-1039 | the next whole record is handed over as sent if and only if nothing was left in the buffer |
| `EapTlsRuns.GivenUpTransferLeaves` | src/lib/eap/tls.c:729-775 | the run that leaves something: first and last fragment do not add up, and the next record has the first before it |
| `EapTlsOutcomes.VerdictExactly` | src/lib/eap/tls.c:553-789 | the verdict on every packet that is no acknowledgement, from its octets and the transfer under way |
| `EapTlsOutcomes.AckOutcome` | src/lib/eap/tls.c:482-535 | the answer to an acknowledgement: next fragment, end of the handshake, alert or refusal, and phase 2 and content type afterwards |
| `EapTlsOutcomes.StrayAck` | src/lib/eap/tls.c:612-628 | an acknowledgement with another identifier is INVALID and changes nothing |
| `EapTlsOutcomes.FragmentOutcome` | src/lib/eap/tls.c:1011-1039 | a fragment that is not the last is kept and acknowledged with the base flags, or FAIL if it does not fit |
| `EapTlsOutcomes.ApplicationOutcome` | src/lib/eap/tls.c:1046-1064 | a record after the handshake: COMPLETE, MORE or FAIL by what decrypting it came to |
| `EapTlsOutcomes.HandshakeOutcome` | src/lib/eap/tls.c:800-907 | a record during the handshake: FAIL, the first fragment of what OpenSSL wrote, or ESTABLISHED with phase 2 |
| `EapTlsOutcomes.RefusedOutcome` | src/lib/eap/tls.c:957-1109 | a record that does not fit is FAIL, a packet of no other kind INVALID |
| `EapTlsOutcomes.EstablishedExactly` | src/lib/eap/tls.c:1072-1090 | ESTABLISHED if and only if one of two conditions on packet, session and OpenSSL holds; phase 2 afterwards |
| `EapTlsOutcomes.PushExactly` | src/lib/eap/tls.c:370-443 | application data is sent from its first fragment on, once the handshake is finished |
| `EapTlsOutcomes.MtuExactly` | src/lib/eap/tls.c:1250-1265 | the fragment size that the configuration and Framed-MTU lead to |
| `EapSession.Round.Compose` | src/lib/eap/compose.c:153-292 | identifier, type, octets and RADIUS code of a reply; Success and Failure are exactly four octets; an unknown code is a rejection unless proxied |
| `EapSession.Round.Fail` | src/lib/eap/compose.c:501-515 | a Failure with the response's identifier, unless the method set identifiers itself |
| `EapSession.Round.Success` | src/lib/eap/compose.c:520-526 | a Success with the response's identifier, unless the method set it |
| `EapSession.Round.Continue` | src/lib/eap/compose.c:490-496 | a request whose identifier follows the response's |
| `EapSession.Conversation.Thaw` | src/lib/eap/session.c:185-199 | the bound session, thawed; the assertion holds exactly if it was frozen |
| `EapSession.Conversation.Freeze` | src/lib/eap/session.c:153-160 | the session is frozen and stays bound |
| `EapSession.Conversation.Destroy` | src/lib/eap/session.c:107-134 | no session is bound |
| `EapSession.Conversation.Continue` | src/lib/eap/session.c:288-469 | the session afterwards on every exit; the caller's packet pointer is always NULL |
| `EapSession.Conversation.TakeTurn` | src/modules/rlm_eap/rlm_eap.c:389-459 | one turn of a conversation, whatever code and result the method left: the session afterwards as `Step` says and the packet sent as `Sent` says, LEAP included |
| `EapSession.RefusalEndsSession` | src/modules/rlm_eap/rlm_eap.c:400-420 | a method that fails or rejects ends the session with a Failure |
| `EapSession.RunBounded` | src/lib/eap/session.c:327-400 | no session accepts more than fifty packets, nor sends more requests than it accepted packets |
| `EapSession.ThawAssertionFailsExactly` | src/lib/eap/session.c:185-199 | the thaw assertion of the next turn fails if and only if the last turn left by one of two exits |
| `EapSession.StepConsecutive` | src/lib/eap/compose.c:171-207 | a turn adds at most one identifier, the successor of the last |
| `EapSession.RequestIdsDistinct` | src/lib/eap/compose.c:171-207 | all request identifiers of a session differ, although they wrap at 256 |
| `EapSessionRuns.AcceptedExactly` | src/lib/eap/session.c:288-469 | a turn is taken if and only if type, rounds and User-Name are right, each spelled out |
| `EapSessionRuns.RefusedExactly` | src/lib/eap/session.c:405-460 | what a refused turn leaves bound |
| `EapSessionRuns.AcceptedLeaves` | src/modules/rlm_eap/rlm_eap.c:420-455 | what an accepted turn leaves: nothing, or the frozen session with its identifiers |
| `EapSessionRuns.SentExactly` | src/lib/eap/compose.c:89-145 | the octets an accepted turn sends |
| `EapSessionRuns.RadiusCodeExactly` | src/lib/eap/compose.c:250-283 | which reply is a challenge, an acceptance or a rejection |
| `EapSessionRuns.IdentityIsFirst` | src/lib/eap/session.c:210-258 | the identity of a session is what its first packet said |
| `EapSessionRuns.FiftyAccepted` | src/lib/eap/session.c:327-400 | the first fifty packets of a steady peer are accepted and the next is not |
| `Radsniff.Tracked.Answer` | src/bin/radsniff.c:1461-1480 | a response is linked, or counted as a retransmission of one |
| `Radsniff.Tracked.Repeat` | src/bin/radsniff.c:1660-1683 | a repeated request forgets its response |
| `Radsniff.Matcher.Insert` | src/bin/radsniff.c:1733-1741 | an insertion succeeds exactly if the key is free |
| `Radsniff.Matcher.Delete` | src/bin/radsniff.c:972-1003 | a deletion succeeds exactly for the request found under its key |
| `Radsniff.Matcher.Free` | src/bin/radsniff.c:972-1003 | exactly this request leaves the tree, once, with its timer off; the assertion holds |
| `Radsniff.Matcher.PacketCleanup` | src/bin/radsniff.c:1005-1074 | its assertions hold; what is counted is the loss and the retransmission bins |
| `Radsniff.Matcher.CountRetransmits` | src/bin/radsniff.c:1054-1072 | one bin, always in range |
| `Radsniff.Matcher.CleanupNow` | src/bin/radsniff.c:1182-1189 | the invariant is kept and the request is gone |
| `Radsniff.Matcher.TimerFired` | src/bin/radsniff.c:1076-1082 | the invariant is kept and the matcher moves as `Step` says |
| `Radsniff.Matcher.StatsTick` | src/bin/radsniff.c:844-847 | the counters of the reported codes start again, all others are kept |
| `Radsniff.Matcher.StartTimer` | src/bin/radsniff.c:1744-1758 | a member has a timer; without one the request is freed |
| `Radsniff.Matcher.LinkResponse` | src/bin/radsniff.c:1461-1491 | a response is linked to its request and the timer restarted |
| `Radsniff.Matcher.CountReceived` | src/bin/radsniff.c:1772-1790 | one count received, and one linked for each side |
| `Radsniff.Matcher.CountResponse` | src/bin/radsniff.c:1767-1790 | a response counts once as received, and once as linked on either side or as unlinked |
| `Radsniff.Matcher.ResponseCaptured` | src/bin/radsniff.c:1381-1514 | the response half of the matcher, every filter included |
| `Radsniff.Matcher.FindOriginal` | src/bin/radsniff.c:1627-1645 | another authenticator ends the old request; otherwise the request is repeated |
| `Radsniff.Matcher.RequestCaptured` | src/bin/radsniff.c:1516-1758 | the request half of the matcher; the insertion never conflicts |
| `Radsniff.Matcher.TrackRequest` | src/bin/radsniff.c:1660-1758 | a new or repeated request is in the tree with its timer running |
| `Radsniff.Matcher.Recall` | src/bin/radsniff.c:1660-1741 | the repeated request updated, or a new one inserted |
| `Radsniff.Matcher.InsertNew` | src/bin/radsniff.c:1733-1741 | the assertion that there is no conflict holds |
| `Radsniff.Matcher.PacketCaptured` | src/bin/radsniff.c:1205-1790 | every captured packet keeps the invariant and moves the matcher as `Step` says |
| `RadsniffLaws.StepBalanced` | src/bin/radsniff.c:1447-1509 | every event keeps the balance of received, linked and unlinked |
| `RadsniffLaws.RunBalanced` | src/bin/radsniff.c:1772-1790 | always, received = linked + unlinked per response code, and links over request codes equal links over response codes |
| `RadsniffLaws.StepPartition` | src/bin/radsniff.c:1516-1758 | every event keeps each request either outstanding or removed once |
| `RadsniffLaws.RunPartition` | src/bin/radsniff.c:1005-1074 | every request ever created was removed exactly once or is outstanding |
| `RadsniffLaws.CleanupTallied` | src/bin/radsniff.c:1005-1074 | a cleanup counts a loss only when the timer fired on it, and retransmissions in one bin per direction |
| `RadsniffLaws.RunTallied` | src/bin/radsniff.c:1005-1074 | in every interval the lost counter and every bin are the tally of that interval's removals |
| `RadsniffMatches.RunStands` | src/bin/radsniff.c:1691-1741 | in every reachable state each entry stands for the request captured under its number, endpoints reversed |
| `RadsniffMatches.Codes` | src/bin/radsniff.c:62-77 | which codes are requests, responses and reported |
| `RadsniffMatches.LinkedExactly` | src/bin/radsniff.c:1393-1482 | a response let through is counted as linked if and only if an outstanding request has its identifier and reversed endpoints |
| `RadsniffMatches.ResponseLinked` | src/bin/radsniff.c:1461-1491 | it is that request that is linked, and both sides are counted |
| `RadsniffMatches.ResponseUnlinked` | src/bin/radsniff.c:1492-1509 | a response that no request awaits is unlinked, or dropped when requests are filtered |
| `RadsniffMatches.ResponseRefused` | src/bin/radsniff.c:1400-1457 | a response refused by a filter takes its request along silently; other refusals change nothing |
| `RadsniffMatches.ResponseIgnored` | src/bin/radsniff.c:1400-1440 | refused with no request that awaits it, a response leaves no trace |
| `RadsniffMatches.RequestRepeats` | src/bin/radsniff.c:1656-1687 | same identifier, endpoints and authenticator as an outstanding request: a retransmission of that one |
| `RadsniffMatches.RequestReuses` | src/bin/radsniff.c:1627-1645 | another authenticator ends the outstanding request, as reused or answered, and a new one begins |
| `RadsniffMatches.RequestBegins` | src/bin/radsniff.c:1688-1741 | with no outstanding request between its endpoints a new one begins |
| `RadsniffMatches.RequestIgnored` | src/bin/radsniff.c:1516-1600 | a request that a check refuses leaves no trace |
| `RadsniffMatches.RequestFiltered` | src/bin/radsniff.c:1647-1654 | a request its attributes exclude is not noted, though it ends one it does not repeat |
| `RadsniffMatches.TimerExactly` | src/bin/radsniff.c:1076-1082 | the timer removes its request, and counts it lost exactly without an answer and without silence |
| `RadsniffMatches.NoTimerNoCount` | src/bin/radsniff.c:1482-1491 | a request whose timer cannot be set again is removed and counted nowhere |
| `RadsniffLaws.AddMsNormalised` | src/bin/radsniff.c:179-187 | the sum is the right time, and normalised exactly when the microseconds do not add up to one million |
| `Hex.Print` | src/bin/unit_test_attribute.c:352-375 | two digits per octet with spaces between, or nothing when it does not fit |
| `Hex.ParseInPlace` | src/bin/unit_test_attribute.c:481-513 | output over its own input gives what a buffer of its own would, for every text |
| `Hex.CharactersExactly` | src/bin/unit_test_attribute.c:481-513 | digits in either case, white space, and the terminator |
| `Hex.SkipInPlace` | src/bin/unit_test_attribute.c:481-513 | skips spaces in the part of the text that is not overwritten yet |
| `Hex.ParsePrinted` | src/bin/unit_test_attribute.c:481-513 | the rest of a printed text is parsed to the rest of the octets |
| `Hex.PrintedParses` | src/bin/unit_test_attribute.c:1289-1297 | the parser inverts the printer on every octet string that is not empty |
| `Hex.TerminatorTakenForDigit` | src/bin/unit_test_attribute.c:481-513 | an accepted text has its terminator taken for a digit if and only if it ends with an odd number of characters after the last space |
| `Hex.LoneDigitAccepted` | src/bin/unit_test_attribute.c:481-513 | the shortest such texts: a digit alone, as an octet that is not that digit |
| `RawAttribute.FragmentsJoin` | src/bin/unit_test_attribute.c:732-781 | an independent reader of the fragments gets the payload back |
| `RawAttribute.CheckedRoomSuffices` | src/bin/unit_test_attribute.c:732-781 | the fragments stay within the given octets if and only if the repeated headers fit; the check made is enough exactly for one fragment |
| `RawAttribute.SplitOff` | src/bin/unit_test_attribute.c:757-778 | one round of the loop: a full fragment with the M bit, the rest moved behind a copy of the header |
| `RawAttribute.FragmentInPlace` | src/bin/unit_test_attribute.c:756-781 | header and payload become the fragments, in place; the total is the sum of the lengths, and nothing behind is touched |
| `RawAttribute.NestedReadsBack` | src/bin/unit_test_attribute.c:627-656 | an independent reader of the nested TLVs gets numbers and data back |
| `RawAttribute.OctetsExact` | src/bin/unit_test_attribute.c:570-591 | the numbers are exact if and only if each is below 256 |
| `RawAttribute.LevelLength` | src/bin/unit_test_attribute.c:627-656 | each level's length is its parent's less two, without wrapping |
| `RawAttribute.EncodeTlv` | src/bin/unit_test_attribute.c:627-656 | accepted exactly if it fits length octets and buffer; the return value equals the outer length octet; nothing outside its space changes |
| `RawAttribute.VendorExact` | src/bin/unit_test_attribute.c:593-625 | a vendor number is exact if and only if it is below 2^24 |
| `RawAttribute.WriteData` | src/bin/unit_test_attribute.c:516-568 | the data stands at its place, or is refused exactly when it is empty or does not fit; nothing outside its space changes |
| `RawAttribute.WriteVendor` | src/bin/unit_test_attribute.c:593-625 | the vendor's four octets |
| `RawAttribute.EncodeVsa` | src/bin/unit_test_attribute.c:658-680 | the value of a Vendor-Specific attribute, or a refusal, exactly when it is one and fits the buffer |
| `RawAttribute.EncodeEvs` | src/bin/unit_test_attribute.c:682-705 | the value of an extended Vendor-Specific attribute, or a refusal, exactly when it is one and fits the buffer |
| `RawAttribute.EncodeExtendedData` | src/bin/unit_test_attribute.c:707-730 | plain data, or a vendor attribute for extended type 26 |
| `RawAttribute.EncodeExtended` | src/bin/unit_test_attribute.c:707-730 | extended type and value, refused exactly when they exceed one attribute or the buffer |
| `RawAttribute.EncodeLongExtended` | src/bin/unit_test_attribute.c:732-781 | the fragments of a long extended attribute, refused exactly when its data does not fit; what is written beyond the given octets is only the fragments |
| `RawAttribute.EncodeRfc` | src/bin/unit_test_attribute.c:783-825 | the octets of any attribute, as `Encoded` defines them, or a refusal, exactly when it fits the given octets |
| `RawAttribute.VsaRoundTrip` | src/bin/unit_test_attribute.c:658-680 | a Vendor-Specific attribute reads back as given if and only if its numbers fit |
| `RawAttribute.ExtendedRoundTrip` | src/bin/unit_test_attribute.c:707-781 | an extended or long extended attribute reads back as given if and only if its numbers fit |
| `RawAttribute.EncodedRoundTrip` | src/bin/unit_test_attribute.c:783-825 | every attribute reads back as given if and only if its numbers fit |
| `RawAttribute.EncodedExactly` | src/bin/unit_test_attribute.c:783-825 | which dotted numbers and data are encoded, each shape, range and length spelled out |
| `RawAttribute.FittingExactly` | src/bin/unit_test_attribute.c:783-825 | and when they pass the checks on the room |
| `RawAttribute.NestedExactly` | src/bin/unit_test_attribute.c:627-656 | which nested TLVs are accepted |
| `RawAttribute.ReturnIsLengthOctet` | src/bin/unit_test_attribute.c:783-825 | what is returned for an attribute that is not long extended is its own length octet |
| `AkaDecode.SearchIv` | src/lib/eap_aka_sim/decode.c:116-176 | the value of the first AT_IV among the attributes that follow, found by their lengths |
| `AkaDecode.DecodeValue` | src/lib/eap_aka_sim/decode.c:527-842 | a value that is decoded is consumed whole, nested or not, encrypted or not |
| `AkaDecode.ChildrenLoop` | src/lib/eap_aka_sim/decode.c:415-511 | the attributes inside a container, padding included, in order |
| `AkaDecode.ChildProgress` | src/lib/eap_aka_sim/decode.c:415-511 | every inner attribute consumes at least four octets, within its container |
| `AkaDecode.MembersFill` | src/lib/eap_aka_sim/decode.c:251-296 | the elements fill an array, except that one is read of an array of single octets |
| `AkaDecode.ElementsLoop` | src/lib/eap_aka_sim/decode.c:298-354 | the elements of an array in order; the position never passes its end |
| `AkaDecode.DecodeArray` | src/lib/eap_aka_sim/decode.c:298-354 | an array consumes at least its header and no more than its value |
| `AkaDecode.AttributesLoop` | src/lib/eap_aka_sim/decode.c:997-1008 | the attributes of a packet in order, to the last octet |
| `AkaDecode.DecodePacket` | src/lib/eap_aka_sim/decode.c:963-1027 | a packet is decoded exactly if all its attributes are, with the subtype last in the list |
| `AkaDecode.PairProgress` | src/lib/eap_aka_sim/decode.c:852-914 | an attribute consumes at least four octets and at most its own Length, within the data |
| `AkaDecode.WholeUnlessShort` | src/lib/eap_aka_sim/decode.c:298-354 | an attribute is consumed whole, except exactly an array that announces no content |
| `AkaVector.ChildrenAhead` | src/lib/eap_aka_sim/decode.c:415-511 | a container decodes alike whether the vector is known or not yet |
| `AkaVector.PairAhead` | src/lib/eap_aka_sim/decode.c:116-176 | so does any one attribute, looking ahead if it must |
| `AkaVector.LookAheadIsKnowing` | src/lib/eap_aka_sim/decode.c:146-176 | decoding with the vector still to be found equals decoding with it known |
| `AkaVector.InnerVectorReplaces` | src/lib/eap_aka_sim/decode.c:415-511 | after a container the vector is the last one stated in it; it is unchanged if and only if that is the same |
| `AkaVector.PairUses` | src/lib/eap_aka_sim/decode.c:569-572 | an attribute leaves the vector as it is and records the decryption it asks for |
| `AkaVector.EveryContainerUsesTheVector` | src/lib/eap_aka_sim/decode.c:146-176 | every encrypted container is decrypted once, in order, with the one vector of the packet, wherever AT_IV stands |
| `AkaVector.PairLocal` | src/lib/eap_aka_sim/decode.c:852-914 | with the vector known, what follows an attribute matters only for its length modulo four |
| `AkaVector.StatedAnywhere` | src/lib/eap_aka_sim/decode.c:569-572 | with the vector known, AT_IV only adds itself to the list |
| `AkaVector.VectorMayComeLater` | src/lib/eap_aka_sim/decode.c:997-1008 | AT_IV in front of some attributes or behind them: the same verdict, decryptions and attributes |
| `AkaWire.ValueDecodes` | src/lib/eap_aka_sim/decode.c:527-842 | a value of any type, written as section 8.1 of RFC 4187 says, decodes to itself |
| `AkaWire.ArrayDecodes` | src/lib/eap_aka_sim/decode.c:298-354 | an array decodes to all its elements if and only if they are not single octets or there is at most one |
| `AkaWire.InsideDecodes` | src/lib/eap_aka_sim/decode.c:415-511 | the attributes inside a container decode to themselves, up to the padding |
| `AkaWire.ItemDecodes` | src/lib/eap_aka_sim/decode.c:852-914 | any attribute, array or container, encrypted or not, decodes to what is read of it |
| `AkaWire.NotShort` | src/lib/eap_aka_sim/decode.c:298-354 | an array as it is written is never one that is consumed only in part |
| `AkaWire.PacketReadWhole` | src/lib/eap_aka_sim/decode.c:251-296 | all of a packet is read if and only if no array has more than one element of a single octet |
| `AkaWire.PacketDecodes` | src/lib/eap_aka_sim/decode.c:963-1027 | a packet with AT_IV anywhere is decoded, each encrypted container decrypted once with the vector; to exactly its attributes under the same condition |
| `AkaLawful.UnknownRefused` | src/lib/eap_aka_sim/decode.c:884-900 | a packet with an unknown attribute that may not be skipped, before any short array, is refused |
| `AkaLawful.UnknownSkipped` | src/lib/eap_aka_sim/decode.c:884-900 | one that may be skipped is kept as it is |
| `AkaLawful.DecodedInsideLawful` | src/lib/eap_aka_sim/decode.c:415-511 | inside a container that is decoded all attributes are known or may be skipped, and padding is zeros |
| `AkaLawful.DecodedIsLawful` | src/lib/eap_aka_sim/decode.c:997-1008 | the same of a whole packet, with every encrypted container of whole blocks and decrypted as recorded |
| `AkaLawful.ValueExactly` | src/lib/eap_aka_sim/decode.c:527-842 | a single attribute is decoded to a value if and only if that is what its octets mean |
| `Retries.RunShape` | src/bin/radclient.c:735-945 | a request waits for a reply exactly while it holds an id, and then is neither done nor freed |
| `Retries.RunBounded` | src/bin/radclient.c:764-945 | tries, resends and transmissions within bounds over every run without a late failure |
| `Retries.TransmissionBound` | src/bin/radclient.c:764-945 | tries from 1 to retries, resends up to resend_count, transmissions up to their product |
| `Retries.ResendBoundExactly` | src/bin/radclient.c:1022-1108 | the resend bound holds at the next visit if and only if no reply to the last packet due failed to decode |
| `Retries.NoBoundAfterLateFailure` | src/bin/radclient.c:1022-1108 | after such a failure a request is sent any number of times |
| `Retries.LateFailureHappens` | src/bin/radclient.c:1022-1108 | the shortest run that exceeds the bound |
| `RetryTimes.VisitWaiting` | src/bin/radclient.c:873-935 | a visit to a waiting request does nothing before the timeout, then transmits, or gives up exactly after `retries` transmissions under the id |
| `RetryTimes.VisitFresh` | src/bin/radclient.c:774-871 | a request without an id is transmitted exactly if one is found |
| `RetryTimes.VisitDone` | src/bin/radclient.c:1525-1531 | a request that is done is freed |
| `RetryTimes.TransmissionsApart` | src/bin/radclient.c:885-897 | transmissions under one id are at least the timeout apart |
| `RetryTimes.ReplyExactly` | src/bin/radclient.c:1022-1108 | what a reply changes, and that it changes nothing unless verified and awaited |
| `RetryTimes.SentAtEveryDueVisit` | src/bin/radclient.c:764-945 | without replies a request is sent at every due visit, `retries` times at most, and freed at the next |
| `RetryTimes.AnsweredIsSentOften` | src/bin/radclient.c:1022-1108 | with every packet answered a request is sent `resend_count` times and freed |
| `Radclient.Client.Append` | src/bin/radclient.c:652-670 | the request is last in the list; head, tail and links represent it; the assertions hold |
| `Radclient.Client.Remove` | src/bin/radclient.c:170-194 | exactly this request leaves the list, wherever it stands; the assertions hold |
| `Radclient.Client.FreeAssertions` | src/bin/radclient.c:170-194 | the assertions allow a request in no list exactly when the list is empty |
| `Radclient.Client.Deallocate` | src/bin/radclient.c:735-757 | the id is given back exactly if the packet was still in the packet list and its socket is found |
| `Radclient.Client.Answer` | src/bin/radclient.c:1022-1108 | what a reply does to its request: verified or not, decoded or not, last or not |
| `Radclient.Client.Accept` | src/bin/radclient.c:1022-1108 | the same keeps the client valid and the request's history true |
| `Radclient.Client.Receive` | src/bin/radclient.c:950-1108 | a reply reaches only the request that waits for it, never a freed one |
| `Radclient.Client.Transmit` | src/bin/radclient.c:930-944 | one transmission; on failure the id is given back and the request over |
| `Radclient.Client.SendPacket` | src/bin/radclient.c:764-945 | first send, waiting, giving up or retransmission; its assertions hold, that there is no reply among them |
| `Radclient.Client.Allocate` | src/bin/radclient.c:774-870 | an id on a socket of the packet list, opened if need be; tries and resends start and count |
| `Radclient.Client.GiveUp` | src/bin/radclient.c:901-923 | the request is over and in no list, and keeps its id |
| `Radclient.Client.Visit` | src/bin/radclient.c:764-945 | the same keeps the client valid; a request that fails waits for no reply |
| `Radclient.Client.Turn` | src/bin/radclient.c:1516-1605 | one turn of the walk: its fate as its history and the world lead to, what is sent, the quota of its file, and nothing else |
| `Radclient.Client.SendIfAllowed` | src/bin/radclient.c:1538-1605 | the turn of a request that is not done: it waits exactly if its quota is used up, else it is sent |
| `Radclient.Client.Advance` | src/bin/radclient.c:1516-1605 | the `next` read first is still the request to go on with |
| `Radclient.Client.Walk` | src/bin/radclient.c:1504-1612 | visits in order up to a failure, never touches a freed request, removes exactly what is over; when it reports the end, and that all left are then sent often enough exactly if those behind a failure were |
| `Radclient.FailedSendAbandons` | src/bin/radclient.c:1545-1556 | a walk that reports the end with a request never sent |
| `Radclient.Client.Rounds` | src/bin/radclient.c:1504-1620 | the list stays intact over any number of rounds, what left it is over, and at the end no reply is awaited |
| `Radclient.Client.WithinBounds` | src/bin/radclient.c:764-945 | every request, listed or freed, keeps to the transmission bound |
| `Radclient.WindowKept` | src/bin/radclient.c:1534-1552 | of requests of one file that stand together, one walk sends at most the configured number |
| `Radclient.WindowExactly` | src/bin/radclient.c:1534-1552 | of requests of one file that stand together and are not over, the first `parallel` are sent and the others wait |

## Left out

- OpenSSL, AES, key derivation and the TLS 1.3 commitment message: OpenSSL and the cipher are parameters that answer as they like.
- `tls_session->invalid`, and the resumption and caching of TLS sessions.
- eap_start, virtual servers and channel binding.
- EapPacket.Reply.WireFormat: type data over 65530 octets, whose length wraps in the source so that the copy overruns the packet it allocated; the same holds for EapSession.Round.Compose.
- radsniff: the mode that links by attributes, pcap files, latencies, printing, collectd, and shutting down.
- The unit test tool: text tokenising and quoted string data; dotted numbers and data are given, and every refusal is 0.
- RawAttribute.EncodeRfc: buffers too short for the headers, which the source writes without a check, and memory too short for the fragments of a long attribute; the encoders it calls ask the same.
- The AKA encoder, identities and vectors; the dictionaries, which are parameters (the theorems on the vector ask that containers are not nested).
- AkaDecode: the look-ahead, the loops over containers, arrays and packets are methods; the values in between are functions.
- radclient: options, passwords, sleeping times and the summary counters; the packet list is a set of requests and a set of sockets, which only grows.
- Radclient.Client.Rounds: runs a given number of rounds, because the original loop need not end; whether a round sleeps is a parameter.
- EapSession.Conversation.TakeTurn: what a method does with a packet is a parameter; under code 0 only the header and the length of what is sent are determined.
