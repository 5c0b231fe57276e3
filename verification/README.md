# Verification of the NRP daemon

This project is a Dafny 4.11 model of nrpd, a daemon whose nodes ask each other for entropy and for the addresses of
other nodes over UDP, together with proofs about it. `dafny verify dfyconfig.toml` checks everything.

What is modelled, file by file:

- `Wire.dfy`, `Grammar.dfy`: packets as values and as bytes (protocol.h), and what it means for a buffer to be a packet.
- `Validator.dfy`, `Generators.dfy`: protocol.cpp, as methods over byte arrays. A buffer has 514 bytes of slack behind
  the largest packet, because the validator reads one whole header, or reject message, before it learns whether the
  message ends inside the packet.
- `Records.dfy`, `Scheduler.dfy`, `Configuration.dfy`: config.cpp. `Scheduler` says on values what each operation does
  to the server lists and which invariant all of them keep; `Configuration.NrpdConfig` is the class that updates its
  fields in place, each method proved to do exactly that.
- `MruCache.dfy`: mrucache.h, the class and whole runs of calls on it.
- `Packing.dfy`, `Server.dfy`: server.cpp. `Packing` says which messages a response has; `Server.NrpdServer` computes
  them with the loops of the source, and assembles the packet in its buffer.
  `Answers.dfy`: the response read for itself, without the steps by which it is packed.
- `Client.dfy`: client.cpp, building requests and taking responses into the lists. `Lessons.dfy`: what any response
  teaches, in terms of its entries.
- `Rotation.dfy`: which servers `GetNextServer` returns over time. `Runs.dfy`, `Contacts.dfy`: whole runs of the client
  loop over the lists, with the server thread counting and the cleaner cleaning at any moment. `History.dfy`: records,
  bans and turns over such runs, told from the reports.
- `Serving.dfy`: the server loop over a whole stream of packets. `Pacing.dfy`: a whole run of a client against it.
- `Interleaving.dfy`: a peers answer while the client thread of the same node reports on servers.
- `EndToEnd.dfy`, `Exchange.dfy`: a request of one node, the response of another, and what the first makes of it.

What the proofs found out about the code:

- **Validating a request may never end.** A message of a type the server does not interpret (7 or above) may carry the
  length 0, which does not move the cursor of the loop in `ValidatePacket` (protocol.cpp:171-182). The model gives
  such a packet the verdict `Endless`; `Grammar.EndlessExactly` says exactly which packets these are, and responses are
  never among them. A server that receives one never answers anybody again (`Serving.DeafExactly`). For the same reason
  a request may be tiled by messages of 1 to 3 bytes, and then encodes nothing (`Grammar.OverlappingRequestExists`).
- **A server can send responses that clients refuse.** It rejects types it does not know (server.cpp:361-364), but a
  reject message that names a type of 11 or above fails validation (protocol.cpp:252). And a server that has nothing to
  say to any message of a request sends the request's own header back (server.cpp:496).
  `Packing.ResponseIsLegalExactly` says, in terms of the request and of what the server holds, when this happens.
- **Servers are evicted at the fourth failure in a row.** The comment in config.h:134 says five and the constant is 5,
  but config.cpp:485 adds one more to a count that was just incremented.
- **Rotation starves half of a list of even length** as long as both lists are occupied and neither changes: both
  cursors step on every call, but only one of the two servers is returned.
- **Cached counts fall behind.** Evicting a server on probation decrements a count it was never part of, and a promotion
  increments the "unknown" mark -1 to 0. A node may then answer that it knows no server although it has one.
- **A client may be refused although it waits.** Waiting is per record, and nothing keeps one server from being put on
  probation twice (config.cpp:649). The server refuses a request that follows too soon on one through the other record,
  and the client counts a failure (`Pacing.SecondRecordIsRefused`).
- **A peers answer may claim servers it does not have** if the client thread evicts one between two looks of the server
  thread at the lists. `Interleaving.AnswerIsWholeExactly` says when.
- **A ban can get lost.** `Add` does not refresh an entry that has expired but was not cleaned yet (mrucache.h:146-152).
  `CacheRuns.BanLastsExactly` says how long a ban lasts, and `CacheRuns.CleanerIsInvisibleExactly` that this is the only
  way in which the cleaner can be noticed.

Modelling choices:

- Bytes are the integers 0 to 255; lengths are 16-bit big-endian; conversions to `unsigned char` and `unsigned short`
  are written out as remainders, as is the wrap-around of `size_t` subtraction.
- The ordered set of active servers is a strictly sorted sequence, the list of servers on probation is a sequence, and
  an iterator is `End` or a position.
- `prev(begin())`, which config.cpp takes before it erases the first element of a list, is the end sentinel. This is a
  choice; C++ gives the expression no meaning. In the red-black tree of libstdc++ it is otherwise when the first
  element of the active set is the root, that is, in a set of one, or of two with the root first: there it is the
  element itself, which is erased next, and the iterator dangles.
- A record carries an `id` that stands for the identity of the object. The library's set and list operations (find,
  emplace, erase, push_back) are functions on sequences. A `ServerRecord&` is a list and a position.
- A failing pointer argument (`nullptr`) is an `Option` where the source can pass one, and ruled out by types elsewhere.
- The clock is an argument. Each cache or list operation is one atomic step and reads the clock once. Cleaning may
  happen at any step. The time of last access starts at 0, the epoch of the clock.
- The buffers of the source have no slack: they hold 65507 bytes (server.cpp:438), and what the validator reads behind
  them is whatever lies there. In the model the slack is part of the buffer, or of the
  datagram received, and may hold anything. `Grammar.ShortPacketsAreDecided` says for which packets it does not matter.
- The random device is a function from the index of a request message to the bytes it offers when that message is
  answered; a read is cut to the size asked for, and an error or end of file offers nothing.
- The methods that answer one request take it that no other thread changes the active servers meanwhile. What an answer
  is if one does is the subject of `Interleaving`. Between requests anything may happen.
- A packet whose validation never ends is the outcome `Hangs` of `HandlePacket`, behind which the server loop stops.

## Model

| member | source | states |
|---|---|---|
| `Wire.Htons` | protocol.cpp:376 | two bytes that read back as the number, if it fits 16 bits |
| `Validator.ValidateMessageSize` | protocol.cpp:32-41 | accepts exactly the length fields that are the header plus count times entry size, in spite of unsigned subtraction |
| `Validator.ValidateRejectMessage` | protocol.cpp:213-268 | accepts exactly the nonempty, even-sized reject messages of at most 514 bytes whose every entry names a rejectable type and a known reason |
| `Validator.ValidateMessageHeader` | protocol.cpp:44-137 | decides the grammar of message headers for either packet kind |
| `Validator.ValidatePacket` | protocol.cpp:140-197 | computes the verdict, including that it never ends, of every buffer |
| `Grammar.AcceptsExactlyTilings` | protocol.cpp:140-197 | a packet is accepted if and only if exactly as many valid messages as its header counts fill its length, with no gap and no overrun |
| `Grammar.ValidatorDecidesGrammar` | protocol.cpp:44-210 | soundness and completeness: accepted responses are exactly the encodings of legal lists of messages, requests tiled by whole messages likewise, and the list is unique |
| `Grammar.AcceptedRejections` | protocol.cpp:213-268 | every entry of every reject message of an accepted response names one of the types 4 and 6 to 10, and a reason of 0 to 3 |
| `Grammar.OneMessageResponse` | protocol.cpp:44-197 | which responses of one message are accepted, byte by byte: the lengths agree, and it is a non-empty reject message of such entries, or peers of 6 or 18 bytes, or entropy, as many as its count says |
| `Grammar.OneMessageRequest` | protocol.cpp:44-197 | which requests of one message are accepted, byte by byte: types 4 to 6 of length 4, and types from 7 of any positive length |
| `Grammar.LegalIsAccepted` | protocol.cpp:140-210 | every legal list of messages, encoded, is accepted and parses back to itself, whatever follows it in the buffer |
| `Grammar.TiledIsLegal` | protocol.cpp:140-210 | every buffer tiled by whole messages is the encoding of the legal list it parses to |
| `Grammar.ResponseTilesAreWhole` | protocol.cpp:32-41 | an accepted response has no message shorter than its header, so the loop always advances |
| `Grammar.OverlappingRequestExists` | protocol.cpp:122-182 | an accepted request of 7 bytes that is no encoding of any legal list |
| `Grammar.EndlessMeansForever` | protocol.cpp:171-182 | the verdict Endless holds if and only if the loop is still running after every number of iterations; responses never get it |
| `Grammar.EndlessExactly` | protocol.cpp:122-182 | validation does not end if and only if the loop reaches, inside the packet, a valid header whose length is zero |
| `Grammar.EndlessRequestExists` | protocol.cpp:171-182 | there is a request whose validation never ends |
| `Grammar.SlackIsInvisible` | protocol.cpp:44-197 | two buffers that agree on the 65507 bytes of the largest packet get the same verdict if every header the loop comes to, with the entries of a reject message, lies within them |
| `Grammar.ShortPacketsAreDecided` | protocol.cpp:140-197 | so do all requests of at most 65504 bytes and all responses of at most 64994, wherever their headers lie |
| `Grammar.SlackDecidesLongRequest` | protocol.cpp:122-182 | for one request of 65507 bytes the byte behind it decides: it is accepted exactly if that is a type the server does not interpret |
| `Generators.GenerateRequestEntropyMessage` | protocol.cpp:271-283 | writes the encoding of an entropy request and nothing else, and returns where it ends |
| `Generators.GenerateResponseEntropyMessage` | protocol.cpp:286-315 | fails exactly when there is no entropy or no room and then writes nothing; otherwise writes exactly the encoding |
| `Generators.GenerateRequestPeersMessage` | protocol.cpp:318-335 | fails exactly for other types and then writes nothing; otherwise writes exactly the encoding |
| `Generators.GenerateResponsePeersMessage` | protocol.cpp:338-379 | fails exactly without a list, for other types, for no peers or no room, and then writes nothing; otherwise writes exactly the encoding of the counted entries |
| `Generators.GenerateRejectHeader` | protocol.cpp:382-394 | writes the header of a reject message of that many entries and nothing else |
| `Generators.GenerateRejectMessage` | protocol.cpp:397-413 | writes one entry, or nothing if the reason is out of range |
| `Generators.GeneratePacketHeader` | protocol.cpp:416-444 | writes the packet header after narrowing the length, or nothing for a wrong type, a length over the limit or no messages |
| `Records.Equals` | config.cpp:13-40 | operator== is equality of family, host and port |
| `Records.LessIsStrictWeakOrder` | config.cpp:13-80 | operator< is a strict weak order; it cannot tell two records apart exactly when they have the same family and host, ports ignored; operator== is finer |
| `Records.LessByBytes` | config.cpp:42-80 | which order it is: IPv4 before IPv6, and within a family the host with the lower byte at the first place where the two differ |
| `Records.PeersRoundTrip` | config.cpp:343-378 | peer entries copied into a message read back as the same addresses and ports in the same order |
| `Records.EntriesInPlace` | protocol.h:58-73 | entry i stands behind i entries of 6, or 18, bytes: first the host, then the two bytes of the port |
| `MruCaches.MruCache.Clean` | mrucache.h:40-68 | erasing while iterating leaves exactly the entries not older than a lifetime, unchanged, so that nothing is more than a lifetime older than the cleaning |
| `MruCaches.MruCache.IsPresentAdd` | mrucache.h:74-112 | true exactly for an entry younger than a lifetime, which it leaves alone; otherwise the entry is set to now; a call that starts no cleaner leaves no entry that is two lifetimes old |
| `MruCaches.MruCache.IsPresent` | mrucache.h:117-143 | true exactly for an entry younger than a lifetime; changes nothing |
| `MruCaches.MruCache.Add` | mrucache.h:146-152 | sets an absent entry to now and leaves a present one, even an expired one, as it is |
| `MruCaches.MruCache.ScheduleCleaning` | mrucache.h:163-175 | a cleaner is started only if the last cleaning was a lifetime ago, and if none is started nothing in the table is two lifetimes old, so stale entries do not pile up |
| `CacheRuns.CleanerIsInvisible` | mrucache.h:40-152 | in every interleaving with a clock that does not run backwards, every query is answered as if nothing was ever cleaned, unless some Add meets an entry that had expired; runs of the limiter have no Add |
| `CacheRuns.CleanerIsInvisibleExactly` | mrucache.h:40-152 | for every list of updates: the cleaner is invisible to all queries and at all moments if and only if no Add among them meets an expired entry |
| `CacheRuns.ExactRateLimit` | mrucache.h:70-112 | a client is refused if and only if an earlier call of it was accepted less than a lifetime ago; so two accepted calls are at least a lifetime apart |
| `CacheRuns.BansAreJustifiedAndLast` | mrucache.h:117-152 | an entry seen as present was added within the last lifetime; adding an absent key makes it present for a full lifetime, whatever is cleaned |
| `CacheRuns.BanLastsExactly` | mrucache.h:117-152 | whenever the cleaner runs and until the key is added again, it is present if and only if less than a lifetime has passed since the entry that was there at the Add, or since the Add if there was none |
| `CacheRuns.AddTakesEffectExactly` | mrucache.h:146-152 | adding a key makes it present if and only if it was absent or present already, and present for a full lifetime if and only if it was absent or its entry is as new as the Add |
| `CacheRuns.CleanerIsVisibleWithAdds` | mrucache.h:146-152 | a run with Add in which the cleaner changes an answer |
| `Scheduler.InsertKeepsSorted` | config.cpp:570 | inserting an address that is not there keeps the set strictly sorted |
| `Scheduler.SortedHasDistinctAddresses` | config.cpp:42-80 | the ordered set holds at most one record per address |
| `Scheduler.FailKeepsInvariant` | config.cpp:478-553 | reporting a failure of the current server keeps the invariant of the lists |
| `Scheduler.SucceedKeepsInvariant` | config.cpp:556-607 | reporting its success keeps it, promotion into the ordered set included |
| `Scheduler.LearnKeepsInvariant` | config.cpp:610-683 | so does learning any list of peers |
| `Scheduler.NextKeepsInvariant` | config.cpp:385-475 | so does choosing the next server, which exists exactly if a list is not empty and is then the one under the cursor of its list |
| `Scheduler.CountKeepsInvariant` | config.cpp:243-291 | so does counting; the answer never exceeds the true number and equals it right after a recount |
| `Configuration.NrpdConfig.constructor` | config.cpp:149-170 | the initial lists, cursors, counts and flag, which satisfy the invariant |
| `Configuration.NrpdConfig.ActiveServerCount` | config.cpp:243-291 | answers the cached count, or counts the family and caches it; nothing else changes |
| `Configuration.NrpdConfig.GetServerList` | config.cpp:294-382 | the entries of the first active servers of the family, as many as are known and asked for, every slot of the buffer filled with a real one |
| `Configuration.NrpdConfig.CopyServers` | config.cpp:349-379 | the loop fills the buffer completely, in the order of the set |
| `Configuration.PeersByHost` | config.cpp:349-379 | the servers listed for a family come in the order of their hosts, the lower first, each host once |
| `Configuration.PeersAreTheActive` | config.cpp:349-379 | and are exactly the active servers of the family |
| `Configuration.NrpdConfig.StepIterators` | config.cpp:387-415 | both cursors move to the cyclic successor, or to the first element from the end |
| `Configuration.NrpdConfig.GetNextServer` | config.cpp:385-475 | the next state and server as specified; a server is returned exactly if a list is not empty |
| `Configuration.NrpdConfig.IncrementServerFailCount` | config.cpp:478-553 | the state after a failure as specified, time of last access included; the iterator always matches, so the fallbacks are not reached |
| `Configuration.NrpdConfig.MarkServerSuccessful` | config.cpp:556-607 | the state after a success as specified, time of last access included; the fallback is not reached |
| `Configuration.NrpdConfig.AddServersFromMessage` | config.cpp:610-683 | refuses other message types; otherwise the peers of the message are learnt as specified |
| `Configuration.AdmittedIsFilter` | config.cpp:617-677 | of a list of peers those are put on probation that are neither banned nor active, each as often as listed, in the order of the list |
| `Configuration.LearnsExactly` | config.cpp:610-683 | learning appends records on probation and changes nothing else: a peer gets none if an active server has its address or its ban is less than a day old, and otherwise as many as the list names it, in the order of the list |
| `Configuration.AppendedAreNew` | config.cpp:630-677 | these records have never failed or been accessed, and have all capabilities on |
| `Rotation.AlternatingTurn` | config.cpp:417-474 | with both lists occupied turns alternate and both cursors step on every call |
| `Rotation.FairAlone` | config.cpp:385-475 | with one list empty, any n consecutive calls return each of the n servers of the other exactly once |
| `Rotation.FairWhenOdd` | config.cpp:385-475 | with both lists occupied, any n turns of a list of odd length n return each of its servers exactly once |
| `Rotation.OneParityWhenEven` | config.cpp:385-475 | for even n, any n / 2 turns of the list return each server of one parity exactly once |
| `Rotation.StarvedExactlyWhenOtherParity` | config.cpp:385-475 | for even n a server is ever returned if and only if its position has that parity |
| `Rotation.EvictionLosesNoTurn` | config.cpp:507-539 | after an eviction the next step of the cursor stands on the cyclic successor of the evicted server, first and only elements included; the other list is not disturbed. For the first of the active set this rests on the chosen meaning of `prev(begin())` |
| `Rotation.PromotionLosesNoTurn` | config.cpp:566-596 | so after a promotion, and the cursor of the active set stays on its server although one was inserted |
| `Runs.StepKeepsGood` | config.cpp:243-683 | every event of the client loop, of the counting server and of the cleaner keeps the invariant of the lists and the pending server under its cursor |
| `Runs.InvariantOverRuns` | config.cpp:385-607 | in every reachable state cursors are valid, flags match lists, the active set is sorted with one record per address, no count exceeds the truth, and a pending server is under its cursor. After the eviction of the first active server the cursor is valid by the chosen meaning of `prev(begin())` |
| `Runs.TurnsAlternate` | config.cpp:417-474 | over runs, whatever happens to the lists in between: the next server returned comes from the other list than the last if that has one by then, and otherwise from the same |
| `Runs.FailureAccounting` | config.cpp:478-607 | over every run a listed record has failed as often since its last success as its count says, at most 3 times; it leaves the lists exactly at the fourth failure in a row or when promoted into an active address; listed, evicted and merged records add up to all created |
| `Runs.CapabilitiesOnlyFall` | config.cpp:556-607 | over every run, through promotion: a record keeps its peer, its capabilities never come back, and no record that left comes back |
| `Runs.LagAccounting` | config.cpp:243-583 | over every run the cached count of a family lies below the truth by exactly the servers of the family evicted from probation since the last recount, plus what it was off at first if there was no recount |
| `Runs.LagStep` | config.cpp:243-583 | no other event moves the cached count away from the truth, and only counting an unknown family brings it back |
| `Runs.FirstPromotionIsUncounted` | config.cpp:573-583 | a run after which one server of a family is active and zero are counted, before and after asking |
| `Runs.EvictedStaysAway` | config.cpp:478-677 | an evicted record is unlisted at once, and no new record of its server is listed until its entry in the ban list expires, whoever recommends it and whenever the list is cleaned |
| `Runs.ReportsArePaced` | config.cpp:478-607 | a client that reports on a server is not due to ask it again, through this record, until more than 60 seconds later, whatever happens in between |
| `History.RecordsTellTheirHistory` | config.cpp:478-607 | over every run a listed record is what the reports on it make of what it was, or of a new record: the time of the last failure or success, the failures since the last success, on probation until the first success, off exactly what was called unsupported; no other event changes it |
| `History.DueExactly` | client.cpp:489-497 | a server is due exactly if more than 60 seconds have passed since the last report through its record |
| `History.BansAreACacheRun` | config.cpp:478-553 | over every run the ban list is what the cache makes of one Add for each fourth failure in a row and of the cleanings, for a lifetime of a day |
| `History.OnlyGetNextTurns` | config.cpp:478-683 | an event that neither evicts nor promotes nor admits a server moves no record and, unless it is GetNext, no cursor, and does not change whose turn it is |
| `History.EvictionClosesGap` | config.cpp:498-553 | an eviction closes the gap in its list, whose cursor steps back over it, by the chosen meaning of `prev(begin())` to the end from the first; the other list, its cursor and the turn stay |
| `History.PromotionClosesGap` | config.cpp:586-605 | a promotion does so in the list on probation |
| `History.TurnsOverRuns` | config.cpp:385-475 | however reports fall between the calls of GetNextServer, as long as no server comes or goes the n-th call returns what the n-th of as many calls in a row would |
| `Packing.AnswersFit` | server.cpp:177-303 | every answer is a well-formed message that fits the room left beside the reserved rejections |
| `Packing.PeersFitIsLargest` | server.cpp:133-162 | the number of peers in an answer is the largest that fits with a header, at most what is wanted |
| `Packing.PackingBalances` | server.cpp:334-375 | at every point of the loop the remaining bytes and the answers add up to the budget, and all rejections but the newest are paid for |
| `Packing.AtMostOneRejectionIsDropped` | server.cpp:334-410 | all rejections, or all but the newest, are emitted, in order; one is dropped exactly when room ran out, and then the loop had stopped |
| `Packing.RejectionIsSentExactly` | server.cpp:334-410 | the rejection of a message is sent if and only if the room when it was looked at had place for it, 6 bytes for the first and 2 for any other |
| `Packing.ResponseFits` | server.cpp:490-493 | the response with its header never exceeds the mtu, so the assertion holds |
| `Answers.RejectComesFirst` | server.cpp:377-410 | for every server and request, a reject message is only ever the first message of the response |
| `Answers.ResponseInTwoParts` | server.cpp:377-410 | a response is its reject message, which names refused types of the request in order, each as unsupported, and its answers |
| `Answers.ResponseBuildsUp` | server.cpp:334-410 | what one more message adds to a response: nothing without room; its type behind the others refused, if 6 bytes are left for the first or 2 for another; or its answer for the room left, behind the other answers |
| `Answers.OneAsk` | server.cpp:306-415 | the response to a request of one message: the refusal of a type that is unknown or not served, or the answer, or nothing |
| `Answers.PeersAnswerInNumbers` | server.cpp:177-239 | a peers answer lists the first n peers, as many as are known, asked for and fit, and there is none exactly if nobody is known or no entry fits |
| `Answers.EntropyAnswerInNumbers` | server.cpp:241-303 | an entropy answer holds the first n bytes of the device, as many as are offered, asked for (8 if left open) and fit, and there is none exactly if none is offered or fits |
| `Packing.ResponseIsEmptyExactly` | server.cpp:306-415 | the response has no message if and only if every message of the request is for entropy while the device yields nothing, or for a peer type that is served but of which no server is known |
| `Packing.EmptyResponseExists` | server.cpp:306-415 | a server and a valid request that gets a response without messages |
| `Packing.EarlierAnswersStand` | server.cpp:334-375 | the answers and rejections for a prefix of a request are a prefix of those for the whole: later messages displace nothing |
| `Packing.PeerCountsFitInByte` | server.cpp:231 | at most 204 peers fit, so narrowing their count loses nothing |
| `Packing.ResponseCountsFitInByte` | server.cpp:392-496 | nor does narrowing the counts of rejections and messages, which number at most the messages of the request |
| `Packing.ResponseIsLegalExactly` | server.cpp:306-415 | the response is legal if and only if the server has something to say to some message of the request, and no message of unknown type meets room for its rejection |
| `Packing.KnownRequestsAreAnswerable` | server.cpp:306-415 | requests of known types get a legal response if and only if the server has something to say to them |
| `Packing.UnknownTypeSpoilsResponse` | server.cpp:361-364 | for every server, one message of type 11 behind an entropy request makes the response illegal |
| `Requests.ValidatedRequests` | protocol.cpp:140-197 | a validated request has 1 to 255 messages, as many as its header says, none of a type requests may not have |
| `Requests.RequestFindsAll` | server.cpp:334-374 | on a validated request the loop of the server finds the messages one after another, each step moving forward |
| `Requests.AsksOfLegal` | server.cpp:334-374 | the server is asked exactly what the client encoded |
| `Server.NrpdServer.CalculateMessageSize` | server.cpp:133-162 | zero exactly if there is no room for a header or for one entry, otherwise the size for the largest count that fits |
| `Server.NrpdServer.GeneratePeersResponse` | server.cpp:177-239 | the encoding of the specified peers answer, or nothing |
| `Server.PeersAsk` | server.cpp:334-410 | in terms of the lists of a server and its two switches: a request for one peer type is refused if the family is not served, gets nothing if no server is known, and else the first active servers of the family that fit the packet |
| `Interleaving.UndisturbedIsWhole` | server.cpp:177-239 | if nothing happens between counting and copying, the answer is the specified one and all its entries are servers |
| `Interleaving.AnswerIsWholeExactly` | server.cpp:177-239 | whatever the client thread does between the three looks at the servers, all entries of the answer are servers if and only if promotions less evictions leave what is known at the second look, and what is there at the third, at least as large as the count claimed at the first |
| `Interleaving.EvictionLeavesGap` | server.cpp:189-231 | for every state in which the pending server is about to be evicted and more than one is known: one final failure between the first two looks leaves the answer one entry short of what it claims |
| `Interleaving.CountsOverRuns` | config.cpp:478-607 | over every run without counting, the cached count changes by promotions less evictions, and the true number by promotions less evictions of active servers |
| `Server.NrpdServer.GenerateEntropyResponse` | server.cpp:241-303 | the encoding of what the device yields, up to what fits, or nothing |
| `Server.NrpdServer.GenerateRejections` | server.cpp:385-405 | the encoding of the reject message for as many rejections as it has place for |
| `Server.NrpdServer.AnswerAll` | server.cpp:334-375 | the loop ends, and leaves the bytes, length, messages and rejections of the specified packing |
| `Server.NrpdServer.ParseMessages` | server.cpp:306-415 | for every validated request: the encoded messages of the specified response, rejections first, and their total length; nothing happens to the lists but counting |
| `Server.NrpdServer.AssembleResponse` | server.cpp:490-509 | the buffer starts with exactly the encoded packet, the copy ending where the length field says; with no messages it is left as it was |
| `Server.NrpdServer.HandlePacket` | server.cpp:455-509 | hangs exactly on packets whose validation never ends; answers exactly the accepted requests of clients not seen within a lifetime, with the specified response of at most the mtu of the family of the client; remembers the client exactly if it answers, and does nothing to the lists but counting; otherwise leaves the buffer alone |
| `Serving.ServerLoop` | server.cpp:417-526 | over any stream of packets, with the client table cleaned at any times in between, each packet gets the specified reply or none, up to the first that hangs the server, where the loop is stuck |
| `Serving.AcceptedTypesWereReceived` | server.cpp:438-455 | the buffer is cleared for every packet, so each message of an accepted request was itself received at least up to its type |
| `Serving.AnsweredExactly` | server.cpp:455-469 | over any stream of packets in the order of time, a request is answered if and only if no packet before it hangs the server and no request of the same client was answered less than a lifetime before |
| `Serving.NothingAnsweredExactly` | server.cpp:455-469 | from any packet on nothing is answered if and only if an earlier packet hangs the server, or every request from there on that the server lives to look at follows too soon on an answered one of the same client |
| `Serving.DeafExactly` | server.cpp:455-469 | a server will not answer anything any more, whatever it may receive, if and only if it received a packet that hangs it |
| `Serving.HangingPacketExists` | protocol.cpp:171-182 | packets of 8 bytes: one hangs the server, the other is an accepted request, whatever lies behind the buffer |
| `Pacing.RequestsArePaced` | client.cpp:489-497 | over every run of the client loop: once a contact through a record was reported on, the next request through that record is sent more than 60 seconds later, whatever happens to the lists in between |
| `Pacing.RefusedExactly` | client.cpp:489-587 | for every run of a client and every stream of packets a server receives, requests of other clients among them and the own ones in any order: a request of the client is refused if and only if the server hangs already, or answered another request of this client that it received less than a lifetime before |
| `Pacing.OnlyOthersCrowd` | client.cpp:489-497 | and those two requests went through different records of the server, or the client did not report on the earlier one, or reported before the server had received it |
| `Pacing.PacedClientIsAnswered` | client.cpp:489-587 | so a client that asks a server through one record only, and reports on every contact once the server has received the request, is answered until the server hangs |
| `Pacing.SecondRecordIsRefused` | config.cpp:610-683 | a run from the start of a node, for any server named twice in one response: the request through the first record is answered, that through the second, a second later, is refused, and the client counts a failure |
| `Interpretation.RequestsAreLegal` | client.cpp:128-220 | every request is legal, asks for entropy first, and asks for a peer type exactly if the client uses the family and the server is not known to refuse it |
| `Interpretation.RequestInBytes` | client.cpp:147-220 | the request byte by byte: its header, 8 bytes of entropy, then IPv4 and then IPv6 peers |
| `Interpretation.DisabledExactly` | client.cpp:341-395 | a reject message switches a capability off exactly if some entry calls it unsupported |
| `Lessons.ResponseTeachesExactly` | client.cpp:398-463 | taking any response puts each peer on probation as often as its messages list it, unless the client does not use the family, an active server has the address, or the peer is banned; the active servers and the bans stay |
| `Lessons.ResponseReducesExactly` | client.cpp:341-463 | and the record of the server loses exactly the capabilities its reject messages call unsupported, and is marked exactly if one says that it shuts down; nothing else in it and no other record changes, nor a cursor, the turn or a count |
| `Interpretation.InterpretKeepsInvariant` | client.cpp:398-463 | taking any response keeps the invariant and the server under its cursor |
| `Interpretation.AcceptedStands` | client.cpp:403-460 | the messages of an accepted response stand where the client's loop looks for them |
| `Client.NrpdClient.ConstructRequest` | client.cpp:147-220 | fails exactly for a buffer without room for the headers the server supports and then writes nothing; otherwise writes exactly the encoded request |
| `Client.NrpdClient.ParseRejectMessage` | client.cpp:341-395 | the server's record changes as its entries say, in order, and nothing else changes |
| `Client.NrpdClient.ParseResponse` | client.cpp:398-463 | visits exactly the messages the validator visited; the lists become what these messages make of them |
| `Client.NrpdClient.ChooseServer` | client.cpp:489-497 | the next server of the rotation, unless it was reported on too recently |
| `Client.NrpdClient.FinishContact` | client.cpp:516-587 | timeouts and refused responses are failures, any other response is parsed and is a success |
| `EndToEnd.ReplyAcceptedExactly` | server.cpp:306-509 | what the server sends back for a validated request passes the validator of the client if and only if the server has something to say to it and no message of unknown type spoils the response |
| `EndToEnd.ConstructedRequestsAreAnswered` | client.cpp:147-220 | requests built by the client get a legal response unless the device yields nothing and every peer type asked for is served but unknown; there is entropy in it once the device yields a byte |
| `EndToEnd.PeersAnswerRoundTrip` | server.cpp:177-239 | a peers answer reads back as the first peers of the family the server held, in its order |
| `EndToEnd.ExchangeTeachesClient` | client.cpp:398-463 | for every server, with or without random bytes: the client switches off what was rejected, then learns the first IPv4 and the first IPv6 active servers of the server, the most of each that fit, in its order |
| `Contacts.ContactIsRun` | client.cpp:560-587 | taking a response and marking the server is a stretch of a run of the lists, so all that holds over runs holds for it |
| `Contacts.ServingIsRun` | server.cpp:417-526 | serving a request is a stretch of a run too, of at most one count of each family |
| `Contacts.UnsupportedIsNeverAskedAgain` | client.cpp:360-376 | after a rejection as unsupported no request for that record, however much later, asks for the type; every request stays legal and asks for entropy |
| `Exchange.Contact` | client.cpp:489-587 | the code of both nodes together: the contact fails if and only if the server accepted this client less than a lifetime ago or has nothing at all to say to the request, and the client counts a failure; otherwise the client learns what the server held, and marks it successful |

## Left out

- Sockets, threads, logging, start-up and main.cpp: plumbing around the modelled functions. `ConnectServer`, `send` and
  `recv` errors make the client loop skip to the next server, which is an event `GetNext` without a report.
- Rotation.StarvedExactlyWhenOtherParity: speaks of lists that do not change; a change moves cursors and lengths, and
  with them the parity that is served.
- Exchange.Contact: takes a network that delivers both datagrams unchanged; a lost datagram is a timeout, covered by
  `FinishContact`.
- Runs.EvictedStaysAway: speaks of the entry in the ban list, which is older than the eviction if an expired one was
  still there; then the ban has no effect, as `CacheRuns.AddTakesEffectExactly` says.
- Rotation.EvictionLosesNoTurn: takes `prev(begin())` to be the end sentinel, as said above.
- Validator.ValidatePacket: needs a buffer with 514 bytes behind the largest packet, because the source may read there.
  What reading behind its own buffers of 65507 bytes does to the source is not modelled.
- Configuration.NrpdConfig.GetNextServer: with both lists empty it returns no server. The source returns the front of
  `m_configuredServers`, a list that nothing fills.
- Configuration.NrpdConfig.IncrementServerFailCount: the retry time is the constant 60 seconds, since its factor 1.25
  is 1 on whole seconds (config.cpp:482, client.cpp:358).
- Configuration.NrpdConfig.constructor: the second constructor (config.cpp:172-176) leaves all lists and counts unset.
  The two switches for peers responses, which no constructor sets, are arbitrary constants.
- Server.NrpdServer.GeneratePeersResponse: takes it that nothing is evicted between counting and copying; otherwise
  `Interleaving.AnswerIsWholeExactly` says when the answer still holds only servers. What the bytes behind a list that
  is too short are is not modelled.
- Server.NrpdServer.ParseMessages: other threads do not change the active servers while one request is answered; the
  source locks each access of its own.
- Serving.ServerLoop: the server is alone, so the lists stay the same for all packets of the stream; what may happen to
  them in between is the subject of `Runs`.
- Pacing.RefusedExactly: takes the clocks of client and server to run at the same rate, and the server to receive no
  requests of others from the address of the client.
- Client.NrpdClient.ParseResponse: without scrambling and consuming entropy, which change the content of entropy
  messages in the buffer, but no header.
- Clock entropy, hash functions, allocation failure, data races finer than one operation.
- Certificates, signing keys and secure entropy: not implemented in the source, except that the server rejects them.
- Disjointness of the two server lists: the source does not have it, since a peer on probation may be learnt again.
- Ownership of generated messages: a generated message is a byte sequence once it is complete, not a pointer that moves.
