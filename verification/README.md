# Verified model of the device SDK

A Dafny model of five parts of the C device SDK, and proofs of what they promise.

- **Hash engines** (`BlockHash`, `Sha256`, `Md5`, and `Sha256Roots`, `Sha256Example`, `Md5Example`): the streaming
  contexts with their buffer and two-word counter, the in-place compression loops and HMAC, against FIPS 180-4,
  RFC 1321 and RFC 2104 as functions, with their constants and worked examples.
- **MQTT packets** (`MqttLength`, `MqttCodec`, `MqttRequests`, `MqttServer`, `Framing`, `SendPath`, `Outgoing`,
  `TopicFilter`): variable-length integers, serialisers and deserialisers, the server's reading of the packets,
  reading packets off the byte stream, sending, wildcard matching, against MQTT 3.1.1.
- **MQTT session** (`LinkedList`, `PendingAcks`, `AckRuns`, `SubTable`, `SubClient`, `RepeatRing`, `KeepAlive`): the
  doubly linked list, the pending lists swept on it, packet ids, the subscription table, the duplicate ring, pings and
  reconnects, as invariants over all runs.
- **Firmware download** (`HttpBody`, `Ota`): receiving ranges, retrying, writing the flash, hashing and reporting.
- **Shadow documents** (`JsonScan`, `JsonPrint`, `ShadowDoc`): the scanner, the printer and the document builder.

Code that changes state is a class or a method over arrays and heap lists, proved against a function or a
state machine whose own properties are lemmas. The network, the flash and the clock are arguments: sequences
of outcomes over which every theorem quantifies. Time is an unbounded number of milliseconds.

## What turned out to be false

The code is kept as it is; for each of these the exact condition is proved.

- The topic matcher accepts more than section 4.7 of MQTT 3.1.1 in two shapes (`TopicMatcher.WrongExactly`).
- `get_mqtt_packet_len` is one too large at four lengths (`MqttLength.PacketLenExactly`).
- `send_mqtt_packet` offers each write the whole length again, so a partial write often turns a sent packet
  into a reported failure (`SendPath.SendPacket`), with bytes from behind the buffer if it is less than about
  twice as long (`SendPath.StaysInsideExactly`).
- A CONNECT without a password announces one, and one with a password but no user name breaks the protocol
  (`MqttRequests.ConnectRoundTripExactly`); a request for several filters sends tails of the first
  (`MqttRequests.RequestRoundTripExactly`).
- A short read of a body is taken for a whole packet (`Framing.Client.ReadBody`).
- Unsubscribing from a filter with a wildcard behind a separator clears every slot
  (`SubTable.ClearsOthersExactly`), and a second answer to one subscription frees or installs a filter that is not
  its own any more (`SubTable.SecondAnswerExactly`).
- An UNSUBACK for an unknown id frees through a handle that is not initialised (`SubTable.UnsubAckKeepsExactly`).
- The download returns 0 also for an image of the wrong size, which a server with a longer file leads to
  (`Ota.Client.Download`, `Ota.LongerFileExactly`).
- A request whose length is a multiple of 1024 is sent and reported as failed, and one of which a later block is
  refused is cut and reported as sent (`SendPath.SentExactly`).
- Lookup by name takes a longer key that starts with the name (`JsonScan.LookupExactly`), and cutting a text at a
  length is not undone (`JsonScan.GetValueByName`).
- The document builder subtracts its length twice: up to half the buffer nodes that fit are cut
  (`ShadowDoc.DroppedThoughItFits`), beyond it nodes are written behind the buffer
  (`ShadowDoc.ContentInsideExactly`). An update without properties is not balanced (`ShadowDoc.BalancedExactly`).
- A JSON text that ends in an open, empty string is read on behind its terminator
  (`JsonScan.StopsInsideExactly`).
- A packet that fills the buffer exactly is serialised and not sent (`Outgoing.Dispatch`), and one whose length
  does not fit 32 bits, or is longer than the standard allows, can pass the length check of a buffer that is too
  short (`MqttLength.InsideExactly`).
- MD5 counts only the low 32 bits of the length of an update (`Md5Engine.CountsExactly`,
  `Md5Spec.PaddingIsStandardExactly`).
- CONNECT for a version other than 3 and 4 is 12 bytes longer than the length it checks and announces
  (`MqttRequests.ConnectLenExactly`).

## Model

| member | source | states |
|---|---|---|
| Sha256Engine.SigmasAreTheStandard | uiot/utils/utils_sha2.c:115-122 | the shift-and-rotate macros are the four sigma functions of section 4.1.2 of FIPS 180-4, for every word |
| Sha256Engine.ChoiceFormsAreTheStandard | uiot/utils/utils_sha2.c:124-125 | the rewritten forms of Maj and Ch are the standard ones, for every three words |
| Sha256Engine.Context.Process | uiot/utils/utils_sha2.c:140-201 | the in-place loop of 64 rounds with its schedule computed on the way is the compression function of section 6.2.2 of FIPS 180-4, for every state and block; its constants are pinned by `Sha256Roots`, the whole of it by `Sha256Example.DigestOfAbc` |
| Sha256Engine.Context.Update | uiot/utils/utils_sha2.c:202-238 | after any update the context holds exactly the bytes absorbed so far: the folded state of the whole blocks, the tail in the buffer, the 64-bit count in two words; chunk sizes leave no trace |
| Sha256Engine.Context.Finish | uiot/utils/utils_sha2.c:247-277 | whatever the chunks were, the output is the SHA-256 digest of everything absorbed; bytes behind the digest stay; the output may overlap the caller's input |
| Sha256Engine.Sha256Once | uiot/utils/utils_sha2.c:279-288 | the one-shot call gives the digest of its input, also when input and output are the same array |
| Sha256Roots.ConstantsAreCubeRoots | uiot/utils/utils_sha2.c:96-113 | every round constant is the first 32 bits of the fractional part of the cube root of its prime (section 4.2.2 of FIPS 180-4) |
| Sha256Roots.PrimesInOrder | uiot/utils/utils_sha2.c:96-113 | the primes are prime and in ascending order |
| Sha256Roots.PrimesAreListed | uiot/utils/utils_sha2.c:96-113 | and none up to the last one is left out |
| Sha256Roots.InitialWordsAreSquareRoots | uiot/utils/utils_sha2.c:81-91 | the initial words come from the square roots of the first eight (section 5.3.3) |
| Sha256Example.DigestOfAbc | uiot/utils/utils_sha2.c:279-288 | the digest of "abc" is that of the published example, computed from the padding to the bytes |
| Sha256Engine.XorPad | uiot/utils/utils_sha2.c:306-315 | the padded key of section 2 of RFC 2104, for every key of at most 64 bytes |
| Sha256Engine.HmacSha256 | uiot/utils/utils_sha2.c:290-330 | HMAC-SHA-256 of RFC 2104 for every message and every key of at most 64 bytes, with the inner digest written to and read back from the output; otherwise the output is untouched |
| Sha256Engine.HmacIsRfc2104 | uiot/utils/utils_sha2.c:306-330 | the authentication code in the words of section 2 of RFC 2104, with its two pad bytes |
| BlockHash.CounterAdvances | uiot/utils/utils_sha2.c:214-219 | adding a length to the low word with a carry by comparison counts modulo 2^64 |
| BlockHash.BitLength | uiot/utils/utils_sha2.c:253-255 | the two shifted words are the 64-bit bit length |
| BlockHash.PadBitsMinimal | uiot/utils/utils_sha2.c:260-261 | the padding has 1 to 64 bytes, ends where the length field belongs, and is the shortest that does (section 5.1.1 of FIPS 180-4) |
| BlockHash.PadBitsFromTable | uiot/utils/utils_sha2.c:240-263 | the part of the padding table that is taken is that padding |
| Md5Engine.MacrosAreTheStandard | uiot/utils/utils_md5.c:126-189 | the macros F of the four rounds are the auxiliary functions of section 3.4 of RFC 1321, for every three words |
| Md5Engine.ShiftIsRotation | uiot/utils/utils_md5.c:114 | the pair of shifts is a rotation |
| Md5Engine.Round1 | uiot/utils/utils_md5.c:126-143 | sixteen unrolled steps with rotating arguments are steps 1 to 16 of RFC 1321, from every state |
| Md5Engine.Round2 | uiot/utils/utils_md5.c:147-164 | the same for steps 17 to 32 |
| Md5Engine.Round3 | uiot/utils/utils_md5.c:168-185 | the same for steps 33 to 48 |
| Md5Engine.Round4 | uiot/utils/utils_md5.c:189-206 | the same for steps 49 to 64 |
| Md5Engine.Context.Process | uiot/utils/utils_md5.c:93-214 | the block function is the compression function of RFC 1321, for every state and block |
| Md5Engine.Context.Update | uiot/utils/utils_md5.c:219-255 | the context holds exactly the bytes absorbed and the lengths of the updates; only the low 32 bits of each length are counted |
| Md5Engine.Context.Finish | uiot/utils/utils_md5.c:267-290 | the digest of RFC 1321 of everything absorbed, for any chunks below 2^32 bytes, and whenever count and length agree modulo 2^61; otherwise the digest with the length field that was counted |
| Md5Spec.PaddingIsStandardExactly | uiot/utils/utils_md5.c:273-284 | the padded message is the standard one if and only if the counted and the true length agree modulo 2^61 |
| Md5Engine.CountsExactly | uiot/utils/utils_md5.c:219-235 | over any sequence of updates the counter never runs ahead of the bytes absorbed, and agrees with them if and only if no update was as long as 2^32 bytes |
| Md5Engine.Md5Once | uiot/utils/utils_md5.c:296-305 | the one-shot call gives the MD5 digest of an input below 2^32 bytes; of a longer one the digest with a length field modulo 2^32 |
| Md5Example.DigestOfAbc | uiot/utils/utils_md5.c:296-305 | the digest of "abc" is that of section A.5 of RFC 1321, computed from the padding to the bytes |
| Md5Example.TextOfAbc | uiot/utils/utils_md5.c:314-325 | and so is its text |
| Md5Text.FinishHb2Hex | uiot/utils/utils_md5.c:314-325 | the text of the digest: 32 lower-case digits and a NUL; a reader of hexadecimal digits gets every byte of the digest back, high nibble first |
| Md5Text.HexReadsBack | uiot/utils/utils_md5.c:314-325 | the two digits of every byte of any digest stand for that byte |
| Md5Text.HexIsInjective | uiot/ota/src/ota_client.c:677-687 | comparing the texts of two digests compares the digests |
| Md5Text.FileMd5 | uiot/utils/utils_httpc.c:533-559 | the digest of a file read in pieces is that of the file |
| TopicMatcher.IsTopicMatched | uiot/mqtt/src/mqtt_client_common.c:679-722 | for every filter and non-empty topic the pointer loop ends as the walk `LoopAccepts` does, and for every valid filter it accepts exactly what the level-by-level description `Accepted` does |
| TopicSpec.LevelsExactly | uiot/mqtt/src/mqtt_client_common.c:679-722 | the levels are the pieces between the separators: joined they are the text, and none contains one |
| TopicSpec.StandardExamples | uiot/mqtt/src/mqtt_client_common.c:679-722 | matching agrees with the examples of sections 4.7.1.2 and 4.7.1.3 of MQTT 3.1.1 |
| TopicMatcher.WrongExactly | uiot/mqtt/src/mqtt_client_common.c:679-722 | whatever section 4.7 of MQTT 3.1.1 matches is accepted, and the loop accepts too much if and only if one of two shapes occurs: a last literal level before `/#` that is a proper prefix of the topic's level, or a topic that is exhausted behind a `/` at a `+` with more than a `#` to follow |
| TopicMatcher.ExactWithoutHash | uiot/mqtt/src/mqtt_client_common.c:679-722 | for filters without `#` and topics that do not end in `/` acceptance is exactly the standard's matching |
| TopicMatcher.OverMatchesOccur | uiot/mqtt/src/mqtt_client_common.c:688-721 | both shapes occur: `a/#` accepts `ab`, `a/+/b` accepts `a/` |
| LinkedList.List.RPush | uiot/utils/utils_list.c:66-84 | both chains, head, tail and length agree with the list of nodes with one more at the end |
| LinkedList.List.LPush | uiot/utils/utils_list.c:133-151 | the same at the front |
| LinkedList.List.RPop | uiot/utils/utils_list.c:89-106 | the last node comes off, detached, and the chains agree with the rest |
| LinkedList.List.LPop | uiot/utils/utils_list.c:111-128 | the same for the first node |
| LinkedList.List.Remove | uiot/utils/utils_list.c:218-230 | any node is unlinked from both chains, the others stay in order |
| LinkedList.ListIterator.Next | uiot/utils/utils_list.c:259-266 | the iterator hands out its node and moves on in its direction |
| LinkedList.Find | uiot/utils/utils_list.c:156-182 | the first node whose value is equal, or is accepted by the match callback of the list if there is one; none if there is none |
| LinkedList.NodeAt | uiot/utils/utils_list.c:187-213 | the node at an index, counted from the end if it is negative, or none |
| PendingAcks.Sweep | uiot/mqtt/src/mqtt_client_yield.c:260-337 | the tail-to-head walk with deferred removal leaves exactly the live, unexpired entries in their order, and emits one event for each expired live entry and none for acknowledged ones |
| PendingAcks.SweepDecides | uiot/mqtt/src/mqtt_client_yield.c:309-327 | an entry survives a sweep if and only if it is not answered and, on a live connection, its deadline is still to come; it is reported if and only if it is not answered and its deadline has come on a live connection |
| PendingAcks.Mask | uiot/mqtt/src/mqtt_client_common.c:784-869 | exactly the entries with the acknowledged id are marked, and the one nearest the head is handed back |
| AckRuns.StepKeeps | uiot/mqtt/src/mqtt_client_publish.c:285-353 | every operation keeps: at most as many entries as the limit; each entry listed is pending or has left once, by acknowledgement, time-out or failed send; an acknowledged one is never reported as timed out; entries stand in the order of their requests |
| AckRuns.InvOverRuns | uiot/mqtt/src/mqtt_client_yield.c:260-337 | and so does every run of requests, acknowledgements, sweeps, ticks and connection changes |
| AckRuns.RequestTimesOutExactly | uiot/mqtt/src/mqtt_client_yield.c:260-337 | over every run in which it is not answered, a request that was listed and sent is pending until a sweep comes, on a live connection, at or after its time plus the command timeout; then, and only then, it is reported |
| AckRuns.SweptAfterPause | uiot/mqtt/src/mqtt_client_yield.c:309-327 | with only a pause between request and sweep: if and only if the pause is not shorter than the timeout |
| AckRuns.WaitsExactly | uiot/mqtt/src/mqtt_client_yield.c:260-337 | the same for any entry of the list and its deadline |
| AckRuns.AnsweredLeavesExactly | uiot/mqtt/src/mqtt_client_yield.c:298-302 | an answered request goes with the next sweep, connected or not, and is never reported |
| AckRuns.AckAnswers | uiot/mqtt/src/mqtt_client_common.c:784-824 | an acknowledgement answers every request with its id |
| AckRuns.StartSatisfiesInv | uiot/mqtt/src/mqtt_client_common.c:1338-1386 | which starts from empty lists |
| AckClient.ListsStayShort | uiot/mqtt/src/mqtt_client_publish.c:83-87 | over every run the publish list has at most 20 entries and the subscribe list at most 10 |
| AckRuns.PendingIdsDistinct | uiot/mqtt/src/mqtt_client_common.c:55-63 | two pending entries have different ids while they lie less than 65535 requests apart |
| PacketIds.IdAfterIsModular | uiot/mqtt/src/mqtt_client_common.c:55-63 | the id after n allocations; never 0 |
| PacketIds.IdsRepeatExactly | uiot/mqtt/src/mqtt_client_common.c:55-63 | two allocations have the same id if and only if their distance is a multiple of 65535 |
| AckClient.Client.Request | uiot/mqtt/src/mqtt_client_publish.c:285-353 | on the heap list: a request takes an id, is listed unless the list is full, and is withdrawn again if sending fails, with the result of the step that failed |
| AckClient.Client.HandleAck | uiot/mqtt/src/mqtt_client_common.c:874-899 | on the heap list: an acknowledgement is the step of the run |
| AckClient.Client.Proc | uiot/mqtt/src/mqtt_client_yield.c:260-337 | on the heap list: a sweep is the step of the run, with the ids of the expired entries as events |
| AckClient.OneEventPerExpiry | uiot/mqtt/src/mqtt_client_yield.c:321-327 | the events of a sweep are the expiries of the run, one each |
| SubTable.SubAckKeepsExactly | uiot/mqtt/src/mqtt_client_common.c:904-1001 | an answer to a listed subscription, the first or a later one, keeps the table without two identical entries, every filter string with exactly one owner and every free single, if and only if the request still waited and the filter is refused, redundant or finds a free slot, or neither |
| SubTable.SecondAnswerExactly | uiot/mqtt/src/mqtt_client_common.c:829-987 | a second answer to a subscription is harmless if and only if it grants a filter for which there is no place; after a grant it never is |
| SubTable.UnsubAckKeepsExactly | uiot/mqtt/src/mqtt_client_common.c:1006-1055 | an answer to an unsubscribe request keeps the owners if and only if the request still waited or, for an unknown id, the handle that nobody has initialised is null |
| SubTable.StepKeepsExactly | uiot/mqtt/src/mqtt_client_common.c:829-1055 | every operation of the client keeps the invariant, the answers exactly when they are fair in that sense |
| SubTable.ClearKeeps | uiot/mqtt/src/mqtt_client_unsubscribe.c:109-121 | clearing slots on unsubscribe frees each filter once and keeps the invariant |
| SubTable.SweepKeeps | uiot/mqtt/src/mqtt_client_yield.c:345-439 | the sweep of the pending requests frees each filter that has timed out once and keeps it |
| SubTable.InvOverRuns | uiot/mqtt/src/mqtt_client_common.c:829-1055 | so in every state of every run from an empty table with fair answers, entries are pairwise different and no filter string is lost, owned twice, used after it was freed or freed twice |
| SubTable.RequestTimesOutExactly | uiot/mqtt/src/mqtt_client_yield.c:345-439 | over every run in which it is not answered, a request for a subscription or its end waits until a sweep comes, on a live connection, at or after its time plus the timeout, and no longer |
| SubTable.AskedIsListed | uiot/mqtt/src/mqtt_client_common.c:1338-1386 | what is listed: kind, filter, callback, QoS, user data, id and deadline as asked for |
| SubTable.AnswerDecides | uiot/mqtt/src/mqtt_client_common.c:904-1001 | a subscription asked for and granted stands in the first free slot, with callback, QoS and user data, unless its filter and callback are there already or no slot is free; a refusal leaves the table as it is |
| SubTable.IdsDistinct | uiot/mqtt/src/mqtt_client_common.c:55-63 | the ids drawn from the counter tell the listed requests apart while none is older than 65534 allocations |
| SubTable.ReconnectKeepsTable | uiot/mqtt/src/mqtt_client_subscribe.c:175-205 | resubscribing after a reconnect, and then answers to these requests in any order and number, granting or refusing, among sweeps, time-outs, other requests and unsubscribe answers, leave the table as it was |
| SubTable.ResubscribedKeeps | uiot/mqtt/src/mqtt_client_subscribe.c:175-205 | resubscribing keeps the invariant, however many requests fail |
| SubTable.AllAskedAgain | uiot/mqtt/src/mqtt_client_subscribe.c:175-205 | with room in the list and every request sent, each occupied slot is asked for again, with filter, callback, QoS and user data, and nothing else is |
| SubTable.ClearsOthersExactly | uiot/mqtt/src/mqtt_client_unsubscribe.c:109-121 | unsubscribing empties a slot with another filter if and only if the text has a wildcard behind a separator - for a valid filter: a level after the first is `+` or `#` - and there is such a slot; and then it empties the whole table |
| SubTable.UnrelatedIsCleared | uiot/mqtt/src/mqtt_client_unsubscribe.c:109-121 | unsubscribing from `b/+` ends the subscription to `a` |
| SubTable.InnerWildcardExactly | uiot/mqtt/src/mqtt_client_unsubscribe.c:109-121 | for every valid filter the two text searches succeed if and only if a level after the first is a wildcard |
| SubClient.Client.HandleSuback | uiot/mqtt/src/mqtt_client_common.c:904-1001 | on the heap: the handler is the step of the run; its result tells a refusal or an unknown id, a full table, and a subscription that is in the table |
| SubClient.Client.Install | uiot/mqtt/src/mqtt_client_common.c:960-987 | a handle goes to the first free slot unless an identical one is there, whose duplicate is freed |
| SubClient.Client.HandleUnsuback | uiot/mqtt/src/mqtt_client_common.c:1006-1055 | on the heap: the handler is the step of the run |
| SubClient.Client.ClearSlots | uiot/mqtt/src/mqtt_client_unsubscribe.c:109-121 | the loop clears exactly the slots concerned, freeing one by one, and tells whether there was one |
| SubClient.Client.Unsubscribe | uiot/mqtt/src/mqtt_client_unsubscribe.c:89-181 | slots are cleared first; only if there was one is a request made, and a failing request does not bring them back |
| SubClient.Client.Ask | uiot/mqtt/src/mqtt_client_subscribe.c:90-173 | on the heap list: a request takes an id and is pending with its own copy of the filter, or the copy is freed, with the result of the step that failed |
| SubClient.Client.SubInfoProc | uiot/mqtt/src/mqtt_client_yield.c:345-439 | on the heap list: the sweep is the step of the run, with one event and one free for each request that has timed out, last one first |
| SubClient.TimeoutsExactly | uiot/mqtt/src/mqtt_client_yield.c:396-426 | the events are one of its kind for every request not answered whose deadline has come on a live connection, and none for any other |
| SubClient.Client.Resubscribe | uiot/mqtt/src/mqtt_client_subscribe.c:175-205 | every occupied slot is requested again, in order, until one request fails |
| SubClient.Client.Deliver | uiot/mqtt/src/mqtt_client_common.c:732-774 | a message goes to the first slot with a callback whose filter equals the topic or is accepted by the matching loop, and to the default handler only if there is none |
| SubClient.ReceivesExactly | uiot/mqtt/src/mqtt_client_common.c:732-774 | a subscription with a callback gets every message that section 4.7 of MQTT 3.1.1 matches, and no other but through the two over-matches of the loop |
| MqttLength.FourBytesExactly | uiot/mqtt/src/mqtt_client_common.c:71-134 | decoding inverts encoding if and only if the length is at most 268435455; a longer one is rejected at the fifth byte (section 2.2.3 of MQTT 3.1.1) |
| MqttLength.Canonical | uiot/mqtt/src/mqtt_client_common.c:111-134 | the encoding of a decoded length is never longer than its bytes, and is those bytes exactly when they do not end in a superfluous zero |
| MqttLength.PacketLenExactly | uiot/mqtt/src/mqtt_client_common.c:88-103 | the computed packet length is the true one, but one more at 127, 16383, 2097150 and 2097151 exactly |
| MqttLength.PacketLenFallsShort | uiot/mqtt/src/mqtt_client_common.c:88-103 | above the largest length of the standard it is less than what would be written |
| MqttLength.InsideExactly | uiot/mqtt/src/mqtt_client_common.c:88-103 | a packet that has passed the length check stays inside its buffer if and only if its body is at most 268435455 bytes long, or is six bytes shorter than the buffer anyway |
| MqttLength.WriteRemLen | uiot/mqtt/src/mqtt_client_common.c:71-86 | the loop writes the encoding and nothing else |
| MqttLength.ReadRemLen | uiot/mqtt/src/mqtt_client_common.c:111-150 | the loop decodes, with the error of the source for a fifth byte |
| MqttCodec.HeaderByte | uiot/mqtt/src/mqtt_client_common.c:214-294 | type, dup, QoS and retain can each be read back from the first byte |
| MqttCodec.SerializePublish | uiot/mqtt/src/mqtt_client_publish.c:60-68 | the length is cut to 32 bits; exactly when the room computed from it fits, the packet is written from the front of the memory and nothing else, and it is the packet of section 3.3 of MQTT 3.1.1 inside the buffer whenever the standard allows its length |
| MqttCodec.PublishRoundTripExactly | uiot/mqtt/src/mqtt_client_publish.c:30-190 | deserialising a serialised PUBLISH returns its topic, payload, flags and, above QoS 0, its id, whatever follows it, if and only if the topic has at most 2048 bytes |
| MqttCodec.ReserialisedExactly | uiot/mqtt/src/mqtt_client_publish.c:134-190 | serialising what was found in a complete packet gives the packet again, if and only if its remaining length was in the shortest form |
| MqttCodec.DeserializePublish | uiot/mqtt/src/mqtt_client_publish.c:134-190 | the cursor code computes `ParsePublish`, with its error codes |
| MqttCodec.SerializeAck | uiot/mqtt/src/mqtt_client_publish.c:201-228 | PUBACK, PUBREC and PUBREL as four bytes |
| MqttCodec.DeserializeAck | uiot/mqtt/src/mqtt_client_common.c:305-350 | the cursor code computes `ParseAck`, with its error codes |
| MqttCodec.AckRoundTripExactly | uiot/mqtt/src/mqtt_client_common.c:305-350 | an acknowledgement is read as it was sent, if and only if what follows the id is empty or starts with a zero |
| MqttRequests.ConnectLenExactly | uiot/mqtt/src/mqtt_client_connect.c:55-162 | the length computed for CONNECT is the number of bytes written, if and only if the version is 3 or 4, and 12 too small otherwise |
| MqttRequests.SerializeConnect | uiot/mqtt/src/mqtt_client_connect.c:98-162 | an empty client id is refused; otherwise the CONNECT packet is written from the front of the memory and nothing else, exactly when the computed length fits; for versions 3 and 4 and lengths that the standard allows it stays inside the buffer, for other versions it is 12 bytes longer than checked for |
| MqttRequests.ConnectRoundTripExactly | uiot/mqtt/src/mqtt_client_connect.c:98-162 | a reader of section 3.1 of MQTT 3.1.1 gets the options back if and only if there are a user name and a password, and turns the packet away otherwise: the password flag is always set |
| MqttRequests.ConnectsTurnedAway | uiot/mqtt/src/mqtt_client_connect.c:138-140 | a client with a password and no user name is turned away, and so is one with neither |
| MqttRequests.RequestRemLen | uiot/mqtt/src/mqtt_client_subscribe.c:30-39 | the length computed for SUBSCRIBE and UNSUBSCRIBE is the number of bytes of the body |
| MqttRequests.SerializeRequest | uiot/mqtt/src/mqtt_client_subscribe.c:52-88 | SUBSCRIBE and UNSUBSCRIBE are written from the front of the memory and nothing else, exactly when the computed length, of 32 bits, fits; inside the buffer whenever the standard allows their length |
| MqttRequests.RequestRoundTripExactly | uiot/mqtt/src/mqtt_client_unsubscribe.c:52-87 | a reader of sections 3.8 and 3.10 of MQTT 3.1.1 gets the filters back, if and only if each is the first one less as many characters as its position: always for one filter |
| MqttServer.RequestReceivedExactly | uiot/mqtt/src/mqtt_client_subscribe.c:52-88 | a server that reads the whole packet by sections 2.2, 3.8 and 3.10 of MQTT 3.1.1 gets the kind of request, its id and its filters, if and only if the dup flag is not set |
| MqttServer.PublishReceived | uiot/mqtt/src/mqtt_client_publish.c:244-283 | and of a PUBLISH every field, by sections 2.2 and 3.3 |
| MqttServer.AckReceivedExactly | uiot/mqtt/src/mqtt_client_publish.c:201-228 | and of PUBACK, PUBREC and PUBREL the kind and the id, if and only if the dup flag is not set |
| MqttServer.ConnectReceivedExactly | uiot/mqtt/src/mqtt_client_connect.c:98-162 | and of a CONNECT the options, if and only if there are a user name and a password |
| MqttServer.LengthReceived | uiot/mqtt/src/mqtt_client_common.c:71-86 | the remaining length is read back by the weights of its digits |
| MqttServer.LengthExamples | uiot/mqtt/src/mqtt_client_common.c:71-86 | and the lengths of table 2.4 are encoded as printed there |
| MqttServer.FirstBytes | uiot/mqtt/src/mqtt_client_subscribe.c:69 | the first bytes of CONNECT, SUBSCRIBE, UNSUBSCRIBE and PUBLISH in figures |
| Framing.Client.DecodeFromNet | uiot/mqtt/src/mqtt_client_common.c:513-542 | byte-by-byte decoding consumes exactly the length field, and no fifth byte |
| Framing.Client.Drain | uiot/mqtt/src/mqtt_client_common.c:603-617 | the chunked loop takes exactly the oversize body off the stream |
| Framing.Client.ReadPacket | uiot/mqtt/src/mqtt_client_common.c:556-654 | with full reads one call consumes exactly one packet: the buffer holds it with the shortest length field, or it did not fit and is dropped |
| Framing.Client.ReadBody | uiot/mqtt/src/mqtt_client_common.c:620-653 | and a short read of the body is taken for the whole packet |
| Framing.ReadStream | uiot/mqtt/src/mqtt_client_common.c:556-654 | successive calls parse any stream of packets into those that fit, in order |
| Framing.ReceivePublish | uiot/mqtt/src/mqtt_client_common.c:1104-1119 | a PUBLISH that fits arrives with the fields it was sent with, and the stream stands at the next packet |
| SendPath.SendPacket | uiot/mqtt/src/mqtt_client_common.c:474-501 | the wire gets the bytes from the front of the buffer on, and from behind it if the writes take more; a packet not shorter than the buffer is refused; success is reported if and only if some writes from the first on come to exactly the length, and then the wire got exactly the packet |
| SendPath.FirstWriteDecides | uiot/mqtt/src/mqtt_client_common.c:485-493 | a first write that takes everything succeeds; one that breaks, or none in time, fails |
| Outgoing.Dispatch | uiot/mqtt/src/mqtt_client_subscribe.c:113-165 | a subscribe or unsubscribe request is serialised and sent: the wire gets the packet, with success, if and only if it is shorter than the buffer and the writes come to its length; one that fills the buffer passes the serialiser and is refused by the sender |
| Outgoing.CanBeSentExactly | uiot/mqtt/src/mqtt_client_common.c:480-482 | there are writes that send it if and only if it is shorter than the buffer |
| Outgoing.RequestArrives | uiot/mqtt/src/mqtt_client_subscribe.c:113-165 | what the server reads from it is the filter, with its QoS for a subscription |
| SendPath.StaysInsideExactly | uiot/mqtt/src/mqtt_client_common.c:485-493 | no byte from behind the buffer is ever sent if and only if the buffer has at least twice the packet length, less one |
| SendPath.SecondWriteOvershoots | uiot/mqtt/src/mqtt_client_common.c:485-493 | each write is offered the whole length again: a partial first write followed by a full one always fails, with bytes behind the packet sent |
| SendPath.Sender.Fill | uiot/utils/utils_httpc.c:75-109 | the loop over blocks computes `Filled` |
| SendPath.FilledWhole | uiot/utils/utils_httpc.c:75-109 | a piece is taken in if and only if every write it causes takes its whole block; then blocks sent and bytes kept are together what they were, and the piece |
| SendPath.FilledLoses | uiot/utils/utils_httpc.c:96-104 | if a block is refused or cut short, an entry of the piece is lost: neither sent nor left to send |
| SendPath.Sender.SendPieces | uiot/utils/utils_httpc.c:111-165 | the request writer computes `Sends` |
| SendPath.SentExactly | uiot/utils/utils_httpc.c:111-165 | over every plan of write results: the request is reported as sent and the connection has got all of it, if and only if every write comes back whole and the length is not a multiple of 1024 |
| SendPath.ReportedExactly | uiot/utils/utils_httpc.c:129-165 | a block of the first piece that falls short is a connection error; if no block does, the last write decides between success, closed and connection error |
| SendPath.FailedExactly | uiot/utils/utils_httpc.c:96-104 | the error of a piece is that of the first block that falls short: the code of the write, closed, or connection error |
| SendPath.WholeWritesSend | uiot/utils/utils_httpc.c:111-165 | with whole writes the connection has got the request whatever is reported |
| SendPath.RefusedBlockCountsAsSent | uiot/utils/utils_httpc.c:139-165 | a later piece that completes a refused block is lost and the request is reported as sent |
| RepeatRing.Client.Get | uiot/mqtt/src/mqtt_client_common.c:1065-1076 | an id is found if and only if it is among the last 50 inserted since the reset (0 also while there are fewer) |
| RepeatRing.Client.Add | uiot/mqtt/src/mqtt_client_common.c:1078-1088 | the ring stays the last 50 insertions, pairwise different, wherever the static cursor stands |
| RepeatRing.Client.Reset | uiot/mqtt/src/mqtt_client_common.c:1090-1097 | the history is empty, the cursor stays |
| RepeatRing.Client.HandlePublish | uiot/mqtt/src/mqtt_client_common.c:1104-1173 | above QoS 0 a message is delivered if and only if its id has not been seen, and acknowledged also if it has; QoS 0 is always delivered |
| RepeatRing.RedeliveredOnlyAfterFifty | uiot/mqtt/src/mqtt_client_common.c:1104-1173 | over any run, between two deliveries with one id at least 50 other insertions lie |
| RepeatRing.AlwaysDistinct | uiot/mqtt/src/mqtt_client_common.c:1078-1088 | and within any 50 insertions no id other than 0 occurs twice |
| KeepAlive.TurnKeeps | uiot/mqtt/src/mqtt_client_yield.c:176-252 | every iteration keeps at most two outstanding pings and the back-off wait; with infinite reconnect no iteration times out of itself |
| KeepAlive.InvOverRuns | uiot/mqtt/src/mqtt_client_yield.c:176-252 | and so does every run |
| KeepAlive.ReconnectsExactly | uiot/mqtt/src/mqtt_client_connect.c:299-304 | an iteration in which a reconnect is tried ends connected if and only if the server took the client back; then no ping is outstanding and the timer has a whole interval to go; otherwise the wait doubles, up to a minute, and without infinite reconnect ends with a time-out |
| KeepAlive.WaitsBeforeRetry | uiot/mqtt/src/mqtt_client_yield.c:81-94 | before that nothing changes but the time |
| KeepAlive.LosesExactly | uiot/mqtt/src/mqtt_client_yield.c:194-248 | a connected client loses the connection if and only if reading fails on the network, or a ping is due and two are outstanding or it cannot be sent; the ping count, the timer, the first wait and the result follow |
| KeepAlive.RetriesBackOff | uiot/mqtt/src/mqtt_client_yield.c:81-112 | after k failures in a row the next reconnect is tried as soon as min(1000 * 2^k, 60000) milliseconds are over, and not before |
| KeepAlive.ThirdExpiryDisconnects | uiot/mqtt/src/mqtt_client_yield.c:120-174 | while nothing comes in, a connection survives at most two expiries of the ping timer |
| KeepAlive.SilentLinkIsDroppedInTime | uiot/mqtt/src/mqtt_client_yield.c:120-174 | and, with iterations at most d apart, is given up at most 10 s + 2d after the first |
| KeepAlive.Client.HandlePacket | uiot/mqtt/src/mqtt_client_common.c:1217-1298 | what each packet does to the ping count and timer |
| KeepAlive.Client.Ping | uiot/mqtt/src/mqtt_client_yield.c:120-174 | the keep-alive step |
| KeepAlive.Client.Connected | uiot/mqtt/src/mqtt_client_connect.c:299-304 | the state a successful CONNECT sets |
| KeepAlive.Client.HandleReconnect | uiot/mqtt/src/mqtt_client_yield.c:81-112 | the reconnect step of the state machine, see `KeepAlive.ReconnectsExactly` |
| KeepAlive.Client.Iterate | uiot/mqtt/src/mqtt_client_yield.c:194-248 | one iteration of the loop |
| KeepAlive.Client.Yield | uiot/mqtt/src/mqtt_client_yield.c:176-252 | the loop is a run of iterations; with infinite reconnect it never returns the reconnect time-out; a manual disconnect or one without automatic reconnect is reported at once |
| HttpBody.HttpClient.FillRxBuf | uiot/utils/utils_httpc.c:230-246 | bytes that fit with the terminator are appended; otherwise as many as fit, and the rest is dropped |
| HttpBody.HttpClient.GetResponseBody | uiot/utils/utils_httpc.c:248-307 | in every outcome what is delivered and what is still to be retrieved add up to the content length, and the buffer holds what came with the header and then every byte read, in order; it succeeds if the reads keep bringing bytes, and a connection error means a broken link, 601 silent reads in a row that used up their time, or a silent read after 1201 extensions of the timer |
| HttpBody.NothingLostExactly | uiot/utils/utils_httpc.c:230-246 | bytes delivered and bytes read balance if and only if what came with the header fits the buffer |
| HttpBody.ContinuedBody | uiot/ota/src/ota_fetch.c:80-99 | a response received in two calls is put together without gap or overlap |
| HttpBody.HttpClient.Fetch | uiot/ota/src/ota_fetch.c:67-102 | the result is the number of bytes placed in the buffer, for a fresh response and for a continued one; error codes are translated, and a failed receive closes the connection |
| HttpBody.Translated | uiot/ota/src/ota_fetch.c:87-99 | not found, authentication and time-out become -306, -307 and -308, every other error stays |
| HttpBody.CheckDeadloop | uiot/utils/utils_httpc.c:202-228 | the counters of silent and of late reads, and exactly when they end the receiving; a read that brought bytes never does |
| HttpBody.PatientWhileLinked | uiot/utils/utils_httpc.c:202-228 | while the link holds, receiving is given up only on a silent read, and not before the 601st read |
| Ota.Client.Retry | uiot/ota/src/ota_client.c:555-592 | a round survives up to four lost connections in a row and not five; an honest server's slice arrives whole or not at all |
| Ota.Client.Failed | uiot/ota/src/ota_client.c:567-581 | an expired signature, a missing file and a time-out are reported as such, other failures not at all |
| Ota.Client.FetchYield | uiot/ota/src/ota_client.c:540-620 | exactly the bytes fetched go into the MD5 context and are counted, and the fetch is over at the announced size |
| Ota.Client.Yield | uiot/ota/src/ota_client.c:184-201 | only a cancel for this module and version closes the connection and stops the download |
| Ota.Client.CheckFirmware | uiot/ota/src/ota_client.c:667-689 | valid if and only if the announced text is that of the digest of everything fetched |
| Ota.Client.Turn | uiot/ota/src/ota_client.c:742-763 | one turn: the bytes absorbed stand at the front of the flash, and only a written chunk counts |
| Ota.Client.Fill | uiot/ota/src/ota_client.c:742-763 | after the loop flash, MD5 context and count agree, no write failed and nobody cancelled; with an honest server the flash holds the front of the file; with a steady one that has at least the announced bytes, what the ranges needed for them bring |
| Ota.Client.Download | uiot/ota/src/ota_client.c:713-791 | success is reported and the image handed over if and only if the loop ran to its end with the announced size and the announced digest; with an honest, steady server the download completes; if the file is longer than announced and the size is no multiple of the range, it returns 0 and reports nothing |
| Ota.LongerFileExactly | uiot/ota/src/ota_client.c:742-763 | from a server with a longer file the image has the announced size if and only if the last range ends there |
| Ota.SlicesTile | uiot/ota/src/ota_client.c:31-34 | successive inclusive ranges tile the file without gap or overlap |
| Ota.GenuineExactly | uiot/ota/src/ota_client.c:677-687 | against the announced digest of a file an image passes if and only if length and digest are those of the file |
| Ota.Client.Clear | uiot/ota/src/ota_client.c:392-425 | the handle is as it was before the download |
| JsonScan.GetNextObject | uiot/utils/json_parser.c:47-160 | the scanning loops find the next key and value as `NextObject` describes, and always move on |
| JsonScan.BracketsExactly | uiot/utils/json_parser.c:120-130 | an object or an array goes from its opening mark to the one that closes it, nested ones included; without that it has no length |
| JsonScan.NumberExactly | uiot/utils/json_parser.c:114-119 | a number goes on over digits and points, and has no length at the end of the text |
| JsonScan.WordsExactly | uiot/utils/json_parser.c:87-113 | true, false and null, in small or in capital letters throughout |
| JsonScan.KindsExactly | uiot/utils/json_parser.c:60-85 | which characters start which kind of value |
| JsonScan.StartExactly | uiot/utils/json_parser.c:32-44 | the object starts with the first character that is no space, if that is a brace |
| JsonScan.ForEachPair | uiot/utils/json_parser.c:162-190 | the iteration reports the pairs with a key and a value that are not empty, in order, and where it stops |
| JsonScan.StopsInsideExactly | uiot/utils/json_parser.c:47-160 | the iteration steps over the end of the text if and only if it comes to a string value that opens with the last character; then it reads on one place behind the terminator |
| JsonScan.OnlyQuotesAtEnd | uiot/utils/json_parser.c:47-160 | a text that ends in anything but a quote is never left |
| JsonScan.OpenStringIsLeft | uiot/utils/json_parser.c:153-158 | an open string at the end of a text is left by one place |
| JsonScan.GetValueByName | uiot/utils/json_parser.c:162-242 | the first pair at whose key the name stands in the text, for a name without quotes the first pair whose key starts with it; a null value is hidden just if the type is asked for; a text longer than the given length stays cut in its buffer, one that is shorter stays as it is |
| JsonScan.SpottedIsLookup | uiot/utils/json_parser.c:192-222 | comparing the text at the key with the name is comparing the front of the key, for every name without quotes |
| JsonScan.LookupExactly | uiot/utils/json_parser.c:192-222 | lookup finds the pair of that name if and only if no earlier key starts with it |
| JsonPrint.PrintedIsFound | uiot/shadow/src/shadow_client_json.c:55-126 | for any properties with keys and strings free of quotes, integers, nulls and brace-balanced objects, iterating over the printed object yields exactly them, in order, less those with an empty key or string |
| JsonPrint.DecimalReadsBack | uiot/shadow/src/shadow_client_json.c:86-116 | the digits printed for an integer stand for it, with a minus sign if it is negative |
| JsonPrint.FieldsAreLevel | uiot/shadow/src/shadow_client_json.c:55-126 | a printed object is bracket-balanced and can be the value of another |
| ShadowDoc.Document.PutNode | uiot/shadow/src/shadow_client_json.c:55-126 | a node is cut to what remains of the given size, and success means that it is whole |
| ShadowDoc.Document.SetContent | uiot/shadow/src/shadow_client_manager.c:871-945 | the content is complete if and only if every node is shorter than what is left when the length of the text is subtracted twice, and the text stays inside the buffer if and only if no node overruns it |
| ShadowDoc.PutInsideExactly | uiot/shadow/src/shadow_client_manager.c:928-938 | one node leaves the buffer if and only if the text before it is longer than half the buffer and the node would not fit behind it |
| ShadowDoc.ContentInsideExactly | uiot/shadow/src/shadow_client_manager.c:871-945 | the content stays inside the buffer if and only if none of its nodes does that |
| ShadowDoc.BeyondHalfExactly | uiot/shadow/src/shadow_client_manager.c:871-945 | from a text longer than half the buffer on, it does if and only if the whole of it is shorter than the buffer, and then nothing is cut |
| ShadowDoc.WritesBehindBuffer | uiot/shadow/src/shadow_client_manager.c:928-938 | a node of 50 characters behind 60 in a buffer of 100 is written whole, ending at 110 |
| ShadowDoc.HalfIsEnough | uiot/shadow/src/shadow_client_manager.c:871-945 | a text within half the buffer is always complete |
| ShadowDoc.DroppedThoughItFits | uiot/shadow/src/shadow_client_manager.c:928-938 | a node that fits the buffer is cut all the same if and only if twice the length before it is within the buffer and leaves no room for it, for every size |
| ShadowDoc.Document.Finalize | uiot/shadow/src/shadow_client_manager.c:951-1001 | the end is written over the last comma, or behind the text, cut to what remains, and success means that it is whole |
| ShadowDoc.FinishedIsDocument | uiot/shadow/src/shadow_client_manager.c:797-1001 | the text built in three steps is the printed document of the method, for every method and its properties |
| ShadowDoc.DocumentIsUnderstood | uiot/utils/json_parser.c:47-190 | the scanner finds in it the members, in its state the reported object, and in that the properties, in order |
| ShadowDoc.DocumentSays | uiot/shadow/src/shadow_client_manager.c:797-1001 | in figures: the method is get, update or delete, and the version is the given one, or -1 to reset it |
| ShadowDoc.StateSays | uiot/shadow/src/shadow_client_manager.c:797-1001 | the state has what is reported, null for everything, and null for what is desired in a reply |
| ShadowDoc.ContentSays | uiot/shadow/src/shadow_client_manager.c:905-921 | every property that is deleted is printed as null, every other with its value |
| ShadowDoc.BalancedExactly | uiot/shadow/src/shadow_client_manager.c:951-1001 | the document is bracket-balanced if and only if an update or a deletion has properties |
| ShadowDoc.Build | uiot/shadow/src/shadow_client_manager.c:797-1001 | in a buffer of twice the body the three steps give the document |

## Left out

- TLS, sockets, flash drivers, mutexes, threads and the RT-Thread timers: API calls and loop iterations are atomic steps here, and the unlock in the middle of the publish sweep is not modelled.
- The clock wraps around in the source; here it does not.
- `malloc` failure, logging, and freeing other than that of the filter strings.
- The payload of a SUBACK: whether it refuses is an argument.
- QoS 2 beyond the PUBREC that answers a message; publishing at QoS 2 is refused by the source.
- `dm_mqtt.c`, `lite-list.h`, `string_utils.c`, URL parsing and response-header parsing: the length and the first bytes of a body are arguments, and a content length below -1 is not described.
- Reads of a packet behind the end of the receive buffer: the buffer reads as zeros there. What the document builder overwrites behind its buffer: the text written there is kept, nothing else is described.
- Array iteration of the JSON scanner; scanning of array values is modelled.
- Printing of `double`, `float` and `bool` properties; the integer types print as one integer.
- Null values in list nodes, which both sweeps would remove, and restarting the timer of an entry that is removed in the same sweep.
- Topics that start with `$`, which section 4.7.2 of MQTT 3.1.1 treats apart and the source does not.
- What an uninitialised handle holds when an UNSUBACK has an unknown id is an argument.
- Ota.Client.Yield: an update message is dropped when it arrives after the last chunk or after a cancel, where the source would start a download inside the running one; one download is one run.
- Ota.Client.FetchYield: progress reports and the percentage are not modelled; the source divides by the announced size, so a size of 0 is excluded, and sizes are taken to fit a C `int`.
- Ota.Client.Download: the update that was queued meanwhile is not taken off the queue.
- KeepAlive.Client.Yield: it also ends when the given events are used up.
- SubTable.InvOverRuns: an answer comes before 65535 further ids have been taken; the conditions on the answers themselves are exact (`SubTable.StepKeepsExactly`).
- SubClient.Client.Ask: the checks of its arguments (a topic that is too long, QoS 2) are not modelled.
- SubClient.Client.SubInfoProc: events and frees come after the walk, in the same order, and not during it.
- RepeatRing.Client.HandlePublish: the copy of the topic, cut to 127 characters when it is longer than 128, is not modelled; the handler is a yes or no.
- Framing.Client.ReadPacket: under short reads only the case of the body is described.
- The serialisers and the sender are given the memory from the front of the buffer on, long enough for what they write or offer; a write or read past the end of memory is not described.
- `size_t` has 32 bits, except in the MD5 engine, where only a wider one makes the cut of the count visible.
- JsonScan.ForEachPair: what is found behind the terminator, once the iteration has stepped over it, is not described.
- SendPath.SentExactly: of entries that are pairwise different, such as bytes with their positions; among equal bytes a lost one may be made up for by chance.
- Shadow requests, their time-outs and the property lists; provisioning of properties is the argument of the document builder.
