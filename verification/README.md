# Verified model of the RADIUS client, EAP-TLS supplicant and MD5 code

The project models five pieces of the repository and one small loop, and proves properties of them:

- **The RADIUS client socket** (`SimuNAS/radproto.cxx`). Many threads share one UDP socket; one of
  them reads and routes responses to the others. `SocketModel` gives the critical sections of
  MakeRequest on values, `SocketRun` a step machine in which any number of calls interleave and
  writes, reads, timeouts and signals come out in any way, `SocketSafety` the theorems about all runs,
  `SocketEntry` shows that the guard on entries they need is exact and `SocketReuse` that the code's
  duplicate check does not give it; `SocketHandOff` and `SocketStranded` say whom a hand-off of reading
  goes to and when it survives, `SocketSteps` what each section means for the calls. `IdRing` is the
  ring of timestamped ids, `SocketLease` the two together (which gives the guard), `RadiusSocket` the
  object with its tables.
- **The RADIUS packet** (same file). `RadiusFormat` defines attributes and packets independently of
  the buffer, `RadiusCrypto` password hiding, HMAC and the servers' checks, `RadiusPDU` the 4096-octet
  buffer and its methods, `CiscoNames` the Cisco attributes, `RadiusClient` the send sequence,
  `RadiusLimits` exactly when its result is acceptable for every hash, `RadiusWire` format and
  authenticators in plain octets.
- **Streaming MD5** (`SimuNAS/eap/md5.c`). `Md5Standard` transcribes RFC 1321, `Md5Unrolled` the 64
  written-out steps, `Md5` the object with its buffer and counter, `Md5TestSuite` works out a digest
  that the standard lists.
- **EAP-TLS fragmentation** (`802.1x-linux/src/type_tls.cc`). `TlsHandler` is the handler on values,
  `TlsPacket` the octets, `TlsRoundTrip` fragmentation against reassembly, `TlsConversation` what is
  accepted and when a conversation may start, `TypeTls` the object with buffer and cursors.
- **EAP dispatcher and main loop** (`802.1x-linux/src/eap.cc`, `main.cc`, `ll_eapol.cc`).
  `DispatcherModel` and `SupplicantModel` are machines on values, `SupplicantSafety` and
  `SupplicantStages` have the theorems about all runs, `DispatcherAnswers` which requests are answered
  and how, `EapDispatcher` and `MainLoop` the objects.
- **%i in commands** (`xsupplicant/src/cmd_handler.c`), in `CommandExpand`.

How the source is read:

- MD5 in the RADIUS code is any function from octets to 16 octets; theorems hold for all of them.
- Sync points are binary semaphores; spurious and stale signals are steps of the machine. Allocation
  does not fail. The bitmap's words are 32 booleans each. Signals, forks, received frames and the
  verdicts of OpenSSL (process_msg) are parameters or steps that may come out in any way.
- The overlapping memcpy at radproto.cxx:1408 is read as memmove, and `*p++ = *p ^ *q++` as
  element-wise exclusive-or.
- In the length of MD5 the shifted high word and the bits of the low word share no bit, so their
  bit-or is their sum.
- The C code's size_t has 32 bits in MD5; chunks are below 2^32 octets.
- A host is little-endian or big-endian; `+=` of access_ui16 swaps its operand and not the sum.
- The first EAP request with identifier 0 is taken for an old one, since last_request starts at 0 and
  not at -1; the model keeps that, and theorems about answers name the identifier that counts as old.
- An empty output of TLS leaves the old response octets in place and adds the EAP header to their
  length; the model keeps that too (`Silence`).

Results that show a limit of the code, each with its exact condition: an id used again before its
answered follower has woken leaves the tables inconsistent; a hand-off of reading to a follower that
has its response or is on its way out is lost; a first request with identifier 0 is taken for old; a
password above 240 octets is not recovered; an Accounting-Request with a User-Password fails the
server's check; a Message-Authenticator already in the request must be all zeros; a frame whose length
field carries in its low octet arrives short; text that begins with its own attribute name loses it
when the prefix was left out; a name that is empty, begins with 'i' or ends with '%' can make the %i
loop rewrite its own output; a name that contains %i, or begins with ii and ends with %%, can keep
that loop from ending.

## Model

| member | source | states |
|---|---|---|
| SocketRun.InitInv | SimuNAS/radproto.cxx:1424-1450 | A new socket with no calls satisfies the invariant that all run theorems rest on. |
| SocketRun.StepInv | SimuNAS/radproto.cxx:1545-1755 | Every enabled step of every call (begin, entry, write, read, delivery, wait, wake, timeout, cleanup) keeps the invariant, where an entry is guarded: its id is pending, and then refused, or holds no sync point. Registered ids are distinct and owned, sync points are held by one follower each, and no wake-up of an answered follower is lost. |
| SocketSafety.RunInv | SimuNAS/radproto.cxx:1527-1759 | The invariant holds in every state of every run whose entries are guarded; calls may begin with any id. |
| SocketSafety.RunSafe | SimuNAS/radproto.cxx:1527-1759 | In every interleaving: at most one call reads and m_isReading holds exactly when one does; every pending id belongs to the reader or to a follower with its own sync point; the id-to-sync-point map is one-to-one onto the set bits of the bitmap and m_nestedCount is its size; the sync point a follower sleeps on exists and is no other follower's. |
| SocketSafety.RunQuiescent | SimuNAS/radproto.cxx:1731-1758 | With no call in flight the socket equals a new one with only its permanent sync points; the only traces of the run are the count of sync points ever made and signals nobody has consumed. |
| SocketSafety.RunTrueMeansAnswered | SimuNAS/radproto.cxx:1653-1688 | A call that returned true holds a received packet with its id, from its server's address and port. |
| SocketSafety.RunPacketOnce | SimuNAS/radproto.cxx:1671-1673 | A received packet ends up in the result of at most one call. |
| SocketSafety.RunStoresOnce | SimuNAS/radproto.cxx:1671-1673 | Over any stretch of a run a stored response stays the same one, a returned call stays as it is, and a call keeps its id and server: each call receives at most one packet. |
| SocketSafety.RunAnsweredWakes | SimuNAS/radproto.cxx:1689-1710 | A follower asleep with its response stored has its signal pending: it can wake, and then returns true with that response. |
| SocketEntry.EntryExact | SimuNAS/radproto.cxx:1555-1585 | The guard is exact: at the end of any run with guarded entries, a call may enter and everything stays safe however things go on without a further entry, if and only if its id is pending or holds no sync point. |
| SocketEntry.EntryBreaks | SimuNAS/radproto.cxx:1555-1755 | An unguarded entry leads out of the safe states in at most three steps: at once while a call reads (the old sync point is lost from the table), else by a failed write and the cleanup (the sync point is released under the old follower). |
| SocketReuse.DuplicateCheckIsNotEnough | SimuNAS/radproto.cxx:1555-1560 | The duplicate check alone does not give the guard: after a run with guarded entries a call passes it with the id of a follower that has its response and has not woken yet, and that follower's sync point stays taken but recorded for no id. |
| SocketHandOff.HandOffExact | SimuNAS/radproto.cxx:1676-1723 | When nobody reads, a signalled follower can still become the reader if and only if its id is pending and it is not cleaning up. |
| SocketHandOff.HandOffSignals | SimuNAS/radproto.cxx:1676-1685 | Stepping down signals exactly the sync point of the id that holds one and is the fewest steps from the oldest id; with no such id it signals nobody; nothing else changes. |
| SocketHandOff.PickedIsHandedTo | SimuNAS/radproto.cxx:1653-1755 | Every step that ends a call's reading, by its own response or by the cleanup, leaves nobody reading and signals exactly the follower with the oldest id, if there is any follower. |
| SocketSteps.EntryOutcome | SimuNAS/radproto.cxx:1555-1590 | A guarded entry is refused, and changes nothing else, if and only if a call with its id still waits; there is a sync point for every other. It then reads if nobody does, and else follows with a free sync point of its own. |
| SocketSteps.StrayIgnored | SimuNAS/radproto.cxx:1653-1669 | A packet that no call waits for, by id, address or port, changes nothing, and its reader goes on reading. |
| SocketSteps.DeliveryOutcome | SimuNAS/radproto.cxx:1671-1693 | A packet that a call waits for becomes that call's response and nobody else's; the reader returns true with its own and reads on after another's, whose sync point it has signalled. |
| SocketSteps.WakeOutcome | SimuNAS/radproto.cxx:1695-1724 | A follower that wakes returns true with its response, takes over when nobody reads, and else goes back to the loop with everything as it was. |
| SocketSteps.CleaningOutcome | SimuNAS/radproto.cxx:1731-1758 | A call that cleans up returns false, is awaited no more, and gives its sync point back; no other call changes. |
| SocketSteps.LoopEnds | SimuNAS/radproto.cxx:1593-1728 | A call leaves the loop for the cleanup if and only if its write, read or wait fails or its time is over. |
| SocketStranded.HandOffLost | SimuNAS/radproto.cxx:1676-1685 | The scan may pick a follower that has its response already: a run ends with another follower waiting, its id pending, and nobody reading or about to. |
| IdRing.RefreshExact | SimuNAS/radproto.cxx:1783-1794 | On a ring whose issue times are in order, refreshing releases exactly the ids whose second of issue plus the timeout is before now, and never passes the next id. |
| IdRing.LiveCount | SimuNAS/radproto.cxx:1803 | The number of ids outstanding is the distance from the oldest to the next id. |
| IdRing.IssueExact | SimuNAS/radproto.cxx:1803-1809 | Issuing fails exactly when 255 ids are outstanding; otherwise the id was not outstanding and is recorded with the second of its issue. |
| IdRing.GenerateExact | SimuNAS/radproto.cxx:1796-1810 | GenerateNewId refines a map from id to issue time: it fails exactly when 255 ids have a second of issue plus timeout that is not before now, else it returns the next id, which is outside that map, and adds it. |
| IdRing.ReissueIsLate | SimuNAS/radproto.cxx:1783-1810 | With a clock that does not go back, two visits that get the same id are more than the timeout apart. |
| IdRing.AskExact | SimuNAS/radproto.cxx:1783-1810 | Over all visits: one that asks gets no id if and only if 255 earlier visits got ids whose second of issue plus the timeout is not before now. |
| IdRing.IssuedInTurn | SimuNAS/radproto.cxx:1808-1809 | The ids come in turn: the one issued after n others is the starting id plus n modulo 256. |
| SocketLease.WorldInv | SimuNAS/radproto.cxx:1545-1586 | With ids taken from the ring, each used for one call that returns within the timeout of its issue, the socket invariant and the lease invariant hold in every state of every run. |
| SocketLease.LeasedIdsDistinct | SimuNAS/radproto.cxx:1796-1810 | In such a run ids in flight are distinct in every state, and it is a run of the socket with guarded entries: the assumption of the run theorems is derived. |
| SocketLease.LeasedRunSafe | SimuNAS/radproto.cxx:1527-1810 | Exclusive reader, owned pending ids, the bijection, safe sleepers and true-means-answered, from the id ring alone. |
| RadiusSocket.RadiusSocket.constructor | SimuNAS/radproto.cxx:1424-1450 | The constructor's tables stand for the new socket of the step machine and an empty ring at any starting id. |
| RadiusSocket.RadiusSocket.FindFree | SimuNAS/radproto.cxx:1498-1512 | The nested scan over eight words of 32 bits finds the lowest clear bit of the whole bitmap, or none. |
| RadiusSocket.RadiusSocket.AllocReadSyncPoint | SimuNAS/radproto.cxx:1496-1513 | Takes the lowest free bit, makes a sync point where there is none, and changes nothing else; the state becomes that of the step machine's Alloc. |
| RadiusSocket.RadiusSocket.FreeReadSyncPoint | SimuNAS/radproto.cxx:1515-1525 | Clears the bit, deletes the sync point unless it is permanent, and is harmless for an index out of range. |
| RadiusSocket.RadiusSocket.SignalId | SimuNAS/radproto.cxx:1689-1691 | The sync point recorded for an id is signalled, nothing else changes. |
| RadiusSocket.RadiusSocket.StopReading | SimuNAS/radproto.cxx:1676-1685 | The reader steps down and the first id from the oldest on that has a sync point is signalled, if any. |
| RadiusSocket.RadiusSocket.ReleaseSyncPoint | SimuNAS/radproto.cxx:1704-1707 | Bit, sync point, index and count of an id go back together. |
| RadiusSocket.RadiusSocket.EnterAsFollower | SimuNAS/radproto.cxx:1564-1585 | A follower gets a free sync point recorded for its id, or is refused with nothing registered. |
| RadiusSocket.RadiusSocket.EnterRequest | SimuNAS/radproto.cxx:1555-1585 | The entry section on the tables is the entry step of the machine: refused for a pending id, reader, or follower. |
| RadiusSocket.RadiusSocket.DeliverPacket | SimuNAS/radproto.cxx:1653-1693 | The delivery section on the tables is the delivery step: dropped, own, another's, or stray. |
| RadiusSocket.RadiusSocket.WakeFollower | SimuNAS/radproto.cxx:1701-1723 | The wake section on the tables is the wake step: answered, promoted to reader, or back to sleep. |
| RadiusSocket.RadiusSocket.CleanupRequest | SimuNAS/radproto.cxx:1731-1755 | The cleanup section on the tables is the cleanup step, hand-over of reading included. |
| RadiusSocket.RadiusSocket.RefreshIdCache | SimuNAS/radproto.cxx:1783-1794 | The loop over timestamps with its byte-wide index is the ring's Refresh. |
| RadiusSocket.RadiusSocket.GenerateNewId | SimuNAS/radproto.cxx:1796-1810 | The ring after the call and the id returned are those of the ring's Generate. |
| RadiusFormat.DecodeEncode | SimuNAS/radproto.cxx:827-838 | The octets of any list of well-formed attributes split back into that list (section 5 of RFC 2865). |
| RadiusFormat.EncodeDecode | SimuNAS/radproto.cxx:827-838 | Octets that split are the encoding of the attributes they split into. |
| RadiusFormat.EncodeAppend | SimuNAS/radproto.cxx:969-975 | The encoding of two lists in a row is the two encodings in a row. |
| RadiusFormat.AttrAt | SimuNAS/radproto.cxx:1200-1219 | Where attribute k lies: its header, length and value octets, with the encodings of the others around it. |
| RadiusFormat.DecodeEncodePacket | SimuNAS/radproto.cxx:1244-1291 | A packet that fits is read back from its octets whatever follows them: Read of Write with any trailing padding. |
| RadiusFormat.EncodeDecodePacket | SimuNAS/radproto.cxx:820-841 | Octets that hold a packet begin with exactly its encoding. |
| RadiusFormat.UniqueSplit | SimuNAS/radproto.cxx:820-841 | Octets split into well-formed attributes in at most one way. |
| RadiusFormat.HoldsPacket | SimuNAS/radproto.cxx:820-841 | Octets hold packet p if and only if p is legal and its encoding is their beginning; with UniqueSplit, there is only one such p. |
| RadiusPDU.AppendEffect | SimuNAS/radproto.cxx:959-977 | Appending raw octets to a valid packet adds a well-formed attribute at the end, and makes the packet invalid if the attribute is not well-formed. |
| RadiusPDU.ValueDecodes | SimuNAS/radproto.cxx:940-942 | Overwriting the value of attribute k with one of equal length changes that attribute and nothing else. |
| RadiusPDU.SlideDecodes | SimuNAS/radproto.cxx:1404-1412 | Moving everything behind the clear password down over it leaves the other attributes in order with the hidden one at the end. |
| RadiusPDU.RadiusPDU.constructor | SimuNAS/radproto.cxx:744-750 | A new packet has code, id, minimal length and no attributes. |
| RadiusPDU.RadiusPDU.IsValid | SimuNAS/radproto.cxx:820-841 | The walk over the buffer answers true exactly when it holds a packet: code not zero, length 20 to 4096, body split into well-formed attributes. |
| RadiusPDU.RadiusPDU.GetAttr | SimuNAS/radproto.cxx:1200-1219 | From attribute k-1 the pointer arithmetic reaches attribute k, and null behind the last. |
| RadiusPDU.RadiusPDU.FindAttr | SimuNAS/radproto.cxx:1221-1230 | Finds the first attribute of a type, or null; terminates on every valid packet. |
| RadiusPDU.RadiusPDU.GetNumAttributes | SimuNAS/radproto.cxx:1189-1198 | Counts the attributes of a valid packet. |
| RadiusPDU.RadiusPDU.AppendAttr | SimuNAS/radproto.cxx:959-977 | Succeeds exactly when attribute and packet stay within their limits; then the attribute is the new last one, otherwise no octet changes. |
| RadiusPDU.RadiusPDU.Write | SimuNAS/radproto.cxx:1244-1259 | Succeeds exactly on valid packets and puts out their encoding. |
| RadiusPDU.RadiusPDU.Read | SimuNAS/radproto.cxx:1261-1291 | Accepts raw octets by their length field; the object then holds the packet they hold, and none on failure. |
| RadiusPDU.RadiusPDU.SetAuthenticator | SimuNAS/radproto.cxx:904-927 | Accounting-Request: the hash over the packet with a zero authenticator followed by the secret; every other code: the random octets. |
| RadiusPDU.RadiusPDU.HideInPlace | SimuNAS/radproto.cxx:1362-1402 | The block-by-block exclusive-or in place yields the chained hiding of section 5.2 of RFC 2865. |
| RadiusPDU.RadiusPDU.EncryptPasswords | SimuNAS/radproto.cxx:1321-1417 | Without a password nothing changes; without room it fails and nothing changes; otherwise the others stay in order and one hidden User-Password, made from the first one, is last. |
| RadiusPDU.HmacMd5 | SimuNAS/radproto.cxx:2446-2515 | The two padded arrays and two hashes compute HMAC of section 2 of RFC 2104, 0x36 inside and 0x5c outside, for keys longer than 64 octets too. |
| RadiusPDU.RadiusPDU.SetupMessageAuthenticator | SimuNAS/radproto.cxx:929-942 | A zero Message-Authenticator is appended if it fits, and the HMAC over all that is written over the 16 octets behind the header of the first one, whatever its length; with the legal length that is its value. Not found only if there was neither room nor one before. |
| RadiusCrypto.UnhideHide | SimuNAS/radproto.cxx:1362-1402 | The reverse computation of section 5.2 of RFC 2865 recovers the padded password. |
| RadiusCrypto.HideBlock | SimuNAS/radproto.cxx:1362-1402 | Block n of the result is the padded password's block exclusive-or the hash of the secret and the previous result block. |
| RadiusCrypto.HiddenValueRecovers | SimuNAS/radproto.cxx:1336-1352 | The stored value is whole blocks, and recovers the padded password if and only if the password has at most 240 octets (above, the length octet wraps). |
| RadiusCrypto.HmacExact | SimuNAS/radproto.cxx:2446-2515 | The keyed hash is the hash over the outer pad and the hash over the inner pad and the text, where the pads are 64 octets of the key (hashed if above 64 octets, zeros behind) with 0x5c and 0x36 exclusive-or'ed in. |
| Bytes.XorExact | SimuNAS/radproto.cxx:2494-2497 | A bit of the exclusive or is set if and only if it is set in exactly one of the octets. |
| RadiusWire.ValidExact | SimuNAS/radproto.cxx:820-841 | A buffer holds a packet if and only if its first octet is not zero, its length octets give 20 to 4096 within the buffer, and the walk by length octets of at least 2, or 6 for type 26, ends exactly there. |
| RadiusWire.PacketOctets | SimuNAS/radproto.h:935-945 | Where code, identifier, length, authenticator and attributes lie. |
| RadiusWire.AuthenticatorsExact | SimuNAS/radproto.cxx:904-927 | The accounting and response authenticators in octets: the hash over the packet with zeros, or the request's authenticator, in octets 4 to 19, and the secret behind. |
| RadiusWire.SignatureExactly | SimuNAS/radproto.cxx:929-942 | Message-Authenticator in octets: the keyed hash of RFC 2104 over the packet with 16 zeros as the value of its first attribute of type 80. |
| RadiusWire.HiddenOctets | SimuNAS/radproto.cxx:1356-1403 | Each octet of a hidden password is the clear one exclusive-or an octet of the hash over the secret and the hidden block before it, or the authenticator. |
| CiscoNames.CiscoRoundTrip | SimuNAS/radproto.cxx:688-713 | A Cisco attribute is well-formed with a consistent vendor length, and AsCiscoString returns the text it was made of for every type and text, except exactly when it was made without a prefix and its text begins with the type's own name and '='. |
| RadiusWire.CiscoOctets | SimuNAS/radproto.cxx:1139-1187 | The attribute in octets: type 26, vendor 9, vendor type and length, the name and '=' if it has one and it was not left out, and the text. |
| RadiusWire.NamesFound | SimuNAS/radproto.cxx:187-215 | Every name in the table is found under its vendor type: no type is listed twice. |
| RadiusPDU.RadiusPDU.AppendCiscoAttr | SimuNAS/radproto.cxx:1139-1187 | Succeeds exactly when header, name, '=' and text fit attribute and packet; then that attribute is appended, else the packet is unchanged. |
| RadiusClient.Clone | SimuNAS/radproto.cxx:1306-1319 | The copy holds the same packet. |
| RadiusClient.PrepareRequest | SimuNAS/radproto.cxx:2081-2111 | The send sequence on buffers computes Prepared: clone, id, authenticator, password, and Message-Authenticator for all but accounting; no room is its own error, and a packet with no place for the authenticator makes the code follow a null pointer. |
| RadiusClient.VerifyResponse | SimuNAS/radproto.cxx:2262-2296 | True exactly when the response authenticator is the hash over the response with the request's authenticator and the secret (section 3 of RFC 2865). |
| RadiusClient.AccessRequestAccepted | SimuNAS/radproto.cxx:2098-2111 | Without a Message-Authenticator in the request, preparation succeeds if and only if there is room, and the packet passes the server's check of section 5.14 of RFC 2869 with code, id and the other attributes as given. |
| RadiusWire.RoomExact | SimuNAS/radproto.cxx:2098-2111 | Preparation succeeds if and only if the octets leave room for the hidden password beside the clear one, and then, without the clear one, for 18 octets of signature. |
| RadiusClient.PasswordRecovered | SimuNAS/radproto.cxx:2098-2111 | The server gets back the other attributes in order and one password, which it recovers padded if and only if it had at most 240 octets. |
| RadiusClient.AccountingRequestAccepted | SimuNAS/radproto.cxx:2098-2111 | An Accounting-Request without User-Password passes the check of section 3 of RFC 2866 and is otherwise unchanged. |
| RadiusLimits.SignatureExact | SimuNAS/radproto.cxx:929-942 | For all hashes the signature checks out if and only if the packet had no Message-Authenticator before or one of sixteen zero octets. |
| RadiusLimits.AccountingExact | SimuNAS/radproto.cxx:2098-2111 | For all hashes an Accounting-Request passes the server's check if and only if it has no User-Password (hiding one after the authenticator is computed breaks it). |
| Md5Standard.FoldAppend | SimuNAS/eap/md5.c:296-420 | Folding the compression over whole blocks in one go or in two is the same. |
| Md5Unrolled.OperationsAgree | SimuNAS/eap/md5.c:262-269 | A step with the macros FF, FG, FH, FI, added up and rotated as in the macro OP, equals the step of section 3.4 of RFC 1321, for all words. |
| Md5Unrolled.SameSteps | SimuNAS/eap/md5.c:302-409 | Machines that agree on every step agree on any number of indexed steps. |
| Md5Unrolled.Unrolled | SimuNAS/eap/md5.c:302-409 | The 64 written-out steps, with their constants, word choices and rotations, compute the indexed four-round loop of section 3.4 of RFC 1321. |
| Md5.CountUpExact | SimuNAS/eap/md5.c:289-294 | The two-word increment is addition modulo 2^64 for every length below 2^32, and for longer ones exactly when the true carry is one modulo 2^32. |
| Md5.Absorb | SimuNAS/eap/md5.c:216-259 | Compressing blocks out of the buffered tail and new data keeps state, counter and tail a representation of the whole message. |
| Md5.CompressBlock | SimuNAS/eap/md5.c:298-423 | One turn of the block loop is the standard's compression of that block. |
| Md5.CompressAll | SimuNAS/eap/md5.c:296-423 | The block loop folds the compression over the data. |
| Md5.Md5Ctx.constructor | SimuNAS/eap/md5.c:72-86 | A new object stands for the empty message. |
| Md5.Md5Ctx.ProcessBlock | SimuNAS/eap/md5.c:274-423 | Chaining words become the fold over the data; the counter goes up by its length. |
| Md5.Md5Ctx.FillBuffer | SimuNAS/eap/md5.c:222-243 | Joining new data to a buffer that is not empty stays within 128 octets, keeps at most 64 and loses nothing. |
| Md5.Md5Ctx.TakeBlocks | SimuNAS/eap/md5.c:245-258 | Whole blocks are compressed and the remainder is buffered. |
| Md5.Md5Ctx.ProcessBytes | SimuNAS/eap/md5.c:216-259 | The object now stands for the old message followed by the data; at most 64 octets stay buffered. |
| Md5.Md5Ctx.PutPadding | SimuNAS/eap/md5.c:123-129 | The octets behind the tail are 0x80, zeros and the length in bits, low word first. |
| Md5.Md5Ctx.Finish | SimuNAS/eap/md5.c:104-135 | The digest is that of RFC 1321 over everything the object stood for, padding included. |
| Md5.DigestOfChunks | SimuNAS/eap/md5.c:216-259 | Any message fed in any chunks below 2^32 octets gives the digest of sections 3.1 to 3.5 of RFC 1321 of the whole. |
| Md5TestSuite.DigestOfAlphabet | SimuNAS/eap/md5.c:299-440 | The standard as transcribed gives the digest that RFC 1321 lists for the alphabet (A.5), worked out over all 64 steps: tables, shifts, word order, padding and byte order are those of the standard. |
| Md5TestSuite.InitialOctets | SimuNAS/eap/md5.c:75-81 | The initial state, low-order octets first, is that of section 3.3 of RFC 1321. |
| Md5TestSuite.LengthExact | SimuNAS/eap/md5.c:126-129 | The eight octets of the length stand, lowest first, for the number of bits modulo 2^64. |
| EapPacket.AddTo16Exact | 802.1x-linux/include/accessor.hh:102-106 | Below 65536 the `+=` of access_ui16 is true addition, or 256 short of it exactly when the host is little-endian and the low octets carry. |
| EapPacket.Value32Of | 802.1x-linux/include/accessor.hh:111-127 | A 32-bit length written most significant octet first reads back. |
| TlsPacket.WireLengthExact | 802.1x-linux/src/type_tls.cc:41 | The EAP length of a frame after both additions (chunk and flag octet, then header) is exact if and only if neither carries, else 256 short. |
| TlsPacket.WrittenIsReceived | 802.1x-linux/src/eap_tls_packet.cc:13-20 | The octets the handler and the dispatcher write for a frame, into whatever buffer, are read by tls_pdu_len and the accessors as exactly Received says: flags, declared length, and as much of the chunk as the length field covers. |
| TlsHandler.ProcessKeepsOk | 802.1x-linux/src/type_tls.cc:112-240 | From a conforming peer no packet makes the receive buffer hold more than was announced, and a flight is in progress exactly while octets are left. |
| TlsHandler.InvalidChangesNothing | 802.1x-linux/src/type_tls.cc:128-202 | A packet answered ret_inv leaves the handler as it was and asks TLS nothing, in every state. |
| TlsHandler.StartAccepted | 802.1x-linux/src/type_tls.cc:136-146 | A start packet is answered if and only if the handler is in state start; so always after abort. |
| TlsHandler.SecondFailureAborts | 802.1x-linux/src/type_tls.cc:211-224 | In every run the handler asks for an abort if and only if TLS fails in a conversation in which it failed before, counted from the last answered start packet or abort. |
| TlsConversation.AcceptsExact | 802.1x-linux/src/type_tls.cc:63-200 | In each phase exactly which flags and sizes are accepted, what message TLS is then asked about, and what is answered without asking it. |
| TlsConversation.RepliesExact | 802.1x-linux/src/type_tls.cc:202-239 | What TLS answers decides the reply and the phase: an acknowledgement and the start for success, an abort for a second failure, nothing or the first frame otherwise. |
| TlsConversation.SuccessThenStart | 802.1x-linux/src/type_tls.cc:212-216 | After a packet on which TLS reports success the next start packet is answered, in every phase. |
| TlsConversation.StartExact | 802.1x-linux/src/type_tls.cc:132-247 | In every run a start packet is answered if and only if none was answered since the last success of TLS or abort. |
| TlsConversation.AckOnWire | 802.1x-linux/include/type_tls.hh:70-74 | An acknowledgement is six octets without flags, which the peer reads as one. |
| TlsConversation.FrameOnWire | 802.1x-linux/src/type_tls.cc:17-44 | Where code, identifier, length, type, flags, the flagged length of the message and the chunk lie in a response that fits. |
| TlsRoundTrip.FrameReceived | 802.1x-linux/src/type_tls.cc:17-46 | A frame that fits is received as sent; of any other a proper part of the chunk is received, or nothing. |
| TlsRoundTrip.RestDelivered | 802.1x-linux/src/type_tls.cc:148-178 | From any later frame on, the receiver hands over what it holds plus everything still to come if all frames fit, and less otherwise. |
| TlsRoundTrip.FlightDelivered | 802.1x-linux/src/type_tls.cc:148-237 | For every non-empty message and positive fragment size the frames are classified as first, middle and last so that the peer hands process_msg exactly that message after ceil(size / fragment) frames, if and only if no frame overflows the low octet of its length field. |
| TlsRoundTrip.SmallChunksFit | 802.1x-linux/src/type_tls.cc:41 | Fragments of at most 245 octets always fit, on either kind of host. |
| TypeTls.TypeTls.constructor | 802.1x-linux/src/type_tls.cc:87-93 | A new handler is in state start with a 1024-octet buffer. |
| TypeTls.TypeTls.CopyOut | 802.1x-linux/src/type_tls.cc:33-37 | The do-while loop copies from the cursor to the end of the chunk and touches nothing else. |
| TypeTls.TypeTls.FrameNext | 802.1x-linux/src/type_tls.cc:17-46 | The packet gets the next chunk behind its fields, the flag exactly if more remains, and the length increased; the cursor advances by the chunk. |
| TypeTls.TypeTls.RecvNext | 802.1x-linux/src/type_tls.cc:48-52 | The payload is added to what the buffer holds. |
| TypeTls.TypeTls.RecvFirst | 802.1x-linux/src/type_tls.cc:54-61 | The buffer holds exactly the payload and takes the announced length, in a new array if the old was too small. |
| TypeTls.TypeTls.StartFlight | 802.1x-linux/src/type_tls.cc:228-237 | The output of TLS goes out as a first frame with its length, and the rest stays behind the cursor. |
| TypeTls.TypeTls.ContinueFlight | 802.1x-linux/src/type_tls.cc:154-159 | After an acknowledgement the next frame goes out; the state becomes recv with the last one. |
| TypeTls.TypeTls.TlsStep | 802.1x-linux/src/type_tls.cc:206-239 | What a verdict of TLS does to state and packet: success, the first and the second failure, and output. |
| TypeTls.TypeTls.Receive | 802.1x-linux/src/type_tls.cc:119-202 | Classification and the four states on buffer and cursors do what the value machine does; ret_inv leaves every field and both buffers as they were. |
| TypeTls.TypeTls.Process | 802.1x-linux/src/type_tls.cc:112-240 | process() on buffer, cursors and output octets equals the value machine: state, code, the message handed to TLS, and every octet of the response; ret_inv changes nothing at all. |
| TypeTls.TypeTls.Abort | 802.1x-linux/src/type_tls.cc:242-247 | After abort the handler is as after construction. |
| DispatcherModel.StepCounts | 802.1x-linux/src/eap.cc:147-154 | The counter moves only by an answer (to 0), a rejection (up) and the sixth rejection (to 0, reported as ret_abort). |
| DispatcherModel.SixthAborts | 802.1x-linux/src/eap.cc:138-162 | In every run, aborts by the caller included, the counter is the number of rejections since the last answer or counter abort, at most five, and a rejection is reported as ret_abort if and only if five others precede it. |
| DispatcherAnswers.UnknownTypeExact | 802.1x-linux/src/eap.cc:115-128 | A request for a type nobody handles gets a NAK that names the type of the first handler willing to, or ret_inv that is not counted. |
| DispatcherAnswers.KnownTypeExact | 802.1x-linux/src/eap.cc:80-174 | Any other request that is not old goes to the first handler for its type; answers carry its type and identifier; the TLS handler starts anew if another method takes over; rejections count, the sixth aborts. |
| DispatcherAnswers.OthersExact | 802.1x-linux/src/eap.cc:48-78 | Success forgets the current method and the last identifier and nothing else; failures, old requests and other codes change nothing. |
| DispatcherAnswers.RunAuthOk | 802.1x-linux/src/eap.cc:99-100 | In every run the type remembered is that of the current method. |
| EapDispatcher.EapDispatcher.constructor | 802.1x-linux/include/eap.hh:152-153 | No handlers, no authentication, last_request 0 and counter 0. |
| EapDispatcher.EapDispatcher.FindHandler | 802.1x-linux/src/eap.cc:82-111 | The loop finds the first handler that wants the type; an authenticating one becomes current, after an abort if the type changed. |
| EapDispatcher.EapDispatcher.FindNak | 802.1x-linux/src/eap.cc:115-124 | The loop finds the first handler that offers another type. |
| EapDispatcher.EapDispatcher.Straight | 802.1x-linux/src/eap.cc:161-166 | The answered request is remembered, the counter cleared, and identifier, type and length finished. |
| EapDispatcher.EapDispatcher.RunHandler | 802.1x-linux/src/eap.cc:131-157 | The chosen handler runs on the request; answers are finished, rejections counted, aborts passed on. |
| EapDispatcher.EapDispatcher.Request | 802.1x-linux/src/eap.cc:80-174 | A request that is not old goes to its handler, else to a NAK, else is ret_inv without being counted. |
| EapDispatcher.EapDispatcher.Process | 802.1x-linux/src/eap.cc:35-175 | process() on objects and octets equals the value machine: state, return code, and every octet of the output packet, which only ret_cont writes. |
| EapDispatcher.EapDispatcher.Abort | 802.1x-linux/src/eap.cc:177-186 | Only a current authentication is told, but no request counts as old afterwards. |
| SupplicantSafety.AuthenticatedMeans | 802.1x-linux/src/main.cc:581-674 | In every run the loop is outside INIT only since a turn that answered a request, and in DID_AUTH only if EAP-Success came after that turn. |
| SupplicantSafety.TurnStages | 802.1x-linux/src/main.cc:606-674 | In one turn INIT is left only by answering a request, and DID_AUTH entered only from DO_AUTH by EAP-Success. |
| SupplicantSafety.TurnKeepsMolestor | 802.1x-linux/src/main.cc:264-279 | Every turn keeps: the recorded child is the only one alive, and none is in DID_AUTH. |
| SupplicantSafety.OneMolestor | 802.1x-linux/src/main.cc:224-279 | In every run at most one molestor is alive, and none in DID_AUTH. |
| SupplicantStages.BeginExact | 802.1x-linux/src/main.cc:547-555 | The program begins in INIT with a molestor if one is wanted and can be started, or one EAPOL-Start instead. |
| SupplicantStages.SuccessExact | 802.1x-linux/src/main.cc:606-680 | EAP-Success in DO_AUTH leads to DID_AUTH, and out of the loop exactly in single-shot mode; in INIT it only stops the molestor; afterwards no child is alive. |
| SupplicantStages.FailureExact | 802.1x-linux/src/main.cc:606-680 | EAP-Failure starts a molestor in INIT, ends the program in DO_AUTH in single-shot mode, and restarts otherwise. |
| SupplicantStages.AbortExact | 802.1x-linux/src/main.cc:606-680 | An abort leads to INIT with nothing current and nothing old, and starts a molestor only outside INIT. |
| SupplicantStages.AnswerExact | 802.1x-linux/src/main.cc:675-680 | An answer is sent once, as an EAP packet as long as its own length says, and leads to DO_AUTH. |
| SupplicantStages.IgnoredExact | 802.1x-linux/src/main.cc:563-604 | Frames that are not EAP packets change nothing, old requests only repeat the last frame, and rejected packets only stop a molestor in DO_AUTH. |
| SupplicantStages.OtherPae | 802.1x-linux/src/main.cc:581-593 | A frame of another authenticator is handled as after a restart, or from DID_AUTH as in INIT. |
| SupplicantStages.DoAuthExact | 802.1x-linux/src/main.cc:556-681 | In every run the loop is in DO_AUTH if and only if a request was answered and since then came no success, abort, change of authenticator or, outside single-shot mode, failure. |
| SupplicantStages.DidAuthExact | 802.1x-linux/src/main.cc:556-681 | In every run the loop is in DID_AUTH if and only if EAP-Success came from the known authenticator while an authentication was under way, and since then no answer, failure, abort or change of authenticator. |
| SupplicantSafety.HeldSince | 802.1x-linux/src/eap.cc:161-175 | After an answer and any number of quiet turns the answered frame is still in the output buffer and its request counts as old. |
| SupplicantSafety.DuplicateRepeatsAnswer | 802.1x-linux/src/main.cc:597-604 | A duplicate of an answered request, with no answer, success, failure or abort in between, is answered with the identical frame and changes neither dispatcher, handler, stage nor child; whether fork works does not matter. |
| SupplicantSafety.OldExact | 802.1x-linux/src/eap.cc:73-78 | In every run a request is taken for old if and only if it repeats, from the same authenticator, the identifier of one answered before with only quiet turns since, or its identifier is 0 and nothing has been answered, succeeded or aborted yet. |
| SupplicantSafety.FirstRequestRefused | 802.1x-linux/include/eap.hh:152-153 | The input that shows it: a first request with identifier 0 is taken for old and not answered. |
| SupplicantSafety.AbortIsTls | 802.1x-linux/src/eap.cc:147-157 | Only the TLS handler makes the dispatcher give up, and it is then the current one. |
| SupplicantSafety.AbortResets | 802.1x-linux/src/main.cc:606-674 | In INIT, DO_AUTH and DID_AUTH alike a packet answered ret_abort leaves the TLS handler as after construction and nothing counting as old. |
| SupplicantSafety.AbortThenStart | 802.1x-linux/src/main.cc:606-674 | After such an abort the next TLS start packet is answered, whatever its identifier and sender. |
| SupplicantSafety.ResyncWithinSeven | 802.1x-linux/src/eap.cc:138-154 | From any state one of seven TLS start packets in a row is answered, as long as none carries the identifier that counts as old at the beginning. |
| MainLoop.Program.constructor | 802.1x-linux/src/main.cc:547-555 | The state in which the loop begins, with the first molestor if one is wanted. |
| MainLoop.Program.Send | 802.1x-linux/src/ll_eapol.cc:42-46 | The frame is made and sent, with its length remembered for retransmission. |
| MainLoop.Program.StartMolestor | 802.1x-linux/src/main.cc:224-262 | A child starts, or a single EAPOL-Start frame is sent instead. |
| MainLoop.Program.DoAbort | 802.1x-linux/src/main.cc:271-279 | The dispatcher is aborted and a molestor started if one is wanted and none recorded. |
| MainLoop.Program.ChangePae | 802.1x-linux/src/main.cc:581-593 | A frame from another authenticator ends what was going on, with an abort only from DO_AUTH. |
| MainLoop.Program.React | 802.1x-linux/src/main.cc:606-680 | The switch on stage and return code, and the answer if there is one. |
| MainLoop.Program.Turn | 802.1x-linux/src/main.cc:556-681 | One turn of the loop on objects, octets and the child equals the turn of the value machine that all run theorems are about. |
| CommandExpand.EndsExactly | xsupplicant/src/cmd_handler.c:124-162 | For every command and name the loop ends if and only if there is nothing to replace, or the name contains no %i and does not both begin with "ii" and end with "%%" while the command contains "%%i", "%ii" or "%i%i". |
| CommandExpand.EndsForAllCommands | xsupplicant/src/cmd_handler.c:124-162 | The names with which it ends for every command are those that do not contain %i and do not both begin with "ii" and end with "%%". |
| CommandExpand.EndlessNames | xsupplicant/src/cmd_handler.c:124-162 | With the command "%ii" and the names "%i" and "ii%%" a %i is left after every number of turns. |
| CommandExpand.NeverEnds | xsupplicant/src/cmd_handler.c:124-162 | Wherever the condition fails, a %i is left after every number of turns. |
| CommandExpand.TurnDrops | xsupplicant/src/cmd_handler.c:124-162 | Where it holds, every turn keeps it and lowers a measure: a weight for every '%' (names that do not end with "%%"), the same for the mirror image (names that do not begin with "ii"), or the number of %i. |
| CommandExpand.NothingLeft | xsupplicant/src/cmd_handler.c:124-162 | No %i is left when the loop ends. |
| CommandExpand.DoInt | xsupplicant/src/cmd_handler.c:91-165 | Null arguments give the code's status and leave its buffer as the code does; otherwise, wherever the loop ends at all, it ends with the expansion. |
| CommandExpand.LoopIsOnePass | xsupplicant/src/cmd_handler.c:124-162 | Wherever the loop ends, the result is that of one left-to-right pass if and only if no '%' of the command or at the end of the name comes to stand before an 'i'. |
| CommandExpand.PlainNames | xsupplicant/src/cmd_handler.c:124-162 | That never happens for names that are not empty, do not begin with 'i' and do not end with '%'; for every other name some command shows it. |

## Left out

- The destructor, IsOpen, SendRequest, SetIdCacheTimeout during a run, GetSocket's cleanup of idle sockets, port selection, DNS, round robin and retries: no state that the proved properties depend on, or library calls.
- No progress is claimed for waiting followers beyond SocketHandOff: as SocketStranded shows, one may be left without a reader; nor does a result of false mean that no response was stored.
- FindVsaAttr, the AppendVsaAttr variants, AsTime and the As... readers other than AsCiscoString: easy members, or not what their documentation says.
- SocketRun.StepInv: assumes that entries are guarded, which the code does not check; SocketEntry shows that nothing less will do, and SocketLease derives it from the id ring when every call returns within the timeout of its id's issue.
- RadiusSocket.RadiusSocket.EnterRequest: sequences stand for the object's fixed tables, and the branch for a sync point that could not be made is absent because making one does not fail here.
- RadiusClient.PrepareRequest: a Message-Authenticator already in the request is taken to have 16 octets, as section 5.14 of RFC 2869 says; with another length the code writes over part of a longer one or over the attribute behind a shorter one, which SetupMessageAuthenticator states on octets only.
- RadiusPDU.RadiusPDU.SetupMessageAuthenticator: a shorter Message-Authenticator must not lie so near the end of the buffer that the code would write past it.
- TypeTls.TypeTls.Process: takes packets whose EAP length covers their header, and first fragments no longer than they declare; the code computes a wrapped size or writes past its buffer otherwise.
- TypeTls.TypeTls.RecvFirst: growable loses its old contents when it grows; as its one use overwrites them, only the new contents are stated.
- TlsRoundTrip.FlightDelivered: a fragment and its header must fit a 16-bit EAP length, and the message a 32-bit TLS length.
- TypeTls.TypeTls.Receive: as for Process, a first fragment longer than it declares would be written past its buffer.
- EapDispatcher.EapDispatcher.Request: as for TypeTls.Process, TLS requests whose length does not cover their header or whose first fragment is longer than it declares are outside; other requests are unrestricted.
- EapDispatcher.EapDispatcher.Process: likewise, and a packet has at least the five octets that the dispatcher reads.
- EapDispatcher.EapDispatcher.RunHandler: what the identity, notification and MD5 handlers answer is a parameter; they have no state and never reject.
- MainLoop.Program.Turn: takes the packets EapDispatcher.Process takes; receiving (with the check of the two lengths), logging, signals, EAPOL-Logoff at the end and the endless loop itself are outside; the EAPOL header is kept in fields beside the array with the EAP packet.
- CommandExpand.DoInt: is given only commands and names with which the loop ends (EndsExactly says which); interface names have at most 15 characters, as the code copies them into 16 octets; malloc does not fail.
- md5_stream, md5_buffer's one-shot form and byte order other than little-endian: wrappers around what is proved.
- OpenSSL itself, packet sockets, terminal input, configuration files, the Windows copies of the EAP classes, the vendored loader and the user interface.
