# ProcessBus, verified

ProcessBus generates and receives IEC 61850 process-bus traffic: GOOSE and Sampled Values (SV) on
Ethernet, and their routable forms R-GOOSE and R-SV inside IPv4/UDP with the IEC 61850-90-5 session
envelope. Its headline verdict is "zero gaps". This project models the logic between the wire and
that verdict and proves what it does, for all inputs and all runs.

One story runs through the modules: frames are scheduled, built, sent, dispatched, parsed and
checked for gaps.

| module | subject |
|---|---|
| `Bytes`, `Bits` | fixed-width integers, big-endian fields, in-place writes, masks |
| `SvApdu`, `SvCodes` | the bounded BER walker for SV, the grammar it recognises, and what each refusal means |
| `GooseWalk`, `GooseGrammar` | the recursive allData walker, the two copies of the GOOSE walk, and the grammar they recognise |
| `Checksum`, `RFrame` | IPv4 header checksum, frame prefix, per-group patch |
| `RSession`, `Routable` | session envelope, classification, validation, unwrapping, the round trip |
| `Received`, `Readings` | the receiver said of octets: which frames are taken, refused or counted as forged, and what they read as |
| `Writes`, `Amend`, `RGenerators` | amendment of recycled buffers by the routable generators of all workers |
| `Sending` | what an amendment leaves in a buffer, octet by octet |
| `TlvEdit`, `SvAmended`, `GooseAmended` | what a parser reads from an amended APDU |
| `Gaps` | sequence-gap counters over whole lossy runs, and the verdict over tables of any mix of streams |
| `AppIdContainer` | the APPID-indexed stream table |
| `Frames` | received frames, the streams they belong to, the order in which a pipeline run handles a batch |
| `RxDispatch`, `RxRefinement`, `RxDrain` | dispatcher, rings and workers as interleaved steps; the dispatch loop refines them; nothing gets stuck |
| `Judging` | what the receiver makes of one frame: passport and state from its bytes, entry from the stream table |
| `Pipeline` | one run of the stage chain over one batch: counters and sources |
| `TxSchedule` | worker slices, burst plan, blocked schedule |
| `TxBurst`, `TxPaced` | the two send loops against any NIC, pool and falling stop flag |
| `Streams` | stream identities on both sides, and what the senders' counters carry |
| `EndToEnd`, `TableVerdict` | dispatch, pipelines and gap counting together, entry by entry and over both tables |
| `StreamTable`, `L2Streams` | the tables as start-up fills them, and which frames are recognised |
| `Delivery` | generator to verdict: what the receiver reads from the n-th frame of a stream, and what a run of them counts |
| `BusRun`, `SvBusRun` | the whole bus: send loops, network, rings, pipelines, tables and verdict |

`dafny verify dfyconfig.toml` checks all of it.

Conventions. Bytes and 16-, 32- and 64-bit values are subset types of `int`, and every wrap-around is
written out. `Overlay(s, at, w)` is `s` after `w` was stored at `at`. The crypto backend is an abstract
interface (`RSession.Crypto`) of which only `Lawful` is assumed: sizes, and that Decrypt undoes
Encrypt; a toy backend shows that this can be met. NIC, pool, ring and stop flag are
adversarial parameters that keep the DPDK contracts: bulk allocation is all or nothing, a burst
accepts a prefix, a ring is a bounded FIFO, and the stop flag only ever falls.

Where the code does less than one might expect, the exact condition is proved. The SV sample counter
misses a loss that ends at a second boundary, one that is a whole number of seconds long, and one before
the first delivered frame when that frame is the first or second of its second (`SvCountsVisible` for every
run, `SvMissesBoundaryLoss`, `SvMissesWholeSecond`); for R-SV the session number sees all of these but a loss
before the first delivered frame (`RsvExact`, `SvMissesWholeSecond`). The GOOSE counter misses a loss run of 2^32 - 1 frames
(`GooseCountsVisible`, `GooseMissesFullCycle`). Two streams with one APPID share a table slot
(`PutThenFind`). A header word changed between 0x0000 and 0xFFFF passes the checksum, except when that
leaves an all-zero header (`SingleWordChange`, `AllZeroIsRejected`). Send offsets stop increasing above
10^6 units per second (`OffsetsIncrease`). The ID digits of a stream are cut off once its number has more
digits than the name has room for (`DigitsAgree`), so that frames of the 10000th SV stream and beyond are not
recognised (`SvFrameKnown`). The paced send loop makes a gap of its own whenever a
frame is freed before another one of its stream is sent, which its error counter tells (`WireGaps`,
`NoErrorsNoGaps`); the burst loop never does (`TxBurstCycle`).

## Model

| member | source | states |
|---|---|---|
| `SvApdu.LengthExact` | src/bus_processor/process_bus_parser.cpp:110-133 | a definite-form length of one to five octets is read as n exactly when the X.690 reading of those octets is n |
| `SvApdu.DecodeLength` | src/bus_processor/process_bus_parser.cpp:110-133 | the decoding loop stays inside its bound and finds the length field exactly when one is complete there, with its value and end position |
| `SvApdu.TlvExact` | src/bus_processor/process_bus_parser.cpp:135-149 | a TLV is found at the head of a byte string exactly when the string is that TLV's octets followed by the rest |
| `SvApdu.TakeTlv` | src/bus_processor/process_bus_parser.cpp:135-149 | takes a TLV of the expected tag if and only if one lies wholly before the bound; positions delimit its value |
| `SvApdu.TakeField` | src/bus_processor/process_bus_parser.cpp:207-211 | the same after a tag of any kind, bounded by the ASDU |
| `SvApdu.CheckQuality` | src/bus_processor/process_bus_parser.cpp:260-268 | the Quality loop accepts exactly the data whose eight 32-bit Quality words are all zero |
| `SvApdu.CheckField` | src/bus_processor/process_bus_parser.cpp:213-278 | accepts a field exactly when its tag and size are legal, Quality is good and it was not seen before; otherwise gives the walker's code |
| `SvApdu.WalkFields` | src/bus_processor/process_bus_parser.cpp:193-285 | the field loop gives the code and the svID, smpCnt and confRev of the field list that tiles the ASDU |
| `SvApdu.FieldsExact` | src/bus_processor/process_bus_parser.cpp:198-280 | a region is read as a field list if and only if the list is legal, strictly tag-increasing and tiles the region |
| `SvApdu.AsduExact` | src/bus_processor/process_bus_parser.cpp:188-285 | the same for one 0x30 ASDU with all mandatory fields, followed by any rest |
| `SvApdu.AsdusExact` | src/bus_processor/process_bus_parser.cpp:186-296 | the same for a list of ASDUs that tiles the sequence and agrees with the first in svID and confRev |
| `SvApdu.WalkAsdus` | src/bus_processor/process_bus_parser.cpp:186-296 | the ASDU loop counts exactly that list and reports its first member, or the first error's code |
| `SvApdu.PduSound` | src/bus_processor/process_bus_parser.cpp:156-299 | what is accepted is a grammar tree whose octets are a prefix of the APDU |
| `SvApdu.PduComplete` | src/bus_processor/process_bus_parser.cpp:156-299 | every APDU that starts with a tree's octets is accepted with that very tree |
| `SvApdu.PduExact` | src/bus_processor/process_bus_parser.cpp:156-299 | both directions, so the tree of an accepted APDU is unique |
| `SvApdu.WalkPdu` | src/bus_processor/process_bus_parser.cpp:156-299 | every return code of the walker, and the report on acceptance |
| `SvApdu.ParseSvApdu` | src/bus_processor/process_bus_parser.cpp:156-299 | returns 0 if and only if some prefix of the input matches the declarative grammar; num, svID, confRev and smpCnt are then that tree's |
| `SvApdu.ParseSvPacket` | src/bus_processor/process_bus_parser.cpp:500-526 | an L2 SV frame with or without VLAN tag is accepted exactly when a well-formed PDU starts at its APDU offset; size and type errors |
| `SvApdu.QualityOctets` | src/bus_processor/process_bus_parser.cpp:256-270 | good Quality, octet by octet: of the 64, the second four of every eight are zero |
| `SvCodes.PduCodes` | src/bus_processor/process_bus_parser.cpp:156-299 | every refusal has one of six codes, and -11 is given exactly to a PDU that is in order up to sample data of 64 octets whose Quality is not good |
| `GooseWalk.LengthExact` | src/bus_processor/process_bus_parser.cpp:12-40 | lengths of at most three further octets are read exactly as their octets denote; 0x80 denotes zero |
| `GooseWalk.DecodeLength` | src/bus_processor/process_bus_parser.cpp:12-40 | the unbounded decoder, on memory with slack: where it stops and what it returns whether or not the field runs past the end |
| `GooseWalk.ItemExact` | src/bus_processor/process_bus_parser.cpp:423-427 | a TLV is read exactly when the octets are tag, length, value and rest |
| `GooseWalk.AllDataComplete` | src/bus_processor/process_bus_parser.cpp:64-95 | every data tree nested within the depth limit is accepted with that tree |
| `GooseWalk.AllDataSound` | src/bus_processor/process_bus_parser.cpp:64-95 | whatever is accepted is a data tree within the depth limit that tiles the region |
| `GooseWalk.AllDataExact` | src/bus_processor/process_bus_parser.cpp:64-95 | both directions at depth zero |
| `GooseWalk.ParseAllData` | src/bus_processor/process_bus_parser.cpp:64-95 | terminates and returns the top-level entry count of that tree, or -1 exactly when there is none |
| `GooseWalk.StoreField` | src/bus_processor/process_bus_parser.cpp:429-466 | which passport or state field each tag sets, and to what |
| `GooseWalk.SkipItemsLoop` | src/bus_processor/process_bus_parser.cpp:477-483 | tags 0x30 and 0x31: always moves forward, and ends where the skip of whole TLVs ends, even past the frame |
| `GooseWalk.SkipInnerValue` | src/bus_processor/process_bus_parser.cpp:484-487 | tags 0xA0 and 0xA1: a second length is read and skipped |
| `GooseWalk.WalkFrame` | src/bus_processor/process_bus_parser.cpp:421-497 | the L2 item loop computes one function of the bytes from its start to the frame end; slack matters only if a tag is the very last byte |
| `GooseWalk.ParseGoosePacket` | src/bus_processor/process_bus_parser.cpp:391-498 | size and type errors, and otherwise the walk of the APDU at offset 22 or 26 |
| `GooseWalk.WalkRoutable` | src/bus_processor/process_bus_parser.cpp:629-705 | the routable item loop computes the same function |
| `GooseWalk.ParseRoutableApdu` | src/bus_processor/process_bus_parser.cpp:623-705 | the routable walk of an unwrapped APDU |
| `GooseWalk.WalkShift` | src/bus_processor/process_bus_parser.cpp:421-497 | the item loop does not depend on where its bytes lie: same code, passport and state, allData offset shifted |
| `GooseWalk.ApduShift` | src/bus_processor/process_bus_parser.cpp:412-497 | the same for a whole APDU |
| `GooseWalk.WalkBoth` | src/bus_processor/process_bus_parser.cpp:623-705 | both copies on one APDU, each in its own surroundings, agree in return code, passport and state, with allDataOffset shifted by the base; whatever follows the APDU, unless its last byte is taken for a tag |
| `GooseWalk.WalkSays` | src/bus_processor/process_bus_parser.cpp:421-497 | a walkable sequence of items is walked to the end, and every name, number and the timestamp is that of the last visited item with its tag (for the timestamp: of a size it takes) |
| `GooseWalk.AcceptedGoose` | src/bus_processor/process_bus_parser.cpp:412-497 | an APDU is accepted if and only if it has a PDU header, items up to the end, a control block, data set and ID, and a numDatSetEntries that is the top-level entry count of its last allData, well-formed to depth eight (zero without one); all of passport and state, timestamp and allData offset included, are then those of the last item with each tag |
| `GooseWalk.AcceptedIsWalkable` | src/bus_processor/process_bus_parser.cpp:421-497 | nothing else is accepted |
| `GooseWalk.WalkOffset` | src/bus_processor/process_bus_parser.cpp:467-476 | the offset in the passport is that of the last allData |
| `GooseWalk.DataLies` | src/bus_processor/process_bus_parser.cpp:467-476 | and the value of the last allData lies there |
| `GooseGrammar.FieldStep` | src/bus_processor/process_bus_parser.cpp:421-497 | a plain item: refused when empty or when it is an allData that is no data, and otherwise taken and passed |
| `GooseGrammar.ContextStep` | src/bus_processor/process_bus_parser.cpp:484-487 | tags 0xA0 and 0xA1: what is skipped is the second length field and the octets it denotes, whether that ends inside the item, at its end or beyond it, and no value is taken |
| `GooseGrammar.ContextEnd` | src/bus_processor/process_bus_parser.cpp:484-487 | one whose second length is cut off or reaches past the end ends the items |
| `GooseGrammar.GroupStep` | src/bus_processor/process_bus_parser.cpp:477-483 | tags 0x30 and 0x31: whole TLVs are skipped, as many as it takes to use the announced size up, the last of which may reach beyond it |
| `GooseGrammar.GroupEnd` | src/bus_processor/process_bus_parser.cpp:477-483 | one whose last TLV is cut off or reaches past the end ends the items |
| `GooseGrammar.ItemsComplete` | src/bus_processor/process_bus_parser.cpp:415-490 | items of the grammar are walked to the end, and the values taken are its fields in order |
| `GooseGrammar.ItemsSound` | src/bus_processor/process_bus_parser.cpp:415-490 | and whatever is walked to the end is items of the grammar |
| `GooseGrammar.GooseExact` | src/bus_processor/process_bus_parser.cpp:412-498 | a GOOSE APDU is accepted if and only if it is of the grammar: tag 0x61, a length field, items up to the end, the three names among its fields, and an entry count that is the one of its last allData |
| `GooseGrammar.PduReads` | src/bus_processor/process_bus_parser.cpp:421-497 | passport and state of an accepted APDU: names, counters and timestamp are the big-endian values of the last field with each tag |
| `GooseGrammar.PduOffset` | src/bus_processor/process_bus_parser.cpp:467-476 | the allData offset is the place of the last allData's value in the buffer, modulo 2^16 |
| `GooseGrammar.LastIs` | src/bus_processor/process_bus_parser.cpp:415-490 | the last field with a tag, by position |
| `GooseGrammar.StampIs` | src/bus_processor/process_bus_parser.cpp:444-450 | the last timestamp of four to eight octets, by position |
| `GooseGrammar.EntriesAre` | src/bus_processor/process_bus_parser.cpp:63-94 | the entry count is the number of whole TLVs that tile the value of allData |
| `GooseGrammar.TilingUnique` | src/bus_processor/process_bus_parser.cpp:63-94 | and the octets alone determine it |
| `GooseGrammar.GooseCodes` | src/bus_processor/process_bus_parser.cpp:412-498 | what each refusal means: -102 exactly for an entry count other than announced, -100 for a missing name, -101 for an allData that is no data, -3 for a wrong header or an item that cannot be taken; there is no other code |
| `Checksum.FoldResidue` | src/common/r_frame_builder.cpp:29-31 | end-around carry keeps the residue modulo 65535 and maps only zero to zero |
| `Checksum.FullFold` | src/bus_processor/process_bus_parser.cpp:323-333 | the fold is 0xFFFF exactly for positive multiples of 65535 |
| `Checksum.FoldSum` | src/common/r_frame_builder.cpp:29-31 | the carry loop terminates with the folded sum |
| `Checksum.Ipv4Checksum` | src/common/r_frame_builder.cpp:23-33 | the builder's loop gives the complement of the folded sum of the ten header words |
| `Checksum.Ipv4ChecksumOk` | src/bus_processor/process_bus_parser.cpp:323-333 | the verifier accepts exactly the headers whose words sum to a positive multiple of 65535 |
| `Checksum.SumWrite` | src/common/r_frame_builder.cpp:23-33 | storing one word changes the sum by exactly the change of that word |
| `Checksum.WrittenChecksumOk` | src/common/r_frame_builder.cpp:58-58 | for every header the checksum written over its zeroed field makes the verifier accept |
| `Checksum.SingleWordChange` | src/bus_processor/process_bus_parser.cpp:323-333 | after changing one word of an accepted header it is still accepted if and only if the change is none or between 0x0000 and 0xFFFF, and not all words are zero |
| `Checksum.AllZeroIsRejected` | src/bus_processor/process_bus_parser.cpp:323-333 | the all-zero exception is real |
| `RFrame.BuildPrefix` | src/common/r_frame_builder.cpp:39-67 | the in-place stores leave exactly the Ethernet, IPv4 and UDP prefix with its checksum, and no other byte changed |
| `RFrame.HeaderAccepted` | src/common/r_frame_builder.cpp:47-58 | every built IPv4 header passes the verifier |
| `RFrame.MakeDstFields` | src/common/r_frame_builder.cpp:69-84 | MAC, address and checksum taken from any skeleton |
| `RFrame.DstFieldsClosed` | src/common/r_frame_builder.cpp:69-84 | those fields are the ones of a header built for that destination, whatever the skeleton's own destination, port and tail |
| `RFrame.PatchIsRebuild` | src/bus_generator/r_goose_traffic_gen.hpp:37-40 | storing the three fields gives the frame that a full rebuild for that destination gives |
| `RFrame.MacOfGroup` | src/common/r_frame_builder.hpp:52-60 | the low 23 bits of the group under 01-00-5E, as a number; two groups share a MAC exactly when they agree modulo 2^23 (section 6.4 of RFC 1112) |
| `RFrame.PrefixLayout` | src/common/r_frame_builder.cpp:39-67 | what a built prefix says at each offset, field by field as numbers: addresses, types, lengths, ports, and a header that adds up |
| `RFrame.PatchedAddress` | src/bus_generator/r_goose_traffic_gen.hpp:37-40 | a patched frame is addressed to its group at the Ethernet and the IP level, its header adds up, and every other octet is as before |
| `RSession.Build` | src/common/r_session.cpp:67-101 | writes exactly the envelope and returns where the APDU goes |
| `RSession.Seal` | src/common/r_session.cpp:103-138 | in place: trailer and tag, and under GCM the derived IV and the ciphertext of the payload; nothing before the UDP payload changes |
| `RSession.ParseSession` | src/common/r_session.cpp:140-182 | errors are negative; on success the payload lies within the datagram and holds an element header |
| `RSession.Unseal` | src/common/r_session.cpp:184-220 | in place: verdict, and the plaintext left behind under GCM |
| `RSession.ParsePayload` | src/common/r_session.cpp:222-242 | the APDU size comes from the payload length |
| `RSession.TagsEqual` | src/common/r_session_crypto_common.cpp:24-37 | the constant-time compare accepts exactly equal tags |
| `RSession.DeriveIvInjective` | src/common/r_session_crypto_common.cpp:8-22 | two sequence numbers or keys never share an IV |
| `RSession.ToyIsLawful` | src/common/r_session_crypto.hpp:39-51 | the assumptions on the crypto backend can be met |
| `Routable.SealedIsWire` | src/common/r_session.cpp:103-138 | sealing gives one wire form whatever the IV and trailer bytes were before |
| `Routable.SessionRecovered` | src/common/r_session.cpp:140-182 | parsing a built session header recovers every field |
| `Routable.PayloadRecovered` | src/common/r_session.cpp:222-242 | parsing a built payload header recovers APPID, sizes and the APDU's place |
| `Routable.UnsealedWire` | src/common/r_session.cpp:184-220 | unsealing what was sealed, in the same mode, succeeds and restores the payload |
| `Routable.RoundTrip` | src/bus_processor/process_bus_parser.cpp:538-596 | for every mode, APDU that fits, APPID, SPDU number, group and padding: the frame is classified, validated and unwrapped to exactly the APDU, APPID and SPDU number sent |
| `Routable.WeakerModeRejected` | src/common/r_session.cpp:187-215 | an unsealed frame at a receiver that expects a seal, and an HMAC frame where GCM is expected, are refused as unauthentic |
| `Routable.HeaderDamageRefused` | src/bus_processor/process_bus_parser.cpp:336-389 | a built frame with one header word changed is refused by the envelope check, for every word and every change the checksum can see |
| `Routable.UnwrapInPlace` | src/bus_processor/process_bus_parser.cpp:538-596 | unwrapping on the receive buffer gives the same result as on values and touches neither the prefix nor what follows the frame |
| `Received.ValidateExact` | src/bus_processor/process_bus_parser.cpp:336-389 | a frame is admitted if and only if it is an unfragmented IPv4 envelope without options, UDP to port 102, with lengths that agree and fit, and a header that the NIC vouches for or that adds up; what is reported is its destination |
| `Received.SessionExact` | src/common/r_session.cpp:140-182 | a session PDU parses if and only if it is a datagram of the written form, and its fields are then reported |
| `Received.UnsealedIs` | src/common/r_session.cpp:184-220 | unsealing, said of octets: under HMAC the sixteen octets after 0x85 and a length octet are the tag of everything before them; under GCM the IV has twelve octets, the length octet is 16, and decryption of the payload with everything before it as associated data succeeds |
| `Received.UnwrapExact` | src/bus_processor/process_bus_parser.cpp:538-596 | a frame that carries a datagram: another session identifier is refused, then authentication decides between opening it and the code for forged frames, and what is opened comes from the authenticated plaintext |
| `Received.RefusedIsForged` | src/bus_processor/process_bus_parser.cpp:581-584 | only a frame that carries a datagram without authentication gets that code |
| `Writes.ApplyForgets` | src/bus_generator/r_goose_traffic_gen.hpp:53-65 | a list of stores forgets whatever lay under it |
| `Writes.ApplyKeeps` | src/bus_generator/r_goose_traffic_gen.hpp:53-65 | stores of one shape leave the buffer equal to the skeleton off that shape |
| `Writes.ApplyInPlace` | src/bus_generator/r_goose_traffic_gen.hpp:53-65 | the stores on an array |
| `Amend.MakeSkeleton` | src/bus_generator/r_goose_traffic_gen.cpp:49-88 | prefix, envelope, APDU and zeroed trailer |
| `Amend.MakeDstTable` | src/bus_generator/r_goose_traffic_gen.cpp:60-62 | entry i holds what a rebuild for group i would write |
| `Amend.FreshIsRecycled` | src/bus_generator/r_goose_traffic_gen.cpp:73-88 | a fresh skeleton, and the plaintext master taken from it, satisfy the invariant that amendments keep |
| `Amend.Prepare` | src/bus_generator/r_sv_traffic_gen.hpp:58-74 | source port, group and SPDU number stored over leftovers give the prefix and header of the stream |
| `Amend.AmendRegion` | src/bus_generator/r_sv_traffic_gen.hpp:76-92 | payload amended where it lies, or under GCM in the plaintext master and copied, is the skeleton's payload with this stream's stores |
| `Amend.AmendFrame` | src/bus_generator/r_sv_traffic_gen.hpp:58-97 | on any recycled buffer the result is byte for byte the frame built from scratch, and the buffer stays recyclable |
| `Amend.FreshRoundTrip` | src/bus_generator/r_goose_traffic_gen.hpp:26-75 | the receiver classifies, validates and unwraps an amended frame to the amended APDU, the stream's APPID and SPDU number |
| `Amend.RecycledByAll` | src/bus_generator/gen_application.cpp:808-823 | a buffer of the shared pool that one worker's generator may amend, every other one may |
| `RGenerators.RGooseGen.constructor` | src/bus_generator/r_goose_traffic_gen.cpp:14-33 | establishes the generator's invariant from any APDU skeleton and in-range offsets |
| `RGenerators.RGooseGen.AmendPacket` | src/bus_generator/r_goose_traffic_gen.hpp:26-75 | steps only that stream's state and turns any recycled buffer into the stream's next frame |
| `RGenerators.GooseCounters` | src/bus_generator/r_goose_traffic_gen.hpp:42-61 | after n amendments both counters have moved by n modulo 2^32 |
| `RGenerators.AmendAfterHistory` | src/bus_generator/r_goose_traffic_gen.hpp:26-75 | one pool, any number of workers' generators, any earlier amendments by any of them on any buffers: the next frame is the one built from scratch, and its state depends only on how often its own stream was amended |
| `RGenerators.RSvGen.constructor` | src/bus_generator/r_sv_traffic_gen.cpp:14-33 | establishes the SV generator's invariant |
| `RGenerators.RSvGen.AmendPacket` | src/bus_generator/r_sv_traffic_gen.hpp:21-49 | one or eight ASDUs: frame built from scratch with consecutive sample numbers, counters stepped |
| `RGenerators.SvShape` | src/bus_generator/r_sv_traffic_gen.hpp:41-46 | the stores of all streams and samples hit the same places |
| `RGenerators.SampleClosed` | src/bus_generator/sv_traffic_gen.hpp:54-77 | the compare-and-reset counter is the number of samples modulo one second's samples |
| `RGenerators.SvCounters` | src/bus_generator/r_sv_traffic_gen.hpp:35-74 | after n frames: n SPDU numbers, and the sample counter n times the ASDU count further on |
| `RGenerators.AmendSvAfterHistory` | src/bus_generator/r_sv_traffic_gen.hpp:21-97 | history independence of the SV generators on their shared pool |
| `RGenerators.AmendPooled` | src/bus_generator/gen_application.cpp:808-823 | one amendment by one of the generators on the shared pool gives its stream's frame and keeps every buffer good for all of them |
| `RGenerators.AmendSvPooled` | src/bus_generator/gen_application.cpp:828-836 | the same for one SV amendment |
| `Sending.SentIsDatagram` | src/common/r_session.cpp:68-138 | every built and sealed session PDU, octet by octet: the fixed lengths, times and zeros, the tag over everything before it, the IV of key, zeros and sequence number |
| `Sending.StreamFrame` | src/bus_generator/r_goose_traffic_gen.hpp:26-75 | every frame that an amendment leaves: group, MAC and source port by stream number, key identifier 1, no simulation, and that session PDU |
| `Sending.GooseValues` | src/bus_generator/r_goose_traffic_gen.hpp:58-65 | the stream's state as it stands in the amended APDU: counters most significant octet first, timestamp in host order, and a data value that is 1 for even state numbers and 0 for odd ones |
| `Sending.TimestampClosed` | src/bus_generator/r_goose_traffic_gen.hpp:58-59 | the timestamp of the n-th frame is the first one plus n intervals, modulo 2^64 |
| `Gaps.GooseSource.ProcessSessionState` | src/common/goose_container.hpp:177-182 | new number and error count; zero means not seen yet |
| `Gaps.GooseSource.ProcessState` | src/common/goose_container.hpp:184-193 | new state and error count; neither a repeat nor a step is an error |
| `Gaps.ReceiveGoose` | src/common/goose_container.hpp:177-193 | a source fed a whole run holds the wrapped number of erroneous positions |
| `Gaps.LosslessIff` | src/bus_processor/rx_application.cpp:473-483 | no loss runs if and only if frame k was the k-th delivered |
| `Gaps.GooseCountsVisible` | src/common/goose_container.hpp:184-193 | over any in-order run the count is the loss runs that are not 2^32 - 1 frames long modulo 2^32; it equals all loss runs if and only if none is |
| `Gaps.GooseExact` | src/common/goose_container.hpp:177-193 | with loss runs shorter than 2^32 - 1 frames, across wrap: the stNum count is the number of loss runs and the SPDU count never exceeds it |
| `Gaps.GooseSourceGaps` | src/bus_processor/rx_application.cpp:477-479 | the larger of one source's two wrapped counters is that report |
| `Gaps.SvSource.ProcessSessionState` | src/common/sv_container.hpp:132-137 | as for GOOSE |
| `Gaps.SvSource.ProcessState` | src/common/sv_container.hpp:139-150 | an error unless smpCnt moved by the ASDU count or is zero |
| `Gaps.ReceiveSv` | src/common/sv_container.hpp:132-150 | a source fed a whole SV run |
| `Gaps.SvCountsInside` | src/common/sv_container.hpp:139-150 | in particular, when the first frame arrives and losses are shorter than a second: all are counted if and only if none ends at a second boundary |
| `Gaps.SvMissesBoundaryLoss` | src/common/sv_container.hpp:141-141 | 3999 frames lost up to the next second are reported as none |
| `Gaps.SpduExact` | src/common/sv_container.hpp:132-137 | below 2^32 frames SPDU tracking misses only a loss before the first delivered frame |
| `Gaps.RsvExact` | src/bus_processor/rx_application.cpp:480-482 | for R-SV below 2^32 frames, with losses of any length, the larger of the two counts is the number of loss runs if and only if the first frame arrived or the sample counter sees every loss; otherwise it is one less |
| `Gaps.CountGaps` | src/bus_processor/rx_application.cpp:473-483 | over both tables the sum of the larger counter of each source, modulo 2^64 |
| `Gaps.SvSourceGaps` | src/bus_processor/rx_application.cpp:480-482 | the same for SV |
| `Gaps.GooseMissesFullCycle` | src/common/goose_container.hpp:184-193 | 2^32 - 1 frames lost in one run are reported as none by stNum tracking, and as one gap by the session number |
| `Gaps.SpduCountsVisible` | src/common/goose_container.hpp:177-182 | SPDU tracking over every in-order run: exactly the loss runs not before the first frame, not after number zero and not whole cycles long; all of them if and only if each is such |
| `Gaps.SvCountsVisible` | src/common/sv_container.hpp:139-150 | over every in-order run, with any losses: the count is the loss runs whose next frame does not start a second and that are not whole seconds long (for a first frame: that is neither first nor second of its second); all of them if and only if each is such |
| `Gaps.SvMissesWholeSecond` | src/common/sv_container.hpp:132-150 | a whole second lost in mid-second is reported as none by the sample counter; a lost first frame by both counters |
| `Gaps.GooseFed` | src/common/goose_container.hpp:177-193 | a source fed the updates of a run holds the wrapped error counts of that run |
| `Gaps.SvFed` | src/common/sv_container.hpp:132-150 | the same for SV |
| `Gaps.GooseSourceMeans` | src/common/goose_container.hpp:177-193 | what both counters of a GOOSE source mean after any in-order run |
| `Gaps.SvSourceMeans` | src/common/sv_container.hpp:132-150 | what both counters of an SV source mean after any in-order run |
| `Gaps.GooseReportMeans` | src/bus_processor/rx_application.cpp:477-479 | the larger counter of a GOOSE stream, for every in-order run: never more than the loss runs, zero if and only if no loss run left a trace, all loss runs when each is shorter than 2^32 - 1 frames |
| `Gaps.SvReportMeans` | src/bus_processor/rx_application.cpp:480-482 | the same for an SV stream of any profile and losses of any length: all loss runs for a routable stream below 2^32 frames whose first frame arrived |
| `Gaps.GooseTotalMeans` | src/bus_processor/rx_application.cpp:473-483 | the sum over a table of any mix of L2 and routable streams: zero if and only if no loss run left a trace; for short losses the loss runs of all streams, and zero if and only if every stream is complete up to its last frame |
| `Gaps.SvTotalMeans` | src/bus_processor/rx_application.cpp:473-483 | the same over a table of any mix of profiles and transports |
| `Gaps.Verdict` | src/bus_processor/rx_application.cpp:473-483 | both gap counts for any two tables of streams, each with its own transport and profile, mean just that |
| `Gaps.LossRunsAre` | src/bus_processor/rx_application.cpp:473-483 | loss runs are counted one for one: as many as there are delivered frames with frames missing directly before them |
| `Gaps.VisibleRunsAre` | src/common/goose_container.hpp:184-193 | so are the loss runs that the GOOSE counter can see |
| `Gaps.SpduVisibleRunsAre` | src/common/goose_container.hpp:177-182 | and those that SPDU tracking can see |
| `Gaps.SvVisibleRunsAre` | src/common/sv_container.hpp:139-150 | and those that the sample counter can see |
| `Gaps.SumIs` | src/bus_processor/rx_application.cpp:473-483 | every number of the total is added once, wherever it stands |
| `AppIdContainer.Newest` | src/bus_processor/appid_container.hpp:35-38 | the last entry with an APPID: nothing with that APPID comes after it, and none at all if it finds none |
| `AppIdContainer.Container.constructor` | src/bus_processor/appid_container.hpp:19-21 | an empty table whose index points nowhere |
| `AppIdContainer.Container.Find` | src/bus_processor/appid_container.hpp:27-33 | equals a linear scan: the newest entry with the key's APPID if its key is equal, else none |
| `AppIdContainer.Container.Insert` | src/bus_processor/appid_container.hpp:35-38 | appends, and keeps the index in agreement with the scan |
| `AppIdContainer.Container.Put` | src/bus_processor/appid_container.hpp:40-47 | operator[] and assignment: overwrites the newest entry of that APPID, whatever its key, or appends |
| `AppIdContainer.PutThenFind` | src/bus_processor/appid_container.hpp:27-47 | a key just assigned is found if and only if its APPID was free or held by that key |
| `AppIdContainer.PutIsMapUpdate` | src/bus_processor/appid_container.hpp:40-47 | without APPID collisions assignment is a map update |
| `AppIdContainer.FindIsMapLookup` | src/bus_processor/appid_container.hpp:27-33 | and find is the map lookup |
| `RxDispatch.WorkerIsMask` | src/bus_processor/rx_application.cpp:154-158 | after the start-up check the mask is the remainder by the worker count |
| `Bits.MaskIsMod` | src/bus_processor/rx_application.cpp:212-212 | masking with 2^k - 1 is the remainder modulo 2^k, for every number |
| `Bits.PowerOfTwoTest` | src/bus_processor/rx_application.cpp:155-155 | n and n - 1 share no bit if and only if n is a power of two |
| `RxDispatch.KeptFacts` | src/bus_processor/rx_application.cpp:201-215 | a worker's share of the arrivals is in arrival order and holds exactly its own undropped buffers |
| `RxDispatch.KeptDrop` | src/bus_processor/rx_application.cpp:224-228 | freeing the tail of one worker's queue shortens exactly that worker's share by it |
| `RxDispatch.RunInv` | src/bus_processor/rx_application.cpp:196-235 | every state reached by any interleaving of dispatcher and worker steps satisfies the invariant |
| `RxDispatch.StreamOrder` | src/bus_processor/rx_application.cpp:44-59 | in every reachable state the handled frames of a stream (protocol and key), or any choice among them, are in arrival order a prefix of the arrivals minus those dropped on a full ring, all of them once quiet, and only one worker ever holds them |
| `RxDispatch.BufferConservation` | src/bus_processor/rx_application.cpp:178-235 | in every reachable state each routed buffer is dropped once or held once by its own worker; no queue exceeds a burst; the ring-full counter is the number dropped |
| `RxDispatch.RouteBurst` | src/bus_processor/rx_application.cpp:201-215 | routing by the masked key: each worker queue gets its part of the burst in order and never overflows |
| `RxDispatch.DispatchBurst` | src/bus_processor/rx_application.cpp:197-231 | each ring gets a prefix of its worker's part as long as it accepts; the rest is freed and counted |
| `RxDispatch.RunOrder` | src/bus_processor/pipeline_pbus.hpp:317-322 | in every interleaving, frame by frame, a worker's pipeline handles the frames of a stream in the order in which it took them from its ring |
| `RxRefinement.DispatchRefines` | src/bus_processor/rx_application.cpp:197-231 | one pass of the dispatch loop, with whatever the rings accept, is a run of the state machine with the same rings, drops and counter |
| `RxRefinement.RoutesRun` | src/bus_processor/rx_application.cpp:201-215 | n routing steps leave every queue extended by its part of the first n buffers |
| `RxRefinement.EnqueuesRun` | src/bus_processor/rx_application.cpp:216-231 | offering queue after queue leaves the rings extended by what they took and the rest dropped |
| `RxDrain.Drain` | src/bus_processor/rx_application.cpp:196-235 | every reachable state can be continued to one in which nothing is on its way, without dropping more if a ring holds at least a burst |
| `RxDrain.AllHandled` | src/bus_processor/rx_application.cpp:196-235 | so every frame that was not dropped can still be handled, in arrival order within its stream |
| `Pipeline.Matrix.PutBuffer` | src/bus_processor/pipeline.hpp:11-14 | appends to one stage, given room |
| `Pipeline.Matrix.Route` | src/bus_processor/pipeline_pbus.hpp:49-94 | the router partitions the batch by protocol in order, and no stage overflows |
| `Pipeline.Matrix.PassToKernel` | src/bus_processor/pipeline_pbus.hpp:285-296 | the rest is counted and the stage emptied |
| `Pipeline.Matrix.Run` | src/bus_processor/pipeline_pbus.hpp:49-322 | on any batch: each frame handled once, in order within its stage; which counter each frame moves, by its bytes and the tables; all eight together rise by the batch size; every source is fed exactly its own frames in that order; stages empty again; START array untouched |
| `Pipeline.TallyAll` | src/bus_processor/pipeline_pbus.hpp:96-296 | kinds and stages partition the batch |
| `Pipeline.UpdateGoose` | src/bus_processor/pipeline_pbus.hpp:211-212 | session state first, then state |
| `Pipeline.Matrix.HandleGooseFrame` | src/bus_processor/pipeline_pbus.hpp:113-128 | one counter moves, the one that the frame's bytes and the table call for, and only the source of a known stream, by the frame's own numbers |
| `Pipeline.Matrix.HandleSvFrame` | src/bus_processor/pipeline_pbus.hpp:153-167 | the same for SV |
| `Pipeline.Matrix.HandleGoose` | src/bus_processor/pipeline_pbus.hpp:96-229 | a GOOSE stage handles its frames in order: counters, sources and an empty stage |
| `Pipeline.Matrix.HandleSv` | src/bus_processor/pipeline_pbus.hpp:136-283 | an SV stage does |
| `Pipeline.OneKind` | src/bus_processor/pipeline_pbus.hpp:96-296 | every frame is of exactly one kind, in exactly one stage |
| `Pipeline.StagesCounted` | src/bus_processor/pipeline_pbus.hpp:96-296 | the eight counters after all stages, one by one and in total |
| `Pipeline.StagesFed` | src/bus_processor/pipeline_pbus.hpp:317-322 | the sources after all stages are those fed in pipeline order |
| `TxSchedule.SlicePartition` | src/bus_generator/gen_application.cpp:165-171 | slices start at 0, end at num, follow each other and differ in size by at most one, the larger ones first |
| `TxSchedule.SliceOwner` | src/bus_generator/gen_application.cpp:165-171 | every stream is in exactly one slice |
| `TxSchedule.MakeBurstPlan` | src/bus_generator/tx_unit.hpp:30-43 | all streams in order, reps times over |
| `TxSchedule.PlanCount` | src/bus_generator/tx_unit.hpp:30-43 | each stream is planned exactly reps times and nothing else is |
| `TxSchedule.WorkersEmitAll` | src/bus_generator/gen_application.cpp:464-477 | all workers' plans together emit each global stream exactly reps times |
| `TxSchedule.MakeBlocks` | src/bus_generator/goose_traffic_gen.cpp:125-143 | the blocks of a unit flatten to all streams in order; every block but the last is a full bunch, and none is empty |
| `TxSchedule.MakeTxUnits` | src/bus_generator/sv_traffic_gen.cpp:153-186 | the whole schedule flattens to exactly the burst plan, each unit to all streams in order, in blocks of full bunches but for the last of a unit |
| `TxSchedule.OffsetsIncrease` | src/bus_generator/goose_traffic_gen.cpp:121-123 | all offsets lie below one second; they strictly increase if and only if there are at most 10^6 units |
| `TxSchedule.PlanAt` | src/bus_generator/tx_unit.hpp:30-43 | place k of the plan is stream k modulo their number, and there are streams times reps places |
| `TxSchedule.OffsetSpacing` | src/bus_generator/goose_traffic_gen.cpp:121-123 | the first unit is due at zero and the gap between units is the widest whole number of microseconds that fits as often as there are units |
| `TxBurst.Stage` | src/bus_generator/gen_application.cpp:329-344 | staging ends with the whole plan staged unless the flag fell; one read of the flag for every attempt, no attempt more than needed, and a bulk for each that succeeded |
| `TxBurst.Fire` | src/bus_generator/gen_application.cpp:361-370 | what the NIC took is a prefix of the staged frames in order, all of it unless the flag fell; one read of the flag for every offer, no offer once all is taken, and what goes out is the sum of what the NIC took |
| `TxBurst.TxBurstCycle` | src/bus_generator/gen_application.cpp:328-383 | over every run: wire content is a prefix of the repeated plan without repeats, completed bursts are whole plans, txPktCnt is the number accepted, each buffer is sent or freed exactly once, no stream has a gap on the wire, an empty plan is refused; every read of the flag is a pass, an attempt, a check or an offer, and if allocations succeed and the NIC takes something of every offer, k bursts are on the wire after k * (2 * plan + 2) reads |
| `TxBurst.WireHasNoGaps` | src/bus_generator/gen_application.cpp:292-294 | frames are numbered when amended; sent and freed buffers account for all amended ones in order, so each stream's numbers on the wire are 0, 1, 2 and so on |
| `TxBurst.InOrderNumbers` | src/bus_generator/gen_application.cpp:292-294 | buffers that reach the wire in amendment order carry each stream's numbers without a break |
| `TxBurst.OneBurst` | src/bus_generator/gen_application.cpp:329-382 | one pass: what was sent is a prefix of what was staged, all of the plan unless the flag fell; staged are 32 for every success and sent is what the NIC takes of full offers, both up to the plan; if nothing fails it takes at most 2 * plan + 1 reads of the flag |
| `TxBurst.BulksClosed` | src/bus_generator/gen_application.cpp:334-338 | the smaller last bulk costs nothing: 32 buffers a success, and all that the NIC would take of full offers, up to the length of the plan |
| `TxBurst.EagerEnds` | src/bus_generator/gen_application.cpp:361-370 | if every allocation succeeds and the NIC takes something of every offer, there are no more attempts, or offers, than frames |
| `TxBurst.PassesAt` | src/bus_generator/gen_application.cpp:328-383 | place by place, what bursts emit goes round the plan |
| `TxPaced.BulkSound` | src/bus_generator/gen_application.cpp:203-218 | one bulk keeps: each buffer sent or freed exactly once, order on the wire, both counters |
| `TxPaced.SendBlock` | src/bus_generator/gen_application.cpp:199-226 | a block is amended whole unless an allocation failed with the flag down, in bulks of 32 but for the last; of every bulk offered the first frames, as many as the NIC takes, go to the wire and the others are freed; each success is one offer, each failure a read of the flag or the end |
| `TxPaced.SendUnit` | src/bus_generator/gen_application.cpp:198-227 | of every block of a unit a prefix is amended, in order, and the whole block unless an allocation failed with the flag down; fates and reads as for one block |
| `TxPaced.TxPacedCycle` | src/bus_generator/gen_application.cpp:196-240 | over every run: the schedule is amended in order, cyclically, all units whole but the last one begun, and of that a prefix of each block; of every bulk the part that the NIC takes is on the wire and the rest freed, each once, and the two counters say how many; every read of the flag begins a unit or follows a failed allocation, so without failures there are as many units as reads |
| `TxPaced.RunInOrder` | src/bus_generator/gen_application.cpp:211-218 | each stream's numbers only grow on the wire, whatever was freed |
| `TxPaced.GapIffFreed` | src/bus_generator/gen_application.cpp:211-218 | the wire shows a gap in a stream if and only if one of its frames was freed before another was sent |
| `TxPaced.NoErrorsNoGaps` | src/bus_generator/gen_application.cpp:374-379 | a send-error count of zero means that everything amended is on the wire and no stream has a self-made gap |
| `TxPaced.RunIsWire` | src/bus_generator/gen_application.cpp:211-218 | counting along the amendments gives the numbers along the wire |
| `TxPaced.WireGaps` | src/bus_generator/gen_application.cpp:211-218 | what the receiver sees of a stream: growing numbers, with a gap if and only if one of its frames was freed before another was sent |
| `TxPaced.BulkByTakes` | src/bus_generator/gen_application.cpp:211-218 | one more bulk keeps: of the i-th bulk offered exactly the frames beyond what the NIC takes were freed |
| `TxPaced.ScheduledRound` | src/bus_generator/gen_application.cpp:196-240 | one round of units is the schedule of a second |
| `TxPaced.ScheduledAgain` | src/bus_generator/gen_application.cpp:233-239 | and the next round is the same again |
| `Streams.DigitsAgree` | src/bus_generator/r_goose_traffic_gen.cpp:25-28 | the sender's digits are the first of the receiver's formatted ones, and all of them if and only if the number fits |
| `Streams.IdentityMatches` | src/bus_processor/rx_application.cpp:398-470 | each table entry is sent by exactly one worker and local index, with the same APPID, group, MAC and digits if and only if the stream number fits the digits |
| `Streams.GroupOf` | src/common/r_frame_builder.hpp:63-69 | table index by mask and group by stream number name the same group |
| `Streams.AppIdsDistinct` | src/bus_generator/r_goose_traffic_gen.hpp:30-31 | stream APPIDs are distinct if and only if there are at most 65536 streams |
| `Streams.GooseCarries` | src/bus_generator/r_goose_traffic_gen.hpp:42-61 | frame n carries the numbers that the gap analysis takes it to carry |
| `Streams.SvCarries` | src/bus_generator/r_sv_traffic_gen.hpp:35-74 | the same for SV, sample number and SPDU number |
| `Streams.L2KeyIsAppId` | src/bus_processor/process_bus_parser.hpp:61-107 | the dispatch key of an L2 frame of any size is the APPID its parser reads, and it is classified GOOSE or SV exactly when that parser finds an APDU offset |
| `Streams.PaddedMeans` | src/bus_processor/rx_application.cpp:345-348 | formatted digits denote the number, fill the width and have no leading zero beyond it |
| `Streams.GroupIs` | src/common/r_frame_builder.hpp:66-69 | the group of a stream is the base address plus the low seven bits of its number, modulo 2^32 |
| `EndToEnd.EveryLossIsCounted` | src/bus_processor/rx_application.cpp:196-235 | in every interleaving, with a network that keeps order but may lose frames, both counters of a GOOSE entry's source count the places where its frames are missing, lost on the wire or dropped on a ring |
| `EndToEnd.NoGapIffNoDrop` | src/bus_processor/rx_application.cpp:216-231 | with a lossless network an entry shows no gap if and only if none of its frames that arrived before a handled one was dropped |
| `EndToEnd.NoDropNoGap` | src/bus_processor/rx_application.cpp:44-59 | with a lossless network a ring-full count of zero means that both counters of every GOOSE entry stay zero |
| `EndToEnd.L2Home` | src/bus_processor/process_bus_parser.hpp:61-107 | L2 frames known as an entry always come under that entry's APPID |
| `EndToEnd.L2SvHome` | src/bus_processor/process_bus_parser.hpp:61-107 | so do L2 SV frames |
| `EndToEnd.HandledPrefix` | src/bus_processor/rx_application.cpp:196-235 | the frames known as one entry are handled in arrival order, and none is missing but the dropped ones |
| `EndToEnd.PipelineFeedsInOrder` | src/bus_processor/pipeline_pbus.hpp:317-322 | the stage order of a pipeline run does not reorder the updates of a GOOSE source |
| `EndToEnd.FedByOneWorker` | src/bus_processor/rx_application.cpp:209-214 | only one worker ever updates a GOOSE source |
| `EndToEnd.EverySvLossIsCounted` | src/bus_processor/rx_application.cpp:196-235 | the same for SV entries of any profile |
| `EndToEnd.NoDropNoSvGap` | src/bus_processor/rx_application.cpp:44-59 | and those of every SV entry |
| `EndToEnd.PipelineFeedsSvInOrder` | src/bus_processor/pipeline_pbus.hpp:317-322 | nor those of an SV source |
| `EndToEnd.SvFedByOneWorker` | src/bus_processor/rx_application.cpp:209-214 | and only one an SV source |
| `EndToEnd.LossIsDrop` | src/bus_processor/rx_application.cpp:216-231 | with a lossless network a loss run ends at a handled frame if and only if the dispatcher dropped a frame of that entry between it and the one before |
| `Frames.PipelineKeepsOrder` | src/bus_processor/pipeline_pbus.hpp:317-322 | running the stages one after another keeps the order of the batch within a protocol |
| `Frames.PipelineMembers` | src/bus_processor/pipeline_pbus.hpp:49-94 | every frame of the batch is handled, and no other |
| `Frames.PipelineSize` | src/bus_processor/pipeline_pbus.hpp:49-94 | the five stages partition the batch |
| `Judging.TakeGoose` | src/bus_processor/process_bus_parser.cpp:391-498 | parser and passport of an L2 GOOSE frame: what its bytes say, within the domain of the length decoder |
| `Judging.TakeRGoose` | src/bus_processor/process_bus_parser.cpp:599-706 | envelope check, unwrapping, parser and passport of an R-GOOSE frame |
| `Judging.TakeSv` | src/bus_processor/process_bus_parser.cpp:500-526 | parser and passport of an L2 SV frame, every error code |
| `Judging.TakeRSv` | src/bus_processor/process_bus_parser.cpp:708-729 | envelope check, unwrapping, parser and passport of an R-SV frame |
| `Judging.Judge` | src/bus_processor/pipeline_pbus.hpp:207-223 | known, unlisted, forged or broken: each exactly when the scan finds the passport, finds none, the routable parser reports a failed authentication, or any other error |
| `Judging.OpenedInside` | src/bus_processor/process_bus_parser.cpp:538-596 | an opened APDU lies within the frame |
| `Readings.ProtoExact` | src/bus_processor/process_bus_parser.hpp:61-107 | classification, exactly: L2 kinds by the EtherType behind an optional VLAN tag, whatever the size, with the APPID as key; routable kinds by 73 octets, IPv4 without options, UDP port 102 and session identifier, with the source port as key |
| `Readings.GooseReadExact` | src/bus_processor/process_bus_parser.cpp:391-498 | an L2 frame is read as GOOSE if and only if it is addresses, perhaps a VLAN tag, EtherType 88-B8, APPID, six octets and an APDU of the grammar, 64 octets or more in all; destination MAC, APPID, names and numbers are then the frame's own |
| `Readings.SvReadExact` | src/bus_processor/process_bus_parser.cpp:500-526 | the same for L2 Sampled Values, EtherType 88-BA and a well-formed PDU; its APDU may be followed by anything |
| `Readings.RGooseReads` | src/bus_processor/process_bus_parser.cpp:599-706 | a wrapped R-GOOSE frame: forged exactly when it is not authentic, and otherwise read from its plaintext, with the group, MAC and SPDU number of its headers |
| `Readings.RSvReads` | src/bus_processor/process_bus_parser.cpp:708-729 | the same for R-SV; bad quality of a known code is not a forgery |
| `Readings.GooseForgedExact` | src/bus_processor/pipeline_pbus.hpp:207-223 | counted as forged are exactly the frames that are classified R-GOOSE, pass the envelope check, carry a datagram with session identifier 0xA1, and are not authentic in the receiver's mode |
| `Readings.SvForgedExact` | src/bus_processor/pipeline_pbus.hpp:207-223 | the same for R-SV and 0xA2 |
| `TlvEdit.EditsAreStores` | src/bus_generator/r_goose_traffic_gen.hpp:53-65 | overwriting parts of TLV values is storing at their places |
| `SvAmended.StoresAreTree` | src/bus_generator/r_sv_traffic_gen.hpp:41-46 | the generator's stores on a well-formed SV skeleton are the tree with new IDs and sample numbers |
| `SvAmended.AmendedSvReads` | src/bus_generator/r_sv_traffic_gen.hpp:21-49 | for every well-formed skeleton and stream state the amended APDU is accepted, with the stream's ID and its sample counter as smpCnt |
| `SvAmended.SkeletonsExist` | src/bus_generator/r_sv_traffic_gen.cpp:88-97 | an SV skeleton with such offsets exists |
| `GooseAmended.PiecesWalk` | src/bus_processor/process_bus_parser.cpp:421-497 | a sequence of plain items is walked one by one |
| `GooseAmended.DataSet` | src/bus_processor/process_bus_parser.cpp:64-95 | overwriting a byte of a primitive entry leaves a data set with as many entries |
| `GooseAmended.StoresAreItems` | src/bus_generator/r_goose_traffic_gen.hpp:53-65 | the generator's stores on a GOOSE skeleton are its items with new values |
| `GooseAmended.AmendedGooseReads` | src/bus_generator/r_goose_traffic_gen.hpp:53-65 | for every skeleton and stream state the amended APDU is accepted by both walks, wherever it lies and whatever follows, with the stream's stNum, sqNum and ID digits |
| `GooseAmended.SkeletonsExist` | src/bus_generator/r_goose_traffic_gen.cpp:90-100 | a GOOSE skeleton with such offsets exists |
| `Delivery.GooseFrameReads` | src/bus_generator/r_goose_traffic_gen.hpp:26-75 | in every security mode, and whether or not the NIC verified the checksum, the receiver reads from a stream's frame that stream's identity, SPDU number, stNum and sqNum |
| `Delivery.SvFrameReads` | src/bus_generator/r_sv_traffic_gen.hpp:21-97 | the same for SV: identity, SPDU number, ASDU count and smpCnt |
| `Delivery.GooseSentNumbers` | src/bus_generator/r_goose_traffic_gen.hpp:42-61 | so the frames of an entry are at home under the stream's dispatch key, and numbered |
| `Delivery.SvSentNumbers` | src/bus_generator/r_sv_traffic_gen.hpp:35-74 | the same for SV |
| `Delivery.GooseVerdictOfRun` | src/bus_processor/rx_application.cpp:473-483 | generator to verdict: in every reachable state, over any losses and drops, both counters of a generated R-GOOSE stream's entry, over runs of any length, and the report they make |
| `Delivery.SvVerdictOfRun` | src/bus_processor/rx_application.cpp:473-483 | the same for generated R-SV streams of any profile |
| `Delivery.GooseFrameNumbers` | src/bus_generator/r_goose_traffic_gen.hpp:42-61 | frame n is dispatched by the stream's APPID and read with the numbers that the gap analysis takes it to carry |
| `Delivery.SvFrameNumbers` | src/bus_generator/r_sv_traffic_gen.hpp:35-74 | the same for SV |
| `Delivery.GooseTableOfRun` | src/bus_processor/rx_application.cpp:473-483 | the gaps of a whole table of generated R-GOOSE streams are the verdict on what was delivered |
| `Delivery.SvTableOfRun` | src/bus_processor/rx_application.cpp:473-483 | the same for a table of generated R-SV streams, profiles mixed |
| `TableVerdict.GooseTableReports` | src/bus_processor/rx_application.cpp:473-483 | in every reachable state the gaps of a whole GOOSE table, L2 and routable entries mixed, are what its streams report |
| `TableVerdict.SvTableReports` | src/bus_processor/rx_application.cpp:473-483 | the same for an SV table of any profiles and transports |
| `TableVerdict.CountTables` | src/bus_processor/rx_application.cpp:473-483 | the headline verdict: in every reachable state, with any losses and drops, the two counts taken from the sources of both tables are the verdicts on what was delivered |
| `TableVerdict.AllAreFed` | src/bus_processor/pipeline_pbus.hpp:317-322 | the sources it reads are fresh ones fed in the order of the pipelines |
| `StreamTable.Fill` | src/bus_processor/appid_container.hpp:35-47 | assigning values to keys one after another |
| `StreamTable.PutsApart` | src/bus_processor/appid_container.hpp:40-47 | every entry holds a value of its own |
| `StreamTable.PutsInOrder` | src/bus_processor/appid_container.hpp:40-47 | with distinct APPIDs entry i is key i with value i |
| `StreamTable.FillGoose` | src/bus_processor/rx_application.cpp:422-432 | a GOOSE table with a new source for each key |
| `StreamTable.FillSv` | src/bus_processor/rx_application.cpp:441-449 | an SV table with a new source for each key |
| `StreamTable.Start` | src/bus_processor/rx_application.cpp:331-471 | start-up with any keys: tables, distinct fresh sources, and a matrix wired to them |
| `StreamTable.StartRoutable` | src/bus_processor/rx_application.cpp:398-470 | start-up for configured routable streams: entry i is stream i's passport |
| `StreamTable.KeysApart` | src/bus_processor/rx_application.cpp:424-425 | configured streams have APPIDs of their own if and only if there are at most 65536 |
| `StreamTable.GoosePassportMatches` | src/bus_processor/rx_application.cpp:424-431 | the passport that a stream's frames show is the receiver's entry if and only if the stream number fits eight digits |
| `StreamTable.SvPassportMatches` | src/bus_processor/rx_application.cpp:443-448 | the same for SV and four digits |
| `StreamTable.GooseFrameKnown` | src/bus_processor/rx_application.cpp:418-435 | every frame of a configured R-GOOSE stream is known as that stream's entry, with its own numbers, in every security mode |
| `StreamTable.SvFrameKnown` | src/bus_processor/rx_application.cpp:438-453 | every frame of a configured R-SV stream is known as its entry, with its own numbers, if the stream is one of the first 9999, and is unlisted otherwise |
| `L2Streams.GooseKnownExact` | src/bus_processor/rx_application.cpp:336-356 | an L2 GOOSE frame is known as entry i of the configured table if and only if it shows that entry's MAC, APPID, three names, configuration revision and entry count, and is unlisted if it shows no entry's; its update carries its own numbers |
| `L2Streams.SvKnownExact` | src/bus_processor/rx_application.cpp:358-392 | the same for L2 Sampled Values: MAC, APPID, svID, configuration revision and ASDU count |
| `L2Streams.GooseFrameInDomain` | src/bus_processor/process_bus_parser.cpp:391-498 | an L2 frame of the grammar keeps to the length decoder's domain, unless a tag is its very last octet |
| `L2Streams.StartL2` | src/bus_processor/rx_application.cpp:336-392 | start-up for configured L2 streams: entry i is stream i's passport |
| `L2Streams.RoutableEntry` | src/bus_processor/rx_application.cpp:394-399 | a routable stream has the passport of the L2 stream with its number, but for the group and the MAC mapped from it |
| `BusRun.BurstArrives` | src/bus_generator/gen_application.cpp:328-383 | a burst cycle over a network that loses nothing: the receiver gets 0, 1, 2 and so on of every stream |
| `BusRun.GooseRecognised` | src/bus_processor/rx_application.cpp:418-435 | a frame from the configured generators is known as the entry of its stream, and as no other |
| `BusRun.GooseBusVerdict` | src/bus_processor/rx_application.cpp:473-483 | the R-GOOSE bus: traffic of configured generators, any losses, interleaving and drops: the gap count over the table is the verdict on what was delivered |
| `BusRun.BurstBusHasNoGaps` | src/bus_generator/gen_application.cpp:292-294 | burst loops of all workers, a lossless network and no ring-full drop leave every counter of every entry, and the gap count over the table, at zero |
| `BusRun.BurstBusCountsDrops` | src/bus_processor/rx_application.cpp:216-231 | and with drops every entry's report is its number of drop runs |
| `SvBusRun.SvRecognised` | src/bus_processor/rx_application.cpp:438-470 | a frame from the configured SV generators is known as the entry of its stream |
| `SvBusRun.SvBusVerdict` | src/bus_processor/rx_application.cpp:473-483 | the R-SV bus verdict |
| `SvBusRun.BurstSvBusHasNoGaps` | src/bus_generator/gen_application.cpp:292-294 | burst loops, a lossless network and no drop leave every SV counter at zero |

## Left out

- GOOSE length fields of four or more octets: the decoder's signed int overflows there and the walk may not even end, so both walks report `OutOfDomain`.
- GooseWalk.WalkBoth: an APDU whose very last byte is taken for a tag has its next length in the slack; if that slack byte claims four or more octets, a walk may end as `OutOfDomain`. Agreement is stated in every other case, and whenever both walks end normally.
- GooseWalk.ParseGoosePacket: memory is the frame and at least four slack bytes, because the length decoder has no end bound.
- Judging.TakeGoose: says nothing of frames outside the length decoder's domain, for which the code's behaviour is not defined.
- Judging.TakeRGoose: as TakeGoose; it works on the frame as a value, in-place decryption is `Routable.UnwrapInPlace`.
- Pipeline.Matrix.Run: GOOSE frames of the batch are within the length decoder's domain; the counters are unbounded numbers, and races of several workers on them are not modelled, so conservation is per run.
- Pipeline.Matrix.HandleGoose: one method stands for the L2 and the routable GOOSE stage, as HandleSv does for SV; stage frames are bounded sequences rather than fixed arrays.
- SvApdu.ParseSvApdu: what a rejected APDU leaves in the passport is not stated.
- TxBurst.Stage: the late and retry counters, cleanup of sent buffers and the tick clock are not modelled.
- RSession.Seal: the backend always succeeds; failing HMAC or Encrypt calls are not modelled, nor is any cryptographic strength.
- RSession.ToyIsLawful: shows consistency of the interface only, not a property of mbedTLS or OpenSSL.
- RxDispatch.DispatchBurst: workers that the stop flag leaves with buffered frames at shutdown are not modelled.
- Gaps.RsvExact: from 2^32 frames on the session number wraps through zero, which reads as not seen yet; what it then counts is `SpduCountsVisible`.
- EndToEnd.EveryLossIsCounted: frames known as one entry come by one protocol and key. That is proved for L2 frames; for routable ones it asks that the UDP source port is the APPID, which the generator sees to (`GooseFrameReads`).
- BusRun.BurstBusHasNoGaps: the frames that arrive are those the amendments make (`AmendAfterHistory`); transport over the wire itself is the hypothesis that they arrive in order.
- SvBusRun.SvBusVerdict: all configured SV streams have one ASDU count, because `--sv80` and `--sv256` streams take each other's APPIDs; tables of mixed profiles are `TableVerdict.SvTableReports`.
- AppIdContainer.Container.Insert: the table holds fewer than 2^64 - 1 entries.
- L2 GOOSE and SV `AmendPacket` and the single-threaded L2 send loop: the same stores and loop without envelope, which would only add easy members.
- Skeleton APDUs made by libiec61850: any APDU bytes with in-range offsets are accepted as parameters, and any well-formed PDU with offsets at the named values where a parser reads them.
- Getters and setters of the stream sources; console output of start-up; mixing L2 and routable streams with one APPID, which the program's documentation excludes.
- DPDK ports, pools, clocks, pacing delays, thread launch, statistics; the Orange Pi scratch copy before decryption.
- Parsing of options, MAC and IP text; console tables; scripts, tools and build files.
