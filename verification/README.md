# Remote control protocol: verified model

A Dafny model of the Rust crate's protected message path and of the state machines
around it, with proofs of what they promise.

`Octets`, `Crc32`, `Parity`, `ByteMessageInfo`, `Acf`, `AcfMessages`, `Avtp`, `E2e`,
`Layout`, `Protection`, `Detection` and `FragmentTrain` cover the message path: the 8-octet
`byte_message_info` header, ACF_ABB and ACF_GBB messages with derived length and pad,
several messages in one frame, the NTSCF and TSCF headers, the safe-point CRC-32, its
coverage and its trailer. `Layout` states every one of these formats in literals.
`Protection` composes these as a sender and a receiver do; `Detection` and `Straddle` say
which damage on the wire a receiver always notices and which it cannot. `Fragment` is the
live reassembly buffer and its behaviour over a channel that loses, repeats and reorders
fragments; `Transfer` composes it with everything above, from the sender's messages to the
receiver's verdict on the train. `Discovery` is the discovery-stream claim, a lease over
time. `Adc`, `Gpio` and `EndpointId` are the two-level ADC average, GPIO edge triggers and
writes, and the printed endpoint address.

Conventions. Octets and fixed-width fields are bit vectors of the source's widths, so
masking, truncation and shifting are the source's own; lengths and times are integers.
16-bit counters held as integers wrap explicitly. `Octets.Result` stands for the source's
error returns; free-text errors are the single value `Other`. Loops, appends to buffers and
objects that change in place are methods with loops, and one class each for the frame buffer
and the reassembly buffer. Each such method is tied to a function of its inputs (or of the
old state), and the promises are lemmas about that function. `Acf.AcfMessage` stands for the
two message structs and for the borrowed pair the coverage builder takes; `Acf.Fill` is a
message with `acf_msg_type`, `acf_msg_length` and `pad` as the encoder derives them.

Standards are cited by section: OPEN Alliance TC18 v0.5.1_RC, section 11.1 (AVTPDU headers),
section 11.2.1 (ACF header), section 12.9.1.1 (several requests in one frame) and section
13.6 (CRC).

## What the code does

Where the code and its documentation differ the model follows the code.

- `parse_endpoint_id` documents exactly 16 hex digits (`src/adapt.rs:207-211`). It accepts every
  documented text and more: `EndpointId.AcceptsIff` says exactly which texts it accepts, and
  `EndpointId.DocumentedIff` that it meets its documentation on a text if and only if the text
  is not accepted or has the separator after 16 characters and no plus sign in front of either
  half. `EndpointId.ShortIdAccepted` is an example.
- `is_in_progress` documents "and not yet completed" (`src/fragment.rs:169-174`). Over any run it
  agrees with that if and only if no completion has been reported since the last reset
  (`Fragment.InProgressIff`); `Fragment.CompletedInProgress` is an example.
- A completed buffer is documented to need a reset before it can accept a fragment of a different
  train (`src/fragment.rs:122-127`). `Fragment.ResetNeededIff` says for which trains that is so:
  the other train is no longer than the stored one, or its fragment numbered next does not fit.
  `Fragment.MixedTrains` is an example in which completion is reported on a mixed payload.

The following is as documented, but easily assumed otherwise.

- `verify_reassembled_train_crc` returns a CRC; it compares nothing and does not ask whether
  the train is complete. `Fragment.CompletedTrainCrc` says what it returns once it is.
- `decode_ntscf_frame` returns every octet after the header, whatever `ntscf_data_length` says.
- `split_crc_trailer` takes the CRC from the end of the octets given, not from the place the
  length field implies.
- An NTSCF header and a TSCF header with timestamp zero are covered identically, and neither
  the sequence number nor the AVTPDU length is covered (`Protection.CoverageByPrefix`).
- The CRC detects every burst of 32 bits inside what it covers, but is sent most significant
  octet first while its bits run the other way. Over a whole sealed message, trailer included,
  the guarantee therefore holds if and only if the payload is not a whole number of quadlets, so
  that pad octets stand between payload and trailer (`Straddle.BurstsNoticedIff`).
- Which damage passes depends on the differing bits only, never on what was sent
  (`Detection.DamagePassesIff`).
- The two-level ADC average can be one below the floor mean of its samples
  (`Adc.AverageCanLoseOne`); `Adc.AverageError` says exactly when.

## Model

| member | source | states |
|---|---|---|
| Crc32.ComputeCrc | src/e2e.rs:310-323 | the two nested loops over one register compute the CRC function all lemmas below are about |
| Crc32.ReverseBitsIsReversal | src/e2e.rs:272-298 | the register reversal used to relate the two engines undoes itself, turns right shifts into left shifts and swaps the end bits |
| Crc32.ReverseStep | src/e2e.rs:272-298 | the crate's polynomial constant is the bit reversal of the standard's, and one LSB-first step is one MSB-first step of the reversed register |
| Crc32.EnginesAgree | src/e2e.rs:755-774 | for every octet string the reflected engine equals the reflect-by-hand MSB-first reference, which has its own literal constants |
| Crc32.CrcIsAffine | src/e2e.rs:294-323 | the CRC is the data fed into a zero register plus what an all-ones start becomes over as many bits, complemented |
| Crc32.CheckValues | src/e2e.rs:777-792 | the CRC of "123456789" is 0x1697D06A and that of the empty string is 0 |
| Crc32.StepLinear | src/e2e.rs:310-323 | one register step is linear over GF(2) |
| Crc32.StepsNonzero | src/e2e.rs:310-323 | any number of steps maps exactly the zero register to zero, so no difference is ever shifted away |
| Crc32.FeedIsFeedBits | src/e2e.rs:310-323 | feeding octets equals feeding their bits one at a time, least significant first |
| Crc32.FeedBitsPacked | src/e2e.rs:310-323 | feeding at most 32 bits equals adding them all to the register and then stepping |
| Crc32.FeedBitsDifference | src/e2e.rs:310-323 | the sum of two runs is the run over the bit difference: the CRC of a difference does not depend on the data |
| Crc32.BurstNonzero | src/e2e.rs:294-323 | a nonempty difference confined to 32 consecutive bits never cancels |
| Crc32.BurstDetected | src/e2e.rs:294-323 | two different octet strings of one length whose differing bits lie in any window of 32 consecutive bits have different CRCs |
| Parity.OddStep | src/e2e.rs:310-323 | one register step keeps the register's bit parity, because the polynomial has an even number of terms |
| Parity.CrcCarriesParity | src/e2e.rs:310-323 | the CRC of any octet string has the parity of the string |
| Parity.EvenWithCrc | src/e2e.rs:310-323 | any octet string followed by its CRC as sent has even parity |
| Parity.OddDamageChangesCrc | src/e2e.rs:310-323 | an odd number of differing bits, however far apart, changes the CRC |
| ByteMessageInfo.EncodeByteMessageInfo | src/acf.rs:462-507 | the in-place encoder validates every width and fills the array with the encoding the lemmas are about |
| ByteMessageInfo.EncodeFollowsLayout | src/acf.rs:60-88 | the header is one 64-bit big-endian word with every field at the offset of Table 4 and both reserved pairs zero |
| ByteMessageInfo.DecodeInvertsEncode | src/acf.rs:517-561 | every header whose fields fit is decoded to itself, whatever follows it |
| ByteMessageInfo.EncodeInvertsDecode | src/acf.rs:462-561 | re-encoding any decoded header gives its octets back with only the four reserved bits cleared |
| ByteMessageInfo.InfoOctetsInjective | src/acf.rs:462-507 | different fitting headers have different octets |
| Layout.BigEndian | src/avtp.rs:206-214 | integers of every width go out most significant octet first |
| Layout.FieldWidths | src/acf.rs:172-192 | a header is encoded exactly if its fields fit 7, 9, 2, 11, 3 and 12 bits, and is an invalid size otherwise |
| Layout.DecodedLayout | src/acf.rs:517-561 | any eight octets decode to the header whose layout is those octets without bits 4:3 of octet 2 and 3:2 of octet 4; fewer are short |
| Layout.ReservedBits | src/acf.rs:60-88 | the reserved bits every normal form clears are exactly those |
| Acf.QuadletsAndPad | src/acf.rs:646-663 | length and pad cover header and payload exactly with pad at most 3; it fails exactly above 511 quadlets, with an invalid size |
| Acf.LengthAndPadUnique | src/acf.rs:646-663 | any length and pad 0..3 that describe a total are the ones derived |
| Acf.EncodeAcfAbb | src/acf.rs:734-749 | the appending encoder computes the encoding the lemmas are about |
| Acf.EncodeAcfGbb | src/acf.rs:880-896 | the same with the big-endian timestamp between header and payload |
| Acf.EncodeSucceedsIff | src/acf.rs:734-749 | encoding succeeds exactly when the kept fields fit and the payload is at most 2036 (ACF_ABB) or 2028 (ACF_GBB) octets, and otherwise reports an invalid size |
| Acf.EncodedShape | src/acf.rs:734-749 | an encoding is exactly as many quadlets as its header says, pad octets last and zero |
| Layout.EncodedLayout | src/acf.rs:734-896 | an encoding is the caller's header with type 0x0E or 0x0D, length and pad replaced, timestamp, payload and zero pad octets |
| Layout.EncodedType | src/acf.rs:573-582 | the first seven bits of an encoding are 0x0E for ACF_ABB and 0x0D for ACF_GBB |
| Layout.DecodedExactly | src/acf.rs:679-934 | for every octet string: short, another type, inconsistent length, short again, or the payload and timestamp at their places, in this order |
| Acf.MessageBytesExact | src/acf.rs:679-697 | exactly when a message can be cut out, which error is reported otherwise, and that header, payload and pad octets make up the octets consumed |
| Acf.DecodeAccepts | src/acf.rs:763-782 | exactly which octet strings are accepted, and which octets become header, timestamp and payload |
| Acf.TailIgnored | src/acf.rs:755-763 | octets after the message never affect the result |
| Acf.PrefixFree | src/acf.rs:679-697 | every strict prefix of an accepted message is rejected as short |
| Acf.DecodeInvertsEncodeAcf | src/acf.rs:908-934 | decoding an encoding followed by anything gives the message with its derived fields and consumes exactly the encoding |
| Acf.NormalForm | src/acf.rs:646-782 | re-encoding whatever either decoder accepts succeeds, re-derives the same length and pad, and gives the consumed octets with only reserved bits and pad octets cleared |
| AcfMessages.DecodeAcfAbbMessages | src/acf.rs:798-827 | the offset loop computes the recursive splitting the lemmas are about, error included |
| AcfMessages.EmptyIsShort | src/acf.rs:799-801 | an empty frame is rejected as short |
| AcfMessages.SplitAppend | src/acf.rs:798-827 | splitting distributes over concatenation at a message boundary |
| AcfMessages.AcceptedPrefixKept | src/acf.rs:798-827 | on an accepted frame followed by more octets the splitter returns the frame's messages followed by what it makes of the rest, or the rest's error |
| AcfMessages.ConcatenationDecodes | src/acf.rs:784-827 | splitting the concatenated encodings of any non-empty list returns exactly that list, derived fields filled in |
| AcfMessages.UniquelyDecodable | src/acf.rs:784-827 | two lists with the same concatenated encoding are the same list up to derived fields |
| AcfMessages.SplitCanonical | src/acf.rs:798-827 | whatever is accepted re-encodes, message by message, to the same octets with only reserved bits and pad octets cleared, which split into the same messages |
| Avtp.EncodeNtscfHeader | src/avtp.rs:233-247 | the buffer-filling encoder checks the 11-bit length and computes the header octets the lemmas are about |
| Avtp.EncodeTscfHeader | src/avtp.rs:376-389 | the same for the 24-octet TSCF header, which cannot fail |
| Avtp.NtscfLayout | src/avtp.rs:214-247 | the first quadlet is subtype, sv = 1, version and r zero, 11-bit length and sequence number at the offsets of Figure 6 |
| Avtp.NtscfRoundTrip | src/avtp.rs:256-284 | every NTSCF header with an 11-bit length decodes to itself, whatever follows |
| Avtp.NtscfNormalForm | src/avtp.rs:233-284 | an accepted NTSCF header re-encodes to its octets with only the version and reserved bits cleared |
| Avtp.TscfRoundTrip | src/avtp.rs:398-430 | every TSCF header decodes to itself, whatever follows |
| Avtp.SelectionInvertsEncoding | src/avtp.rs:500-517 | selection recovers the encoded variant: NTSCF always, TSCF exactly when the server is time-sync capable |
| Avtp.IncapableDropsTscf | src/avtp.rs:473-517 | an incapable server never obtains a TSCF header and accepts exactly the NTSCF input a capable one accepts |
| Layout.NtscfExactly | src/avtp.rs:216-284 | the twelve octets of an NTSCF header, the invalid size over 11 bits, and which octets decode to which fields or errors |
| Layout.TscfExactly | src/avtp.rs:340-430 | the twenty-four octets of a TSCF header, and which octets decode to which fields or errors |
| Layout.SelectedExactly | src/avtp.rs:500-517 | selection by the first octet, for every input and capability, with its error |
| Layout.StreamIdLayout | src/avtp.rs:580-597 | a stream id is the six MAC octets and then the two of the unique id |
| Avtp.StreamIdBijection | src/avtp.rs:589-617 | building and parsing stream ids are inverse in both directions |
| Avtp.EncodeNtscfFrame | src/avtp.rs:646-662 | the appending encoder computes the frame the lemmas are about |
| Avtp.FrameRoundTrip | src/avtp.rs:646-680 | framing succeeds exactly up to 2047 octets, and unframing gives back stream id, sequence number, length and payload |
| Layout.FrameLayout | src/avtp.rs:646-662 | every octet of a frame; a payload over 2047 octets is an invalid size |
| Layout.UnframedExactly | src/avtp.rs:677-680 | header and payload together are all octets that arrived, whatever the length field says |
| E2e.BuildCrc32CoverageBuffer | src/e2e.rs:418-465 | the region-by-region builder computes the coverage the lemmas are about |
| E2e.CoverageSucceedsIff | src/e2e.rs:418-465 | coverage exists exactly when every field fits and the length has room for one more quadlet |
| E2e.CoverageExact | src/e2e.rs:418-465 | two coverage buffers are equal if and only if stream id, effective timestamp, kind, every header field but the overwritten type, message timestamp and payload are equal |
| Layout.CoverageLayout | src/e2e.rs:418-465 | the coverage octet by octet: stream id, timestamp (four zero octets under NTSCF), header with type forced and length one up, message timestamp, payload |
| E2e.FinalizeCrcTrailer | src/e2e.rs:531-545 | the frame buffer becomes the finalized frame, and a failure leaves it unchanged |
| E2e.FinalizeSucceedsIff | src/e2e.rs:531-545 | finalizing succeeds exactly on frames that hold a header whose length has room for the trailer; otherwise short frame or invalid size |
| E2e.SplitCrcTrailer | src/e2e.rs:574-593 | the copying splitter computes the split the lemmas are about |
| E2e.SplitSucceedsIff | src/e2e.rs:574-593 | splitting succeeds exactly on frames holding a header and a trailer whose length counts at least the trailer; otherwise short frame or invalid size |
| E2e.SplitInvertsFinalize | src/e2e.rs:531-593 | splitting a finalized frame gives the original with only its reserved bits cleared, and the same CRC |
| E2e.FinalizeInvertsSplit | src/e2e.rs:531-593 | finalizing a successful split restores the frame up to reserved bits |
| Layout.FinalizedLayout | src/e2e.rs:531-545 | a finalized frame: header with the length one up, all that followed it, the CRC most significant octet first |
| Layout.SplitLayout | src/e2e.rs:574-593 | a split frame: header with the length one down, all up to the last four octets, and those as the CRC |
| Protection.ReceiveShape | src/e2e.rs:548-593 | exactly which sealed messages are accepted; the recomputed CRC is over the AVTPDU prefix and the message as it stands on the wire up to its pad octets |
| Protection.SealSucceedsIff | src/e2e.rs:467-545 | sealing succeeds exactly when the kept fields fit and the payload is at most 2032 (ACF_ABB) or 2024 (ACF_GBB) octets |
| Protection.SealedLayout | src/e2e.rs:467-498 | a sealed message is header counting the trailer, timestamp, payload, pad octets and only then the CRC, a whole number of quadlets |
| Protection.ReceiveInvertsSeal | src/e2e.rs:418-593 | a sealed message is received as the message with its derived fields, carried and recomputed CRC equal |
| Protection.CoverageByPrefix | src/e2e.rs:418-465 | reception depends on the AVTPDU header through stream id and effective timestamp only |
| Protection.ClosedLoop | src/avtp.rs:646-680 | for every message of at most 510 quadlets encoding, sealing and framing never fail, and the receiver gets stream id, sequence number, message and a matching CRC |
| Detection.BurstReachesCoverage | src/e2e.rs:418-465 | a burst in the sealed message is a burst of the same width in the octets the receiver covers |
| Detection.DamageDetectedIff | src/e2e.rs:418-593 | damage in one 32-bit window that spares the framing fields and the trailer goes unnoticed exactly when it touches reserved bits and pad octets only |
| Detection.PayloadDamageDetected | src/e2e.rs:418-593 | up to four consecutive timestamp or payload octets changed: the message still decodes and the recomputed CRC always differs from the carried one |
| Detection.FrameDamageDetected | src/avtp.rs:646-680 | the same for a whole NTSCF frame, through unframing |
| Detection.TrailerDamageDetected | src/e2e.rs:531-593 | any change confined to the trailer is noticed |
| Detection.AddressDamageDetected | src/e2e.rs:418-465 | an intact message under a stream id and timestamp that differ within 32 bits is noticed |
| Detection.WrongTimestampDetected | src/e2e.rs:418-465 | an intact message under any other AVTP timestamp is noticed |
| Detection.PassedIsEven | src/e2e.rs:418-593 | whatever arrives passes the CRC check only if the covered octets and the trailer together have even parity |
| Detection.OddDamageDetected | src/e2e.rs:418-593 | an odd number of differing bits in stream id, timestamp, header, payload and trailer together is always noticed |
| Detection.CrcOfDifference | src/e2e.rs:310-323 | the CRCs of two octet strings of one length differ by what their differing bits alone determine |
| Detection.DamagePassesIff | src/e2e.rs:418-593 | exactly which damage that keeps the framing fields passes: a condition on the differing bits only |
| Detection.DecodedIff | src/e2e.rs:574-593 | whatever a sealed message becomes, it is still decoded if and only if its type is the same, its length is not raised and its covered octets still hold the headers |
| Straddle.LateReaches | src/e2e.rs:294-323 | a difference in the last covered bits feeds into register bits sent later than a 32-bit window across a pad octet reaches |
| Straddle.PaddedBurstPassesIff | src/e2e.rs:418-593 | with pad octets, damage that keeps the framing fields and lies in any 32-bit window of the sealed message, trailer included, passes exactly when it touches reserved bits and pad octets only |
| Straddle.StraddlingBurstMissed | src/e2e.rs:531-593 | for every sealed message without pad octets, a 32-bit burst across the end of the covered octets that changes them and passes |
| Straddle.BurstsNoticedIff | src/e2e.rs:418-593 | every 32-bit burst that keeps the framing fields, anywhere in the sealed message, is noticed or changes nothing checked, if and only if the payload is not a whole number of quadlets |
| FragmentTrain.AssembleSegments | src/e2e.rs:615-621 | the appending loop concatenates the segments in order |
| FragmentTrain.AssembleAppend | src/e2e.rs:615-621 | assembling is a homomorphism from lists of segments to octet strings |
| FragmentTrain.PlacementExactly | src/e2e.rs:728-734 | a CRC is in its place exactly if present where no more segments follow; otherwise an invalid parameter |
| FragmentTrain.PlacementUnique | src/e2e.rs:703-734 | over a train the placement rule admits one pattern only: a CRC on the last fragment and on no other |
| FragmentTrain.SegmentationIndependent | src/e2e.rs:645-684 | any two ways of cutting one payload give the same train CRC, which is the CRC of the single message with the final header and the combined payload, whatever payload the final fragment itself carries, and an invalid size exactly when that message has no coverage |
| FragmentTrain.TrainDamageDetected | src/e2e.rs:677-684 | trains whose payloads differ within 32 consecutive bits have different CRCs, however either was cut |
| Fragment.FragmentReassemblyBuffer.constructor | src/fragment.rs:151-158 | a new buffer is empty, bounded as given |
| Fragment.FragmentReassemblyBuffer.AcceptFragment | src/fragment.rs:202-233 | the whole new state and the answer are the reassembly step's; a rejected fragment changes nothing |
| Fragment.FragmentReassemblyBuffer.CombinedPayload | src/fragment.rs:245-247 | the stored segments in order |
| Fragment.FragmentReassemblyBuffer.Reset | src/fragment.rs:252-256 | everything but the bound is as new |
| Fragment.FragmentReassemblyBuffer.IsInProgress | src/fragment.rs:172-174 | true exactly while something is stored |
| Fragment.RefusedExactly | src/fragment.rs:202-233 | which error a fragment is refused with, in the order checked, without changing anything |
| Fragment.RunConsistent | src/fragment.rs:202-256 | over any run of fragments and resets the total is the stored length, within the bound, and the counter is the segment count modulo 65536 |
| Fragment.DecodedSegmentNumber | src/acf.rs:517-561 | a decoded segment number is at most 4095 |
| Fragment.CounterNeverWraps | src/fragment.rs:202-233 | with decoded headers at most 4096 fragments are ever stored and the counter equals their number |
| Fragment.DeliveryStep | src/fragment.rs:202-233 | one delivery stores exactly the fragment waited for, or changes nothing; completion is reported exactly on the last |
| Fragment.ChannelSafe | src/fragment.rs:202-256 | under any loss, repetition and reordering the buffer holds a prefix of the train, completion is reported at most once, exactly when the whole train is stored, and the payload is then the sender's and within the bound |
| Fragment.CompletedIsFrozen | src/fragment.rs:202-256 | once the train is stored no further delivery changes the buffer or reports completion |
| Fragment.CompletesIff | src/fragment.rs:202-256 | completion is reported if and only if fragmentation is supported, the payload fits the bound and the fragments occur in order among the deliveries |
| Fragment.CompletedTrainCrc | src/fragment.rs:276-284 | over any channel that completes and for any final fragment, the train CRC is that of the single message with that fragment's header and the sender's whole payload, or an invalid size exactly when that message has no coverage; a missing CRC is refused |
| Fragment.InProgressIff | src/fragment.rs:169-174 | over every run of fragments and resets the getter agrees with its documentation if and only if no completion has been reported since the last reset |
| Fragment.ChannelInProgressIff | src/fragment.rs:169-174 | the same over one train's channel, in terms of its completions |
| Fragment.FurtherFragmentIff | src/fragment.rs:202-233 | after a whole train any further fragment is accepted if and only if it is numbered next and still fits, and is then stored behind the train |
| Fragment.ResetNeededIff | src/fragment.rs:122-127 | a completed buffer refuses all of another train without a reset if and only if that train is no longer than the stored one or its fragment numbered next does not fit |
| Fragment.MixedTrains | src/fragment.rs:202-233 | two trains where it does not: completion is reported on a payload that is neither's |
| Fragment.CompletedInProgress | src/fragment.rs:169-174 | a run after which completion has been reported and the buffer still counts as in progress |
| Transfer.FragmentArrives | src/avtp.rs:646-680 | every sendable fragment is encoded and framed, and is unframed and decoded to the same message, with the carried CRC exactly on the last |
| Transfer.ArriveStep | src/fragment.rs:202-284 | one received frame acts on the buffer as its fragment does, and a completion is judged by the carried CRC against that of the stored segments |
| Transfer.CopiesFollow | src/fragment.rs:202-284 | over any channel, frames that carry copies of fragments, each with its own payload damage or none, are accepted and complete as the fragments would; the verdict is intact exactly when the CRC of what is stored is the one carried |
| Transfer.CrcExists | src/e2e.rs:677-684 | every sendable train has a CRC |
| Transfer.TrainClosedLoop | src/fragment.rs:202-284 | from messages to verdict over a channel that loses, repeats and reorders frames: sending never fails, damage is never reported, and an intact train is reported at most once, exactly when the payload fits and the frames arrive in order among the deliveries, with the sender's payload |
| Transfer.TrainDamageNoticed | src/e2e.rs:677-684 | payload damage in transit, each delivered copy in its own way: the train completes at most once and exactly as undamaged, the stored payload has the sender's length, and the verdict is intact if it is the sender's and damaged if it differs within 32 bits |
| Transfer.DamagedFragment | src/avtp.rs:646-662 | the frame of a message with another payload of the same length is the frame of the message with its payload octets overwritten |
| Discovery.ConfigureIffClaim | src/discovery.rs:626-706 | configuring and claiming are granted to the same requesters at the same moments; reading always is |
| Discovery.ExclusiveConfigure | src/discovery.rs:682-706 | two different clients may configure at one moment only when no live claim exists |
| Discovery.RefusedExactly | src/discovery.rs:323-706 | which attempts and accesses are refused and with which error, the broadcast id written out; time before the claim counts as none passed |
| Discovery.BroadcastNeverHolds | src/discovery.rs:592-613 | in no run does the broadcast id come to hold the claim |
| Discovery.HandoversBounded | src/discovery.rs:563-636 | in every run with nondecreasing times the handovers, the first grant included, number at most one plus the duration over the timeout |
| Discovery.HandoverBoundTight | src/discovery.rs:563-636 | for every n a run of n timeouts has n + 1 handovers, so the bound cannot be improved |
| Discovery.HolderStays | src/discovery.rs:592-636 | a holder that refreshes within the timeout keeps the claim, stamped with its last refresh |
| Discovery.NotDisplaced | src/discovery.rs:592-706 | whatever the interleaving, no other client's attempt is granted and none passes the configure check within the timeout of the holder's last refresh |
| Discovery.HeldSince | src/discovery.rs:592-636 | from a grant on, the claim stays with its holder or was established at least the timeout after the grant |
| Discovery.GrantsSeparated | src/discovery.rs:563-636 | any two grants to different clients in one run with nondecreasing times, adjacent or not, are at least the timeout apart |
| Discovery.ClaimOfLastGrant | src/discovery.rs:592-613 | the claim a run leaves is that of its last granted attempt, and none exactly if there is none |
| Discovery.TakeoverIffLapsed | src/discovery.rs:563-636 | after any run an attempt succeeds if and only if there was no grant, the last grant was to the same client, or the timeout has passed since the last grant |
| Adc.ResolveAdcAveragedValue | src/adc.rs:433-461 | the chunk loop computes the average the lemmas are about, error included |
| Adc.RejectedExactly | src/adc.rs:437-450 | an invalid parameter exactly if a count is zero or samples are missing |
| Adc.SpareIgnored | src/adc.rs:452 | samples after those needed never affect the result |
| Adc.GroupsAreSlices | src/adc.rs:452-455 | the groups averaged are the consecutive runs of the configured size from the first sample on |
| Adc.TwoStepQuotient | src/adc.rs:447-461 | dividing in two steps loses 0 or 1 against dividing once, decided by what both steps left over |
| Adc.AverageError | src/adc.rs:433-461 | the result is the floor mean of the first n * k samples or one below it, and which is decided exactly by the two levels' remainders |
| Adc.AverageCanLoseOne | src/adc.rs:433-461 | samples 1, 0, 1, 2 in two groups of two average to 0 although their mean is 1 |
| Adc.OneLevelExact | src/adc.rs:433-461 | with one sample per group or one group the result is the floor mean |
| Adc.AverageWithin | src/adc.rs:433-461 | the result lies between the least and the greatest sample used |
| Adc.NoOverflow | src/adc.rs:447-461 | no group sum and no partial combined sum overflows 64 bits, and the final narrowing is exact |
| Adc.WindowNeverOverflows | src/adc.rs:399-414 | the checked window product is always present and exact |
| Gpio.SignalsAreTransitions | src/gpio.rs:436-452 | on every pin each signal is exactly the transition it is armed for |
| Gpio.EdgesAccount | src/gpio.rs:436-452 | over any history an armed pin's rising and falling signals alternate, start with the edge leaving the first level, and risings minus fallings is last level minus first |
| Gpio.HistoryRebuilt | src/gpio.rs:436-452 | on any set of pins armed for changes or on both edges, the signals rebuild every sample from what is known of the first |
| Gpio.WholeHistoryRebuilt | src/gpio.rs:436-452 | with every pin so armed the first sample and the signals are the history |
| Gpio.DeterminedIff | src/gpio.rs:436-452 | the first level and the signals determine a pin's history if and only if the pin is armed for changes or on both edges |
| Gpio.OrTriggers | src/gpio.rs:339-356 | an OR write rises exactly the armed pins it newly sets and lets none fall |
| Gpio.AndTriggers | src/gpio.rs:339-356 | an AND write lets fall exactly the armed pins it newly clears and rises none |
| Gpio.XorTriggers | src/gpio.rs:339-356 | an XOR write changes exactly its operand's pins: those that were high fall, the others rise |
| Gpio.WritesExactly | src/gpio.rs:339-356 | what each write operation but the clamping ones makes of the mask; the reserved code is refused |
| Gpio.ClampedWrites | src/gpio.rs:339-356 | the clamping writes at and off their bounds |
| EndpointId.PrintThenParse | src/adapt.rs:195-221 | parsing the printed form of any stream id and bus id gives the pair back |
| EndpointId.PrintInjective | src/adapt.rs:195-202 | different pairs print differently |
| EndpointId.PrintedExamples | src/adapt.rs:195-202 | ids printed in full, with every hex and every decimal digit |
| EndpointId.AcceptsIff | src/adapt.rs:205-221 | exactly which texts are accepted: an optional plus sign and hex digits, at most 16 of them significant, the first separator, an optional plus sign and decimal digits denoting at most 65535; every other is an invalid parameter |
| EndpointId.DocumentedIff | src/adapt.rs:205-221 | every documented text is accepted, and the parser meets its documentation on a text if and only if the text is not accepted or is plain: separator after 16 characters, no plus signs |
| EndpointId.ParseThenPrint | src/adapt.rs:195-221 | the pair an accepted text denotes prints as the text without signs, in lower case, padded to 16 hex digits and without leading decimal zeros |
| EndpointId.ParseThenPrintIff | src/adapt.rs:195-221 | parsing and printing gives a text back if and only if it is 16 lower-case hex digits, the separator and a plain decimal of at most 65535 |
| EndpointId.ShortIdAccepted | src/adapt.rs:205-221 | a text that is not as documented is accepted |

## Left out

- Sockets, transports, timers and locks: time is a parameter of the claim functions, in one
  fixed unit, so clock resolution is not modelled.
- Error texts: rejections that carry a message are one value.
- Damage that lowers the length or changes the pad of a sealed message: it moves the covered
  region, and only the parity guarantee (`Detection.PassedIsEven`) is stated for it. Another type
  and a raised length are always rejected (`Detection.DecodedIff`).
- The AVTPDU-level length bump and the question whether a train is covered with its first or
  its final header: the source records both as open.
- Gpio.ClampedWrites: the clamping writes are stated at example values only, and only the per-pin
  writes OR, AND and XOR have trigger lemmas.
- The ACF field helpers (`read_size`, `segment_num`, `response_kind`), the echo-back rule and
  error responses: short matches and field copies.
- Discovery requests, responses and the cache: they rest on register and lifecycle modules, and
  the cache is a plain map.
- CAN, I2C, SPI and the other endpoint types, event groups, authorisation tables and the C
  interface.
