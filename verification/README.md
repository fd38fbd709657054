# Verified model of the serial message parsers

The repository reads bytes from GNSS receivers and similar devices, one at a time, and cuts
NMEA, RTCM, u-blox, Unicore, SBF, SPARTN and SEMP messages out of the stream. A driver offers a
byte to a table of protocols in order; the first one that claims it as its preamble collects the
message, state by state, until a checksum decides whether the application receives it. This
project models three parts of it and proves what they promise.

* **The streaming parsers.** `MessageParser.Parser` is the parser of `my_parser/`, extended with
  the SPARTN, SBF and Unicore binary machines of `lib/`: one class whose fields, scratch area and
  buffer array are updated in place, with one method per state routine of the source.
  `MultiProtocolParser.MmpParser` is the parser of `single_parser/`, with its counters. The
  end-of-message callback is the ghost field `log`, a list of decisions.
* **The CRC engines.** `CrcEngines` and `SpartnCrc` hold the table-driven engines; the tables are
  in `CrcTables`.
* **The two implementations of SEMP framing**, one of which tests the register for zero and the
  other compares the CRC it computed.

## How it is built

`Formats` says, for each protocol, what a prefix of a message is worth: more bytes are wanted, it
is whole, it is broken. `Stream` lifts that to a specification on values: `Next` is one byte,
`Run` a whole stream. It knows nothing of counters, scratch areas or registers. `Tracking`,
`ParserState` and `MmpState` state how the fields of the classes follow the bytes read so far, and
every state routine is proved to keep that; `Parser.Feed` and `MmpParser.Drain` then equal `Run`
for every stream. All theorems about streams are proved about `Run` and hold for both classes.

Above `Stream` stand

* `Soundness` and `Frames`: every decision of every run is about a slice of the input that is a
  frame of its format; the frames are defined by their fields, apart from any machine;
* `Completeness`, `Announcements`, `Demultiplex`, `Delivery`, `Packets`: every frame is found,
  streams of frames and noise come apart again, encoded packets come back, the parser always
  returns to its search and then reads what follows correctly;
* `Interruptions`, `Callbacks`: what happens to a byte that cannot continue a message, and what the
  application's callback for bad checksums can change, for every stream;
* `Trailers`, `SempEquivalence`: zero residue is equality of the CRC, and the exact condition under
  which the two SEMP parsers, in any two tables, behave alike on a stream;
* `ByteSums`, `XorChecksum`, `DoubleErrors`, `ErrorDetection`: which damage is always noticed;
* `Encoders`, `SpartnEncoder`, `SentenceEncoders`: the frames, built from their fields;
  `Characters`: the delimiters, alphabets and digits of sentences, as characters;
* `Room`, `SbfGetters`, `BufferInterface`: how much of the buffer is used, the field getters of SBF,
  and how many bytes one call of the multi-protocol parser takes;
* `EndToEnd`: the main theorems as contracts about the classes themselves.

Below it, `Gf2` defines a CRC as a shift register over bits, proves it equal to the remainder of
polynomial long division, and holds the algebra: linearity, zero residue, bursts, parity. `Words`
and `LookupTables` connect registers to machine words and to 256-entry tables, `WordBytes` and
`HexWords` connect words to bytes and to hexadecimal characters. `DoubleErrors` proves that the
powers of x modulo the CRC-24Q polynomial do not repeat within 178480 steps, from the 23
successive squares and the two prime factors of 2^23 - 1.

The engines that only compute a value (`CrcEngines.ComputeCrc24q` and its like) are methods, so
that their callers see what they compute and not the table.

## Where the code differs from what is said about it

* `semp_util_asciiToNibble` sets bit 5 first, so the bytes 0x10 to 0x19 also count as digits. The
  model follows the code; `Characters.HexCharacters` lists the checksum characters.
* The Unicore hash machine does not repeat its room check for sentences whose name contains MODE,
  and the multi-protocol NMEA machine reserves five bytes where its comment lists six. Both arrays
  are modelled with spare cells and a ghost flag `overrun`; `Room.SpilledExactly` states exactly
  which sentences need them, for every run, and `Room.ModeSentenceSpills` and
  `Room.NmeaSentenceSpills` give one for every buffer length.
* The counters of remaining bytes have 16 bits and some machines decrement before they test. A
  frame announced as empty therefore makes them wrap: RTCM frames need three payload bytes, SEMP,
  Unicore binary and SPARTN frames one, SBF blocks a length of 12. `Frames.CompleteIsFramed` shows
  that nothing else is ever completed, `Announcements.AnnouncedIsDecided` that a frame as long as
  its header announces is decided on if and only if it announces that much, and
  `Packets.PacketIsDecided` does the same for every encoded packet, correct checksum included.
* The two SEMP machines differ on a header length other than 20 and on a frame without data, and
  the tables around them differ too. `SempEquivalence.StreamsAgree` is the exact condition.

## Model

| member | source | states |
|---|---|---|
| Soundness.EveryByteAccounted | my_parser/Message_Parser.c:150-177 | for every stream: each decision is about a contiguous slice of the input that its own routine completed, made as its checksum says; slices are disjoint and in stream order; the bytes in hand are the end of the input |
| Frames.CompleteIsFramed | my_parser/Message_Parser.c:118-177 | for every routine and byte string: the machine completes it if and only if it is a frame of the format, defined by its length field and layout; no frame with a wrapped counter is one |
| Delivery.OnlyGenuineFrames | my_parser/Message_Parser.c:150-177 | for every stream, with no callback for bad checksums: every message passed on is a frame of its format with a correct checksum, cut out of the input, and ends before the next one begins |
| Completeness.RunFrame | my_parser/Message_Parser.c:150-177 | every frame that fits is decided on exactly at its last byte, and nothing is decided before |
| Completeness.RunSentence | my_parser/Message_Parser.c:150-177 | every sentence that fits is collected up to its last checksum character with nothing decided |
| Completeness.Recovers | my_parser/Message_Parser.c:150-177 | from every state and for every continuation the parser is back in its preamble search within at most bufferLength bytes |
| Demultiplex.Resynchronises | my_parser/Message_Parser.c:150-177 | from every state, after a buffer length of preamble-free bytes the parser is idle, and on every list of frames that follows its decisions are exactly those on the list |
| Interruptions.Interrupted | my_parser/Message_Parser.c:150-177 | for every message in progress, every next byte and every continuation: a byte that cannot follow is read again as a first byte, except for the SBF second sync byte and length, the SPARTN header check and the SEMP header length of the multi-protocol parser, where it is lost with the message; the rest of the stream is read as from the idle state, and every other byte is taken |
| Interruptions.TooLong | my_parser/Message_Parser.c:150-177 | a message that has filled the buffer is given up with the next byte, and the stream goes on as if it began with that byte |
| Callbacks.CallbackOnlyReviews | my_parser/Message_Parser.c:150-177 | for every stream and every callback for bad checksums: the states and the messages decided on are those without a callback; a message is passed on if it is without one, or if the callback does not confirm and its machine asks, which all do but the two SEMP and u-blox machines of the multi-protocol parser and the Unicore hash machine on a CRC |
| Callbacks.ConfirmingCallback | my_parser/Message_Parser.c:150-177 | a callback that always confirms changes nothing |
| Demultiplex.Demultiplexes | my_parser/Message_Parser.c:118-177 | for every list of frames and sentences of any protocols of the table, with preamble-free noise between them: the decisions are exactly those on the list, in order, each under its table index, and the parser ends idle |
| Delivery.AllDelivered | my_parser/Message_Parser.c:118-177 | when the checksums of such a list are right, the messages passed on are exactly the list |
| Packets.PacketsRoundTrip | my_parser/Message_Parser.c:118-177 | for every list of packets of any of the protocols of both parsers, encoded from their fields, sentences with their checksums in any spelling, and mixed with noise: exactly those packets are passed on, in order |
| Delivery.TerminatorNormalised | my_parser/Parse_NMEA.c:65-114 | a valid sentence gives body and CR LF, once, whatever ends it, and the byte after a cut-off terminator is read as if the parser were idle |
| Delivery.FiveEndings | my_parser/Parse_NMEA.c:65-114 | CR LF, LF CR, a lone CR, a lone LF and no terminator at all are such endings |
| Delivery.Refeed | my_parser/Parse_NMEA.c:28-62 | whatever was passed on in any run, fed to an idle parser, is passed on again, unchanged and alone |
| MessageParser.FeedBoth | my_parser/Message_Parser.c:118-177 | any two idle parsers with the same configuration make the same decisions on every stream, whatever is left in length, CRC, buffer and scratch area |
| Stream.RunConcat | my_parser/Message_Parser.c:150-177 | a stream read in two parts: the second part starts where the first one stopped, and the decisions are appended |
| EndToEnd.ReceivePackets | my_parser/Message_Parser.c:118-177 | the class itself: an idle parser hands every encoded packet of a stream to the application, in order, and nothing else |
| EndToEnd.CountPackets | single_parser/multi_protocol_parser.c:681-698 | the multi-protocol parser itself: an idle one hands every encoded SEMP, NMEA and u-blox packet of a stream to the application, in order, and each counter moves by its packets |
| Crc.ResidueDivides | lib/semp_crc_spartn.h:220-236 | the shift register that specifies all engines is the remainder of polynomial long division of the message bits |
| CrcEngines.ComputeCrc24q | my_parser/Parse_RTCM.c:14-19 | the table step equals eight clocks of the CRC-24Q register, for every word and byte |
| CrcEngines.ComputeCrc32 | my_parser/Parse_Custom.c:13-20 | the table step equals eight clocks of the reflected CRC-32 register, for every word and byte |
| CrcEngines.CcittUpdate | lib/semp_crc_sbf.h:62-69 | the table step equals eight clocks of the CRC-CCITT register |
| SpartnCrc.SpartnCrc4 | lib/semp_crc_spartn.h:186-201 | for every message: the reflected CRC-4, bit by bit |
| SpartnCrc.SpartnCrc8 | lib/semp_crc_spartn.h:203-218 | for every message: the CRC-8, bit by bit |
| SpartnCrc.SpartnCrc16 | lib/semp_crc_spartn.h:220-236 | for every message: the CRC-16, bit by bit |
| SpartnCrc.SpartnCrc24 | lib/semp_crc_spartn.h:238-255 | for every message: the CRC-24Q, bit by bit, in 24 bits |
| SpartnCrc.SpartnCrc32 | lib/semp_crc_spartn.h:257-276 | for every message: the CRC-32 with all-ones seed and final inversion, bit by bit |
| EngineAgreement.SbfCrc | lib/Parse_SBF.cpp:24-57 | for every message: the CRC-CCITT from a cleared register |
| EngineAgreement.RtcmCrc | my_parser/Parse_RTCM.c:14-19 | for every message: the CRC-24Q from a cleared register, in 24 bits |
| EngineAgreement.SempCrc | my_parser/Parse_Custom.c:13-70 | for every message: the CRC-32 with all-ones seed and final inversion, low bit first |
| EngineAgreement.SbfEqualsSpartn16 | lib/semp_crc_sbf.h:62-69 | the SBF engine and SPARTN CRC-16 give the same word for every message |
| EngineAgreement.RtcmEqualsSpartn24 | my_parser/Parse_RTCM.c:14-19 | the RTCM engine and SPARTN CRC-24 give the same word for every message |
| EngineAgreement.Spartn32MirrorsSemp | lib/semp_crc_spartn.h:257-276 | SPARTN CRC-32 is the bit reversal of the SEMP CRC of the byte-wise reversed message |
| Trailers.RtcmTrailer | my_parser/Parse_RTCM.c:33-72 | the residue over the whole frame is zero if and only if the last three bytes, high byte first, are the CRC of those before |
| Trailers.CustomTrailer | my_parser/Parse_Custom.c:22-70 | the residue with the register inverted before the trailer is zero if and only if the last four bytes, low byte first, are the inverted CRC of those before |
| Trailers.UnicoreTrailer | lib/Parse_Unicore_Binary.cpp:79-124 | the same for four bytes without inversion |
| Trailers.SpartnTrailer | lib/Parse_SPARTN.cpp:24-95 | for one, two, three and four trailer bytes: the checksum is right if and only if they are, high byte first, the CRC-8, CRC-16 or CRC-24 of what lies between preamble and trailer from a cleared register, or its CRC-32 from an all-ones register, inverted |
| Trailers.SpartnTrailerDivides | lib/Parse_SPARTN.cpp:24-95 | the first three as polynomial long division |
| SempEquivalence.CommonFrames | single_parser/multi_protocol_parser.c:191-219 | the frames of both SEMP machines are those of either one with header length 20 and some data |
| SempEquivalence.MachinesAgree | single_parser/multi_protocol_parser.c:128-254 | on every common frame both SEMP machines decide at the last byte, accept the same trailers and pass on the same bytes |
| SempEquivalence.StreamsAgree | single_parser/multi_protocol_parser.c:128-254 | for every stream and any two tables with the two machines: the parsers agree after every byte, in state and decisions, if and only if no header has another length or announces no data and no offered byte is claimed by another protocol |
| SempEquivalence.WithoutData | my_parser/Parse_Custom.c:56-82 | in any two tables, a correct SEMP frame without data: one parser passes it on, the other reads on |
| EndToEnd.ReadSempStreams | single_parser/multi_protocol_parser.c:128-254 | the classes themselves, with the fixed table of the multi-protocol parser: on every stream that meets the condition they log the same decisions |
| EndToEnd.ReadSempTwice | single_parser/multi_protocol_parser.c:128-254 | the classes themselves: both parsers read the same frame and log the same decision |
| ErrorDetection.RtcmErrorRejected | my_parser/Parse_RTCM.c:33-57 | a valid frame damaged behind its length field by a burst of at most 24 bits, or in an odd number of bits, is rejected and not passed on |
| ErrorDetection.RtcmNoticed | lib/semp_crc24q.h:14-18 | any change inside three consecutive bytes, and any odd number of changed bits, is such damage |
| ErrorDetection.RtcmDoubleErrorRejected | lib/semp_crc24q.h:14-18 | a valid frame with any two bits flipped behind its length field is rejected and not passed on |
| DoubleErrors.NoShortPeriod | lib/semp_crc24q.h:14-18 | the powers of x modulo the CRC-24Q polynomial do not repeat within 178480 steps |
| DoubleErrors.PairLeavesResidue | lib/semp_crc24q.h:14-18 | any two flipped bits less than 178481 apart leave a residue |
| ErrorDetection.CustomErrorRejected | my_parser/Parse_Custom.c:22-70 | a valid SEMP frame with any change inside four consecutive bytes behind its header is rejected and not passed on |
| ErrorDetection.UbloxErrorRejected | my_parser/Parse_UBLOX.c:25-120 | a valid u-blox frame with one payload byte changed, or two adjacent unequal ones swapped, is rejected and not passed on |
| EndToEnd.RefuseDamagedRtcm | my_parser/Parse_RTCM.c:33-57 | the class itself: an idle parser logs a rejection for every such damaged RTCM frame |
| ByteSums.FletcherIsSums | my_parser/Parse_UBLOX.c:25-120 | for every byte string: the checksum bytes are the plain and the position-weighted sum modulo 256 |
| ByteSums.ByteChangesFletcher | my_parser/Parse_UBLOX.c:57-68 | changing one byte anywhere changes the checksum |
| ByteSums.SwapChangesFletcher | my_parser/Parse_UBLOX.c:57-68 | swapping two adjacent unequal bytes anywhere changes the checksum |
| XorChecksum.XorIsParity | my_parser/Parse_NMEA.c:143-190 | for every text: each bit of its checksum is the parity of that bit over all its bytes |
| XorChecksum.DamagedSentence | my_parser/Parse_NMEA.c:28-62 | a sentence whose text was changed in any way, ending in the checksum characters of a valid one, is passed on if and only if every bit has kept its parity |
| XorChecksum.ChangedSentence | my_parser/Parse_NMEA.c:28-62 | a valid sentence with any one byte of its text changed is rejected, when it is still a sentence |
| Encoders.RtcmRoundTrip | my_parser/Parse_RTCM.c:33-126 | for every payload: its length is announced, the checksum is right and the payload comes back; it is a frame if and only if the payload has three bytes |
| Encoders.UbloxRoundTrip | my_parser/Parse_UBLOX.c:25-142 | the same for class, id and payload of any length, also none |
| Encoders.SempRoundTrip | my_parser/Parse_Custom.c:22-114 | the same for header fields and data; one SEMP machine takes every such frame, the other if and only if there are data |
| Encoders.UnicoreRoundTrip | lib/Parse_Unicore_Binary.cpp:79-197 | the same for the header fields and data of a Unicore binary message, a frame if and only if there are data |
| Encoders.SbfRoundTrip | lib/Parse_SBF.cpp:24-186 | the same for the ID field and payload of every length divisible by four, a frame if and only if there is a payload |
| SpartnEncoder.SpartnHeaderRoundTrip | lib/Parse_SPARTN.cpp:198-258 | type, payload length, encryption flag and CRC type come back from the header bits, and its CRC-4 is right |
| SpartnEncoder.SpartnRoundTrip | lib/Parse_SPARTN.cpp:24-272 | the same for all fields of a SPARTN frame, all four CRC types and an authentication of 0, 8, 12, 16, 32 or 64 bytes whose length code the encoder writes; a frame if and only if there is a payload |
| SpartnEncoder.AuthenticationComesBack | lib/Parse_SPARTN.cpp:133-177 | in an encrypted frame with authentication indicator 2 to 7 the length codes written for 8, 12, 16, 32 and 64 bytes are read back as those lengths |
| SpartnEncoder.NoAuthentication | lib/Parse_SPARTN.cpp:133-177 | without encryption, or with indicator 0 or 1, whatever the length code, no authentication is read |
| Announcements.AnnouncedIsDecided | my_parser/Parse_RTCM.c:33-126 | for RTCM, SEMP, Unicore binary, SPARTN and SBF: a message as long as its header announces is decided on at its last byte if and only if it announces enough for the counter, and otherwise the parser reads on |
| Packets.PacketIsDecided | my_parser/Parse_RTCM.c:60-101 | every encoded packet of those machines, with a correct checksum, is passed on if and only if its payload suffices; otherwise nothing is passed on and the parser is still reading |
| EndToEnd.ReadShortPacket | my_parser/Parse_RTCM.c:60-101 | the class itself: after a correct packet with too little payload it has logged nothing and is still reading |
| SentenceEncoders.NmeaRoundTrip | my_parser/Parse_NMEA.c:28-207 | for every name of letters and digits, every body without asterisk and every spelling of the two checksum characters, upper case, lower case or mixed: a sentence with a right checksum, and name and body come back |
| SentenceEncoders.HashRoundTrip | my_parser/Parse_Unicore_Hash.c:26-186 | the same with eight checksum characters, for every name without MODE |
| Characters.HexCharacters | my_parser/Message_Parser.c:325-334 | a byte is a checksum character if and only if it is 0 to 9, A to F, a to f or one of 0x10 to 0x19, and its value |
| Characters.EitherCase | my_parser/Message_Parser.c:325-334 | bit 5 of a checksum character does not matter |
| Characters.NameAlphabet | my_parser/Parse_NMEA.c:162-190 | names are made of exactly the letters A to Z, a to z and the digits |
| Characters.SentenceStarts | my_parser/Parse_NMEA.c:193-207 | NMEA sentences begin with $ or !, Unicore hash sentences with #, those of the multi-protocol parser with $ |
| Characters.Delimiters | my_parser/Parse_Unicore_Hash.c:150-176 | comma, asterisk, CR, LF and the word MODE, as characters |
| Characters.ContainsWord | my_parser/Parse_Unicore_Hash.c:150-176 | a word occurs in a name exactly when the name can be cut in three around it |
| Room.NmeaHasRoom | my_parser/Parse_NMEA.c:143-159 | CR, LF and NUL fit behind every complete sentence |
| Room.NmeaRoomIsTight | my_parser/Parse_NMEA.c:12 | for every buffer length some valid sentence leaves exactly three bytes |
| Room.SpilledExactly | my_parser/Parse_Unicore_Hash.c:60-79 | for every decision of every stream: a sentence passed on does not fit with CR, LF and NUL if and only if it is a MODE sentence of the Unicore hash machine that leaves two bytes or one, or an NMEA sentence of the multi-protocol parser that leaves two |
| Room.ModeSentenceSpills | my_parser/Parse_Unicore_Hash.c:60-79 | for every buffer length: a correct MODE sentence that is passed on and does not fit |
| Room.NmeaSentenceSpills | single_parser/multi_protocol_parser.c:339-356 | for every buffer length: a correct NMEA sentence that the multi-protocol parser passes on and cannot close inside its buffer |
| EndToEnd.ReadLongModeSentence | my_parser/Parse_Unicore_Hash.c:60-79 | the class itself: that MODE sentence is closed behind the buffer |
| EndToEnd.ReadLongNmeaSentence | single_parser/multi_protocol_parser.c:261-292 | the class itself: that NMEA sentence is closed behind the buffer |
| Room.NeverSpills | my_parser/Parse_NMEA.c:143-190 | for every stream: without those two machines in the table every sentence passed on fits |
| EndToEnd.StaysInBuffer | my_parser/Parse_NMEA.c:28-62 | the class itself: without the Unicore hash machine no stream makes an idle parser write behind its buffer |
| MessageParser.OverrunIsSpill | my_parser/Parse_Unicore_Hash.c:60-79 | a byte makes the parser write behind its buffer exactly when it passes on a sentence without room for its NUL |
| MultiProtocolParser.SpillsOnIsSpill | single_parser/multi_protocol_parser.c:261-292 | the same for the multi-protocol parser |
| Room.SpartnLayout | lib/Parse_SPARTN.cpp:24-258 | a complete frame has 4 + description + payload + authentication + CRC bytes, at most 1103, a valid header CRC and a payload |
| SbfGetters.IdRecomposes | lib/Parse_SBF.cpp:101-113 | number and revision make up the ID field again, with their unused bits clear |
| SbfGetters.IdValues | lib/Parse_SBF.cpp:101-113 | as numbers: the block number is the field modulo 8192, the revision its quotient |
| SbfGetters.GetU2 | lib/Parse_SBF.cpp:238-243 | the result is the number b0 + 256 b1 of the two bytes at the offset |
| SbfGetters.GetU4 | lib/Parse_SBF.cpp:244-250 | the result is the number of the four bytes at the offset, low byte first |
| SbfGetters.GetU8 | lib/Parse_SBF.cpp:251-257 | the result is the number of the eight bytes at the offset, low byte first |
| SbfGetters.GettersUndo | lib/Parse_SBF.cpp:238-257 | a number written low byte first anywhere in a buffer is read back by the getters |
| MessageParser.SempBeginParser | my_parser/Message_Parser.c:33-116 | refuses a mismatched or empty table and a missing name; otherwise an idle parser with the requested or minimum buffer |
| MessageParser.Parser.constructor | my_parser/Message_Parser.c:201-267 | starts idle, with a buffer below the minimum enlarged |
| MessageParser.Parser.SempFirstByte | my_parser/Message_Parser.c:118-147 | restarts the message with this byte and lets the first routine of the table that claims it begin; answers whether one did |
| MessageParser.Parser.PreambleOf | lib/SparkFun_Extensible_Message_Parser.cpp:315-344 | calls the preamble routine of a table entry |
| MessageParser.Parser.SempParseNextByte | my_parser/Message_Parser.c:150-177 | for every valid state and byte: the new state and the decisions logged are those of the specification step, and a write leaves the buffer exactly when a sentence is closed without room |
| MessageParser.Parser.Feed | lib/SparkFun_Extensible_Message_Parser.cpp:347-374 | for every stream: the state and the decisions are those of the specification run, and the buffer is left exactly when a sentence without room for its NUL is passed on |
| MessageParser.Parser.ComputeCrc | my_parser/Message_Parser.c:150-177 | the CRC routine in force moves the CRC field by one byte, and none leaves it alone |
| MessageParser.Parser.SaveByte | my_parser/Message_Parser.c:150-177 | the byte is stored behind the message |
| MessageParser.Parser.Conclude | my_parser/Parse_RTCM.c:33-57 | logs the decision on a complete binary message, with the second opinion of the callback where the source asks for it |
| MessageParser.Parser.SempRtcmPreamble | my_parser/Parse_RTCM.c:117-126 | claims 0xD3 and starts the register with that byte |
| MessageParser.Parser.SempRtcmReadLength1 | my_parser/Parse_RTCM.c:104-114 | six zero bits and the high length bits; otherwise the byte is offered as a preamble |
| MessageParser.Parser.SempRtcmReadLength2 | my_parser/Parse_RTCM.c:95-101 | the remaining length counts payload and nothing else |
| MessageParser.Parser.SempRtcmReadMessage1 | my_parser/Parse_RTCM.c:85-92 | the counter follows the bytes read |
| MessageParser.Parser.SempRtcmReadMessage2 | my_parser/Parse_RTCM.c:75-82 | the counter follows the bytes read, also when it wraps |
| MessageParser.Parser.SempRtcmReadData | my_parser/Parse_RTCM.c:60-72 | opens the trailer exactly when the payload is complete |
| MessageParser.Parser.SempRtcmReadCrc | my_parser/Parse_RTCM.c:33-57 | the frame is complete exactly at its third CRC byte, and accepted exactly when the residue of the whole frame is zero or the callback overrules it |
| MessageParser.Parser.SempUbloxPreamble | my_parser/Parse_UBLOX.c:135-142 | claims 0xB5 |
| MessageParser.Parser.SempUbloxSync2 | my_parser/Parse_UBLOX.c:123-132 | 0x62 follows, or the byte is offered as a preamble |
| MessageParser.Parser.SempUbloxClass | my_parser/Parse_UBLOX.c:110-120 | the checksum starts with the class |
| MessageParser.Parser.SempUbloxId | my_parser/Parse_UBLOX.c:97-107 | the checksum covers class and id |
| MessageParser.Parser.SempUbloxLength1 | my_parser/Parse_UBLOX.c:84-94 | low length byte, covered by the checksum |
| MessageParser.Parser.SempUbloxLength2 | my_parser/Parse_UBLOX.c:71-81 | high length byte; an empty payload goes to the checksum |
| MessageParser.Parser.SempUbloxPayload | my_parser/Parse_UBLOX.c:57-68 | opens the checksum exactly when the payload is complete |
| MessageParser.Parser.SempUbloxCkA | my_parser/Parse_UBLOX.c:50-54 | all payload has been read; the first checksum byte is kept behind it, and the sums stay those of class to payload |
| MessageParser.Parser.SempUbloxCkB | my_parser/Parse_UBLOX.c:25-47 | complete exactly here, and accepted exactly when both checksum bytes are the Fletcher sums or the callback overrules it |
| MessageParser.Parser.SempCustomPreamble | my_parser/Parse_Custom.c:104-114 | claims 0xAA and seeds the register with all ones |
| MessageParser.Parser.SempCustomSync2 | my_parser/Parse_Custom.c:93-102 | 0x44 follows, or the byte is offered as a preamble |
| MessageParser.Parser.SempCustomSync3 | my_parser/Parse_Custom.c:84-91 | 0x18 follows, or the byte is offered as a preamble |
| MessageParser.Parser.SempCustomReadHeader | my_parser/Parse_Custom.c:72-82 | after the twentieth byte the counter is the data length of bytes 12 and 13 |
| MessageParser.Parser.SempCustomReadData | my_parser/Parse_Custom.c:56-70 | inverts the register and opens the trailer exactly when the data are complete |
| MessageParser.Parser.SempCustomReadCrc | my_parser/Parse_Custom.c:22-54 | complete exactly at the fourth CRC byte, and accepted exactly when the register is zero or the callback overrules it |
| MessageParser.Parser.SempUnicoreBinaryPreamble | lib/Parse_Unicore_Binary.cpp:185-197 | claims 0xAA and starts a cleared register with that byte |
| MessageParser.Parser.SempUnicoreBinaryBinarySync2 | lib/Parse_Unicore_Binary.cpp:172-182 | 0x44 follows, or the byte is offered as a preamble |
| MessageParser.Parser.SempUnicoreBinaryBinarySync3 | lib/Parse_Unicore_Binary.cpp:159-169 | 0xB5 follows, or the byte is offered as a preamble |
| MessageParser.Parser.SempUnicoreBinaryReadHeader | lib/Parse_Unicore_Binary.cpp:144-156 | after the twenty-fourth byte the counter is the data length of bytes 6 and 7 |
| MessageParser.Parser.SempUnicoreBinaryReadData | lib/Parse_Unicore_Binary.cpp:111-124 | opens the trailer exactly when the data are complete |
| MessageParser.Parser.SempUnicoreBinaryReadCrc | lib/Parse_Unicore_Binary.cpp:79-108 | complete exactly at the fourth CRC byte, and accepted exactly when the residue is zero or the callback overrules it |
| MessageParser.Parser.SempSbfPreamble | lib/Parse_SBF.cpp:174-186 | claims 0x24 |
| MessageParser.Parser.SempSbfPreamble2 | lib/Parse_SBF.cpp:152-171 | 0x40 follows, or the message is dropped |
| MessageParser.Parser.SempSbfCrc1 | lib/Parse_SBF.cpp:141-149 | low byte of the stored CRC |
| MessageParser.Parser.SempSbfCrc2 | lib/Parse_SBF.cpp:129-138 | high byte of the stored CRC; the computed CRC starts cleared |
| MessageParser.Parser.SempSbfId1 | lib/Parse_SBF.cpp:116-126 | low byte of the ID field, covered by the CRC |
| MessageParser.Parser.SempSbfId2 | lib/Parse_SBF.cpp:101-113 | splits the ID field into 13-bit number and 3-bit revision |
| MessageParser.Parser.SempSbfLengthLsb | lib/Parse_SBF.cpp:88-98 | low length byte |
| MessageParser.Parser.SempSbfLengthMsb | lib/Parse_SBF.cpp:60-85 | a length not divisible by four drops the message; otherwise the counter is the length less the header |
| MessageParser.Parser.SempSbfReadBytes | lib/Parse_SBF.cpp:24-57 | complete exactly at the announced length, and accepted exactly when the stored CRC is that of the bytes from the ID to the end |
| ParserState.SplitId | lib/Parse_SBF.cpp:101-113 | the masked and shifted fields are the low 13 and the high 3 bits of the ID field |
| MessageParser.Parser.SempSpartnPreamble | lib/Parse_SPARTN.cpp:261-272 | claims 0x73 |
| MessageParser.Parser.SpartnHeaderCrc | lib/Parse_SPARTN.cpp:198-258 | the answer is whether the CRC-4 of the header is right, and the buffer holds its received bytes again |
| MessageParser.Parser.SempSpartnReadTF002TF006 | lib/Parse_SPARTN.cpp:198-258 | the header fields are taken from its bits; a wrong header CRC drops the message |
| MessageParser.Parser.SempSpartnReadTF007 | lib/Parse_SPARTN.cpp:179-196 | the description has four or six bytes, more with encryption |
| MessageParser.Parser.SempSpartnReadTF009 | lib/Parse_SPARTN.cpp:133-177 | after the last description byte the payload is read, and the authentication length is that of MessageParser.AuthenticationLength |
| MessageParser.AuthenticationLength | lib/Parse_SPARTN.cpp:133-177 | 8, 12, 16, 32 and 64 bytes for the codes 0, 1, 2, 3 and above, when the frame is encrypted and the indicator above 1; otherwise none |
| MessageParser.Parser.SempSpartnReadTF016 | lib/Parse_SPARTN.cpp:111-131 | opens the authentication data or the trailer exactly when the payload is complete |
| MessageParser.Parser.SempSpartnReadTF017 | lib/Parse_SPARTN.cpp:97-109 | opens the trailer exactly when the authentication data are complete |
| MessageParser.Parser.SpartnTrailer | lib/Parse_SPARTN.cpp:24-95 | the trailer is the last CRC bytes, the CRC covers everything between preamble and trailer, and they match exactly when the checksum is right |
| MessageParser.Parser.SempSpartnReadTF018 | lib/Parse_SPARTN.cpp:24-95 | complete exactly at the last CRC byte, and accepted exactly when the selected CRC matches or the callback overrules it |
| MessageParser.TrailerMatches | lib/Parse_SPARTN.cpp:24-95 | for each of the four CRC types by its polynomial, seed and inversion: true exactly when the trailer bytes, high byte first, are that CRC of the covered bytes |
| MessageParser.Parser.SempNmeaPreamble | my_parser/Parse_NMEA.c:193-207 | claims $ and ! |
| MessageParser.Parser.SempNmeaFindFirstComma | my_parser/Parse_NMEA.c:162-190 | up to fifteen name characters, those of Characters.NameAlphabet, and a comma; anything else is offered as a preamble; every write stays in the name array |
| MessageParser.Parser.SempNmeaFindAsterisk | my_parser/Parse_NMEA.c:143-159 | collects the body while the reserve is free, and covers it up to the asterisk |
| MessageParser.Parser.SempNmeaChecksumByte1 | my_parser/Parse_NMEA.c:130-140 | a checksum character, one of Characters.HexCharacters, or the byte is offered as a preamble |
| MessageParser.Parser.SempNmeaChecksumByte2 | my_parser/Parse_NMEA.c:117-127 | the same, and the sentence is ready |
| MessageParser.Parser.SempNmeaValidateChecksum | my_parser/Parse_NMEA.c:28-62 | accepted exactly when the two characters are the exclusive or between $ and asterisk or the callback overrules it; CR LF and NUL are written inside the buffer |
| MessageParser.Parser.CloseSentence | my_parser/Parse_NMEA.c:28-62 | appends CR LF to the text and tells whether CR, LF or NUL fell outside the buffer |
| MessageParser.Parser.SempNmeaLineTermination | my_parser/Parse_NMEA.c:97-114 | CR or LF is dropped and awaited no more; any other byte decides and is offered as a preamble |
| MessageParser.Parser.SempNmeaLineFeed | my_parser/Parse_NMEA.c:65-78 | after CR: decides; LF ends the message, another byte is offered as a preamble |
| MessageParser.Parser.SempNmeaCarriageReturn | my_parser/Parse_NMEA.c:81-94 | after LF: decides; CR ends the message, another byte is offered as a preamble |
| ParserState.XorMatches | my_parser/Parse_NMEA.c:28-62 | the two characters agree with the running word exactly when the checksum is right |
| MessageParser.Parser.SempUnicoreHashPreamble | my_parser/Parse_Unicore_Hash.c:178-186 | claims # |
| MessageParser.Parser.SempUnicoreHashFindFirstComma | my_parser/Parse_Unicore_Hash.c:150-176 | up to fifteen name characters and a comma; a name containing MODE asks for two checksum characters, any other for eight |
| MessageParser.Parser.SempUnicoreHashFindAsterisk | my_parser/Parse_Unicore_Hash.c:134-148 | collects the body while the reserve is free, and counts the checksum characters from the asterisk |
| MessageParser.Parser.SempUnicoreHashChecksumByte | my_parser/Parse_Unicore_Hash.c:119-132 | ready exactly after the last checksum character; a character that is none is offered as a preamble |
| MessageParser.Parser.SempUnicoreHashValidateCrc | my_parser/Parse_Unicore_Hash.c:26-58 | accepted exactly when the CRC-32 between # and asterisk equals the eight characters and three bytes are free |
| MessageParser.Parser.HashShortChecksum | my_parser/Parse_Unicore_Hash.c:60-79 | accepted exactly when the two characters are the exclusive or or the callback overrules it |
| MessageParser.Parser.SempUnicoreHashValidateChecksum | my_parser/Parse_Unicore_Hash.c:60-79 | one of the two decisions, by the number of checksum characters |
| MessageParser.Parser.SempUnicoreHashLineTermination | my_parser/Parse_Unicore_Hash.c:105-117 | as for NMEA |
| MessageParser.Parser.SempUnicoreHashLineFeed | my_parser/Parse_Unicore_Hash.c:81-91 | as for NMEA |
| MessageParser.Parser.SempUnicoreHashCarriageReturn | my_parser/Parse_Unicore_Hash.c:93-103 | as for NMEA |
| MessageParser.HashComputed | my_parser/Parse_Unicore_Hash.c:26-58 | the re-scan stops at the first asterisk, the one the machine left on, and its CRC covers exactly the bytes between |
| MessageParser.HashReceived | my_parser/Parse_Unicore_Hash.c:26-58 | the word is that of the eight characters, most significant first |
| MessageParser.HashCompare | my_parser/Parse_Unicore_Hash.c:26-58 | computed and received word are equal exactly when the checksum is right |
| MessageParser.FindMode | my_parser/Parse_Unicore_Hash.c:150-176 | true exactly when MODE occurs somewhere in the name |
| MultiProtocolParser.InitParser | single_parser/multi_protocol_parser.c:613-654 | refuses a buffer below 256 bytes; otherwise a searching parser with its counters at zero |
| MultiProtocolParser.MmpParser.FirstByte | single_parser/multi_protocol_parser.c:584-607 | restarts the message with this byte and lets the first protocol of the table that claims it begin; answers whether one did |
| MultiProtocolParser.MmpParser.PreambleOf | single_parser/multi_protocol_parser.c:567-607 | calls the preamble routine of a table entry |
| MultiProtocolParser.MmpParser.ProcessByte | single_parser/multi_protocol_parser.c:656-679 | for every valid state and byte: the new state, the decisions and the answer are those of the specification step, and each counter moves by its decisions, modulo 2^32 |
| MultiProtocolParser.MmpParser.ProcessBuffer | single_parser/multi_protocol_parser.c:681-698 | consumes up to and including the first byte answered with false, which the count returned includes, does what the specification run does on those bytes, and moves each counter by the decisions made |
| BufferInterface.ReplyMeans | single_parser/multi_protocol_parser.c:656-679 | for every state and byte: the answer is false exactly when the parser is idle afterwards and the byte did not end the line of a sentence |
| BufferInterface.TakesUntilIdle | single_parser/multi_protocol_parser.c:681-698 | from every state and for every buffer: the bytes consumed are those up to and including the first that leaves the parser idle and ends no line, or all |
| BufferInterface.FixedClaims | single_parser/multi_protocol_parser.c:567-607 | 0xAA, $ and 0xB5 begin messages of the first three protocols, and no other byte begins one |
| EndToEnd.TakeOne | single_parser/multi_protocol_parser.c:681-698 | the class itself: of a buffer that begins with a SEMP frame, a u-blox frame or a sentence with CR LF, one call consumes exactly that message and decides on it; of any byte that begins none, just that byte |
| MultiProtocolParser.MmpParser.Drain | single_parser/multi_protocol_parser.c:681-698 | feeding the unconsumed rest again and again always progresses and equals the specification run on all bytes, with the buffer left exactly when a sentence without room for its NUL is passed on, and each counter moved by its decisions in that run |
| MultiProtocolParser.MmpParser.ProcessEach | single_parser/multi_protocol_parser.c:656-679 | byte by byte, the same for state, decisions and counters |
| EndToEnd.CountTwice | single_parser/multi_protocol_parser.c:681-698 | two parsers alike, one fed byte by byte and one in chunks, end with the same state, decisions and counters |
| EndToEnd.CountMessages | single_parser/multi_protocol_parser.c:613-698 | a new parser after any stream: each counter holds the number of its decisions modulo 2^32, and all sixteen together the number of all decisions |
| MultiProtocolParser.MmpParser.ResetStats | single_parser/multi_protocol_parser.c:738-745 | clears all counters, which from then on count the decisions that follow, and leaves the parsing state alone |
| MultiProtocolParser.MmpParser.Accept | single_parser/multi_protocol_parser.c:128-172 | passes the message on and counts it, modulo 2^32, keeping the tally |
| MultiProtocolParser.MmpParser.Reject | single_parser/multi_protocol_parser.c:128-172 | counts an error, modulo 2^32, keeping the tally |
| MultiProtocolParser.CountedAccepted | single_parser/multi_protocol_parser.c:128-172 | one more message in the log, one more in its counter and in no other |
| MultiProtocolParser.CountedRejected | single_parser/multi_protocol_parser.c:128-172 | one more rejection in the log, one more in its counter and in no other |
| MultiProtocolParser.CountersAddUp | single_parser/multi_protocol_parser.c:128-172 | the sixteen counters add up to the number of decisions they count, modulo 2^32 |
| MultiProtocolParser.TallyMoves | single_parser/multi_protocol_parser.c:128-172 | counters that agree with the log before and after some decisions move by exactly those decisions |
| MultiProtocolParser.MmpParser.SempPreamble | single_parser/multi_protocol_parser.c:242-254 | claims 0xAA and seeds the register with all ones |
| MultiProtocolParser.MmpParser.SempSync2 | single_parser/multi_protocol_parser.c:232-239 | 0x44 follows, or the byte is offered as a preamble |
| MultiProtocolParser.MmpParser.SempSync3 | single_parser/multi_protocol_parser.c:222-229 | 0x18 follows, or the byte is offered as a preamble |
| MultiProtocolParser.MmpParser.SempReadHeader | single_parser/multi_protocol_parser.c:191-219 | a header length other than 20 drops the message; no data opens the trailer at once, with the inverted CRC stored |
| MultiProtocolParser.MmpParser.SempReadData | single_parser/multi_protocol_parser.c:175-188 | stores the inverted CRC and opens the trailer exactly when the data are complete |
| MultiProtocolParser.MmpParser.SempReadCrc | single_parser/multi_protocol_parser.c:128-172 | complete exactly at the fourth CRC byte, and accepted exactly when it equals the stored CRC |
| MmpState.TrailerEquals | single_parser/multi_protocol_parser.c:128-172 | true exactly when the word has those four bytes, low byte first |
| MultiProtocolParser.MmpParser.NmeaPreamble | single_parser/multi_protocol_parser.c:393-405 | claims $ |
| MultiProtocolParser.MmpParser.NmeaFindFirstComma | single_parser/multi_protocol_parser.c:359-390 | up to fifteen name characters and a comma; anything else is offered as a preamble |
| MultiProtocolParser.MmpParser.NmeaFindAsterisk | single_parser/multi_protocol_parser.c:339-356 | collects the body while five bytes are free |
| MultiProtocolParser.MmpParser.NmeaChecksumByte1 | single_parser/multi_protocol_parser.c:326-336 | a hexadecimal character, or the byte is offered as a preamble |
| MultiProtocolParser.MmpParser.NmeaChecksumByte2 | single_parser/multi_protocol_parser.c:313-323 | the same, and the sentence is ready |
| MultiProtocolParser.MmpParser.NmeaLineTermination | single_parser/multi_protocol_parser.c:295-310 | any byte decides; CR or LF ends the message, another byte is offered as a preamble |
| MultiProtocolParser.MmpParser.NmeaValidateChecksum | single_parser/multi_protocol_parser.c:261-292 | accepted exactly when the two characters are the exclusive or or the callback overrules it, and counted |
| MultiProtocolParser.MmpParser.UbloxPreamble | single_parser/multi_protocol_parser.c:535-544 | claims 0xB5 |
| MultiProtocolParser.MmpParser.UbloxSync2 | single_parser/multi_protocol_parser.c:525-532 | 0x62 follows, or the byte is offered as a preamble |
| MultiProtocolParser.MmpParser.UbloxReadClass | single_parser/multi_protocol_parser.c:518-522 | waits for the id |
| MultiProtocolParser.MmpParser.UbloxReadMessageId | single_parser/multi_protocol_parser.c:501-515 | the checksum covers class and id, read back from the buffer |
| MultiProtocolParser.MmpParser.UbloxReadLength | single_parser/multi_protocol_parser.c:475-498 | two length bytes, low byte first; an empty payload goes to the checksum |
| MultiProtocolParser.MmpParser.UbloxReadData | single_parser/multi_protocol_parser.c:462-472 | opens the checksum exactly when the payload is complete |
| MultiProtocolParser.MmpParser.UbloxChecksumA | single_parser/multi_protocol_parser.c:443-459 | a wrong first checksum byte is an error at once |
| MultiProtocolParser.MmpParser.UbloxChecksumB | single_parser/multi_protocol_parser.c:420-440 | complete exactly here, and accepted exactly when both checksum bytes are the Fletcher sums |
| MultiProtocolParser.MmpParser.RtcmPreamble | single_parser/multi_protocol_parser.c:550-560 | claims nothing |

## Left out

* Printing, debug and error callbacks, name tables, allocation and its alignment, null pointers: plumbing.
* The demos, examples and tests of the repository.
* `lib/Parse_BT.cpp`, `lib/Parse_NMEA.cpp`, `lib/Parse_RTCM.cpp`, `lib/Parse_UBLOX.cpp`, `lib/Parse_Unicore_Hash.cpp` and `lib/semp_crc32.h`: near-duplicates of what is modelled.
* `single_parser/semp_parser.c`: a third driver for a protocol that is covered twice.
* `my_parser/Parse_Unicore_Binary.c`: its CRC routine returns nothing; the version in `lib/` is modelled.
* The answers of the state routines in `my_parser/`, which their driver ignores.
* The RTCM message number and the u-blox message word, which no decision depends on.
* The callback for invalid SBF data, which lies in the shared scratch area.
* The `totalBytes` counter and the success rate of the multi-protocol parser.
* Several interleaved instances of the multi-protocol parser: its scratch area is shared, one instance is modelled.
* The signed and floating-point getters of SBF, the delimited-field parser and the encapsulation helpers: easy members.
* The fifth claim about CRC-24Q, on longer bursts: it is about probabilities.
* Buffers above 65535 bytes, which `lib/` would allow: there the 16-bit counters could complete a wrapped frame.
- MessageParser.Parser.constructor: requires a non-empty table and a minimum of at least 32 bytes; the refusals are in MessageParser.SempBeginParser.
- MessageParser.SempBeginParser: the table may list only the routines of this parser, because routines are an enumeration here and not function pointers.
- Room.SpilledExactly: both buffers are modelled as arrays with one or two spare cells, so the model says when these are used and not what else the source keeps there.
