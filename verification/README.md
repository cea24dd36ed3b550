# Verification of the message, flashing, hashing, framing and marshalling code

A Dafny project beside the repository. It models five groups of functions whose correctness is hard to see
from reading them one at a time, and proves what they do together. `dafny verify dfyconfig.toml` checks all of
it.

**Short messages** (`Alphabet`, `AlphabetLaws`, `GsmText`, `GsmSplit`, `Bits`, `Septets`, `Hex`, `UtfSpec`, `UtfLaws`,
`UtfConvert`, `Ucs2Text`, `UserHeader`, `UserData`, `LongMessage`, `SplitLaws`). Text becomes GSM septets (sections
6.2.1 and 6.2.1.1 of 3GPP TS 23.038) or UCS2 units, septets are packed behind fill bits (section 6.1.2.1), a user-data
header goes in front (sections 9.2.3.24 and 9.2.3.24.1 of 3GPP TS 23.040), and a long text is split over several
messages. The main laws are `LongMessage.LongMessageRoundTrip` and, for the function that chooses the coding itself,
`LongMessage.PduEncodingRoundTrip`; both say exactly which texts come back. Below them are the packing of bits, the
law that no cut of a text into parts that fit has fewer parts (`SplitLaws.FewestParts`), and the six conversions
between UTF-8, UTF-16 and UTF-32, all proved against one specification (RFC 3629 sections 3 and 4, RFC 2781 sections
2.1 and 2.2).

**Flashing** (`RawImage`, `Sparse`, `SparseProgram`, `Session`, `SessionTransfers`). A sparse image is gathered into
runs, every run is announced and streamed; `SparseProgram.ProgramSparse` says that the device ends up with what a plain
un-sparser would write. `Session` runs the erase, program and patch phases against arbitrary replies under a
monitor that says what may be sent when, and proves that what is sent is what the table asks for; the lemmas beside
it say what the monitor's verdict means for the trace, and which transfers the trace holds.

**MD5** (`Md5Block`, `Md5`, `Md5Vector`). The incremental digest equals the one of RFC 1321 for every message and every
way of cutting it; one digest of its test suite is computed step by step.

**Links** (`Crc16`, `Hdlc`, `StreamWrite`, `Tunnel`). The table-driven checksum against the bit-serial one,
framing under any chunking of the reads, the block write with its retries, and the record tunnel.

**Parcel** (`Parcel2`). A growing, padded marshalling buffer and its readers.

The remaining modules are shared: `CTypes`, `LittleEndian`, `Sequences`, `Wrappers`.

How C is read: unsigned arithmetic is on numbers with the wrap-around written out (`% TWO32`, `% TWO64`);
`char` is signed where the code prints or compares it (`schar`); MD5 and the checksum use bit vectors of the
width of the C types. Reads from a file are reads from a byte sequence; replies of a device, successes of a
write and portions of a socket are arbitrary parameters; `malloc` and `realloc` in the parcel succeed up to an
arbitrary limit. Buffers that the code fills in place are arrays, and structures it updates are classes.

## Where the code does not do what it is for

Each of these has a concrete counterexample or an exact condition, which a caller can check, under which the
code does what it should.

- `isLegalUTF8` accepts ED and F4 followed by a byte below 0x80 (`UtfLaws.LegalUtf8VersusRfc`,
  `UtfLaws.IllFormedAccepted`, `UtfLaws.Utf8RoundTripIffRfc`).
- A value above U+10FFFF in UTF-32 is flagged but not stopped at, and when the conversion is resumed the flag is lost
  exactly if the rest is all scalar values whose encoding finds room (`UtfLaws.ConversionResumes`,
  `UtfLaws.ResumptionForgetsTooLarge`).
- `isGSMString` lets every ASCII text through, but the backtick and most control characters are not in the alphabet.
  They are counted as one septet, encoded as two chars -1, packed as ones and read as two octets E0; such a text never
  comes back (`UserData.Bit7RoundTrip`, `UserData.BacktickIsLost`, `Septets.UnpackPacked`, `GsmText.CharWidth`).
- It also lets text through whose characters are all in the alphabet but not all ASCII, which `BIT7Encoding` takes
  octet by octet: such a text never comes back either (`LongMessage.PduEncodingRoundTrip`,
  `LongMessage.AccentIsLost`). For that test it reads on behind its buffer, which has no zero at the end
  (`LongMessage.IsGsmString`).
- With room for one septet the split stands still at an escaped character (`GsmSplit.AdvancesIffCanSplit`).
- `PDUEncoding` sets up its state anew with every text, so every long text carries reference 0
  (`LongMessage.PduEncodingRoundTrip`).
- Header octets of 0x80 and more print as eight digits, of which two are kept, FF; only of the last octet of a header
  all are (`UserHeader.HeaderDecoded`, `UserHeader.HeaderLengthIsExact`). When `PDUDoEncoding` is called directly, with
  a one-octet reference the 129th to the 256th long text all carry reference 255 (`LongMessage.ReferenceReadBackIff`).
- The text of UCS2 characters of three octets leaves no place for its NUL (`Ucs2Text.PlaceForNul`).
- A list of no elements for a header is not written but counted as one octet, so that a text of 70 characters, or of 159
  or 160 septets, takes two messages where one would do (`SplitLaws.OnePartIff`, `SplitLaws.EmptyListCostsAMessage`).
- The splitter measures elements with `strlen` (`LongMessage.CountIsExact`, `LongMessage.ZerosOverflow`).
- A sparse image that starts with a hole is written to the wrong sectors: every run lands in front of its holes
  (`Sparse.StartsRightIffRawFirst`, `Sparse.SettledCommands`, `SparseProgram.ProgramSparse`).
- gpt_empty0.bin is announced one sector short but sent 512 bytes short (`RawImage.GptSentAsAnnounced`,
  `RawImage.ShortGptFails`).
- On nand an erase from sector 0 that has a sector size is sent twice (`SessionTransfers.EachCommand`).
- On nand an entry whose start sector wraps around to 0 is taken up a second time, when its filename has been freed:
  the second processing reads freed memory (`Session.Session.Run`, `Session.TakenUpAgain`, `Session.ProcessedTwice`).
- The block write never advances its data pointer (`StreamWrite.WrittenIffPeriodic`).
- A read that brings nothing before all that was asked for has come leaves the carried record length short, and the
  next call takes the rest of the record for a header (`Tunnel.Reader.QtcpRead`, `Tunnel.TimeoutInRecord`).
- A write packet with more than 247 flags and escapes does not fit the transmit buffer (`StreamWrite.WriteFits`,
  `StreamWrite.BlockOverruns`).
- `Parcel::write` returns the error of an earlier call, possibly none, when the grown size is too big
  (`Parcel2.StatusIsTrueIff`, `Parcel2.TooBigIff`); `writeString16` does so with only the length written
  (`Parcel2.StringStatusIsTrueIff`).

## Model

| member | source | states |
|---|---|---|
| LongMessage.LongMessageRoundTrip | my_code/sms-pdu-master/sms/SMS.cpp:416-447 | for everything of either coding that is split, and every message reference, the messages decoded in order give back the parts exactly when it is text of the alphabet of its coding; then the parts joined are the text, and the header of message i, the caller's behind a concatenation element with reference, total and i + 1, is read with -1 for every negative char: as it was given exactly when the chars of the caller's header are -1 or more and each octet of the reference is below 0x80 or is 0xFF |
| LongMessage.PduEncodingRoundTrip | my_code/sms-pdu-master/sms/SMS.cpp:403-414 | for every UTF-8 text of the basic plane the messages of PDUEncoding are decoded to their parts exactly when every char is in the alphabet or isGSMString refuses the text; every long text carries reference 0 |
| LongMessage.Encoder.PduEncoding | my_code/sms-pdu-master/sms/SMS.cpp:403-414 | the state is set up anew with every text, isGSMString chooses the coding, and the messages carry reference 0 |
| LongMessage.IsGsmString | my_code/sms-pdu-master/sms/SMS.cpp:449-472 | true exactly for ASCII text and for text whose UTF-16 units, and those behind the buffer up to a zero, are all in the alphabet |
| LongMessage.AccentIsLost | my_code/sms-pdu-master/sms/SMS.cpp:449-472 | isGSMString accepts an e with an acute accent, whose two octets BIT7Encoding finds no code for |
| LongMessage.PartRoundTrip | my_code/sms-pdu-master/sms/SMS.cpp:686-736 | one message whose text the splitter lets through is decoded to it exactly when it is text of the alphabet, also where unmapped characters make the length octet overflow |
| LongMessage.HeadRead | my_code/sms-pdu-master/sms/SMS.cpp:62-87 | the decoder reads from the head of a message whether the user data has a header, bit 6 of the first octet, and which coding it has, bits 2 and 3 of the coding octet |
| LongMessage.MessageRoundTrip | my_code/sms-pdu-master/sms/SMS.cpp:686-736 | message i decodes to part i of the text exactly when this is of the alphabet, and its header to the one it was given with -1 for negative chars, at the place where the length octet stands |
| LongMessage.Encoder.PduDoEncoding | my_code/sms-pdu-master/sms/SMS.cpp:416-447 | one message for each part; the reference is used up by a long text only, and starts again behind 0xFFFF |
| LongMessage.Encoder.SoloPduEncoding | my_code/sms-pdu-master/sms/SMS.cpp:686-736 | the fields of one message in order, around its user data |
| LongMessage.UdcSplit | my_code/sms-pdu-master/sms/SMS.cpp:474-599 | the parts of SplitOf: none if there is no room, the text itself if it fits, else cut after as many characters as fit; what these parts are good for is in the three rows of SplitLaws |
| SplitLaws.FewestParts | my_code/sms-pdu-master/sms/SMS.cpp:474-599 | if the text can be cut at all into parts that fit short messages with their headers, 160 septets or 140 octets, then UDCSplit cuts it, and no such cut has fewer parts; for both codings |
| SplitLaws.PartsAreLongest | my_code/sms-pdu-master/sms/SMS.cpp:511-596 | no part but the last, with any more of the text behind it, still fits a message with its header |
| SplitLaws.OnePartIff | my_code/sms-pdu-master/sms/SMS.cpp:542-560 | a text stays one message exactly when it fits one with the caller's header, 160 septets or 70 characters without a header; with a list of no elements for a header this fails exactly for 159 and 160 septets and for 70 characters |
| SplitLaws.EmptyListCostsAMessage | my_code/sms-pdu-master/sms/SMS.cpp:601-611 | 70 characters with such a list are cut in two |
| LongMessage.SplitKeepsText | my_code/sms-pdu-master/sms/SMS.cpp:474-599 | the parts joined are the text, they are all text of the alphabet exactly when it is, and each fits the room its header leaves |
| LongMessage.GetUdhl | my_code/sms-pdu-master/sms/SMS.cpp:601-611 | the length the splitter reckons with: strlen of every element, two octets each and one |
| LongMessage.CountIsExact | my_code/sms-pdu-master/sms/SMS.cpp:601-611 | strlen counts what is encoded exactly when no element data contains a zero octet |
| LongMessage.ZerosOverflow | my_code/sms-pdu-master/sms/SMS.cpp:601-611 | with ten zeros in an element a text that the splitter lets through announces 171 septets |
| LongMessage.PartHeaderFits | my_code/sms-pdu-master/sms/SMS.cpp:648-684 | the header of a part is as long as the splitter reckoned, and its text as long as it announces, whatever the reference |
| LongMessage.ReferenceReadBackIff | my_code/sms-pdu-master/sms/SMS.cpp:648-684 | the reference is read back exactly when each of its octets is below 0x80 or is 0xFF; one-octet references from 128 to 255 are all read as 255 |
| LongMessage.PartHeaderReadBack | my_code/sms-pdu-master/sms/SMS.cpp:222-256 | a part's header is read as it was given exactly when its reference and the caller's elements are |
| LongMessage.ReferenceOctets | my_code/sms-pdu-master/sms/SMS.cpp:648-684 | the octets of two concatenation elements, one of each width |
| LongMessage.PackedFits | my_code/sms-pdu-master/sms/SMS.cpp:1030-1036 | header and body together of at most 160 septets pack into at most 140 octets |
| LongMessage.PartsFit | my_code/sms-pdu-master/sms/SMS.cpp:474-512 | every message of a split text fits: 160 septets or 140 octets in its length octet, 140 octets in all |
| UserData.UdEncoding | my_code/sms-pdu-master/sms/SMS.cpp:888-919 | length octet, header and body of the user data |
| UserData.UdcEncoding | my_code/sms-pdu-master/sms/SMS.cpp:958-988 | the body in hexadecimal and its length in septets or octets |
| UserData.DecodeBit7 | my_code/sms-pdu-master/sms/SMS.cpp:258-300 | the septets behind the header's fill bits, by the decoder's own formulas, as text |
| UserData.DecodeUcs2 | my_code/sms-pdu-master/sms/SMS.cpp:258-312 | every printed unit converted by itself, behind the text so far |
| UserData.Bit7RoundTrip | my_code/sms-pdu-master/sms/SMS.cpp:258-334 | for every text, the 7-bit user data decodes to it, wherever it stands in a message, exactly when every character is in the alphabet; the header is read with -1 for negative chars |
| UserData.Bit7Decoded | my_code/sms-pdu-master/sms/SMS.cpp:258-334 | for every text, of the alphabet or not, the septets read from its user data are those packing and unpacking leave |
| UserData.BacktickIsLost | my_code/sms-pdu-master/sms/SMS.cpp:449-472 | the user data of a backtick is 02FFFF and reads as two octets E0, although isGSMString lets it through |
| UserData.LengthIsCut | my_code/sms-pdu-master/sms/SMS.cpp:888-919 | a length of three digits is read as its first two, and what is decoded is shorter than the text |
| UserData.Ucs2RoundTrip | my_code/sms-pdu-master/sms/SMS.cpp:888-919 | UCS2 user data decodes to its text, wherever it stands in a message; the header is read with -1 for negative chars |
| UserHeader.UdhEncoding | my_code/sms-pdu-master/sms/SMS.cpp:921-956 | every element as identifier, length and data, each printed with %02X two characters behind the one before it, so that all but the last keep two digits |
| UserHeader.UdhDecoding | my_code/sms-pdu-master/sms/SMS.cpp:222-256 | the elements within the announced length |
| UserHeader.HeaderLengthIsExact | my_code/sms-pdu-master/sms/SMS.cpp:921-956 | the header text is as long as it announces exactly when its last char is not negative |
| UserHeader.HeaderRoundTrip | my_code/sms-pdu-master/sms/SMS.cpp:222-256 | a header is decoded to its elements, in order, exactly when none of its chars is below -1 |
| UserHeader.HeaderDecoded | my_code/sms-pdu-master/sms/SMS.cpp:222-256 | every header is decoded to its elements with -1 for every negative char |
| GsmSplit.SeptetsLength | my_code/sms-pdu-master/sms/SMS.cpp:613-626 | the septets of a text by the alphabet table |
| GsmSplit.SeptetsToChars | my_code/sms-pdu-master/sms/SMS.cpp:628-646 | the most characters from a place on that fit |
| GsmSplit.MaxFitIsMost | my_code/sms-pdu-master/sms/SMS.cpp:628-646 | those characters fit, and one more would not |
| GsmSplit.AdvancesIffCanSplit | my_code/sms-pdu-master/sms/SMS.cpp:511-536 | the splitting loop advances from every place exactly when the room is at least 2, or 1 and no character is escaped |
| GsmSplit.SegmentsConcat | my_code/sms-pdu-master/sms/SMS.cpp:511-536 | the segments joined are the text |
| GsmSplit.SegmentsFit | my_code/sms-pdu-master/sms/SMS.cpp:511-536 | every segment fits, and every one but the last leaves at most one septet unused |
| GsmSplit.GreedyIsOptimal | my_code/sms-pdu-master/sms/SMS.cpp:511-536 | no other way of cutting the text into pieces that fit has fewer pieces |
| GsmText.Bit7Encoding | my_code/sms-pdu-master/sms/SMS.cpp:990-1028 | the septets of every character, two for an escaped or unmapped one |
| GsmText.Bit7Decoding | my_code/sms-pdu-master/sms/SMS.cpp:350-390 | characters from septets, with the escape rule and ? for what is missing |
| GsmText.DecodeEncodedText | my_code/sms-pdu-master/sms/SMS.cpp:350-390 | septets of a text of the alphabet decode to the text |
| GsmText.UnmappedIsLost | my_code/sms-pdu-master/sms/SMS.cpp:350-390 | what packing and unpacking leave of the septets of any other text never decodes to it |
| GsmText.CharWidth | my_code/sms-pdu-master/sms/SMS.cpp:990-1028 | a mapped character takes the septets it is counted with; an unmapped one is counted once and takes two |
| Alphabet.MapGetValue | my_code/sms-pdu-master/sms/alphabet.h:133-139 | the linear search |
| Alphabet.FirstMatch | my_code/sms-pdu-master/sms/alphabet.h:133-139 | a key is found at its first entry |
| Alphabet.NoMatch | my_code/sms-pdu-master/sms/alphabet.h:133-139 | a key that is not there gives -1 |
| AlphabetLaws.UnitIsReadBack | my_code/sms-pdu-master/sms/alphabet.h:15-130 | what the encoder's table gives for any unit the decoder's tables turn back into the unit: a septet directly, anything else as the escape and an extension code |
| AlphabetLaws.SeptetIsWrittenBack | my_code/sms-pdu-master/sms/alphabet.h:72-130 | a unit the decoder reads a septet as has this septet for its code, and one it reads an escaped code as has the escape and this code |
| AlphabetLaws.EverySeptetIsRead | my_code/sms-pdu-master/sms/alphabet.h:72-117 | of the 128 septets exactly those that stand for themselves are not in the decoder's table |
| Septets.Bit7Pack | my_code/sms-pdu-master/sms/SMS.cpp:1030-1067 | the packed octets of any chars, in hexadecimal: a negative char fills the octet it ends in, and of a negative rest the first two of eight digits are kept |
| Septets.Bit7Unpack | my_code/sms-pdu-master/sms/SMS.cpp:314-348 | exactly the septets asked for, the entry behind them untouched |
| Septets.PackPlacesBits | my_code/sms-pdu-master/sms/SMS.cpp:1030-1067 | bit k of septet j stands at bit fill + 7j + k |
| Septets.PackPadsWithZeros | my_code/sms-pdu-master/sms/SMS.cpp:1030-1067 | every bit of the packed octets outside the septets is zero |
| Septets.UnpackInvertsPack | my_code/sms-pdu-master/sms/SMS.cpp:314-348 | unpacking what was packed gives back the septets, for every list and every fill |
| Septets.UnpackPacked | my_code/sms-pdu-master/sms/SMS.cpp:314-348 | with chars -1 among the septets: each reads as 127 and sets the bits of the next septet in the octet they share, all others are kept |
| Septets.WrittenAsPacked | my_code/sms-pdu-master/sms/SMS.cpp:1030-1067 | septets and -1 are written as they are packed: what is kept of a negative rest is the octet it stands for |
| Hex.ReadInvertsPrint | my_code/sms-pdu-master/sms/SMS.cpp:42-50 | printed octets are read back by sub_str and strtol, wherever they stand |
| Hex.KeptDigits | my_code/sms-pdu-master/sms/SMS.cpp:936-949 | the two characters kept of a printed char are those of the octet, or FF for a negative one, which prints eight |
| Ucs2Text.Utf8Len | my_code/sms-pdu-master/sms/utf.cpp:668-678 | the number of characters of well-formed text |
| Ucs2Text.Utf8GetSize | my_code/sms-pdu-master/sms/utf.cpp:691-702 | the octets of the first characters of well-formed text |
| Ucs2Text.EndOfTakes | my_code/sms-pdu-master/sms/utf.cpp:691-702 | the octets taken encode exactly the first characters, and the rest is well-formed text of the others |
| Ucs2Text.NextCharIsCharacter | my_code/sms-pdu-master/sms/utf.cpp:631-666 | on well-formed text next_char steps over exactly one character |
| Ucs2Text.UnitsRoundTrip | my_code/sms-pdu-master/sms/SMS.cpp:300-312 | printed units of the basic plane are read back as the UTF-8 of their characters |
| Ucs2Text.PlaceForNul | my_code/sms-pdu-master/sms/SMS.cpp:274-295 | the buffer of three octets for every unit has a place for the NUL behind the text exactly unless every unit takes three octets |
| UtfConvert.ConvertUtf8ToUtf16 | my_code/sms-pdu-master/sms/utf.cpp:330-413 | writes the strict conversion from UTF-8 to UTF-16, in its target window only, with status and positions |
| UtfConvert.ConvertUtf8ToUtf32 | my_code/sms-pdu-master/sms/utf.cpp:484-555 | writes the strict conversion from UTF-8 to UTF-32, in its target window only, with status and positions |
| UtfConvert.ConvertUtf16ToUtf8 | my_code/sms-pdu-master/sms/utf.cpp:180-260 | writes the strict conversion from UTF-16 to UTF-8, in its target window only, with status and positions |
| UtfConvert.ConvertUtf16ToUtf32 | my_code/sms-pdu-master/sms/utf.cpp:75-129 | writes the strict conversion from UTF-16 to UTF-32, in its target window only, with status and positions |
| UtfConvert.ConvertUtf32ToUtf16 | my_code/sms-pdu-master/sms/utf.cpp:24-73 | writes the strict conversion from UTF-32 to UTF-16, in its target window only, with status and positions |
| UtfConvert.ConvertUtf32ToUtf8 | my_code/sms-pdu-master/sms/utf.cpp:417-482 | writes the strict conversion from UTF-32 to UTF-8, in its target window only, with status and positions |
| UtfLaws.LegalUtf8VersusRfc | my_code/sms-pdu-master/sms/utf.cpp:275-312 | isLegalUTF8 agrees with section 4 of RFC 3629 exactly outside the sequences ED or F4 whose second byte is below 0x80 |
| UtfLaws.IllFormedAccepted | my_code/sms-pdu-master/sms/utf.cpp:275-312 | ED 41 80 is accepted, read as U+C040 and written as EC 81 80 |
| UtfLaws.DecodeEncoded | my_code/sms-pdu-master/sms/utf.cpp:180-260 | a scalar value is read back from its encoding, whatever follows |
| UtfLaws.EncodeDecoded8 | my_code/sms-pdu-master/sms/utf.cpp:484-555 | UTF-8 that is read is the encoding of what it is read as exactly when it follows the RFC |
| UtfLaws.SuccessMeansRead | my_code/sms-pdu-master/sms/utf.cpp:330-413 | a conversion that succeeds has read the whole source and written the encoding of what it read |
| UtfLaws.ConversionsAreInverse | my_code/sms-pdu-master/sms/utf.cpp:24-129 | well-formed text converted there and back is unchanged, for any two forms |
| UtfLaws.ConversionsCompose | my_code/sms-pdu-master/sms/utf.cpp:330-555 | going through a third form makes no difference |
| UtfLaws.Utf8RoundTripIffRfc | my_code/sms-pdu-master/sms/utf.cpp:330-413 | UTF-8 that converts comes back unchanged exactly when it follows the RFC |
| UtfLaws.WideRoundTrip | my_code/sms-pdu-master/sms/utf.cpp:75-129 | UTF-16 and UTF-32 that convert always come back unchanged |
| UtfLaws.StopsBetweenCharacters | my_code/sms-pdu-master/sms/utf.cpp:330-413 | a conversion that runs out of room has converted exactly what it consumed and stops in front of a character that does not fit |
| UtfLaws.StopsBetweenUnits | my_code/sms-pdu-master/sms/utf.cpp:24-73 | the same from UTF-32, with the error of a unit passed over, and towards UTF-16 in front of any unit where no room is left |
| UtfLaws.ConversionResumes | my_code/sms-pdu-master/sms/utf.cpp:24-73 | for any two forms, going on from such a stop with more room gives what one conversion with all the room gives exactly unless a unit above 0x10FFFF was passed over and the rest is all scalar values whose encoding finds room |
| UtfLaws.ConvertsIffScalars | my_code/sms-pdu-master/sms/utf.cpp:24-73 | UTF-32 converts without error exactly when it is all scalar values whose encoding finds room |
| UtfLaws.ResumptionForgetsTooLarge | my_code/sms-pdu-master/sms/utf.cpp:24-73 | an input for which it does not: the error is reported by one call and forgotten when the call is cut in two |
| SparseProgram.ProgramSparse | my_code/wfilehose_v1.0.0_final/wfilehose_v1.0.0/firehose_protocol.c:1102-1172 | over all commands and streams the data of every run goes to the sector of its command, and the device holds what the un-sparser would have written from the entry's start sector on, whatever it held; for an image that starts with holes, what the un-sparser would have written of the image with every run in front of its holes; every stream is as long as its command announces and no piece is larger than the payload |
| SparseProgram.SparseImg.ProcessSparseProgram | my_code/wfilehose_v1.0.0_final/wfilehose_v1.0.0/firehose_protocol.c:923-1100 | the tables of runs are those the scan of the chunks gives; nothing overflows 32 or 16 bits |
| SparseProgram.SendRun | my_code/wfilehose_v1.0.0_final/wfilehose_v1.0.0/firehose_protocol.c:753-836 | exactly the data of the chunks from an offset on goes out, in whole sectors, chunk headers and holes skipped |
| SparseProgram.FieldsOfRun | my_code/wfilehose_v1.0.0_final/wfilehose_v1.0.0/firehose_protocol.c:1110-1139 | the start sector and file offset computed run after run in 32 bits are those of the run's command |
| Sparse.ScanMeetsReference | my_code/wfilehose_v1.0.0_final/wfilehose_v1.0.0/firehose_protocol.c:994-1092 | from the first run of data on, the running totals yield one command for every maximal run, at the sector of its first block and the file position of its first chunk |
| Sparse.SmallImage | my_code/wfilehose_v1.0.0_final/wfilehose_v1.0.0/firehose_protocol.c:20-42 | a small image, byte by byte, is the image of its chunks: 28 octets of file header, 12 of each chunk header, blocks of 4096 |
| Sparse.StartsRightIffRawFirst | my_code/wfilehose_v1.0.0_final/wfilehose_v1.0.0/firehose_protocol.c:1018-1085 | every command starts at the sector where its run belongs exactly when the image starts with data or has none |
| Sparse.SettledCommands | my_code/wfilehose_v1.0.0_final/wfilehose_v1.0.0/firehose_protocol.c:1018-1085 | the commands of every image are the reference commands of the image itself if it starts with data, or else of the image with every run in front of its holes |
| Sparse.FrontedStands | my_code/wfilehose_v1.0.0_final/wfilehose_v1.0.0/firehose_protocol.c:1110-1122 | in an image that starts with holes the file offset of every command is that of the holes in front of its run |
| Sparse.UnsparseByRuns | my_code/wfilehose_v1.0.0_final/wfilehose_v1.0.0/firehose_protocol.c:1110-1154 | writing every run at the start of its reference command is un-sparsing chunk by chunk |
| Sparse.RunStandsInFile | my_code/wfilehose_v1.0.0_final/wfilehose_v1.0.0/firehose_protocol.c:1110-1122 | run i stands in the file where its command says and has the bytes it says |
| Sparse.ReceiveIsWrite | my_code/wfilehose_v1.0.0_final/wfilehose_v1.0.0/firehose_protocol.c:787-810 | however the data is cut into pieces of whole sectors, the device stores the whole |
| Sparse.UnsparseStores | my_code/wfilehose_v1.0.0_final/wfilehose_v1.0.0/firehose_protocol.c:36-42 | the un-sparser stores every sector of every raw chunk at the place its blocks give it |
| Sparse.UnsparseKeeps | my_code/wfilehose_v1.0.0_final/wfilehose_v1.0.0/firehose_protocol.c:36-42 | the un-sparser leaves every sector outside the raw chunks as it was |
| RawImage.ProgramCmd.FixupProgram | my_code/wfilehose_v1.0.0_final/wfilehose_v1.0.0/firehose_protocol.c:404-460 | the announced 32-bit sector count, one less for gpt_empty0.bin, and none when the file cannot be read or is empty |
| RawImage.ReadPadded | my_code/wfilehose_v1.0.0_final/wfilehose_v1.0.0/firehose_protocol.c:840-863 | one read and the zeros behind it never overrun the payload buffer |
| RawImage.SendPlain | my_code/wfilehose_v1.0.0_final/wfilehose_v1.0.0/firehose_protocol.c:838-877 | the pieces are the file up to the limit and zeros to the next sector; success exactly when the limit was reached |
| RawImage.ProgramCmd.SendImage | my_code/wfilehose_v1.0.0_final/wfilehose_v1.0.0/firehose_protocol.c:739-751 | the file, or all but 512 bytes of gpt_empty0.bin, in whole sectors; success exactly when that much was sent |
| RawImage.OrdinarySentAsAnnounced | my_code/wfilehose_v1.0.0_final/wfilehose_v1.0.0/firehose_protocol.c:443-446 | an ordinary file is streamed in as many sectors as were announced exactly when the count fits its 32-bit field |
| RawImage.GptSentAsAnnounced | my_code/wfilehose_v1.0.0_final/wfilehose_v1.0.0/firehose_protocol.c:448-450 | gpt_empty0.bin is streamed as announced exactly when its last 512 bytes reach over one sector boundary |
| RawImage.ShortGptFails | my_code/wfilehose_v1.0.0_final/wfilehose_v1.0.0/firehose_protocol.c:748-751 | a gpt_empty0.bin below 512 bytes can never be sent; with sectors of 512 bytes or more its announced count is 0, at which firehose_main stops before anything is sent |
| Session.Session.Run | my_code/wfilehose_v1.0.0_final/wfilehose_v1.0.0/firehose_protocol.c:1287-1430 | for every table and all replies the monitor finds nothing out of order, and what has been sent is a front of what the table asks for; a session that succeeds has sent all of it, to the boot drive (not on nand) and the reset, and has had every task acknowledged in this order; it succeeds exactly when there are sectors to send, no freed filename was read and the link is left quiet, and a link not left quiet was stopped by a reply that is not the expected one or by a file that could not be sent; a freed filename is read exactly when on nand the start sector of an entry not at sector 0 is moved on to 0 |
| Session.Session.ProcessProgram | my_code/wfilehose_v1.0.0_final/wfilehose_v1.0.0/firehose_protocol.c:1102-1204 | every transfer of an entry is announced at the sector the ones before it have left, acknowledged in raw mode, streamed piece by piece and acknowledged out of it; then its filename is freed |
| Session.Session.Transfer | my_code/wfilehose_v1.0.0_final/wfilehose_v1.0.0/firehose_protocol.c:1140-1167 | one transfer: the start sector of the entry and then the pieces of the leg in order, or a front of these when a reply is not the one expected or the file ends early |
| Session.Session.ProgramPass | my_code/wfilehose_v1.0.0_final/wfilehose_v1.0.0/firehose_protocol.c:1374-1400 | the entries of a pass, each once, in table order, up to one whose filename was freed; what is sent is what the initial table asks for, or a front of it |
| Session.Session.CommandPass | my_code/wfilehose_v1.0.0_final/wfilehose_v1.0.0/firehose_protocol.c:1325-1372 | erases, vendor commands or patches of a pass, each sent once and acknowledged, in table order |
| Session.Session.SendCfg | my_code/wfilehose_v1.0.0_final/wfilehose_v1.0.0/firehose_protocol.c:648-693 | one proposal, and a second only after a refusal that names a size; success exactly on an acknowledgement, which leaves the link quiet; the size kept is the one named, or else the one proposed |
| Session.Session.Wait | my_code/wfilehose_v1.0.0_final/wfilehose_v1.0.0/firehose_protocol.c:562-576 | the next message that is not a log line, and nothing but log lines in front of it |
| Session.PhasesInOrder | my_code/wfilehose_v1.0.0_final/wfilehose_v1.0.0/firehose_protocol.c:1325-1428 | erases and vendor commands come before programs, programs before patches, the reset last |
| Session.DataFollowsAck | my_code/wfilehose_v1.0.0_final/wfilehose_v1.0.0/firehose_protocol.c:1142-1154 | raw data flows only behind an acknowledgement of raw mode for a program command, with nothing but data and log lines between |
| Session.DataEndsWithAck | my_code/wfilehose_v1.0.0_final/wfilehose_v1.0.0/firehose_protocol.c:1155-1166 | no command follows raw data without an acknowledgement that raw mode is over |
| Session.DoneMeansAcked | my_code/wfilehose_v1.0.0_final/wfilehose_v1.0.0/firehose_protocol.c:1155-1166 | a transfer counts as done only behind the acknowledgement that ended its own streaming |
| Session.SectorZeroLast | my_code/wfilehose_v1.0.0_final/wfilehose_v1.0.0/firehose_protocol.c:1374-1400 | on nand, when an entry at sector 0 is announced every transfer of the others has been acknowledged |
| Session.EachTransferOnce | my_code/wfilehose_v1.0.0_final/wfilehose_v1.0.0/firehose_protocol.c:1374-1400 | the tasks of a session that succeeds have every transfer of every entry exactly once |
| Session.TakenUpAgain | my_code/wfilehose_v1.0.0_final/wfilehose_v1.0.0/firehose_protocol.c:1374-1400 | the second loop takes up an entry that the first has processed exactly when its start sector was moved on to 0 |
| Session.NoOtherTransfer | my_code/wfilehose_v1.0.0_final/wfilehose_v1.0.0/firehose_protocol.c:1374-1400 | no transfer is acknowledged that is not in the table |
| Session.StartStaysOffZero | my_code/wfilehose_v1.0.0_final/wfilehose_v1.0.0/firehose_protocol.c:1128-1131 | the start sector of an entry not at sector 0 never becomes 0 while the image stays within 32-bit sectors |
| Session.ProcessedTwice | my_code/wfilehose_v1.0.0_final/wfilehose_v1.0.0/firehose_protocol.c:1128-1131 | an entry near the end of the 32-bit sectors that is taken up again with its filename freed |
| SessionTransfers.TransfersAsExpected | my_code/wfilehose_v1.0.0_final/wfilehose_v1.0.0/firehose_protocol.c:1102-1204 | read off the trace, the transfers of a session that succeeds are those of its tasks, in this order: each announced at the sector where the ones before it have moved the start sector, with the pieces of its file in order; those of a session that fails are a front, the last one with a front of its pieces |
| SessionTransfers.EachCommand | my_code/wfilehose_v1.0.0_final/wfilehose_v1.0.0/firehose_protocol.c:1325-1372 | every vendor command and every patch is sent once; an erase once if it has a sector size, and in front of that on nand once more if it starts at sector 0; only the latter if everything is to be erased |
| Md5.DigestOfPieces | my_code/QFirehose-Linux-Android-V1.4.15/QFirehose_Linux_Android_V1.4.15/md5.c:156-248 | hashing the pieces of a message, however it is cut, gives the digest of RFC 1321 of the whole |
| Md5.Md5Sum | my_code/QFirehose-Linux-Android-V1.4.15/QFirehose_Linux_Android_V1.4.15/md5.c:250-274 | the digest of a file read 256 bytes at a time |
| Md5.Md5Ctx.Hash | my_code/QFirehose-Linux-Android-V1.4.15/QFirehose_Linux_Android_V1.4.15/md5.c:166-197 | the counter, the words and the buffer keep standing for everything hashed so far |
| Md5.Md5Ctx.End | my_code/QFirehose-Linux-Android-V1.4.15/QFirehose_Linux_Android_V1.4.15/md5.c:199-248 | the digest of everything hashed; the context is wiped |
| Md5.Md5Ctx.Body | my_code/QFirehose-Linux-Android-V1.4.15/QFirehose_Linux_Android_V1.4.15/md5.c:47-154 | folds the blocks of the data into the words |
| Md5.Counted | my_code/QFirehose-Linux-Android-V1.4.15/QFirehose_Linux_Android_V1.4.15/md5.c:170-173 | the two parts of the counter after more bytes are those of the new length |
| Md5.CounterIsLength | my_code/QFirehose-Linux-Android-V1.4.15/QFirehose_Linux_Android_V1.4.15/md5.c:170-173 | hi * 2^29 + lo is the length modulo 2^61 |
| Md5.PaddedInBlocks | my_code/QFirehose-Linux-Android-V1.4.15/QFirehose_Linux_Android_V1.4.15/md5.c:199-227 | the whole blocks of the message and the one or two last ones are the padded message, for every residue |
| Md5.LengthInTwoParts | my_code/QFirehose-Linux-Android-V1.4.15/QFirehose_Linux_Android_V1.4.15/md5.c:217-225 | the eight length bytes made of lo and hi are those of the number of bits |
| Md5Vector.DigestOfMessage | my_code/QFirehose-Linux-Android-V1.4.15/QFirehose_Linux_Android_V1.4.15/md5.c:47-248 | the digest of the message of all letters and digits is d174ab98d277d9f5a5611c2c9f419d9f, as appendix A.5 of RFC 1321 has it: two blocks, 128 operations |
| Md5Vector.WordReadBack | my_code/QFirehose-Linux-Android-V1.4.15/QFirehose_Linux_Android_V1.4.15/md5.c:30-43 | a word written as four bytes, low-order byte first, is read as it was |
| Md5Vector.BeginBytes | my_code/QFirehose-Linux-Android-V1.4.15/QFirehose_Linux_Android_V1.4.15/md5.c:156-164 | the words at the start are, low-order byte first, those of section 3.3 of RFC 1321 |
| Md5Block.CompressBlock | my_code/QFirehose-Linux-Android-V1.4.15/QFirehose_Linux_Android_V1.4.15/md5.c:62-143 | the 64 steps and the final additions are the compression function of section 3.4 of RFC 1321 |
| Md5Block.FfIsF | my_code/QFirehose-Linux-Android-V1.4.15/QFirehose_Linux_Android_V1.4.15/md5.c:19-23 | the rewritten F is that of the RFC |
| Md5Block.GgIsG | my_code/QFirehose-Linux-Android-V1.4.15/QFirehose_Linux_Android_V1.4.15/md5.c:19-23 | the rewritten G is that of the RFC |
| Md5Block.H2IsH | my_code/QFirehose-Linux-Android-V1.4.15/QFirehose_Linux_Android_V1.4.15/md5.c:21-22 | both groupings of H are that of the RFC |
| Crc16.Crc16LCalc | my_code/QFirehose-Linux-Android-V1.4.15/QFirehose_Linux_Android_V1.4.15/stream_download_protocol.c:85-89 | the table-driven checksum is the complement of the bit-serial register |
| Crc16.CheckValue | my_code/QFirehose-Linux-Android-V1.4.15/QFirehose_Linux_Android_V1.4.15/stream_download_protocol.c:47-89 | the checksum of the nine digits from 1 to 9 is 0x906E |
| Crc16.LeadingZeroIsNoticed | my_code/QFirehose-Linux-Android-V1.4.15/QFirehose_Linux_Android_V1.4.15/stream_download_protocol.c:47-87 | a zero byte in front of any message changes its register, because the register starts from all ones |
| Crc16.LeadingZeroUnnoticedIff | my_code/QFirehose-Linux-Android-V1.4.15/QFirehose_Linux_Android_V1.4.15/stream_download_protocol.c:85-89 | it would go unnoticed exactly if the register started from 0 or from 0xF80F |
| Crc16.TableStep | my_code/QFirehose-Linux-Android-V1.4.15/QFirehose_Linux_Android_V1.4.15/stream_download_protocol.c:85-89 | one byte by table is eight bits one at a time, for every register and byte |
| Crc16.TableIs | my_code/QFirehose-Linux-Android-V1.4.15/QFirehose_Linux_Android_V1.4.15/stream_download_protocol.c:50-83 | every entry of the table is the register after eight bits with the polynomial 0x8408 |
| Crc16.ResidueIff | my_code/QFirehose-Linux-Android-V1.4.15/QFirehose_Linux_Android_V1.4.15/stream_download_protocol.c:112-118 | a message with two more bytes leaves 0xF0B8 exactly when these are the ones compute_reply_crc appends |
| Crc16.ChangedByteIsNoticed | my_code/QFirehose-Linux-Android-V1.4.15/QFirehose_Linux_Android_V1.4.15/stream_download_protocol.c:85-89 | messages that differ in exactly one byte have different checksums |
| Hdlc.Link.ComposePacket | my_code/QFirehose-Linux-Android-V1.4.15/QFirehose_Linux_Android_V1.4.15/stream_download_protocol.c:120-134 | command, parameter and data in the transmit buffer |
| Hdlc.Link.ComputeReplyCrc | my_code/QFirehose-Linux-Android-V1.4.15/QFirehose_Linux_Android_V1.4.15/stream_download_protocol.c:112-118 | appends the two bytes of the checksum of the packet, low byte first |
| Hdlc.Link.SendPacket | my_code/QFirehose-Linux-Android-V1.4.15/QFirehose_Linux_Android_V1.4.15/stream_download_protocol.c:140-195 | what goes out is the frame of the packet |
| Hdlc.Link.RemoveEscapeHdlcFlag | my_code/QFirehose-Linux-Android-V1.4.15/QFirehose_Linux_Android_V1.4.15/stream_download_protocol.c:197-229 | in place, what is left is the data without leading flags and escapes; no byte behind the data is touched, except by the terminating zero |
| Hdlc.Link.ReceivePacket | my_code/QFirehose-Linux-Android-V1.4.15/QFirehose_Linux_Android_V1.4.15/stream_download_protocol.c:231-261 | what is received from these reads, for all reads that fit the buffer and leave no old flag behind bytes that are all flags |
| Hdlc.FrameReceived | my_code/QFirehose-Linux-Android-V1.4.15/QFirehose_Linux_Android_V1.4.15/stream_download_protocol.c:197-229 | a frame is received as its payload and the closing flag |
| Hdlc.FrameUnderAnyReads | my_code/QFirehose-Linux-Android-V1.4.15/QFirehose_Linux_Android_V1.4.15/stream_download_protocol.c:231-261 | however a frame is cut into reads it is received as its payload and the closing flag; with an empty payload the call waits until its timeout |
| Hdlc.NoFlagInside | my_code/QFirehose-Linux-Android-V1.4.15/QFirehose_Linux_Android_V1.4.15/stream_download_protocol.c:154-175 | no flag occurs inside a stuffed body |
| Hdlc.StuffedLength | my_code/QFirehose-Linux-Android-V1.4.15/QFirehose_Linux_Android_V1.4.15/stream_download_protocol.c:154-175 | a stuffed body is longer by one byte for every flag and escape in the payload |
| Hdlc.FrameOfThree | my_code/QFirehose-Linux-Android-V1.4.15/QFirehose_Linux_Android_V1.4.15/stream_download_protocol.c:136-180 | a flag and an escape travel as 7D 5E and 7D 5D, any other byte as it is, between two flags |
| Hdlc.ReadyMadeFrame | my_code/QFirehose-Linux-Android-V1.4.15/QFirehose_Linux_Android_V1.4.15/stream_download_protocol.c:743-743 | the one frame the program has ready made is the frame of the command 0x7C with its checksum |
| StreamWrite.HandleWrite | my_code/QFirehose-Linux-Android-V1.4.15/QFirehose_Linux_Android_V1.4.15/stream_download_protocol.c:536-591 | for all replies at most two frames more than there are blocks; a frame not acknowledged is sent again as it is; on success the acknowledged packets cover the addresses without gap or overlap; success exactly when the last frame was acknowledged, failure only after a failed write or the third refusal |
| StreamWrite.OnlyEightAcknowledges | my_code/QFirehose-Linux-Android-V1.4.15/QFirehose_Linux_Android_V1.4.15/stream_download_protocol.c:560-570 | with the answer 0x08 no attempt is in vain, with any other every one is |
| StreamWrite.AddressReadBack | my_code/QFirehose-Linux-Android-V1.4.15/QFirehose_Linux_Android_V1.4.15/stream_download_protocol.c:529-534 | the address of a write packet is written low-order byte first, and can be read back |
| StreamWrite.WrittenIffPeriodic | my_code/QFirehose-Linux-Android-V1.4.15/QFirehose_Linux_Android_V1.4.15/stream_download_protocol.c:547-565 | after a successful write the device holds the data exactly when every block of it repeats the first, because the data pointer stays where it is |
| StreamWrite.WriteFits | my_code/QFirehose-Linux-Android-V1.4.15/QFirehose_Linux_Android_V1.4.15/stream_download_protocol.c:136-180 | the frame of a write packet fits the transmit buffer exactly when it holds at most 247 flags and escapes, and one more for every byte the block is short of 1024 |
| StreamWrite.BlockOverruns | my_code/QFirehose-Linux-Android-V1.4.15/QFirehose_Linux_Android_V1.4.15/stream_download_protocol.c:530-565 | a full block with more than 247 flags and escapes does not fit, whatever its address and checksum |
| StreamWrite.FlagsAreSpecial | my_code/QFirehose-Linux-Android-V1.4.15/QFirehose_Linux_Android_V1.4.15/stream_download_protocol.c:160-170 | every flag in a block counts, so that a block of flags is one that does not fit |
| Tunnel.Wire.FullWrite | my_code/QFirehose-Linux-Android-V1.4.15/QFirehose_Linux_Android_V1.4.15/usb2tcp.c:97-120 | all bytes in order, or a front of them exactly when the connection takes nothing |
| Tunnel.Wire.WriteRecords | my_code/QFirehose-Linux-Android-V1.4.15/QFirehose_Linux_Android_V1.4.15/usb2tcp.c:284-303 | one record for every USB read; it hangs up exactly on an empty read or when the connection takes nothing, with all reads in front of that one sent whole and of the one the connection did not take a front |
| Tunnel.Reader.QtcpRead | my_code/QFirehose-Linux-Android-V1.4.15/QFirehose_Linux_Android_V1.4.15/usb_linux.c:642-683 | in step with the records bytes are delivered in order, and it stays in step exactly when a header comes whole or not at all and the reads bring what was asked for before one brings nothing; out of step it takes what comes next for a header |
| Tunnel.TimeoutInRecord | my_code/QFirehose-Linux-Android-V1.4.15/QFirehose_Linux_Android_V1.4.15/usb_linux.c:642-683 | after the first of nine bytes times out, the next call takes the other eight for a header: they are gone, and the length carried on is what stands in the last four |
| Tunnel.Reader.ReadMany | my_code/QFirehose-Linux-Android-V1.4.15/QFirehose_Linux_Android_V1.4.15/usb_linux.c:642-683 | for any sizes of requests, as long as headers come whole and the bytes asked for arrive, every request is answered with the front of what is left of the current record, or of the next one when nothing is left |
| Tunnel.Through | my_code/QFirehose-Linux-Android-V1.4.15/QFirehose_Linux_Android_V1.4.15/usb2tcp.c:284-303 | end to end, what the reader is given are these portions of what came from USB, a prefix of it, and all of it when there are requests enough; the writing end gives up only if a read is empty or the connection takes nothing |
| Tunnel.AllDelivered | my_code/QFirehose-Linux-Android-V1.4.15/QFirehose_Linux_Android_V1.4.15/usb_linux.c:642-683 | with as many requests as there are bytes, and no empty record, all bytes are delivered |
| Tunnel.RecordOfOne | my_code/QFirehose-Linux-Android-V1.4.15/QFirehose_Linux_Android_V1.4.15/usb2tcp.c:279-297 | one byte as it travels: tag and length, low-order byte first, and the byte |
| LittleEndian.BitsOf32 | my_code/QFirehose-Linux-Android-V1.4.15/QFirehose_Linux_Android_V1.4.15/usb2tcp.c:291-292 | bit k of a 32-bit number stands in byte k / 8 at k % 8 |
| Parcel2.RoundTrip | my_code/console_app_framework/Parcel2.cpp:280-574 | all items written to a fresh parcel and read back with the matching readers are the same, 64-bit values by their bits; the cursor stops at the end; only a lack of memory is in the way |
| Parcel2.Parcel.WriteItem | my_code/console_app_framework/Parcel2.cpp:359-405 | at the end of the data: the item's bytes are appended, or there was no memory |
| Parcel2.Parcel.ReadItem | my_code/console_app_framework/Parcel2.cpp:408-515 | one item from the cursor, and the cursor behind it |
| Parcel2.ReadsBack | my_code/console_app_framework/Parcel2.cpp:408-515 | wherever the bytes of an item stand, the matching reader reads it back and stops behind them |
| Parcel2.ItemStands | my_code/console_app_framework/Parcel2.cpp:265-377 | every item stands behind those before it, on a multiple of four |
| Parcel2.Parcel.ContinueWrite | my_code/console_app_framework/Parcel2.cpp:108-158 | a growth keeps every byte and the size stays within the capacity; otherwise the data is cut to the desired size |
| Parcel2.Parcel.GrowData | my_code/console_app_framework/Parcel2.cpp:265-277 | half as much again as is needed, refused above the maximum or by the allocator |
| Parcel2.Parcel.WriteInplace | my_code/console_app_framework/Parcel2.cpp:296-340 | a place at the cursor with zeros up to alignment behind it, the rest unchanged; or nothing |
| Parcel2.Parcel.Write | my_code/console_app_framework/Parcel2.cpp:280-294 | the bytes with zero padding over the data at the cursor, or nothing; and the status it returns in each case |
| Parcel2.StatusIsTrueIff | my_code/console_app_framework/Parcel2.cpp:280-294 | the status tells whether a write took place exactly unless the grown size is too big and no earlier call failed |
| Parcel2.TooBigIff | my_code/console_app_framework/Parcel2.cpp:273-276 | a grown size is too big exactly from two thirds of the maximum on |
| Parcel2.Parcel.WriteAligned | my_code/console_app_framework/Parcel2.cpp:364-377 | the value over the data at the cursor, or nothing, with a true status |
| Parcel2.Parcel.WriteString16 | my_code/console_app_framework/Parcel2.cpp:389-405 | by the fates of the length and of the units: nothing, all of it, or only the length; the status and the error kept in each case |
| Parcel2.StringStatusIsTrueIff | my_code/console_app_framework/Parcel2.cpp:389-405 | the status tells whether the whole string was written exactly unless its length was, the size grown for its units is too big and no earlier call failed |
| Parcel2.Parcel.WriteCString | my_code/console_app_framework/Parcel2.cpp:551-554 | the string with its terminator, padded, or nothing |
| Parcel2.Parcel.ReadString16 | my_code/console_app_framework/Parcel2.cpp:477-499 | the units, if length, units, terminator and padding are all there |
| Parcel2.Parcel.ReadCString | my_code/console_app_framework/Parcel2.cpp:501-515 | the string up to the first NUL, if there is one before the end |

## Left out

Of the short messages:

- lenient conversion and the two wrappers around the conversion routines; only strict mode is modelled.
- the dead branches of the UTF-8 readers that look for surrogates behind `isLegalUTF8`.
- 8-bit coding, addresses, the service centre, timestamps and the other fields of a message: the address is a
  string that is put where it belongs, with the length it has.
- the `count` field of a decoded element, which `UDHDecoding` leaves at 0; an element is modelled by its data.
- UCS2 text outside the basic plane and malformed UTF-8 in `utf8len` and `next_char`, which do not advance
  over a bad lead byte: the callers here require well-formed text.
- signs and blanks that `strtol` would skip, NUL terminators, and sizes of allocated strings, among them those of the
  packed text and of the header: `sprintf` writes the six more digits of a negative char past their end before they
  are cut off or, for the last char of a header, stay there.
- LongMessage.Encoder.PduEncoding: requires UTF-8 text of the basic plane without NUL; the memory behind the buffer of
  `isGSMString` is a parameter that holds a zero somewhere.
- UserData.DecodeBit7: requires that the length octet covers the header, because the code goes on with a
  negative count otherwise.
- LongMessage.UdcSplit: requires at most 32 parts, the size of the table it fills, and that the split advances.
- SplitLaws.FewestParts: is stated for headers without zeros in an element and whose last char is not negative, and
  for a list of no elements only against cuts into two parts or more, because SplitLaws.OnePartIff shows it false there.
- LongMessage.LongMessageRoundTrip: is stated for headers that leave room, without zeros in an element and whose last
  char is not negative; LongMessage.CountIsExact and UserHeader.HeaderLengthIsExact say what happens to the others.
  That the parts joined are not the text is not stated for text that is lost, only that some part differs.

Of flashing:

- XML, paths, logging, progress, USB itself, and the thread that reads replies. A write to USB always takes
  all its bytes; a device that does not get them does not acknowledge, which is one of the replies.
- fill and checksum chunks of sparse images, which the offset arithmetic does not cover, and headers of
  another revision of the format.
- SparseProgram.ProgramSparse: requires blocks of 4096 and sectors of 512 bytes, runs of fewer than 65536
  chunks, at most 100 of them and an image within 32-bit sectors, the sizes of the program's tables and fields.
- SparseProgram.ProgramSparse: takes every command to be acknowledged; Session.Session.Transfer has the replies.
- Sparse.StartsRightIffRawFirst: requires that no hole is empty, as an empty one in front does no harm.
- Session.Session.Run: stands for waits that end; an endless stream of log lines is outside the model. It ends where a
  freed filename is read, because C gives what follows no meaning.
- the sizes in erase commands that `q_erase_all_before_download` rewrites.

Of MD5:

- the entries of the sine table are numbers here and there; that they are sines is not proved, only that they give the
  digest of `Md5Vector.DigestOfMessage`.
- `md5_check`, which reads a list of digests from a text file.

Of the links:

- the bits of `crc_16_l_calc` behind whole bytes, which its only caller never uses.
- the other commands of the stream protocol, which compose, send and receive in the same way.
- Hdlc.Link.SendPacket: requires that the frame fits the transmit buffer; Hdlc.StuffedLength says how long it is, and
  StreamWrite.WriteFits which write packets meet this.
- Hdlc.Link.ReceivePacket: requires that the reads fit the buffer, and that the byte behind bytes that are all flags is
  not a flag left over from before, because the search for the first byte of a frame would run on.
- StreamWrite.HandleWrite: ranges over all data, also over blocks whose frame does not fit; `receive_packet` is one
  of the replies; that it returns is assumed.
- the direction from the client to USB, which reads whole records.

Of the parcel:

- `appendFrom`, `setData`, `setDataSize`, `setDataCapacity`, `writeString8AsString16`, allocation counters and
  their lock.
- Parcel2.Parcel.SetDataPosition: requires a position within the data, as every reader relies on it.
- Parcel2.Parcel.ReadCString: requires aligned data, which every writer keeps, because its padding may lie
  outside the data otherwise.
- Parcel2.RoundTrip: requires that one and a half times the bytes of the items stay below 2^31, from where on
  the parcel refuses to grow (Parcel2.TooBigIff).
- the padding mask is modelled on bytes: it clears those behind the item.
