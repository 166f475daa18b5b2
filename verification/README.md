# E2 termination: codecs and procedure state machine

This project models two parts of the E2 termination and proves properties of them.

**The ASN.1 runtime it is built on, and its own codecs.** INTEGER contents octets (shortest two's
complement, 64-bit conversion, DER canonical form, comparison), decimal text against the 64-bit limits, the
XER text of INTEGER with the automaton that reads it and the chunks it is handed, the bit buffers of packed
encoding, signed and unsigned constrained INTEGER in aligned PER, OCTET STRING and BIT STRING in XER with their
resumable parsers, the order of bit strings, ENUMERATED look-ups with the unaligned PER index, base64, and the
printed name of a gNB.

**The E2 procedure state machine of `sctpThread.cpp`.** A table from node name to procedure state and setup
transaction id, a registry from name to connection, and some twenty-five message handlers. The handlers are
methods of one class; what they do is said on values in `E2Protocol`, and the run properties are proved of
sequences of states joined by its `Step`.

| module | subject |
|---|---|
| `Text`, `Seqs` | characters of the text codecs; regrouping of sequences |
| `Bytes`, `BitSeqs` | octets as numbers and as bits |
| `IntegerCodec` (`Integer.dfy`), `Strtox`, `XerInteger`, `XerPrimitive` | INTEGER, its XML text, and the chunks that text comes in |
| `BitData`, `AlignedPer` | bit output and input over octets; aligned PER |
| `OctetStringXer`, `BitStringXer`, `BitStringOrder` | octet and bit strings |
| `Enumerated`, `Base64`, `RanName` | enumerations, base64, gNB names |
| `ProcedureTable`, `E2Protocol`, `E2Termination` | table, events and their meaning, handlers |
| `E2Effects` | what each event does, with the messages and states themselves, and where each message comes from |
| `E2Runs`, `E2Registry`, `E2Independence`, `E2Routing` | what every run keeps |

Conventions. Octets are `int` from 0 to 255 (`bv8` only in `BitStringOrder`, whose point is a bit trick). A
bitwise `|` of disjoint fields is `+`, a shift is a product or quotient by a power of two, and that the
fields are disjoint is proved (`BitData.MergedIsSum`, `BitStringXer.PushFits`). Machine words wrap where the
original's do; where C leaves signed overflow undefined, the wrap of two's complement is assumed. Outcomes of
the kernel, RMR, memory allocation and the generated codecs are parameters of the events. The process runs one
listener thread (`num_cpus` is set to 1), so an event of the listener is handled before the next one begins. The
main thread sends E2_TERM_INIT meanwhile and draws transaction ids from the same counter; each of its rounds is an
event of its own (`TermInit`). Connection handles are abstract, so that a new connection can always take a fresh
one. Rows cite paths below the repository's root.

## Where the code does not do what it promises

Each of these is stated with the exact condition under which it does; where that names no input by itself, a
lemma gives one.

- Comparing INTEGERs of equal length and negative sign comes out reversed, and a longer operand counts as farther
  from zero even when its extra octets only repeat the sign; an operand without octets is not 0 to it
  (`IntegerCodec.CompareIsNumericExactly`, `IntegerCodec.CompareFailsOnNegatives`,
  `IntegerCodec.CompareFailsOnPadding`).
- An unsigned value from 2^63 on in a range of at most 16 bits comes back from aligned PER negative
  (`AlignedPer.RoundTrip`, `AlignedPer.UnsignedComesBackNegative`). None of the generated types has such a range.
- A negative decimal that reaches the limit is flipped before its last digit is known to be the last; what
  follows is not checked against the limit any more (`Strtox.Strtoimax`).
- Splitting a hexadecimal text just after white space that follows whole octets takes that white space, where
  one call would leave it (`OctetStringXer.ChunkIndependence`, `OctetStringXer.SplitTakesMore`); the octets are the
  same.
- The indented BIT STRING text puts the new line of a last octet that begins a row in front of the row before
  it (`BitStringXer.LayoutIsRegularExactly`, `BitStringXer.NineOctets`); the bits are the same.
- Normally small numbers from 64 on are written in a form the reader takes for 0 or 1
  (`Enumerated.SmallNumberRoundTrip`), so the 65th and later extension values of an ENUMERATED do not come back.
- A two-digit MNC and the same one with a leading zero give one name (`RanName.PlmnTextDetermines`).
- A second E2setup under another name leaves the first name bound to the connection
  (`E2Registry.SetupConsistency`, `E2Registry.RenamedConnection`).
- Losing a connection whose descriptor is already closed takes its table entry, but leaves its key in the registry
  and the connection live (`E2Registry.LostConnectionIsForgotten`, `E2Registry.ClosedDescriptorKeepsKey`).
- Two live connections under one name: the registry finds only one of them, and the loss of that one takes key and
  table entry from the other (`E2Independence.RegistryExact`, `E2Independence.SharedName`).
- A repeated E2setup does not replace the stored transaction id (`E2Runs.StoredTransaction`, `E2Runs.RepeatedSetup`,
  `E2Registry.RepeatedSetupKeepsId`).

## Model

| member | source | states |
|---|---|---|
| Text.H2cExactly | RIC-E2-TERMINATION/3rdparty/oranE2/INTEGER.c:185-197 | the digits printed are 0 to 9 and upper-case A to F |
| Text.CharacterCodes | RIC-E2-TERMINATION/3rdparty/oranE2/OCTET_STRING.c:821-843 | which codes are decimal and hexadecimal digits, and their values, and which are ignored white space |
| Text.IndentExactly | RIC-E2-TERMINATION/3rdparty/oranE2/asn_internal.h:114-122 | a new line and four spaces a level, none below zero |
| Bytes.TrimCorrect | RIC-E2-TERMINATION/3rdparty/oranE2/INTEGER.c:77-115 | cutting superfluous leading octets keeps the two's-complement value and reaches a form X.690 section 8.3.2 accepts |
| Bytes.ShortestIsShortest | RIC-E2-TERMINATION/3rdparty/oranE2/INTEGER.c:84-100 | no octets of the same value are shorter than such a form |
| Bytes.ShortestUnique | RIC-E2-TERMINATION/3rdparty/oranE2/INTEGER.c:84-100 | there is one such form for each value |
| Bytes.FitsExactly | RIC-E2-TERMINATION/3rdparty/oranE2/INTEGER.c:1149-1186 | octets of any length have a 64-bit value exactly when at most eight are left after cutting |
| IntegerCodec.Integer.FromImax | RIC-E2-TERMINATION/3rdparty/oranE2/INTEGER.c:1248-1300 | the contents become the shortest form of the value, on either byte order of the machine |
| IntegerCodec.Integer.ToImax | RIC-E2-TERMINATION/3rdparty/oranE2/INTEGER.c:1117-1186 | the value when it fits 64 bits, a range error exactly when it does not, for contents of any length |
| IntegerCodec.Integer.ToUmax | RIC-E2-TERMINATION/3rdparty/oranE2/INTEGER.c:1188-1219 | the contents read as an unsigned number when that fits 64 bits, a range error exactly when it does not |
| IntegerCodec.Integer.FromUint64 | RIC-E2-TERMINATION/3rdparty/oranE2/INTEGER.c:1343-1366 | the shortest contents of an unsigned 64-bit value |
| IntegerCodec.Integer.Convert | RIC-E2-TERMINATION/3rdparty/oranE2/INTEGER.c:1117-1133 | the 64-bit accumulator ends with the signed value |
| IntegerCodec.Integer.DerContents | RIC-E2-TERMINATION/3rdparty/oranE2/INTEGER.c:63-115 | the octets handed on are the canonical ones |
| IntegerCodec.ImaxRoundTrip | RIC-E2-TERMINATION/3rdparty/oranE2/INTEGER.c:1248-1300 | the encoding of a 64-bit value has that value, is shortest, and every other encoding canonicalises to it |
| IntegerCodec.CompareIsNumericExactly | RIC-E2-TERMINATION/3rdparty/oranE2/INTEGER.c:1611-1652 | for any operands the comparison is numeric order if and only if they are neither two different negatives of one length, nor, with one sign, a longer one with only sign octets in front of a tail no farther from zero than the shorter, nor an empty one against a zero or, as the first, with the wrong sign in its unused buffer |
| IntegerCodec.ShortestMisordered | RIC-E2-TERMINATION/3rdparty/oranE2/INTEGER.c:1625-1634 | of these, shortest operands only meet the first kind |
| IntegerCodec.CompareFailsOnNegatives | RIC-E2-TERMINATION/3rdparty/oranE2/INTEGER.c:1634 | two negatives compared the wrong way round |
| IntegerCodec.CompareFailsOnPadding | RIC-E2-TERMINATION/3rdparty/oranE2/INTEGER.c:1627-1632 | 1 written in two octets compared as above 2 |
| Strtox.Strtoumax | RIC-E2-TERMINATION/3rdparty/oranE2/INTEGER.c:1498-1549 | the exact reading against 2^64 - 1, for every text |
| Strtox.Strtoimax | RIC-E2-TERMINATION/3rdparty/oranE2/INTEGER.c:1430-1489 | the exact reading against the signed limits if and only if the text is not a negative number that goes on after reaching 922337203685477580x |
| Strtox.SpecsAreExact | RIC-E2-TERMINATION/3rdparty/oranE2/INTEGER.h:82-97 | those readings are the only exact ones: the prefix value at the first non-digit, or the first digit that exceeds the limit |
| Strtox.FirstCharacters | RIC-E2-TERMINATION/3rdparty/oranE2/INTEGER.c:1430-1549 | no text is invalid, for the unsigned reading a minus sign too; exactly a sign alone wants more |
| Strtox.OverrunExample | RIC-E2-TERMINATION/3rdparty/oranE2/INTEGER.c:1466-1467 | a text of the exceptional kind and what should have been answered |
| XerInteger.Advance | RIC-E2-TERMINATION/3rdparty/oranE2/INTEGER.c:362-497 | one character of the automaton, including the rewind to the start |
| XerInteger.StepSound | RIC-E2-TERMINATION/3rdparty/oranE2/INTEGER.c:362-497 | every transition keeps the automaton in step with the language of INTEGER bodies |
| XerInteger.ScanBody | RIC-E2-TERMINATION/3rdparty/oranE2/INTEGER.c:362-497 | the scan ends on every text although it can rewind, and never stores beyond the chunk_size / 3 + 1 octets reserved |
| XerInteger.BodyDecode | RIC-E2-TERMINATION/3rdparty/oranE2/INTEGER.c:325-558 | the outcome and the contents are those the language gives the text: decimal, colon-separated hexadecimal, enumeration tag, or refusal |
| XerInteger.MeaningAnswers | RIC-E2-TERMINATION/3rdparty/oranE2/INTEGER.c:325-558 | text by text: white space alone is no body; a tag is its looked-up value or broken; white space, a sign, digits and white space are that number, shortest, or over the limit exactly beyond 64 bits; colon-separated pairs that are no decimal are their octets; all else is broken |
| XerInteger.SpaceCodes | RIC-E2-TERMINATION/3rdparty/oranE2/INTEGER.c:365 | the four characters of white space, by their codes |
| XerInteger.Dump | RIC-E2-TERMINATION/3rdparty/oranE2/INTEGER.c:132-203 | decimal for values of 64 bits, colon-separated hexadecimal otherwise |
| XerInteger.DumpExactly | RIC-E2-TERMINATION/3rdparty/oranE2/INTEGER.c:132-203 | of a value of 64 bits its decimal numeral, a minus sign exactly below zero and no zero in front; of others two upper-case digits an octet with colons between, by position |
| XerInteger.DumpHex | RIC-E2-TERMINATION/3rdparty/oranE2/INTEGER.c:173-203 | the scratch buffer holds every pair it is given and the output is all of them |
| XerInteger.XerRoundTrip | RIC-E2-TERMINATION/3rdparty/oranE2/INTEGER.c:132-558 | what is printed reads back with any white space around it: the shortest form of a 64-bit value, the very octets otherwise |
| XerInteger.BodyDecodeNamed | RIC-E2-TERMINATION/3rdparty/oranE2/INTEGER.c:249-558 | the same with the names of an enumeration: the tag's value is that of the element whose name stands behind the chunk's first character |
| XerInteger.TagRoundTrip | RIC-E2-TERMINATION/3rdparty/oranE2/INTEGER.c:249-558 | the tag printed for an element, looked up and decoded, gives the shortest form of its value |
| XerPrimitive.WhitespaceSpan | RIC-E2-TERMINATION/3rdparty/oranE2/xer_decoder.c:323-344 | the length of the leading white space, by the automaton's own four characters |
| XerPrimitive.HandedIsCut | RIC-E2-TERMINATION/3rdparty/oranE2/asn_codecs_prim.c:159-231 | the body decoder never sees leading white space, so that a tag's look-up begins behind its bracket |
| XerPrimitive.TagIsValueExactly | RIC-E2-TERMINATION/3rdparty/oranE2/asn_codecs_prim.c:154-191 | a tag is accepted if and only if an element has its name |
| XerPrimitive.OneValueExactly | RIC-E2-TERMINATION/3rdparty/oranE2/asn_codecs_prim.c:159-302 | the content of an element is accepted with a result if and only if one chunk is a value and all others are white space |
| XerPrimitive.TagBetweenSpace | RIC-E2-TERMINATION/3rdparty/oranE2/asn_codecs_prim.c:159-302 | a printed tag between white space is read as its element's value |
| XerPrimitive.Decoder.UnexpectedTag | RIC-E2-TERMINATION/3rdparty/oranE2/asn_codecs_prim.c:159-191 | what a tag does to the progress, and when it is refused |
| XerPrimitive.Decoder.PrimitiveBody | RIC-E2-TERMINATION/3rdparty/oranE2/asn_codecs_prim.c:193-247 | what a text does to it, how much is taken, and when more is wanted |
| XerPrimitive.Decoder.Content | RIC-E2-TERMINATION/3rdparty/oranE2/asn_codecs_prim.c:250-302 | the result of the whole content, with the empty body that is tried last |
| BitData.BitOutput.Normalize | RIC-E2-TERMINATION/3rdparty/oranE2/asn_bit_data.c:205-209 | moving whole octets from the bit offset to the buffer position leaves the bits put so far |
| BitData.BitOutput.FlushWhole | RIC-E2-TERMINATION/3rdparty/oranE2/asn_bit_data.c:214-227 | flushing complete octets keeps the bits and makes room, or fails with the sink |
| BitData.MergedIsSum | RIC-E2-TERMINATION/3rdparty/oranE2/asn_bit_data.c:245-266 | the kept bits of the first octet and the shifted new ones do not overlap |
| BitData.BitOutput.StoreOctets | RIC-E2-TERMINATION/3rdparty/oranE2/asn_bit_data.c:245-266 | the four branches store the octets of one number |
| BitData.BitOutput.PutFewBits | RIC-E2-TERMINATION/3rdparty/oranE2/asn_bit_data.c:192-277 | success appends exactly the requested low bits; failure, exactly when refused by range or sink, changes none |
| BitData.BitOutput.PutAlign | RIC-E2-TERMINATION/3rdparty/oranE2/per_support.c:393-401 | zero bits up to the octet boundary |
| BitData.BitOutput.AlignedFlush | RIC-E2-TERMINATION/3rdparty/oranE2/asn_bit_data.c:313-332 | the sink then holds all bits put, padded with zeros to whole octets |
| BitData.BitInput.Extract | RIC-E2-TERMINATION/3rdparty/oranE2/asn_bit_data.c:107-115 | the masked and shifted octets are the next bits as a number |
| BitData.BitInput.GetFewBits | RIC-E2-TERMINATION/3rdparty/oranE2/asn_bit_data.c:62-142 | the next n bits and nothing else are consumed, for 0 to 31 of the bits left; any other request changes nothing |
| BitData.BitInput.GetAlign | RIC-E2-TERMINATION/3rdparty/oranE2/per_support.c:297-305 | skips to the octet boundary and returns the value of what was skipped |
| AlignedPer.LengthWidth | RIC-E2-TERMINATION/3rdparty/oranE2/INTEGER.c:1065-1072 | the least width from 1 on whose power of two reaches the largest octet count |
| AlignedPer.HighestOctet | RIC-E2-TERMINATION/3rdparty/oranE2/INTEGER.c:1074-1079 | the index of the highest octet that is not zero |
| AlignedPer.LengthFits | RIC-E2-TERMINATION/3rdparty/oranE2/INTEGER.c:1065-1083 | the length determinant always fits its field |
| AlignedPer.EncodeAper | RIC-E2-TERMINATION/3rdparty/oranE2/INTEGER.c:971-1095 | which contents are encoded, refused or extended, and the bits that are put |
| AlignedPer.AdmissionExactly | RIC-E2-TERMINATION/3rdparty/oranE2/INTEGER.c:971-1033 | taken are exactly contents whose number lies between the bounds, both included, as that number; unconstrained goes exactly a number of a word outside an extensible range |
| AlignedPer.PaddingExactly | RIC-E2-TERMINATION/3rdparty/oranE2/per_support.c:393-401 | zeros, fewer than eight, up to an octet boundary |
| AlignedPer.FieldExactly | RIC-E2-TERMINATION/3rdparty/oranE2/INTEGER.c:1035-1095 | the bits put, as numbers: the offset from the lower bound in the bits of the range, in one or two aligned octets, or behind a count in the fewest aligned octets that hold it |
| AlignedPer.FlagThenField | RIC-E2-TERMINATION/3rdparty/oranE2/INTEGER.c:1026-1033 | an extensible constraint puts a zero bit first |
| AlignedPer.GetOctets | RIC-E2-TERMINATION/3rdparty/oranE2/INTEGER.c:889-894 | the octets read are one number, most significant first |
| AlignedPer.DecodeAper | RIC-E2-TERMINATION/3rdparty/oranE2/INTEGER.c:820-932 | the value, the contents its conversion gives and the bits used; non-zero padding after a length is refused |
| AlignedPer.ReadExactly | RIC-E2-TERMINATION/3rdparty/oranE2/INTEGER.c:862-926 | what is read from any bits: enough of them, padding of zeros behind a count but any padding in short ranges, and any count of octets, fewest or not |
| AlignedPer.FlagRead | RIC-E2-TERMINATION/3rdparty/oranE2/INTEGER.c:840-845 | the extension bit says what follows and refuses nothing |
| AlignedPer.ContentsExactly | RIC-E2-TERMINATION/3rdparty/oranE2/INTEGER.c:1338-1367 | those contents are shortest and the value's, but for an unsigned value from 2^63 on in at most 16 bits, which is less 2^64 |
| AlignedPer.RoundTrip | RIC-E2-TERMINATION/3rdparty/oranE2/INTEGER.c:862-1095 | from any bit offset, with anything after it, and signed or unsigned ranges of up to 64 bits, decoding finds the value and uses exactly the bits written; its contents are the value's if and only if that is below 2^63, the range wider than 16 bits, or the field signed |
| AlignedPer.EncoderRoundTrip | RIC-E2-TERMINATION/3rdparty/oranE2/INTEGER.c:862-1095 | through the encoder: contents whose number lies between the bounds are taken and decode to it |
| AlignedPer.UnsignedComesBackNegative | RIC-E2-TERMINATION/3rdparty/oranE2/INTEGER.c:1337-1340 | 2^63 in a range of one value comes back as -2^63 |
| OctetStringXer.OctetString.EncodeXer | RIC-E2-TERMINATION/3rdparty/oranE2/OCTET_STRING.c:600-657 | the whole text, canonical or in lines of sixteen, through a scratch buffer whose cursor stays inside |
| OctetStringXer.LayoutExactly | RIC-E2-TERMINATION/3rdparty/oranE2/OCTET_STRING.c:635-652 | the place of every character of the indented text: two upper-case digits an octet, spaces between, and beyond sixteen octets a new line before every sixteenth and one at the end |
| OctetStringXer.CanonicalExactly | RIC-E2-TERMINATION/3rdparty/oranE2/OCTET_STRING.c:623-634 | the canonical text is two upper-case digits an octet and nothing else |
| OctetStringXer.OctetString.ConvertHexadecimal | RIC-E2-TERMINATION/3rdparty/oranE2/OCTET_STRING.c:800-872 | what is appended and how much is taken, -1 exactly for foreign characters, and a size within the estimate |
| OctetStringXer.OctetsExactly | RIC-E2-TERMINATION/3rdparty/oranE2/OCTET_STRING.c:817-866 | octet by octet what the digits give, high half first; with more to come an odd last digit is a high half |
| OctetStringXer.TakenExactly | RIC-E2-TERMINATION/3rdparty/oranE2/OCTET_STRING.c:844-867 | all is taken, but of an odd number of digits with no more to come what ends with the last digit but one |
| OctetStringXer.ChunkIndependence | RIC-E2-TERMINATION/3rdparty/oranE2/OCTET_STRING.c:800-872 | a text split anywhere, the unconsumed rest presented again, gives the octets of one call; and exactly when it takes as much |
| OctetStringXer.SplitTakesMore | RIC-E2-TERMINATION/3rdparty/oranE2/OCTET_STRING.c:837-865 | a text and a split of it where two calls take more than one |
| OctetStringXer.XerRoundTrip | RIC-E2-TERMINATION/3rdparty/oranE2/OCTET_STRING.c:600-872 | the printed text is accepted, taken whole and gives the octets back, in both forms |
| BitStringXer.BitString.EncodeXer | RIC-E2-TERMINATION/3rdparty/oranE2/BIT_STRING.c:95-151 | the whole text, with the place of every new line, through a scratch buffer whose cursor stays inside |
| BitStringXer.BitsTextExactly | RIC-E2-TERMINATION/3rdparty/oranE2/BIT_STRING.c:90-93 | the digits are the characters 0 and 1, in order |
| BitStringXer.CanonicalExactly | RIC-E2-TERMINATION/3rdparty/oranE2/BIT_STRING.c:95-151 | the canonical text is the digits of the used bits and nothing else |
| BitStringXer.FrontIsRegularExactly | RIC-E2-TERMINATION/3rdparty/oranE2/BIT_STRING.c:117-138 | the last octet's new line stands before it if and only if that octet does not begin a row, or is the only one |
| BitStringXer.RegularExactly | RIC-E2-TERMINATION/3rdparty/oranE2/BIT_STRING.c:117-151 | the place of every character of the regular layout: eight digits an octet, a new line before every eighth, the used digits of the last octet, a new line at the end |
| BitStringXer.LayoutIsRegularExactly | RIC-E2-TERMINATION/3rdparty/oranE2/BIT_STRING.c:117-151 | the whole text has its new lines in place if and only if the octets are not 9, 17, 25, ... |
| BitStringXer.MisplacedLine | RIC-E2-TERMINATION/3rdparty/oranE2/BIT_STRING.c:117-151 | with 9, 17, 25, ... octets the text is the regular one with its last new line moved in front of the row before |
| BitStringXer.NineOctets | RIC-E2-TERMINATION/3rdparty/oranE2/BIT_STRING.c:117-138 | with nine octets both new lines come first |
| BitStringXer.BitString.ConvertBinary | RIC-E2-TERMINATION/3rdparty/oranE2/OCTET_STRING.c:877-934 | the bits of the text are pushed after those held, -1 exactly for foreign characters, and a size within the estimate |
| BitStringXer.PushAllBits | RIC-E2-TERMINATION/3rdparty/oranE2/OCTET_STRING.c:901-915 | pushing bits into octets keeps them in order and leaves the unused bits zero |
| BitStringXer.UnpackPack | RIC-E2-TERMINATION/3rdparty/oranE2/OCTET_STRING.c:901-930 | unpacking is the inverse of packing: the octets hold exactly the bits |
| BitStringXer.ChunkIndependence | RIC-E2-TERMINATION/3rdparty/oranE2/OCTET_STRING.c:877-934 | a text split anywhere leaves the same octets and unused bits |
| BitStringXer.XerTextBits | RIC-E2-TERMINATION/3rdparty/oranE2/BIT_STRING.c:95-151 | the printed digits are the used bits, whatever the unused ones are |
| BitStringXer.XerRoundTrip | RIC-E2-TERMINATION/3rdparty/oranE2/BIT_STRING.c:95-151 | parsing the printed text returns the bits and bits_unused, and the very octets when the unused bits were zero |
| BitStringOrder.LowestSetBit | RIC-E2-TERMINATION/3rdparty/oranE2/BIT_STRING.c:235-241 | the mask arithmetic finds the number of the lowest set bit |
| BitStringOrder.Compactify | RIC-E2-TERMINATION/3rdparty/oranE2/BIT_STRING.c:219-254 | everything after the compact form is zero and it ends in a one |
| BitStringOrder.Compare | RIC-E2-TERMINATION/3rdparty/oranE2/BIT_STRING.c:261-305 | the sign of the result is the order of the binary fractions |
| BitStringOrder.CompareCases | RIC-E2-TERMINATION/3rdparty/oranE2/BIT_STRING.c:277-296 | equal octets have equal unused bits, so that the last test never decides |
| BitStringOrder.LessTransitive | RIC-E2-TERMINATION/3rdparty/oranE2/BIT_STRING.c:256-305 | the order is transitive, together with equality |
| BitStringOrder.LessIrreflexive | RIC-E2-TERMINATION/3rdparty/oranE2/BIT_STRING.c:256-305 | no two strings are both below each other or below and equal |
| BitStringOrder.LessIsNumeric | RIC-E2-TERMINATION/3rdparty/oranE2/BIT_STRING.c:256-305 | the order, and equality, are those of the unsigned numbers that the octets filled up with zeros stand for |
| BitStringOrder.EqualMeansTrailingZeros | RIC-E2-TERMINATION/3rdparty/oranE2/BIT_STRING.c:264-268 | strings with clean unused bits are equal exactly when they differ at most in trailing zeros |
| Enumerated.CompareNamesEqual | RIC-E2-TERMINATION/3rdparty/oranE2/INTEGER.c:230-247 | exactly when the comparator answers 0 |
| Enumerated.Bsearch | RIC-E2-TERMINATION/3rdparty/oranE2/INTEGER.c:278-303 | binary search over any ascending comparison finds a match if there is one |
| Enumerated.ValueToEnum | RIC-E2-TERMINATION/3rdparty/oranE2/INTEGER.c:288-305 | an element is found exactly when the value is in the table |
| Enumerated.EnumToValue | RIC-E2-TERMINATION/3rdparty/oranE2/INTEGER.c:249-286 | the search through the permutation finds an element exactly when one has the name |
| Enumerated.NameExactly | RIC-E2-TERMINATION/3rdparty/oranE2/INTEGER.c:257-270 | the name looked up is what stands before the first character that ends a tag |
| Enumerated.EndsTagCodes | RIC-E2-TERMINATION/3rdparty/oranE2/INTEGER.c:259-261 | the characters that end it, by their codes |
| Enumerated.EncodeXer | RIC-E2-TERMINATION/3rdparty/oranE2/NativeEnumerated.c:63-90 | the tag of the value's element, an error exactly for unknown values |
| Enumerated.XerRoundTrip | RIC-E2-TERMINATION/3rdparty/oranE2/INTEGER.c:249-286 | the tag printed for an element leads to that element and no other |
| Enumerated.PutSmallNumber | RIC-E2-TERMINATION/3rdparty/oranE2/per_support.c:100-120 | the bits put for a normally small number |
| Enumerated.SmallNumberExactly | RIC-E2-TERMINATION/3rdparty/oranE2/per_support.c:100-120 | up to 63 a zero bit and six bits; beyond, the fewest octets behind their count in eight bits; refused outside 0 to 2^24 - 1 |
| Enumerated.GetSmallNumber | RIC-E2-TERMINATION/3rdparty/oranE2/per_support.c:74-94 | the number and the bits used, or a refusal |
| Enumerated.SmallNumberRoundTrip | RIC-E2-TERMINATION/3rdparty/oranE2/per_support.c:70-120 | the number comes back if and only if it is at most 63 |
| Enumerated.EncodeUper | RIC-E2-TERMINATION/3rdparty/oranE2/NativeEnumerated.c:160-229 | the bits of the value's index, refused exactly when the value or the constraint is |
| Enumerated.IndexBitsExactly | RIC-E2-TERMINATION/3rdparty/oranE2/NativeEnumerated.c:160-229 | a bit that says whether the element is an extension, then its index in the bits of the range or its count from the first extension; what is refused |
| Enumerated.DecodeUper | RIC-E2-TERMINATION/3rdparty/oranE2/NativeEnumerated.c:92-146 | the value at the index read, split at the first extension value |
| Enumerated.RootReadIsWritten | RIC-E2-TERMINATION/3rdparty/oranE2/NativeEnumerated.c:92-146 | what is read as a root element is the encoding of its index and nothing else |
| Enumerated.UperRoundTrip | RIC-E2-TERMINATION/3rdparty/oranE2/NativeEnumerated.c:92-229 | an index comes back, with exactly the bits written, if and only if it is not the 65th extension or later |
| Base64.Encode | RIC-E2-TERMINATION/base64.cpp:29-77 | the encoding, its exact length, one NUL after it and nothing beyond |
| Base64.AlphabetExactly | RIC-E2-TERMINATION/base64.h:34-35 | the symbols are those of the base64 alphabet, in order |
| Base64.GroupIsNumber | RIC-E2-TERMINATION/base64.cpp:55-61 | three octets and their four symbols are one number |
| Base64.LastGroupExactly | RIC-E2-TERMINATION/base64.cpp:63-73 | one or two last octets are encoded with zeros behind, and pads for the symbols of zeros alone |
| Base64.Decode | RIC-E2-TERMINATION/base64.cpp:79-149 | the decoded octets, success exactly when there are whole blocks and the first block with pads, if any, has at most two of them, wherever they stand and whatever follows; no store outside the first 3 * (srcLen / 4) octets |
| Base64.OctetsAreNumber | RIC-E2-TERMINATION/base64.cpp:127-131 | the three octets of a block and its four sextets are one number |
| Base64.TakeBlock | RIC-E2-TERMINATION/base64.cpp:127-143 | a padded block gives two octets or one and ends the decoding |
| Base64.RoundTrip | RIC-E2-TERMINATION/base64.cpp:29-149 | decoding the encoding of any octets but none gives them back |
| Base64.CanonicalExactly | RIC-E2-TERMINATION/base64.cpp:104-143 | of the texts that decode, those are encodings, up to skipped characters, whose pads stand at the very end and leave zero bits over, and no others |
| Base64.PaddedBlockEnds | RIC-E2-TERMINATION/base64.cpp:127-143 | pads are accepted anywhere in a block, and what follows it is ignored |
| Base64.InsertionInvariance | RIC-E2-TERMINATION/base64.cpp:104-124 | characters outside the alphabet change nothing, wherever they stand |
| RanName.TranslateBitString | RIC-E2-TERMINATION/BuildRunName.h:56-117 | two hexadecimal digits an octet, which are those of the bit string's value without its unused bits |
| RanName.DigitStep | RIC-E2-TERMINATION/BuildRunName.h:80-94 | the octet spliced from two neighbours has the next two digits |
| RanName.BuildRanName | RIC-E2-TERMINATION/BuildRunName.h:120-150 | the name of a gNB, with the prefix and suffix its CU-UP and DU ids call for |
| RanName.NameExactly | RIC-E2-TERMINATION/BuildRunName.h:56-150 | gnbc_ exactly for a present id with a CU-UP id alone, gnbd_ with a DU id alone, gnb_ otherwise; then the PLMN, two digits an octet that denote the id, and the numeral of the CU-UP or DU id that alone is not negative |
| RanName.PlmnDigits | RIC-E2-TERMINATION/BuildRunName.h:34-54 | which half octet each digit of the PLMN is |
| RanName.HexNumberIsNumeral | RIC-E2-TERMINATION/BuildRunName.h:102-110 | the numeral denotes the number and has no superfluous zero |
| RanName.HexExactly | RIC-E2-TERMINATION/BuildRunName.h:87-93 | the digits printed are 0 to 9 and lower-case a to f |
| RanName.PlmnTextDetermines | RIC-E2-TERMINATION/BuildRunName.h:34-54 | decimal PLMNs print alike exactly when they are equal up to the leading zero of a two-digit MNC |
| RanName.TwoDigitMncCollides | RIC-E2-TERMINATION/BuildRunName.h:46-54 | two PLMNs with one name |
| RanName.IdBits | RIC-E2-TERMINATION/BuildRunName.h:80-94 | the number printed is that of the used bits |
| RanName.NameDetermines | RIC-E2-TERMINATION/BuildRunName.h:34-150 | for ids of one length names are equal if and only if kind, PLMN, id bits and suffix are |
| RanName.NameIsNodeKey | RIC-E2-TERMINATION/sctpThread.cpp:3701-3702 | a gNB's name is never one of the registry's reserved keys |
| ProcedureTable.Table.Get | RIC-E2-TERMINATION/sctpThread.cpp:2934-2964 | the walk finds the entry exactly when there is one, and never for the empty name |
| ProcedureTable.Table.SetStatus | RIC-E2-TERMINATION/sctpThread.cpp:2966-2991 | only the named entry's state changes, and no entry appears |
| ProcedureTable.Table.InsertSetup | RIC-E2-TERMINATION/sctpThread.cpp:2993-3045 | a new entry with the transaction id, or the old entry set back to setup ongoing |
| ProcedureTable.Table.Remove | RIC-E2-TERMINATION/sctpThread.cpp:1456-1479 | only the named entry goes |
| ProcedureTable.Table.Current | RIC-E2-TERMINATION/sctpThread.cpp:3047-3073 | the state, or not initiated exactly for names without entry |
| ProcedureTable.OneKey | RIC-E2-TERMINATION/sctpThread.cpp:2966-3045 | every operation leaves all other names alone |
| ProcedureTable.OwnEntry | RIC-E2-TERMINATION/sctpThread.cpp:2966-3045 | the entry itself: the status stored beside the old transaction id, a first setup with its own, a removal |
| E2Termination.Termination.CollectSetupRequestData | RIC-E2-TERMINATION/sctpThread.cpp:2124-2170 | the names of connection and message, the keys bound and the transaction id after the loop over the IEs |
| E2Termination.Termination.SetupRequest | RIC-E2-TERMINATION/sctpThread.cpp:3143-3194 | report and entry of an accepted setup; a refused one still renames and binds the connection |
| E2Termination.Termination.InspectErrorIndication | RIC-E2-TERMINATION/sctpThread.cpp:2347-2385 | the three bits say which IEs occur, the code is the last one diagnosed |
| E2Termination.Termination.SendMsgBits | RIC-E2-TERMINATION/sctpThread.cpp:3075-3120 | the destination chosen from code, bits and current state |
| E2Termination.Termination.ErrorIndicationRequest | RIC-E2-TERMINATION/sctpThread.cpp:2335-2425 | the messages of an Error Indication |
| E2Termination.Termination.ForwardRequest | RIC-E2-TERMINATION/sctpThread.cpp:2471-2514 | the first RICrequestID is sent on, and only it |
| E2Termination.Termination.InitiatingRequest | RIC-E2-TERMINATION/sctpThread.cpp:2229-2571 | every initiating message of a node does what the protocol function says |
| E2Termination.Termination.SuccessfulOutcome | RIC-E2-TERMINATION/sctpThread.cpp:2580-2777 | so does every successful outcome |
| E2Termination.Termination.UnsuccessfulOutcome | RIC-E2-TERMINATION/sctpThread.cpp:2785-2932 | so does every unsuccessful outcome |
| E2Termination.Termination.CleanHashEntry | RIC-E2-TERMINATION/sctpThread.cpp:1341-1362 | both keys and the connection go, nothing else |
| E2Termination.Termination.SendSctpMsg | RIC-E2-TERMINATION/sctpThread.cpp:1374-1439 | a failed write forgets an established connection and leaves one in progress |
| E2Termination.Termination.LoseConnection | RIC-E2-TERMINATION/sctpThread.cpp:1649-1699 | notice, table entry and, with an open descriptor, the connection |
| E2Termination.Termination.HandlePollError | RIC-E2-TERMINATION/sctpThread.cpp:1270-1309 | the same on a poll error |
| E2Termination.Termination.HandleEinprogress | RIC-E2-TERMINATION/sctpThread.cpp:1195-1262 | a connection becomes established, or is reported, or is forgotten |
| E2Termination.Termination.DispatchXappMessage | RIC-E2-TERMINATION/sctpThread.cpp:3395-3694 | the state before and after each kind of message, and what a failed write undoes |
| E2Termination.Termination.ClearAllConnections | RIC-E2-TERMINATION/sctpThread.cpp:3696-3731 | every bound connection is reported and freed and the registry emptied; the table stays |
| E2Termination.Termination.SendTermInit | RIC-E2-TERMINATION/sctpThread.cpp:739-765 | one more message and one more id from the same counter, nothing else |
| E2Termination.Termination.Handle | RIC-E2-TERMINATION/sctpThread.cpp:922-1062 | each event of the listener, and each E2_TERM_INIT, is one step of the protocol |
| E2Effects.FirstRequestExactly | RIC-E2-TERMINATION/sctpThread.cpp:2471-2514 | the instance sent on is that of the first RICrequestID, and none exactly without one |
| E2Effects.GatedDoes | RIC-E2-TERMINATION/sctpThread.cpp:2229-2932 | for every kind of message of a node that is set up: the messages it becomes, with type, name, subscription id and transaction id, and the state its entry is left in |
| E2Effects.ErrorIndicationDoes | RIC-E2-TERMINATION/sctpThread.cpp:2335-2425 | the one or two messages of an Error Indication, by the IEs, the diagnosed code and the entry's state |
| E2Effects.UngatedDoesNothing | RIC-E2-TERMINATION/sctpThread.cpp:2934-2964 | a message of a connection without name or entry changes nothing |
| E2Effects.CollectedId | RIC-E2-TERMINATION/sctpThread.cpp:2124-2170 | the transaction id collected is the last one, but negative when a node id is refused |
| E2Effects.SetupDoes | RIC-E2-TERMINATION/sctpThread.cpp:2124-3194 | name, keys, entry and report of an E2setup, read off the request; what a refused one still changes |
| E2Effects.WrittenMessageDoes | RIC-E2-TERMINATION/sctpThread.cpp:3395-3694 | the state that each kind of xApp message leaves when it is written |
| E2Effects.FailedMessageDoes | RIC-E2-TERMINATION/sctpThread.cpp:3395-3694 | what is left when the write fails: requests set their entry back, and an established connection is forgotten |
| E2Effects.OtherMessageDoes | RIC-E2-TERMINATION/sctpThread.cpp:3370-3780 | the two messages that are answered at once; all others that are not written change nothing |
| E2Effects.LossDoes | RIC-E2-TERMINATION/sctpThread.cpp:1270-1699 | the notice of a lost connection and what goes with it |
| E2Effects.WriteReadyDoes | RIC-E2-TERMINATION/sctpThread.cpp:1195-1262 | a connection that becomes writable is reported, established or forgotten |
| E2Effects.InitDoes | RIC-E2-TERMINATION/sctpThread.cpp:739-765 | E2_TERM_INIT without a name, and nothing else |
| E2Effects.ClearAllDoes | RIC-E2-TERMINATION/sctpThread.cpp:3696-3731 | the table stays and the registry is emptied |
| E2Effects.MessageOrigin | RIC-E2-TERMINATION/sctpThread.cpp:1195-3780 | over a run every message was added by one event, which its type, name and subscription id tell: a RIC_SUB_RESP by a RICsubscriptionResponse under that name, and so for every type |
| E2Runs.ReachableStatuses | RIC-E2-TERMINATION/sctpThread.cpp:2262-3607 | between the events of any run nine states occur, and not initiated means exactly no entry |
| E2Runs.StepEmits | RIC-E2-TERMINATION/sctpThread.cpp:3203-3217 | what each event, of any kind, sends, under which name and with which ids |
| E2Runs.ClearReports | RIC-E2-TERMINATION/sctpThread.cpp:3696-3731 | a global clear sends one connection failure for each live connection the registry leads to, under its name, and closes exactly those |
| E2Runs.XactsConsecutive | RIC-E2-TERMINATION/sctpThread.cpp:612-765 | from any start value, both threads together give RMR consecutive transaction ids over a run, and nothing sent is taken back |
| E2Runs.ListenerXacts | RIC-E2-TERMINATION/sctpThread.cpp:612-765 | the listener's own ids strictly increase from the start value on; they have no gap exactly when no E2_TERM_INIT precedes one of them, and are all there is exactly when the main thread sends none |
| E2Runs.StepEntry | RIC-E2-TERMINATION/sctpThread.cpp:2993-3045 | an entry is there after an event exactly when it was accepted then, or was there and not removed |
| E2Runs.EntryMeansSetUp | RIC-E2-TERMINATION/sctpThread.cpp:2934-3045 | the table has an entry exactly for names with an accepted E2setup and no removal since |
| E2Runs.SetupGate | RIC-E2-TERMINATION/sctpThread.cpp:2229-2964 | over whole runs, a message other than E2setup has no effect at all unless its name is set up, and otherwise causes what the protocol says under that name |
| E2Runs.StoredTransaction | RIC-E2-TERMINATION/sctpThread.cpp:2993-3045 | the stored transaction id is that of the setup that created the entry |
| E2Runs.RepeatedSetup | RIC-E2-TERMINATION/sctpThread.cpp:2993-3045 | after an accepted setup the stored id is the request's if and only if there was no entry or one with that id |
| E2Registry.RepeatedSetupKeepsId | RIC-E2-TERMINATION/sctpThread.cpp:2993-3045 | a connection and two setups with different ids leave the first id stored |
| E2Registry.SetupConsistency | RIC-E2-TERMINATION/sctpThread.cpp:2124-2170 | for every request, a setup keeps the registry consistent if and only if a bound connection gets its old name as the last one, the first usable name written over the old one is already the last, and every name is a prefix of the last |
| E2Registry.KeepsNameMeans | RIC-E2-TERMINATION/sctpThread.cpp:2142-2143 | with one usable node id, as a conforming request has: the name is no shorter than the old one, and the same if bound; with none: no named connection is bound |
| E2Registry.ConformingSetup | RIC-E2-TERMINATION/3rdparty/oranE2/ProtocolIE-Field.c:622-638 | a request with the four mandatory IEs in their order has one usable name, and what is collected from it |
| E2Registry.RenamedConnection | RIC-E2-TERMINATION/sctpThread.cpp:2128-2143 | a connection, its E2setup and a second one under any other name leave the first key bound to a connection of the other name |
| E2Registry.OtherEventsConsistent | RIC-E2-TERMINATION/sctpThread.cpp:1341-1362 | no other event breaks the registry |
| E2Registry.LostConnectionIsForgotten | RIC-E2-TERMINATION/sctpThread.cpp:1649-1699 | a disconnect or poll error always takes the table entry; the name's key and the connection go exactly when the descriptor is still open |
| E2Registry.ClosedDescriptorKeepsKey | RIC-E2-TERMINATION/sctpThread.cpp:1680-1699 | a connection, its E2setup and a disconnect with closed descriptor leave no entry but a key to the live connection |
| E2Independence.RegistryConsistent | RIC-E2-TERMINATION/sctpThread.cpp:2124-2170 | when every setup on a connection names the same node, every key leads to a live connection of its name in every reachable state |
| E2Independence.RegistryExact | RIC-E2-TERMINATION/sctpThread.cpp:2124-2170 | over a run the registry is exactly the named live connections as long as, and only as long as, no two live connections share a name |
| E2Independence.SharedName | RIC-E2-TERMINATION/sctpThread.cpp:2128-2143 | a run of five events in which a second connection takes the first one's name, and its loss takes key and entry from the first |
| E2Independence.Independence | RIC-E2-TERMINATION/sctpThread.cpp:2934-3731 | after any interleaved run, with refused and nameless setups from anyone, a node's table entry, registry entry, connections and the messages under its name are those of replaying its own events and the global clears, and the replay is a run |
| E2Routing.BitsIgnoreOrder | RIC-E2-TERMINATION/sctpThread.cpp:2347-2385 | the presence bits depend on which IEs occur only |
| E2Routing.OneDestination | RIC-E2-TERMINATION/sctpThread.cpp:3075-3120 | at most one of E2Manager and SubMgr, and what each requires |
| E2Routing.ErrorSendsExactly | RIC-E2-TERMINATION/sctpThread.cpp:2387-2425 | exactly when each destination is sent to; RIC_ERROR_INDICATION always comes last |
| E2Routing.DiagnosedCodeExactly | RIC-E2-TERMINATION/sctpThread.cpp:2374-2384 | the code is that of the last CriticalityDiagnostics with one, and 0 exactly when that says so or there is none |
| E2Routing.ErrorIndicationOverRuns | RIC-E2-TERMINATION/sctpThread.cpp:2335-2425 | over runs, every gated Error Indication is reported under its name, after at most one message: to E2Manager only if it quotes the creating setup's transaction id, or to SubMgr only if it holds a request id and a cause |

## Left out

- Sockets, epoll, inotify, RMR delivery, Prometheus counters, JSON tracing, logging, configuration and command line.
- The generated descriptor tables and the conversion of whole PDUs between PER and XER; whether a conversion succeeds is part of the event.
- Memory: allocation failure, and objects reached through pointers. Connections are values under handles in `E2Protocol`, so an entry that leads to a freed connection reads as absent.
- E2Runs.XactsConsecutive: the counter is an unbounded integer, its increment is indivisible, and an E2_TERM_INIT falls between two events of the listener; the original increments a plain `long` from both threads.
- The `#ifdef UNIT_TEST` and `MODULE_TEST` variants of the handlers.
- E2Termination.Termination.CollectSetupRequestData: names are strings up to their NUL; octets left after the NUL by two node ids in one request are not kept.
- E2Termination.Termination.SendSctpMsg: the erased key that begins with `msg:` is not modelled, because nothing sets such a key.
- E2Termination.Termination.AcceptConnection: accept either succeeds or has no effect; address look-up and socket options are not modelled.
- AlignedPer.EncodeAper: semi-constrained values, and the unconstrained form a value outside an extensible range takes are not modelled.
- AlignedPer.DecodeAper: like the encoder; the extension bit is read and reported. Too few bits are not told from other failures.
- BitData.BitInput.GetFewBits: the refill callback is not modelled, because none of the decoders here sets one.
- BitData.BitOutput.PutFewBits: the sink answers the same throughout one call; the many-bits variants are not modelled.
- Strtox.Strtoimax: on the exceptional texts it is only said that the answer is not the promised one, because what it is depends on signed overflow.
- XerInteger.BodyDecode: unsigned fields are not modelled, and nothing is said for the exceptional decimals of `Strtox.Strtoimax`; what a tag look-up gives is a parameter, which `XerInteger.BodyDecodeNamed` fills in.
- XerInteger.BodyDecodeNamed: like `XerInteger.BodyDecode`; the look-up is made before the scan, which it does not depend on.
- XerPrimitive.Decoder.Content: the chunks are given; the tokenizer and the check of the element's own tags are not modelled, and no chunk is one of the exceptional decimals.
- XerInteger.Dump: names of enumerations and the unsigned printing of types with specifics are not modelled.
- BitStringXer.BitString.ConvertBinary: the buffer exists before the first chunk, with a zero octet in it, as the caller allocates it.
- OctetStringXer.OctetString.EncodeXer: the callback accepts what it is given.
- BitStringXer.BitString.EncodeXer: the callback accepts what it is given.
- BitStringOrder.Compare: absent operands are not modelled.
- Enumerated.EncodeUper: constraints without a range are not modelled, nor is aligned PER of enumerations.
- Enumerated.DecodeUper: constraints without a range are not modelled.
- Base64.Encode: the caller provides room for the encoding and its NUL; the function's own size test asks for less.
- RanName.BuildRanName: ng-eNB, en-gNB and eNB names, and the 64-octet buffer the name is written to, are not modelled.
- `mapWrapper`, `BuildXml`, `fetchStreamId`, opening of traces and the translation of RMR error codes: library calls or simple tables.
