# Codecs, peer registry and KPM watcher of NSORAN

These Dafny modules model the parts of the repository that carry bits, names and
records from one place to another and must not lose any of them, and prove what
those parts keep. One module stands for one source file or for the functions two
files share.

| module | what it models |
|---|---|
| `Bits`, `Text`, `Doubles` | octets, bits, big-endian numbers; characters and decimal numbers; rounding to doubles |
| `BitData` | the bit-at-a-time output and input buffers under the PER codecs (`asn_bit_data.c`) |
| `BitStr` | BIT STRING values: compaction, order, copy, and the structure in memory (`BIT_STRING.c`) |
| `PerFraming`, `PerLoops` | length determinants and fragments (section 11.9 of ITU-T X.691), and the loops that write and read them |
| `UperBitString` | the BIT STRING codec of unaligned PER (section 16 of ITU-T X.691) |
| `AnyPer` | the open-type ANY codecs of unaligned and aligned PER |
| `AnyBuffer` | the growing buffer behind `ANY_fromType` |
| `OerBitString` | the BIT STRING codec of OER (sections 8.6 and 13 of ITU-T X.696) |
| `JerBitString` | the BIT STRING codec of JER (ITU-T X.697) |
| `XerBitString` | the BIT STRING text of XER |
| `Base64` | base 64 of the E2 termination (RFC 4648) and its use in the trace |
| `RanName` | RAN names, the keys of the peer registry |
| `Registry` | accepting, naming, looking up, dropping and clearing SCTP peers |
| `Watcher` | the KPM watcher that re-reads growing files |

Code that works in place is a method with loops, or a class with the source's
fields, proved against a function that says what it computes; the theorems are
lemmas about those functions, so they speak of the methods. What such a function
means is fixed without it, in literal characters, octets and positions, by the lemmas
whose names end in `Exactly`, `Layout`, `Octets`, `Digits` or `At`. Bit streams are
`seq<bool>`; `BitOut.Contents` and `BitIn.Ahead` read them off the buffers.
Pointers that may be null are nullable references or a `present` field, error
returns are values, and refused memory is a parameter where the source looks at
it.

A BIT STRING value is *proper* (`BitStr.WellFormed`) when it has a buffer, its
unused bits are 0 to 7 and none in an empty string, and its padding bits are zero.
`OerBitString.OerFixedRoundTrip` assumes a proper value. The value comes back
unchanged under zero padding in `OerBitString.OerRoundTripValue` and
`JerBitString.JerRoundTripValue`, and zero padding is the exact condition in
`BitStr.CompactionKeepsValue` and part of it in `OerBitString.OerCanonicalWhen`. The
other theorems need at most `BitStr.HeaderOk`, the test on unused bits, and say what
becomes of stray padding.

The registry's invariant `Registry.Inv` is proved over every run in which each
setup carries one valid identity and a connection never changes it
(`Registry.StableRun`). Several connections may claim one name and close in any
order.

## Where the code differs from what is said of it

- `ANY_decode_aper` asks for a length of zero bits (ANY_aper.c:135), so it reads no
  length and returns the empty string from every input; the aligned round trip
  holds for the empty string only (`AnyPer.AnyAperRoundTrip`). The encoding itself
  loses nothing (`AnyPer.AnyAperInvertible`).
- `BIT_STRING_encode_oer` is announced as canonical (BIT_STRING_oer.c:87), but lets
  stray padding through when the used bits of the last octet are all zero
  (`OerBitString.OerCanonicalWhen`). Its fixed-size padding loop never ends
  (`OerBitString.PaddingNeverEnds`).
- `BIT_STRING__compactify` reads padding bits as value bits
  (`BitStr.CompactionKeepsValue`), and returns an empty string with its unused bits, so
  `BIT_STRING_compare` tells such strings apart although X.680 has their values equal
  (`BitStr.CompareIsArithmetic` and `BitStr.CompareZero` give the exact condition,
  `BitStr.StrayBitsCompare` an input). With assertions on, the call aborts there
  instead. `BIT_STRING_decode_oer` produces such strings (`OerBitString.OerStrayEmpty`).
- `BIT_STRING_decode_uper` leaves an old `bits_unused` in a reused structure
  (`UperBitString.ReusedStructure`, `UperBitString.ReusedStructureLosesBits`).
- `BIT_STRING_encode_xer` puts a due line break before the octets that still wait in
  its scratch buffer (BIT_STRING_xer.c:51-53). When a whole line ends just before the
  last octet, that line follows two breaks and the last octet follows it at once
  (`XerBitString.InLinesExactly`, `XerBitString.LastLineAfterTwoBreaks`,
  `XerBitString.NineOctets`); the bits keep their order (`XerBitString.XerBits`).
- `BIT_STRING_decode_jer` asks for more when its input stops early, except between the
  colon of the length and its first digit, where it fails (BIT_STRING_jer.c:262,
  `JerBitString.JerTruncated`).
- base64 `decode` stops at the first padded quantum but counts all characters, so
  what follows still decides success (`Base64.DecodedAfterPad`). `buildJsonMessage`
  ignores the encoder's result, so an empty payload is traced with the previous text
  and the size of the buffer as its length (`Base64.ReportingMessages.BuildJsonMessage`).
- RAN names are not injective in the PLMN identity: a two-digit network code is
  printed with a leading zero, and the 20-character buffer cuts digits after the
  longer prefixes. `RanName.SameNameDecimal` says for every kind exactly when two
  nodes share a name, `RanName.SameDigits` which octets print alike;
  `RanName.PlmnCollision` and `RanName.ShortMacroCollision` are instances.
- A setup that changes or omits the identity leaves the old name in the registry,
  where it dangles once the connection closes (`Registry.SetupExactly`,
  `Registry.UnstableDangles`). Peers are never marked connected by the accepting
  step, so a failed send never drops one (`Registry.SendChangesNothing`).
- An epoll batch that holds a clearing message and a later event of a registered peer
  makes that event touch freed memory (`Registry.ClearingLeavesStale`).
- The watcher computes its nanosecond tag in doubles, which do not hold every product:
  `Watcher.ExactTag` gives the exact condition, and `Watcher.InexactTag` the first
  timestamp of the sample logs.
- A SINR column of the watcher that mentions neither a UE nor L3 is named after the
  file, not after the cell (`Watcher.SinrNamedByCell`, `Watcher.SinrNamedByFile`); a
  file of an unlisted cell, such as `du-cell-1.txt`, matches the patterns but has no
  key (`Watcher.KeylessFiles`, `Watcher.DuCellOne`).

## Model

| member | source | states |
|---|---|---|
| BitData.BitOut.PutFewBits | setup/xapp-sm-connector/asn1c_defs/asn_bit_data.c:191-277 | appends exactly the low obits bits of the value to everything put before, across the one- to four-octet branches, the recursive wide branch and flushing; refuses counts outside 0..31 and then changes nothing |
| BitData.BitOut.PutShort | setup/xapp-sm-connector/asn1c_defs/asn_bit_data.c:229-266 | the masked writes into one to four octets keep the bits before the position and append the value |
| BitData.BitOut.FlushBytes | setup/xapp-sm-connector/asn1c_defs/asn_bit_data.c:214-227 | handing complete octets to the output callback and moving the partial one keeps the bit string |
| BitData.BitOut.PutManyBits | setup/xapp-sm-connector/asn1c_defs/asn_bit_data.c:283-310 | 24 bits at a time, appends the first n bits of the octets |
| BitData.BitIn.GetFewBits | setup/xapp-sm-connector/asn1c_defs/asn_bit_data.c:62-142 | the next n bits as a number and the position moved by n, or -1 and nothing moved |
| BitData.BitIn.PeekShort | setup/xapp-sm-connector/asn1c_defs/asn_bit_data.c:104-115 | the one- to four-octet reads give the number the next n bits denote |
| BitData.BitIn.PeekWide | setup/xapp-sm-connector/asn1c_defs/asn_bit_data.c:116-124 | the two-part read through a copy gives the same number |
| BitData.BitIn.GetManyBits | setup/xapp-sm-connector/asn1c_defs/asn_bit_data.c:147-186 | the next n bits packed left-aligned into octets, or -1 |
| BitData.WideBits | setup/xapp-sm-connector/asn1c_defs/asn_bit_data.c:267-270 | a value wider than 24 bits is its top 24 bits followed by the rest |
| BitStr.UnusedOf | setup/xapp-sm-connector/asn1c_defs/BIT_STRING.c:149-154 | the negation trick and the three masks give the number of trailing zeros of the octet |
| BitStr.AndNegated | setup/xapp-sm-connector/asn1c_defs/BIT_STRING.c:151 | v & -v is the lowest one of v alone |
| BitStr.AndIsolated | setup/xapp-sm-connector/asn1c_defs/BIT_STRING.c:152-154 | masking an isolated bit tests that bit of the mask |
| BitStr.Compactify | setup/xapp-sm-connector/asn1c_defs/BIT_STRING.c:132-168 | an empty string as it is, unused bits included; else the canonical representation of the bits of the octets |
| BitStr.CompactedBits | setup/xapp-sm-connector/asn1c_defs/BIT_STRING.c:129-168 | compaction keeps the bits up to trailing zeros |
| BitStr.CompactedCanonical | setup/xapp-sm-connector/asn1c_defs/BIT_STRING.c:129-168 | it ends in a one or is empty, is proper and idempotent, and no representation of the bits has fewer octets or bits |
| BitStr.CompactedIdempotent | setup/xapp-sm-connector/asn1c_defs/BIT_STRING.c:129-168 | compacting twice is compacting once |
| BitStr.CompactionKeepsValue | setup/xapp-sm-connector/asn1c_defs/BIT_STRING.c:140-167 | it keeps the value exactly when the padding bits are zero: bits_unused is not looked at |
| BitStr.CompareExactly | setup/xapp-sm-connector/asn1c_defs/BIT_STRING.c:174-219 | the order of the octets read as base-256 fractions, then of the unused bits an empty string reports, more of them first |
| BitStr.CompareIsArithmetic | setup/xapp-sm-connector/asn1c_defs/BIT_STRING.c:174-219 | the result has the sign of the difference of the fractions exactly unless both strings are zeros only and report different unused bits; so for all good headers |
| BitStr.OrderOfFractions | setup/xapp-sm-connector/asn1c_defs/BIT_STRING.c:191-198 | memcmp and then length order octet strings without trailing zeros like their fractions |
| BitStr.TieBreakDecides | setup/xapp-sm-connector/asn1c_defs/BIT_STRING.c:199-207 | for equal compacted octets the unused bits decide exactly when both are empty and report different counts |
| BitStr.StrayBitsCompare | setup/xapp-sm-connector/asn1c_defs/BIT_STRING.c:140-142 | an empty string with three unused bits comes before the empty string |
| BitStr.CompareTotalPreorder | setup/xapp-sm-connector/asn1c_defs/BIT_STRING.c:174-219 | reflexive, antisymmetric in sign, transitive |
| BitStr.CompareZero | setup/xapp-sm-connector/asn1c_defs/BIT_STRING.c:177-219 | zero exactly when the octets agree up to trailing zero bits and the unused bits of empty strings do not decide |
| BitStr.Copy | setup/xapp-sm-connector/asn1c_defs/BIT_STRING.c:221-253 | the four pointer cases and both allocations; the destination holds the same octets and unused bits and a final zero octet, the original is unchanged; on failure an existing destination is unchanged |
| BitStr.CopyComparesEqual | setup/xapp-sm-connector/asn1c_defs/BIT_STRING.c:221-253 | a copy compares equal to its original |
| PerFraming.UperPutLength | setup/xapp-sm-connector/asn1c_defs/uper_support.c:163-192 | writes one determinant, reports the units it covers, and asks for a terminator exactly when a multiple of 16K ends here |
| PerFraming.UperGetLength | setup/xapp-sm-connector/asn1c_defs/uper_support.c:13-44 | a fixed-width count above the lower bound, or a determinant |
| PerFraming.GetUnconstrained | setup/xapp-sm-connector/asn1c_defs/uper_support.c:27-43 | the three forms of a determinant; forbidden multiples and short input give -1 |
| PerFraming.DeterminantInverse | setup/xapp-sm-connector/asn1c_defs/uper_support.c:163-192 | reading undoes writing for every length, whatever follows |
| PerFraming.FrameInverse | setup/xapp-sm-connector/asn1c_defs/BIT_STRING_uper.c:91-119 | the decoder loop gets every payload back from its fragments and uses exactly their bits, whatever follows |
| PerFraming.FramingShape | setup/xapp-sm-connector/asn1c_defs/BIT_STRING_uper.c:225-241 | fragments add up, all but the last are 16K to 64K units, and a zero-length terminator is there exactly for positive multiples of 16K |
| PerFraming.DeterminantOctets | setup/xapp-sm-connector/asn1c_defs/uper_support.c:168-190 | the number in one octet up to 127, 32768 more in two octets below 16384, else 192 and a count of 1 to 4 (section 11.9 of ITU-T X.691) |
| PerFraming.FrameOctets | setup/xapp-sm-connector/asn1c_defs/BIT_STRING_uper.c:225-241 | below 16384 units a frame is one determinant and all units |
| PerFraming.FragmentOctets | setup/xapp-sm-connector/asn1c_defs/BIT_STRING_uper.c:225-241 | from 16384 units on it is an octet 193 to 196, that many times 16384 units, and the frame of the rest, a zero octet if nothing is left |
| PerFraming.GetDeterminantExactly | setup/xapp-sm-connector/asn1c_defs/uper_support.c:27-43 | first octets below 128, two octets below 192, and 193 to 196 are lengths; nothing else is |
| PerFraming.UnframeExactly | setup/xapp-sm-connector/asn1c_defs/BIT_STRING_uper.c:91-119 | any stream, however fragmented: fragments of 16K to 64K are joined until a shorter one, and missing bits or a bad determinant starve the decoder |
| PerFraming.UnframeExtends | setup/xapp-sm-connector/asn1c_defs/BIT_STRING_uper.c:91-119 | a payload that can be read is the same whatever follows |
| PerFraming.FramePrefixStarves | setup/xapp-sm-connector/asn1c_defs/BIT_STRING_uper.c:91-106 | every strict prefix of a frame starves the decoder |
| PerLoops.PutFrame | setup/xapp-sm-connector/asn1c_defs/BIT_STRING_uper.c:225-241 | the encoder loop ends, writes the frame, and its assertion on whole octets holds in every round |
| PerLoops.PutRound | setup/xapp-sm-connector/asn1c_defs/ANY_uper.c:92-105 | one round writes determinant, fragment and terminator |
| PerLoops.RoundThenRest | setup/xapp-sm-connector/asn1c_defs/ANY_uper.c:97-105 | a round and the frame of the rest are the frame; a fragment that is not the last is whole octets |
| PerLoops.AperPutAlign | setup/xapp-sm-connector/asn1c_defs/aper_support.c:185-193 | pads with zeros to the octet boundary |
| PerLoops.PutLength | setup/xapp-sm-connector/asn1c_defs/aper_support.c:195-230 | alignment if the variant aligns, then the determinant |
| PerLoops.AperGetAlign | setup/xapp-sm-connector/asn1c_defs/aper_support.c:9-17 | skips to the octet boundary or runs out |
| PerLoops.GetRaw | setup/xapp-sm-connector/asn1c_defs/aper_support.c:19-50 | alignment if the variant aligns, then the length |
| PerLoops.AppendFragment | setup/xapp-sm-connector/asn1c_defs/BIT_STRING_uper.c:108-118 | the block grows by the packed bits; bits_unused changes only for a partial octet |
| PerLoops.GetFrame | setup/xapp-sm-connector/asn1c_defs/BIT_STRING_uper.c:91-122 | the decoder loop ends and stores the whole payload, terminated, with exactly its bits used |
| UperBitString.PutZeros | setup/xapp-sm-connector/asn1c_defs/BIT_STRING_uper.c:206-219 | the trailer loop appends exactly n zero bits |
| UperBitString.PutRoot | setup/xapp-sm-connector/asn1c_defs/BIT_STRING_uper.c:192-221 | inside the size constraint: count, bits, zeros up to the lower bound |
| UperBitString.ConsistentExactly | setup/xapp-sm-connector/asn1c_defs/per_support.h:18-29 | the size constraints admitted are exactly those without effective bits or whose count field reads back the largest count |
| UperBitString.EncodeUper | setup/xapp-sm-connector/asn1c_defs/BIT_STRING_uper.c:125-244 | succeeds exactly for a good header, no octets without a buffer, and, under a size that is not extensible, no more bits than the upper bound after compaction, never refusing short values; writes the bits UperLayout describes |
| UperBitString.GetFixed | setup/xapp-sm-connector/asn1c_defs/BIT_STRING_uper.c:80-89 | a fixed size reads exactly that many bits |
| UperBitString.DecodeRest | setup/xapp-sm-connector/asn1c_defs/BIT_STRING_uper.c:70-122 | what follows the extension bit: a fixed size or the fragments |
| UperBitString.DecodeUper | setup/xapp-sm-connector/asn1c_defs/BIT_STRING_uper.c:21-123 | the value, unused bits, position and reported count for every input and structure |
| UperBitString.DecodeInverse | setup/xapp-sm-connector/asn1c_defs/BIT_STRING_uper.c:154-243 | decoding what was written gives the bits, zero-filled to the lower bound, and uses exactly what was written |
| UperBitString.UperRoundTrip | setup/xapp-sm-connector/asn1c_defs/BIT_STRING_uper.c:62-122 | every accepted value decodes into a proper value that BIT_STRING_compare calls equal, inside the size bounds, whatever follows |
| UperBitString.UperCanonical | setup/xapp-sm-connector/asn1c_defs/BIT_STRING_uper.c:161-243 | identical bits exactly when BIT_STRING_compare gives 0 |
| UperBitString.UperPrefixFree | setup/xapp-sm-connector/asn1c_defs/BIT_STRING_uper.c:154-243 | encodings side by side split one way |
| UperBitString.UperLayout | setup/xapp-sm-connector/asn1c_defs/BIT_STRING_uper.c:170-241 | extension bit set exactly beyond the upper bound of a size; then the count above the lower bound, the bits and zeros up to it, or a frame |
| UperBitString.ShortGnbId | setup/xapp-sm-connector/asn1c_defs/BIT_STRING_uper.c:192-219 | a gNB identity of ten significant bits under SIZE (22..32) is count 0, its bits and twelve zeros |
| UperBitString.UperPrefixStarves | setup/xapp-sm-connector/asn1c_defs/BIT_STRING_uper.c:62-119 | every strict prefix of an encoding asks for more |
| UperBitString.DecodeUnsized | setup/xapp-sm-connector/asn1c_defs/BIT_STRING_uper.c:62-119 | without a size, or behind a set extension bit, a frame is read |
| UperBitString.DecodeFixed | setup/xapp-sm-connector/asn1c_defs/BIT_STRING_uper.c:80-89 | without effective bits exactly upperBound bits are read |
| UperBitString.DecodeCounted | setup/xapp-sm-connector/asn1c_defs/BIT_STRING_uper.c:91-119 | with effective bits the count above the lower bound and that many bits are read, even more than the upper bound |
| UperBitString.ReusedStructure | setup/xapp-sm-connector/asn1c_defs/BIT_STRING_uper.c:110 | decoding into a used structure leaves a proper value with the bits read exactly for a fixed size, a partial last octet, or unused bits that were 0 |
| UperBitString.ReusedStructureLosesBits | setup/xapp-sm-connector/asn1c_defs/BIT_STRING_uper.c:110 | sixteen bits over three old unused bits come out as thirteen |
| AnyPer.EncodeUper | setup/xapp-sm-connector/asn1c_defs/ANY_uper.c:76-108 | accepts unless octets are announced without a buffer, and writes the fragments |
| AnyPer.DecodeUper | setup/xapp-sm-connector/asn1c_defs/ANY_uper.c:19-74 | octets, position and reported consumption for every input |
| AnyPer.EncodeAper | setup/xapp-sm-connector/asn1c_defs/ANY_aper.c:158-190 | the same with every determinant on an octet boundary |
| AnyPer.DecodeAper | setup/xapp-sm-connector/asn1c_defs/ANY_aper.c:101-156 | octets, position and reported consumption for every input |
| AnyPer.AnyUperRoundTrip | setup/xapp-sm-connector/asn1c_defs/ANY_uper.c:44-107 | every octet string decodes to itself, 8 bits an octet reported, whatever follows |
| AnyPer.AnyUperExactly | setup/xapp-sm-connector/asn1c_defs/ANY_uper.c:44-73 | any stream: fragments are appended until one is shorter than 16K octets; missing bits or a bad determinant ask for more |
| AnyPer.AnyPrefixStarves | setup/xapp-sm-connector/asn1c_defs/ANY_uper.c:44-73 | every strict prefix of an encoding asks for more |
| AnyPer.SixteenK | setup/xapp-sm-connector/asn1c_defs/ANY_uper.c:92-105 | 16384 octets are the octet 193, the content and a zero octet |
| AnyPer.AnyAperInvertible | setup/xapp-sm-connector/asn1c_defs/ANY_aper.c:172-187 | the aligned encoding determines the octets: a decoder reading lengths would get them back |
| AnyPer.AnyAperReadsNothing | setup/xapp-sm-connector/asn1c_defs/ANY_aper.c:134-137 | with effective bits 0 no length is read, so any input gives the empty string |
| AnyPer.AnyAperRoundTrip | setup/xapp-sm-connector/asn1c_defs/ANY_aper.c:126-189 | the decoder gives the octets back exactly when there are none, and leaves written bits unread |
| AnyPer.AnyAperLosesOctet | setup/xapp-sm-connector/asn1c_defs/ANY_aper.c:135 | one octet that comes back as none |
| AnyBuffer.CallbackArg.ConsumeBytes | setup/xapp-sm-connector/asn1c_defs/ANY_ber.c:16-32 | appends the chunk, growing when needed; without memory it fails and changes nothing |
| AnyBuffer.CallbackArg.Realloc | setup/xapp-sm-connector/asn1c_defs/ANY_ber.c:21-25 | a larger block with the old octets in front |
| AnyBuffer.FromType | setup/xapp-sm-connector/asn1c_defs/ANY_ber.c:34-65 | the buffer is the chunks in order; it fails exactly when a chunk needs growth and memory is refused |
| AnyBuffer.BoundedKept | setup/xapp-sm-connector/asn1c_defs/ANY_ber.c:19-29 | offset below size, size at most five times the offset plus 16, at most a third of the size ever recopied, logarithmically many growths |
| AnyBuffer.GrowthAmortised | setup/xapp-sm-connector/asn1c_defs/ANY_ber.c:16-32 | the same bounds after any sequence of chunks, in terms of their total |
| AnyBuffer.FlattenLength | setup/xapp-sm-connector/asn1c_defs/ANY_ber.c:29-60 | the offset is the number of octets delivered |
| OerBitString.SerializeLength | setup/xapp-sm-connector/asn1c_defs/oer_support.c:75-121 | the length octets, the number in as few octets as it needs |
| OerBitString.FetchLength | setup/xapp-sm-connector/asn1c_defs/oer_support.c:18-68 | length and octets used, more, or failure, for every input |
| OerBitString.LengthInverse | setup/xapp-sm-connector/asn1c_defs/oer_support.c:18-121 | fetching undoes serializing exactly up to RSIZE_MAX |
| OerBitString.LengthOctets | setup/xapp-sm-connector/asn1c_defs/oer_support.c:75-121 | one octet up to 127, else 128 plus a count and the number in that many octets, the first not zero |
| OerBitString.EncodeOer | setup/xapp-sm-connector/asn1c_defs/BIT_STRING_oer.c:89-168 | when it succeeds, what it emits and that encoded counts it, for every value and size; a string shorter than its fixed size is followed for any number of padding turns |
| OerBitString.EmitOctets | setup/xapp-sm-connector/asn1c_defs/BIT_STRING_oer.c:133-150 | the octets, the last one masked if one of its used bits is set |
| OerBitString.PutZeros | setup/xapp-sm-connector/asn1c_defs/BIT_STRING_oer.c:152-165 | what the padding loop has emitted after each number of turns |
| OerBitString.PaddingNeverEnds | setup/xapp-sm-connector/asn1c_defs/BIT_STRING_oer.c:152-165 | a string shorter than its fixed size gets more zeros with every turn, passing any length, and the fixed size is met only if whole turns fill it |
| OerBitString.DecodeOer | setup/xapp-sm-connector/asn1c_defs/BIT_STRING_oer.c:9-84 | value, final zero octet and consumed octets for every input, fixed or not |
| OerBitString.MaskedBits | setup/xapp-sm-connector/asn1c_defs/BIT_STRING_oer.c:77-79 | masking keeps the used bits and clears the padding |
| OerBitString.OerRoundTrip | setup/xapp-sm-connector/asn1c_defs/BIT_STRING_oer.c:28-83 | the octets come back with their padding cleared, consumed is what was emitted, up to RSIZE_MAX exactly |
| OerBitString.EmittedBits | setup/xapp-sm-connector/asn1c_defs/BIT_STRING_oer.c:133-150 | used bits and zeros if a used bit of the last octet is set, else the octets as they are |
| OerBitString.OerFixedExactly | setup/xapp-sm-connector/asn1c_defs/BIT_STRING_oer.c:28-83 | any octets under a fixed size: more is asked for, or that many bits are read and the rest of the last octet cleared |
| OerBitString.OerExactly | setup/xapp-sm-connector/asn1c_defs/BIT_STRING_oer.c:37-83 | any octets behind a length: when the decoder fails, when it asks for more, and which bits it keeps |
| OerBitString.OerRoundTripValue | setup/xapp-sm-connector/asn1c_defs/BIT_STRING_oer.c:123-150 | a proper value with the same bits, equal to the original if that was proper |
| OerBitString.OerPrefixStarves | setup/xapp-sm-connector/asn1c_defs/BIT_STRING_oer.c:37-66 | every strict prefix of an encoding asks for more |
| OerBitString.OerCanonicalWhen | setup/xapp-sm-connector/asn1c_defs/BIT_STRING_oer.c:133-148 | stray padding reaches the output exactly when all used bits of the last octet are zero |
| OerBitString.OerStrayPadding | setup/xapp-sm-connector/asn1c_defs/BIT_STRING_oer.c:86-88 | a value whose encoding is not canonical |
| OerBitString.OerDecodedProper | setup/xapp-sm-connector/asn1c_defs/BIT_STRING_oer.c:47-60 | an accepted value meets BIT_STRING_constraint unless no octets come with unused bits |
| OerBitString.OerStrayEmpty | setup/xapp-sm-connector/asn1c_defs/BIT_STRING_oer.c:53-56 | octets 1, 3 decode to an empty string with three unused bits, which does not compare equal to the empty string |
| OerBitString.OerFixedRoundTrip | setup/xapp-sm-connector/asn1c_defs/BIT_STRING_oer.c:115-122 | with a fixed size a value of that many octets comes back exactly when its bit count is the fixed one |
| Text.TextIndent | setup/xapp-sm-connector/asn1c_defs/asn_internal.h:117-125 | a new line and four spaces a level, none below level zero |
| Text.DecimalInverse | setup/xapp-sm-connector/asn1c_defs/BIT_STRING_jer.c:109-110 | a printed number reads back and has no leading zeros |
| Text.SizeDigits | setup/xapp-sm-connector/asn1c_defs/BIT_STRING_jer.c:111-113 | a size never outgrows the buffer |
| JerBitString.DumpOctet | setup/xapp-sm-connector/asn1c_defs/BIT_STRING_jer.c:76-83 | the flush test keeps every two-digit write inside the 52 characters and the chunks in order |
| JerBitString.DumpHex | setup/xapp-sm-connector/asn1c_defs/BIT_STRING_jer.c:75-97 | for any size the chunks are the quoted hexadecimal octets, the last one masked |
| JerBitString.EncodeJer | setup/xapp-sm-connector/asn1c_defs/BIT_STRING_jer.c:11-124 | the text of both forms, minified or indented, and its length |
| JerBitString.HexInverse | setup/xapp-sm-connector/asn1c_defs/BIT_STRING_jer.c:198-233 | hexadecimal text reads back |
| JerBitString.HexValueExactly | setup/xapp-sm-connector/asn1c_defs/BIT_STRING_jer.c:198-212 | the digits of each value are the two cases of its character, and no other character has it |
| JerBitString.HexOctetsExactly | setup/xapp-sm-connector/asn1c_defs/BIT_STRING_jer.c:194-231 | text denotes octets exactly if it shows the digits of each, high before low, in either case |
| JerBitString.SkipChar | setup/xapp-sm-connector/asn1c_defs/BIT_STRING_jer.c:137-147 | to just after the next occurrence, or more input needed |
| JerBitString.ReadKey | setup/xapp-sm-connector/asn1c_defs/BIT_STRING_jer.c:173-179 | key, quotes and colon in this order, else more or failure |
| JerBitString.ParseHex | setup/xapp-sm-connector/asn1c_defs/BIT_STRING_jer.c:194-231 | the nibble loop with its 32-bit accumulator: octets, or failure on another character or an odd count |
| JerBitString.ReadValue | setup/xapp-sm-connector/asn1c_defs/BIT_STRING_jer.c:182-233 | extent, buffer and octets of the value, and the text after it |
| JerBitString.ScanNumber | setup/xapp-sm-connector/asn1c_defs/BIT_STRING_jer.c:243-262 | the extent of the first run of digits and minus signs |
| JerBitString.DecodeJer | setup/xapp-sm-connector/asn1c_defs/BIT_STRING_jer.c:149-294 | value, unused bits and consumed text for every input, into a fresh or a used structure |
| JerBitString.KeyInverse | setup/xapp-sm-connector/asn1c_defs/BIT_STRING_jer.c:68-74 | a printed key is read back, leaving only the space after the colon |
| JerBitString.LengthInverse | setup/xapp-sm-connector/asn1c_defs/BIT_STRING_jer.c:264-282 | the printed bit count is read back exactly up to LONG_MAX |
| JerBitString.JerRoundTrip | setup/xapp-sm-connector/asn1c_defs/BIT_STRING_jer.c:40-119 | octets with unused bits cleared, the same bit count and the whole text consumed, whatever follows, exactly when no more bits are unused than there are and the count fits a long |
| JerBitString.JerRoundTripValue | setup/xapp-sm-connector/asn1c_defs/BIT_STRING_jer.c:172-293 | a proper value with the same bits; the value itself if its padding was zero |
| JerBitString.JerAnyValue | setup/xapp-sm-connector/asn1c_defs/BIT_STRING_jer.c:172-293 | any value text and any count in the layout of the encoder: octets and bit count as an int, or failure for other text or a count beyond a long |
| JerBitString.JerMixedCase | setup/xapp-sm-connector/asn1c_defs/BIT_STRING_jer.c:198-212 | the round trip holds for the hexadecimal letters in any mixture of cases |
| JerBitString.JerAnyFixed | setup/xapp-sm-connector/asn1c_defs/BIT_STRING_jer.c:182-289 | with a fixed size any hexadecimal text of enough octets is a value, whatever precedes its first quote |
| JerBitString.KeyExactly | setup/xapp-sm-connector/asn1c_defs/BIT_STRING_jer.c:172-180 | anything may stand between the parts of a key |
| JerBitString.KeyFailures | setup/xapp-sm-connector/asn1c_defs/BIT_STRING_jer.c:172-180 | another word is an error, a word cut short or a missing character asks for more |
| JerBitString.LengthExactly | setup/xapp-sm-connector/asn1c_defs/BIT_STRING_jer.c:236-282 | the first run of digits and minus signs ends the number, what precedes it is left to the integer decoder, none is an error |
| JerBitString.IntegerExactly | setup/xapp-sm-connector/asn1c_defs/INTEGER_jer.c:33-179 | behind white space exactly what a number of the range of a long prints as, and -0 |
| JerBitString.UnsignedExactly | setup/xapp-sm-connector/asn1c_defs/INTEGER.c:268-378 | a negative length that k octets and no fewer hold comes out 2^(8k) above |
| JerBitString.JerMinified | setup/xapp-sm-connector/asn1c_defs/BIT_STRING_jer.c:67-119 | the minified text in literal characters |
| JerBitString.JerIndented | setup/xapp-sm-connector/asn1c_defs/BIT_STRING_jer.c:67-119 | the indented text in literal characters, four spaces a level |
| JerBitString.JerFixedText | setup/xapp-sm-connector/asn1c_defs/BIT_STRING_jer.c:43-66 | with a fixed size the text is the quoted value alone |
| JerBitString.JerCanonical | setup/xapp-sm-connector/asn1c_defs/BIT_STRING_jer.c:67-119 | the same text exactly for the same used bits and count |
| JerBitString.JerTruncated | setup/xapp-sm-connector/asn1c_defs/BIT_STRING_jer.c:172-291 | a strict prefix of a text never decodes: more is asked for, but failure is reported exactly between the colon of the length and its first digit |
| JerBitString.JerFixedRoundTrip | setup/xapp-sm-connector/asn1c_defs/BIT_STRING_jer.c:43-66 | with a fixed size the bit count comes back exactly when it is the fixed one |
| XerBitString.BitPattern | setup/xapp-sm-connector/asn1c_defs/BIT_STRING_xer.c:9-12 | the two four-character patterns are the eight bits |
| XerBitString.BitTest | setup/xapp-sm-connector/asn1c_defs/BIT_STRING_xer.c:60-61 | testing with a shifted one reads that bit |
| XerBitString.FlushWhen | setup/xapp-sm-connector/asn1c_defs/BIT_STRING_xer.c:40-45 | the loop flushes after 15 octets, or 8 when indented, so the pointer is at most 120 |
| XerBitString.DumpOctet | setup/xapp-sm-connector/asn1c_defs/BIT_STRING_xer.c:38-49 | one octet stays inside the buffer and the text in order |
| XerBitString.DumpLast | setup/xapp-sm-connector/asn1c_defs/BIT_STRING_xer.c:56-63 | the used bits of the last octet, most significant first |
| XerBitString.EncodeXer | setup/xapp-sm-connector/asn1c_defs/BIT_STRING_xer.c:14-70 | the exact text and its length |
| XerBitString.XerBits | setup/xapp-sm-connector/asn1c_defs/BIT_STRING_xer.c:30-65 | without white space the text is the used bits in order, canonical or not |
| XerBitString.XerCanonical | setup/xapp-sm-connector/asn1c_defs/BIT_STRING_xer.c:30-65 | canonical text is the used bits and nothing else |
| XerBitString.InLinesExactly | setup/xapp-sm-connector/asn1c_defs/BIT_STRING_xer.c:51-53 | every due line break precedes its line exactly if the text is canonical or no whole line ends just before the last octet |
| XerBitString.DumpLine | setup/xapp-sm-connector/asn1c_defs/BIT_STRING_xer.c:38-49 | a line is a break and the bits of up to eight octets |
| XerBitString.XerLayout | setup/xapp-sm-connector/asn1c_defs/BIT_STRING_xer.c:38-65 | the indented text in that case: the lines, the last octet, a break one level up |
| XerBitString.LastLineAfterTwoBreaks | setup/xapp-sm-connector/asn1c_defs/BIT_STRING_xer.c:38-63 | otherwise the last full line follows two breaks and the last octet follows that line at once |
| XerBitString.NineOctets | setup/xapp-sm-connector/asn1c_defs/BIT_STRING_xer.c:38-65 | nine octets: two breaks, seventy-two digits, a break, instead of a break before each line |
| Base64.Alphabet | setup/e2/RIC-E2-TERMINATION/base64.h:34-35 | capital letters, small letters, digits, plus and slash, in this order; = pads |
| Base64.InverseTable | setup/e2/RIC-E2-TERMINATION/base64.cpp:80-85 | the inverse of the alphabet, = as zero, 0x80 elsewhere |
| Base64.InverseExactly | setup/e2/RIC-E2-TERMINATION/base64.cpp:80-85 | a character has the value of its place in the alphabet, = has 0, and exactly the others have 0x80 |
| Base64.Encode | setup/e2/RIC-E2-TERMINATION/base64.cpp:29-77 | the guards; on success exactly the text and a final zero are written and the length reported, on failure nothing changes |
| Base64.EncodedMeaning | setup/e2/RIC-E2-TERMINATION/base64.cpp:55-73 | the characters before the padding are the octets in groups of six bits, completed with zeros (section 4 of RFC 4648) |
| Base64.EncodedPads | setup/e2/RIC-E2-TERMINATION/base64.cpp:63-73 | padding stands at the end and nowhere else, one for each missing octet |
| Base64.CountKept | setup/e2/RIC-E2-TERMINATION/base64.cpp:104-108 | the number of alphabet and padding characters |
| Base64.Decode | setup/e2/RIC-E2-TERMINATION/base64.cpp:79-149 | succeeds exactly when the guards hold and the text decodes, a negative length standing for no text; the guards alone keep every write below dstLen |
| Base64.DecodeLoop | setup/e2/RIC-E2-TERMINATION/base64.cpp:113-145 | block, count and pad give the octets of the quanta up to the first padded one, or failure |
| Base64.OctetsOfQuantum | setup/e2/RIC-E2-TERMINATION/base64.cpp:128-130 | the shifts undo the quantum of three octets |
| Base64.QuantumDecoded | setup/e2/RIC-E2-TERMINATION/base64.cpp:113-145 | four characters: the octets of their values, one or two pads anywhere drop as many octets, more are refused |
| Base64.DecodedJoin | setup/e2/RIC-E2-TERMINATION/base64.cpp:113-145 | whole quanta without padding decode for themselves, and what follows them likewise |
| Base64.DecodedCount | setup/e2/RIC-E2-TERMINATION/base64.cpp:104-111 | no character of the alphabet, or a count that is no multiple of four, is refused |
| Base64.DecodedOfFiltered | setup/e2/RIC-E2-TERMINATION/base64.cpp:115-119 | characters outside the alphabet make no difference |
| Base64.DecodedAfterPad | setup/e2/RIC-E2-TERMINATION/base64.cpp:104-143 | after a padded quantum the octets are settled, but the text is refused unless the rest keeps the count a multiple of four |
| Base64.LateCharacterMatters | setup/e2/RIC-E2-TERMINATION/base64.cpp:110-111 | QQ== decodes, QQ==A does not |
| Base64.DecodeOfEncode | setup/e2/RIC-E2-TERMINATION/base64.cpp:113-145 | decoding an encoding gives the octets back exactly when there are any |
| Base64.DecodeRoom | setup/e2/RIC-E2-TERMINATION/base64.cpp:88 | the room asked for an encoding is its octets rounded up to threes |
| Base64.EncodeOfDecode | setup/e2/RIC-E2-TERMINATION/base64.cpp:52-76 | encoding undoes decoding exactly on the canonical texts (section 3.5 of RFC 4648) |
| Base64.ReportingMessages.BuildJsonMessage | setup/e2/RIC-E2-TERMINATION/sctpThread.cpp:2637-2643 | every payload the receive buffer can hold fits; without octets the old text stays and the reported length is the buffer size |
| RanName.TranslatePlmnId | setup/e2/RIC-E2-TERMINATION/BuildRunName.h:33-53 | prefix and digits cut to 19 characters in a zeroed buffer, and the uncut length |
| RanName.TranslateBitStringToChar | setup/e2/RIC-E2-TERMINATION/BuildRunName.h:55-73 | appends a dash and two digits an octet, leaving zeros behind |
| RanName.BuildRanName | setup/e2/RIC-E2-TERMINATION/BuildRunName.h:76-167 | the name of every kind of node if it fits the field, or -1 and an empty name |
| RanName.OctetsFit | setup/e2/RIC-E2-TERMINATION/sctpThread.h:105 | with identities of up to 21 octets every name fits the field |
| RanName.IdentityDigits | setup/e2/RIC-E2-TERMINATION/BuildRunName.h:55-71 | the characters after the dash: the high digit of each octet, then the low one, of 0 to f |
| RanName.NameBegins | setup/e2/RIC-E2-TERMINATION/BuildRunName.h:45-161 | the prefix of each kind and the PLMN text, cut to nineteen characters |
| RanName.PlmnNibbles | setup/e2/RIC-E2-TERMINATION/BuildRunName.h:33-53 | which nibbles the PLMN text prints in which order, 10 to 15 as two digits |
| RanName.SampleName | setup/e2/RIC-E2-TERMINATION/BuildRunName.h:33-89 | a gNB of country 208, network 92 and identity b5c67788 is gnb:208-092-b5c67788 |
| RanName.NameStarts | setup/e2/RIC-E2-TERMINATION/BuildRunName.h:45-50 | the cut never reaches the prefix |
| RanName.NeverFiltered | setup/e2/RIC-E2-TERMINATION/sctpThread.cpp:2241 | no RAN name looks like a host or message key |
| RanName.KindsDistinct | setup/e2/RIC-E2-TERMINATION/BuildRunName.h:77-161 | nodes of different kinds have different names |
| RanName.HexInjective | setup/e2/RIC-E2-TERMINATION/BuildRunName.h:63-71 | different octets have different digits |
| RanName.SameName | setup/e2/RIC-E2-TERMINATION/BuildRunName.h:55-161 | with identities, names agree exactly when kind, PLMN part and identity octets do, whatever the PLMN octets |
| RanName.SamePlmnPart | setup/e2/RIC-E2-TERMINATION/BuildRunName.h:45-50 | for decimal PLMN identities the parts agree exactly when the digits the prefix leaves room for do |
| RanName.SameDigits | setup/e2/RIC-E2-TERMINATION/BuildRunName.h:34-50 | the six digits agree exactly for the same country code and the same network digits, a two-digit code taking a leading 0 |
| RanName.SameNameDecimal | setup/e2/RIC-E2-TERMINATION/BuildRunName.h:33-161 | for decimal PLMN identities names agree exactly for one kind, one identity or none, and the same digits kept |
| RanName.PlmnCollision | setup/e2/RIC-E2-TERMINATION/BuildRunName.h:45-50 | a two- and a three-digit network code with one name under the shortest prefix |
| RanName.ShortMacroCollision | setup/e2/RIC-E2-TERMINATION/BuildRunName.h:107-111 | two PLMN identities with one name under the longest prefix, whatever the identity |
| RanName.ShortMacroKeepsOneDigit | setup/e2/RIC-E2-TERMINATION/BuildRunName.h:107-111 | with the longest prefix the PLMN part depends on its first digit alone |
| Registry.MapWrapper.Find | setup/e2/RIC-E2-TERMINATION/mapWrapper.h:40-47 | the value of the key, if there is one |
| Registry.MapWrapper.SetKey | setup/e2/RIC-E2-TERMINATION/mapWrapper.h:49-52 | only that key changes |
| Registry.MapWrapper.Erase | setup/e2/RIC-E2-TERMINATION/mapWrapper.h:54-57 | only that key goes, and how many went |
| Registry.MapWrapper.Clear | setup/e2/RIC-E2-TERMINATION/mapWrapper.h:59-62 | nothing is left |
| Registry.MapWrapper.GetKeys | setup/e2/RIC-E2-TERMINATION/mapWrapper.h:64-69 | every key exactly once |
| Registry.Termination.AcceptPeer | setup/e2/RIC-E2-TERMINATION/sctpThread.cpp:631-669 | a new open peer without a name |
| Registry.Termination.CollectSetup | setup/e2/RIC-E2-TERMINATION/sctpThread.cpp:1464-1510 | the element loop: name zeroed, built, overlaid on the old one and registered, or an early end |
| Registry.Termination.CleanHashEntry | setup/e2/RIC-E2-TERMINATION/sctpThread.cpp:960-970 | both keys erased and the peer freed |
| Registry.Termination.HangUpPeer | setup/e2/RIC-E2-TERMINATION/sctpThread.cpp:1282-1302 | reported, closed, cleaned |
| Registry.Termination.PollErrorPeer | setup/e2/RIC-E2-TERMINATION/sctpThread.cpp:901-928 | reported, closed, erased, cleaned |
| Registry.Termination.SendMessageToCu | setup/e2/RIC-E2-TERMINATION/sctpThread.cpp:2455-2473 | unknown names and failed sends give -1; only a connected peer is dropped |
| Registry.Termination.ClearAllPeers | setup/e2/RIC-E2-TERMINATION/sctpThread.cpp:2235-2269 | the clearing loop over the keys never meets a freed peer |
| Registry.Listen | setup/e2/RIC-E2-TERMINATION/sctpThread.cpp:606-699 | one event of a stable connection keeps the invariant and touches no freed memory |
| Registry.SetupExactly | setup/e2/RIC-E2-TERMINATION/sctpThread.cpp:1464-1482 | a setup keeps the invariant exactly when a registered name stays the same and no longer name is overwritten |
| Registry.SetupNames | setup/e2/RIC-E2-TERMINATION/sctpThread.cpp:1464-1481 | wherever the identity stands among the elements, before a bad function list, the peer gets its name and the name, with what a longer old one leaves, is registered |
| Registry.SetupNamesNone | setup/e2/RIC-E2-TERMINATION/sctpThread.cpp:1464-1507 | without such an identity the peer has no name and the registry is as it was |
| Registry.StableExactly | setup/e2/RIC-E2-TERMINATION/sctpThread.cpp:1464-1481 | which setups StableRun admits |
| Registry.DroppedKept | setup/e2/RIC-E2-TERMINATION/sctpThread.cpp:901-970 | hanging up and poll errors have the same effect: the peer and whatever its name maps to are gone, the invariant stays |
| Registry.SendChangesNothing | setup/e2/RIC-E2-TERMINATION/sctpThread.cpp:982-1029 | accepted peers are never marked connected, so sending never changes the registry |
| Registry.SendDrops | setup/e2/RIC-E2-TERMINATION/sctpThread.cpp:982-1012 | a failed send to a peer marked connected frees it, erases its three keys and closes it, in this order |
| Registry.StepKeeps | setup/e2/RIC-E2-TERMINATION/sctpThread.cpp:606-699 | every event of a stable connection keeps the invariant |
| Registry.Safety | setup/e2/RIC-E2-TERMINATION/sctpThread.cpp:960-970 | over all runs every registered name maps to an open, allocated peer recorded under that name |
| Registry.NamesAreAnnounced | setup/e2/RIC-E2-TERMINATION/sctpThread.cpp:1469-1481 | the recorded name is the one announced last |
| Registry.RegistryIsLastClaim | setup/e2/RIC-E2-TERMINATION/sctpThread.cpp:1282-1302 | a name maps to its last claimant until any peer of that name is dropped |
| Registry.TwoNamed | setup/e2/RIC-E2-TERMINATION/sctpThread.cpp:1464-1481 | two peers that claim one name: it maps to the second |
| Registry.TwoClaimsRun | setup/e2/RIC-E2-TERMINATION/sctpThread.cpp:1282-1302 | the end of the first takes the name out, the end of the second leaves nothing |
| Registry.UnstableDangles | setup/e2/RIC-E2-TERMINATION/sctpThread.cpp:1469-1481 | announcing another name, or none, leaves the first key pointing at freed memory, which the next send reads |
| Registry.ClearAllExactly | setup/e2/RIC-E2-TERMINATION/sctpThread.cpp:2235-2268 | exactly the registered peers are released, the map is empty, the others are untouched |
| Registry.ClearAllOnce | setup/e2/RIC-E2-TERMINATION/sctpThread.cpp:2240-2264 | each is closed, reported and freed once, whatever the order of the keys |
| Registry.ClearNotesAt | setup/e2/RIC-E2-TERMINATION/sctpThread.cpp:2240-2264 | key by key: closed, reported under the key, freed |
| Registry.StaleEventFaults | setup/e2/RIC-E2-TERMINATION/sctpThread.cpp:606-698 | an event touches freed memory exactly when its peer has been freed |
| Registry.ClearingLeavesStale | setup/e2/RIC-E2-TERMINATION/sctpThread.cpp:606-698 | an event fetched with a clearing and handled after it does so exactly for the registered peers |
| Watcher.SimWatcher.ReadRow | local_agent/sim_watcher_influx.py:71-105 | a new key is stored, consumed and sent once; a consumed one changes nothing |
| Watcher.SimWatcher.OnModified | local_agent/sim_watcher_influx.py:59-107 | the whole file, row by row |
| Watcher.SimWatcher.FillList | local_agent/sim_watcher_influx.py:91-97 | the values of the filled columns of the header, and their names |
| Watcher.SimWatcher.SendColumn | local_agent/sim_watcher_influx.py:149-202 | point and cell identity of one column, the latency scaled in place |
| Watcher.SimWatcher.SendToInflux | local_agent/sim_watcher_influx.py:117-204 | one write with one point a column; the stored list ends up scaled once |
| Watcher.ColumnPoint | local_agent/sim_watcher_influx.py:143-202 | each filled column has one point with its value, times a tenth for the latency, named after the latest cell identity at or before it, and the exact condition for an exact tag |
| Watcher.ColumnCellAt | local_agent/sim_watcher_influx.py:159-160 | the cell identity is the value of the last filled column up to there that mentions L3 and cellId, or 0 |
| Watcher.PointNames | local_agent/sim_watcher_influx.py:162-190 | what a point is called for each kind of file |
| Watcher.TenthIsNearest | local_agent/sim_watcher_influx.py:157 | the factor of the latency is the double nearest to a tenth |
| Watcher.StoredRowAt | local_agent/sim_watcher_influx.py:91-101 | the list kept for a row: the values of its filled columns, the latency scaled, then the number of the file |
| Watcher.ExactTag | local_agent/sim_watcher_influx.py:140-141 | the product in doubles is the exact number of nanoseconds exactly when 53 bits hold its odd part |
| Watcher.InexactTag | local_agent/sim_watcher_influx.py:141 | the first timestamp of the sample logs is tagged 64 nanoseconds early |
| Doubles.NearestExact | local_agent/sim_watcher_influx.py:141 | an integer is a double exactly when 53 bits hold its odd part |
| Doubles.FineScaled | local_agent/sim_watcher_influx.py:141-157 | below 2^53 a number is rounded at the power of two that scales it to 53 bits |
| Doubles.NearestScaled | local_agent/sim_watcher_influx.py:141 | so it is above |
| Doubles.NearestTwice | local_agent/sim_watcher_influx.py:141 | rounding is done once and for all |
| Watcher.TypeByName | local_agent/sim_watcher_influx.py:76-85 | the five searches on a file name give the type by kind and cell number |
| Watcher.KeylessFiles | local_agent/sim_watcher_influx.py:76-87 | the key stays unset exactly for distributed units outside 2 to 5 and central units outside 1 to 5; its third part otherwise |
| Watcher.DuCellOne | local_agent/sim_watcher_influx.py:80-81 | du-cell-1.txt has no key |
| Watcher.SinrNamedByCell | local_agent/sim_watcher_influx.py:162-181 | a SINR column is named after the latest cell identity exactly if its name mentions a UE or L3, else after the file |
| Watcher.SinrNamedByFile | local_agent/sim_watcher_influx.py:162-167 | such a column of the third file, after the identity of cell 4, is named after cell 3 |
| Watcher.CellOfColumns | local_agent/sim_watcher_influx.py:159-163 | empty columns do not change which cell identity is the latest |
| Watcher.ProcessSendsOnce | local_agent/sim_watcher_influx.py:87-105 | no key is ever sent twice |
| Watcher.SameKey | local_agent/sim_watcher_influx.py:71-85 | rows share a key exactly if timestamp and IMSI agree and the files are of one kind and both of cell 1 or neither |
| Watcher.SentInOrder | local_agent/sim_watcher_influx.py:71-105 | what was sent is, in order, the writes of the rows no earlier row shares its record with |
| Watcher.FreshFile | local_agent/sim_watcher_influx.py:65-105 | a file whose rows differ in timestamp or IMSI is sent whole, in order |
| Watcher.ExactlyOnce | local_agent/sim_watcher_influx.py:71-105 | after any events each row met has exactly one write, from the first row that agrees with it in timestamp, IMSI, kind of file and being of cell 1; rows that differ in one of them have different writes, and there is no other write |
| Watcher.RereadingIsIncremental | local_agent/sim_watcher_influx.py:65-107 | re-reading files that only grow is reading what is new |
| Watcher.OneFile | local_agent/sim_watcher_influx.py:65-107 | for one growing file the outcome is that of reading its last state once |

## Left out

- BitData.BitOut.PutFewBits: leaves out a failing output callback, after which this and every encoder above it stop with an error.
- BitData.BitOut.FlushBytes: leaves out a failing output callback.
- BitData.BitIn.GetFewBits: leaves out the refill callback, which no modelled codec sets.
- BitData.BitIn.GetManyBits: leaves out right alignment, which no modelled codec asks for.
- Failing memory in the decoders: they then stop with an error. `AnyBuffer` and `BIT_STRING_copy` have it.
- Widths of counters: the bit counts passed as `int`, the size of ANY as `int` and `size_t` sums are unbounded integers; the wrap-around of the JER bit count, its conversion to `int` and the 32-bit nibble accumulator are modelled.
- UperBitString.EncodeUper: size constraints whose count field cannot hold every size of the root are excluded (`UperBitString.ConsistentExactly`); the generated tables have none.
- BitStr.Compactify: the assertion on an empty string with unused bits is off, as in builds that define NDEBUG.
- BitStr.Compare: does not model the magnitude of a non-zero memcmp result, only its sign.
- Releasing memory in the codecs; the second half of `BIT_STRING_copy` on a null source is only the resulting pointer.
- JerBitString.DecodeJer: says nothing about the structure after a failure, when the source leaves whatever it had read.
- JerBitString.EncodeJer: negative unused bits, and more than 23, shift by an undefined amount and are excluded; so are missing JER constraints, whose pointer the code follows unchecked.
- XerBitString.EncodeXer: negative unused bits shift by an undefined amount and are excluded.
- `INTEGER_decode_jer` is the function `JerBitString.Integer` on the text the BIT STRING decoder hands it, which ends in a digit or a minus sign; the token scanner behind it is not part of this model.
- The XER and BER decoders of BIT STRING, the aligned PER codec of BIT STRING (shared with OCTET STRING), random filling and printing.
- `ANY_to_type`, `ANY_new_fromType` and the DER encoder that produces the chunks.
- Base64.Encode: takes the room for the text and its final zero as a precondition, because its own guard admits smaller buffers; the product srcLen * 4 must not overflow an int.
- The JSON line around the base 64 text, the switch that turns tracing off, logging, and log levels.
- RanName.BuildRanName: the name field is zeroed and has room for the name, as its caller and the ASN.1 sizes see to; a node identity without a known choice under ng-eNB or eNB, which the code dereferences as null, is excluded.
- RanName.SameNameDecimal: PLMN identities with nibbles of 10 to 14, which are no digits, are covered by RanName.SameName only.
- Registry.Listen: one event at a time and only for peers not yet freed; what a stale event of the same epoll batch does is Registry.ClearingLeavesStale.
- Registry: setups with more than one identity element, whose second name is built over the first one.
- Registry: sockets, epoll, RMR, timers, threads and the map's lock.
- Registry: structures left unfreed when accepting fails part way, and the EPOLLOUT path, which no accepted peer is armed for.
- Registry: keys starting with `host:` or `msg:` are erased but never stored, as in the source.
- Watcher: parsing of CSV text, of numbers and of directories; rows come parsed, with their doubles as real numbers, and files that raise an error are excluded. Numbers beyond the range of doubles are excluded too.
- Watcher: watchers sharing the class-level map, directory observation, and the database client beyond what is written to it.
- Generated descriptor tables, enumeration maps and range checks: data with one-branch tests.
- The configuration reader, the XML builder, tracing, statistics counters, the localisation network, log writers and socket agents.
