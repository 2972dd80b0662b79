# Verified model of the asn1cpp codec runtime

This project models the table-driven codecs of asn1cpp in Dafny and proves what
they promise: unaligned PER, REAL contents, BER, the lazy BER projection and
cursors, and the JSON codec's skipping of unknown members.

Encoders, decoders, streams, tries and frames keep the form the C++ code gives
them: classes whose methods append to a buffer, advance a cursor or patch octets
in place, and loops with invariants.  Every such method is proved equal to a
specification function (`Enc`, `Dec`, `Nearest`, `ReadTlv`, `Record`, ...), and
the laws are lemmas about those functions, for all inputs.

## How the modules fit

| modules | part of the runtime |
|---|---|
| `Options`, `Bits`, `Integers`, `Octets` | bit strings, powers of two, big-endian and two's complement octets |
| `PerTypes`, `PerEncode`, `PerDecode` | PER descriptors and values; what the encoder writes and the decoder reads |
| `PerWriter`, `PerEncoder`, `PerReader`, `PerDecoder` | the bit streams and handlers, proved equal to `Enc` and `Dec` |
| `PerNumbers`, `PerWidth`, `PerItems`, `PerRoundTrip`, `PerSetOf`, `PerLaws`, `PerSkew`, `PerLongLists` | the laws of PER |
| `PerForms`, `PerAccept`, `PerAnyForm`, `PerLocal` | the forms the PER encoder chooses and the values it takes, what the decoder makes of others, and that it reads no further |
| `Alphabet` | the generator's permitted-alphabet tables and their index width |
| `Ieee`, `RealNearest`, `RealBinary`, `RealDecimal`, `RealCodec`, `RealForms` | doubles as exact reals, rounding, normal forms, REAL contents octets in every form |
| `BerTlv`, `BerStream`, `BerOrder` | tags, lengths and TLVs; writer and reader; SET and SET OF order |
| `BerTypes`, `BerEncoder`, `BerDecoder` | BER descriptors and handlers |
| `BerDispatch` | the generator's dispatch tables and what they lead to |
| `BerRoundTrip`, `BerFlag`, `BerOverride`, `BerForms` | the laws of BER: round trips, what the failure flag tells, IMPLICIT over EXPLICIT tags, shortest and other forms |
| `BerCursor` | sibling cursor, cached layer, recursive walk |
| `ProjectionNames`, `ProjectionTrie`, `BerProjection`, `ProjectionSpans`, `ProjectionSlots`, `ProjectionResult` | path registration, walk with early exit, in-place commit |
| `JerText`, `JerEscapes`, `JerSkip`, `JerSequence`, `JerOrder`, `JerRoundTrip`, `JerNested` | JSON strings, value skipping, SEQUENCE as a JSON object, objects inside objects |

## What is proved

**PER.**  One theorem carries the rest: `PerRoundTrip.RoundTrip` decodes the bits
of any value, followed by any bits at all, with a *receiver's* schema that may
know more or fewer extension units and alternatives than the sender's.  The
result is exactly what `Seen` says, and the stream stops at the appended bits.
It follows that no encoding is a proper prefix of another, that SET OF is
canonical, and that in a list one element without bits means that all are.
What the encoder chooses is pinned apart from what the decoder accepts:
length determinants, numbers and fragmentation are the shortest that read alike,
and flags, bitmaps and field widths are those the constraints call for.  The
decoder looks at no bit behind those it consumes, so an encoding cut short is
refused.
`PerSkew` states version skew by what the sender's own version sees: a receiver
with m units gets the root and the first min(m, n) of n units as that version
would and the rest absent, and two receivers agree on every unit they share.

**REAL.**  Doubles are read as exact reals.  `Nearest` is shown to be a nearest
double under ties-to-even with the overflow bound of IEEE 754, and exact just
when some double is the value.  The 64-bit path of the decoder accepts exactly
the values a double holds and then returns the same pattern.  Encoding followed
by decoding is the identity on doubles (NaN becomes the quiet one), on exact
binary values with a 56-bit exponent and on decimal values above the least
exponent; the other cases are shown to be refused.  Contents octets the encoder
never writes, in base 8 or 16, scaled, padded or as decimal text, are worth what
section 8.5 of X.690 says, and nothing else is decoded.

**BER.**  Greedy recognition by the next tag recovers every member when the tags
of an OPTIONAL run and the component behind it are distinct.  The three forms of
CHOICE dispatch find an alternative exactly when it starts with the tag, from
what the generator's tables hold.  Replacing a tag in
place is encoding with the other tag, for every 32-bit tag number.  SET
components may come in any order with unknown ones among them.  SET OF sorting
by octets gives the zero-padded order.

**Projection.**  For every history of registrations, failing ones included, the
trie stays a tree with distinct sibling tags whose slots are numbered without a
gap, and a handle is that of the tags of the members the path names.  Applying it to any frame is characterised exactly: where registered paths
are apart, every slot is the span at its path if and only if every hit recorded
lies in the first TLV with its tag on each level, as it does when no tag the
trie looks for repeats among siblings.  A commit changes one value and nothing
the projection sees elsewhere.  The source says that a path leading through
another registered one is detected when a projection is applied
(runtime/src/BerProjection.cpp:141-144); no code does that, and the model
follows the code.

**JER.**  The skipper counts one kind of bracket and still consumes exactly one
value of the JSON grammar, except for a string with an unpaired surrogate escape
or a token nothing ends; that condition is exact.  A SEQUENCE decodes alike for
every order of its members, any spacing and any unknown members, at every
level of nesting.

## Findings

Promises the code does not keep on every input, each with the condition under
which it does and, where it helps, an input on which it does not.

| promise | holds exactly when | proved as |
|---|---|---|
| an accepted PER string comes back | every character fits the code it travels in; only the root of an extensible string without an alphabet, and the seven-bit types other than IA5String, can break it | `StrReadBack`, `CutOnlyUnchecked`; `StringIsCut`: 0xE9 comes back as 0x69 |
| an encoded SEQUENCE OF or SET OF is decoded | it has at most 200 elements, or their type takes bits | `ListReadBackExactly`; `NullListExactly`: 201 NULLs |
| an INTEGER comes back | its offset fits the field, or it is flagged as outside an extensible range | `IntRoundTrip`, `UIntRoundTrip`; `IntegerIsCut`: 9 for INTEGER (0..5) comes back as 1 |
| an ENUMERATED value comes back | its table lists the value | `EnumReadBack`; `UnlistedEnum`: 9 comes back as the first addition |
| the index of an addition to an ENUMERATED or CHOICE stays in the table | the sum of root count and ordinal is an `int` | `EnumIndexInTable`, `ChoiceIndexInTable`; `IndexOverflows`: ordinal 2^31 - 1 |
| the DEFAULT of an absent extension addition is restored | the sender wrote a bitmap that lists the addition | `ExtensionDefaultRestored`, `GroupDefaultRestored`; `DefaultNotRestored`: a SEQUENCE with no addition sent |
| a decimal REAL keeps its value when normalised | the saturating exponent has room for the dropped zeros | `DecimalKeepsValue`; `ExponentSaturates`: 100 x 10^(2^63 - 2) |
| a binary or decimal REAL is decoded | its exponent has at most 56 bits, or is above the least int64 | `BinaryReadBack`, `DecimalReadBack`; `ExponentsRefused`: 2^(2^55) and 10^(-2^63) |
| a BER value without an encoding raises the failure flag | no SET OF of several elements in the value holds an element without an encoding | `BerFlag.FlagExact`; `HiddenFailure`: an unselected CHOICE in a SET OF of two |
| a BER value that raises no flag is encoded whole | in addition, no mandatory member the encoder comes to is missing | `UnflaggedWhole`, `ConformsExact`; `TruncatedSilently`: 30 00 for a SEQUENCE without its first member |
| an IMPLICIT override on an EXPLICIT-tagged type is undone | NULL and CHOICE: always. BOOLEAN: the value is TRUE. INTEGER, OCTET STRING: never. SEQUENCE OF, SET OF: there is one element, and its encoding behind the natural tag decodes as it. SEQUENCE, SET whose natural tag no member takes: all members are optional and none is seen with a value but its DEFAULT | `NullOverride`, `ChoiceOverride`, `BooleanOverride`, `IntegerOverride`, `OctetsOverride`, `ListOverride`, `RecordOverride`; `FalseTurnsTrue`, `OneEmptyElement`, `OneEmptyMember` |
| applying a projection finds every registered value | registered paths being apart, every hit recorded lies in the first TLV with its tag on each level | `WalkRight`, `Apply`; `RepeatedTagLosesField`, and `OuterPathLosesField` for paths that are not apart |
| the JSON skipper consumes one value | a string has no unpaired surrogate escape, and something ends a token | `SkipExact`; `LoneSurrogateNotSkipped`: "\uD800", `UnendedTokenSkipped`: 1" |

## Model

| member | source | states |
|---|---|---|
| `PerRoundTrip.RoundTrip` | runtime/src/PerCodec.cpp:1143-1331 | decoding an encoding followed by any bits, with a schema sharing the root and the first units, gives what the receiver is to see and stops at those bits |
| `PerRoundTrip.RoundTripUnits` | runtime/src/PerCodec.cpp:1288-1329 | extension units: shared ones are read, the receiver's others marked absent, the sender's others skipped, for every pair of counts |
| `PerRoundTrip.RoundTripAlternative` | runtime/src/PerCodec.cpp:1366-1475 | CHOICE: root and added alternatives are recovered, and an addition unknown to the receiver is skipped whole |
| `PerRoundTrip.EnumReadBack` | runtime/src/PerCodec.cpp:925-979 | an ENUMERATED value comes back exactly when its table lists it |
| `PerRoundTrip.StrReadBack` | runtime/src/PerCodec.cpp:715-921 | an accepted string, in every form its constraints select, comes back if and only if its characters fit the code it travels in |
| `PerLaws.CutOnlyUnchecked` | runtime/src/PerCodec.cpp:794-824 | characters of an accepted string are cut only in the root of an extensible string without an alphabet, or in the seven-bit types other than IA5String |
| `PerLaws.StringIsCut` | runtime/src/PerCodec.cpp:805-824 | an extensible IA5String in its root is accepted with octet 0xE9 and comes back with 0x69 |
| `PerItems.CharReadBack` | runtime/src/PerCodec.cpp:849-916 | whatever is written for a character is read as what its code leaves of it |
| `PerLaws.WireRoundTrip` | runtime/include/asn1cpp/codec/PerCodec.hpp:100-105 | a flushed message decodes to what the receiver sees and leaves only its padding, under eight bits |
| `PerLaws.ExactRoundTrip` | runtime/src/PerCodec.cpp:1242-1331 | without DEFAULT and SET OF, decoding returns the very value encoded |
| `PerLaws.RootMemberSeen` | runtime/src/PerCodec.cpp:1242-1287 | a root member that travels is seen; one left out reads as its DEFAULT or as absent |
| `PerLaws.UnitSeen` | runtime/src/PerCodec.cpp:1288-1329 | what a receiver sees in each extension unit, for any number of units on either side |
| `PerSkew.SequenceSkew` | runtime/src/PerCodec.cpp:1143-1331 | a SEQUENCE sent with n units and received with m gives the root and first min(n, m) units as a receiver of the sender's version sees them, the receiver's others absent, and stops at the appended bits |
| `PerSkew.SequenceSkewExact` | runtime/src/PerCodec.cpp:1143-1331 | without DEFAULT and SET OF those are the sender's own root and units |
| `PerSkew.ChoiceSkew` | runtime/src/PerCodec.cpp:1366-1475 | an alternative the receiver knows comes back as a receiver of the sender's version sees it, one it does not know as no alternative, and the stream stops at the appended bits |
| `PerSkew.SharedUnitsSeenAlike` | runtime/src/PerCodec.cpp:1288-1329 | two receivers with different versions see the same in every unit they share |
| `PerSkew.SeenAlike` | runtime/src/PerCodec.cpp:1242-1331 | types on which two receivers' schemas agree throughout are seen alike by both |
| `PerLaws.ExtensionDefaultRestored` | runtime/src/PerCodec.cpp:1289-1327 | the DEFAULT of an absent addition is restored if and only if the sender wrote a bitmap that lists the addition |
| `PerLaws.GroupDefaultRestored` | runtime/src/PerCodec.cpp:1305-1327 | the same for each member of an absent addition group |
| `PerLaws.DefaultNotRestored` | runtime/src/PerCodec.cpp:1291-1311 | an absent addition with a DEFAULT reads as absent when no addition is sent and as its DEFAULT when another one is |
| `PerLaws.IntegerIsCut` | runtime/src/PerCodec.cpp:388-459 | 9 written for INTEGER (0..5) comes back as 1 |
| `PerLaws.UnlistedEnum` | runtime/src/PerCodec.cpp:934-948 | a value no table lists comes back as the first addition |
| `PerLaws.EnumIndexInTable` | runtime/src/PerCodec.cpp:972-977 | the guard admits additions in the table and overflowing sums; the index of an admitted one is in the table if and only if the sum is an `int` |
| `PerLaws.ChoiceIndexInTable` | runtime/src/PerCodec.cpp:1450-1469 | the same for added alternatives; only a sum that is an `int` selects or skips one |
| `PerLaws.IndexOverflows` | runtime/src/PerCodec.cpp:85-104 | the greatest `int` can be read as an ordinal and takes the index below zero |
| `PerWidth.EmptyIsZero` | runtime/src/PerCodec.cpp:1080-1082 | only a type whose descriptor takes no bits has an empty encoding |
| `PerWidth.ZeroWidthUnfolds` | runtime/src/PerCodec.cpp:1080-1082 | the rounds over the schema settle: a type takes no bits if and only if its descriptor does, given the types that take none |
| `PerLongLists.ZeroExactly` | runtime/src/PerCodec.cpp:1080-1082 | a value takes no bits if and only if its type is one without bits |
| `PerLongLists.FirstTellsForAll` | runtime/src/PerCodec.cpp:1080-1082 | when one value of a type takes no bits, none does, and all are seen as the same value |
| `PerLongLists.ListReadBackExactly` | runtime/src/PerCodec.cpp:1066-1096 | an encoded list is decoded, in every size form and fragmented or not, if and only if it has at most 200 elements or their type takes bits |
| `PerLongLists.NullListExactly` | runtime/src/PerCodec.cpp:1083-1087 | any number of NULLs is encoded, and up to 200 of them are decoded |
| `PerItems.ExtSizedRefused` | runtime/src/PerCodec.cpp:1083-1087 | more than 200 elements without bits are refused in whatever form their count travels |
| `PerItems.ReadItems` | runtime/include/asn1cpp/codec/PerCodec.hpp:256-303 | fragmented items read back, whatever follows, if each item does |
| `PerItems.ReadExtSized` | runtime/src/PerCodec.cpp:171-197 | extensible and constrained counts read back with their items |
| `PerItems.OpenReadBack` | runtime/src/PerCodec.cpp:307-326 | an open type holds the bits it was given and at most one octet of padding |
| `PerSetOf.PrefixFree` | runtime/src/PerCodec.cpp:983-1009 | no encoding is a proper prefix of another of the same type, and equal encodings are of values seen alike |
| `PerSetOf.SortEncsCorrect` | runtime/src/PerCodec.cpp:1028-1055 | SET OF elements are rearranged, none lost, ascending as zero-padded bit strings |
| `PerSetOf.SetOfCanonical` | runtime/src/PerCodec.cpp:1028-1055 | any two orders of the same elements are encoded as the same bits |
| `PerSetOf.SetOfSeenRearranged` | runtime/src/PerCodec.cpp:1066-1096 | a receiver of a SET OF sees the same elements with the same multiplicities |
| `PerNumbers.IntRoundTrip` | runtime/src/PerCodec.cpp:388-459 | an int64 INTEGER comes back if and only if its constraint can carry it |
| `PerNumbers.UIntRoundTrip` | runtime/src/PerCodec.cpp:465-533 | a uint64 INTEGER comes back if and only if its constraint can carry it |
| `PerNumbers.UnconstrainedRoundTrip` | runtime/src/PerCodec.cpp:200-220 | every int64 comes back as an unconstrained whole number |
| `PerNumbers.SemiRoundTrip` | runtime/src/PerCodec.cpp:224-249 | every 64-bit offset comes back as a semi-constrained whole number |
| `PerNumbers.NsNumberRoundTrip` | runtime/src/PerCodec.cpp:72-104 | every non-negative int comes back as a normally small number |
| `PerNumbers.NsNumberInRange` | runtime/src/PerCodec.cpp:85-104 | whatever the bits, a normally small number read is a non-negative int |
| `PerNumbers.IntegersInStorage` | runtime/src/PerCodec.cpp:388-533 | whatever the bits, a decoded INTEGER lies in its storage type |
| `PerNumbers.NsLengthRoundTrip` | runtime/src/PerCodec.cpp:47-70 | normally small lengths come back |
| `PerForms.FieldBit` | runtime/include/asn1cpp/codec/PerCodec.hpp:49-81 | a field of n bits has the most significant first |
| `PerForms.LengthShortest` | runtime/include/asn1cpp/codec/PerCodec.hpp:213-225 | no shorter determinant is read as the same length |
| `PerForms.NsLengthShortest` | runtime/src/PerCodec.cpp:47-62 | the same of the number of extension additions |
| `PerForms.NsNumberShortest` | runtime/src/PerCodec.cpp:72-104 | the same of the index of an addition |
| `PerForms.UnconstrainedShortest` | runtime/src/PerCodec.cpp:200-266 | the same of an unconstrained whole number |
| `PerForms.SemiShortest` | runtime/src/PerCodec.cpp:224-248 | the same of a semi-constrained offset |
| `PerForms.HeaderLargest` | runtime/include/asn1cpp/codec/PerCodec.hpp:260-265 | a fragment header announces as many blocks of 16K as there are, up to four |
| `PerForms.ItemsSize` | runtime/include/asn1cpp/codec/PerCodec.hpp:256-270 | the length octets of any number of items: a header for every four blocks and for those left over, and the last length |
| `PerForms.OctetsShortest` | runtime/include/asn1cpp/codec/PerCodec.hpp:256-298 | however octets are split into fragments, no split is shorter than the encoder's |
| `PerForms.SizeForm` | runtime/src/PerCodec.cpp:171-183 | one flag where a size is extensible, set outside it; a field of its width below 64K; length octets elsewhere; only a count outside a small size that is not extensible is refused |
| `PerForms.OctetStringSize` | runtime/src/PerCodec.cpp:616-625 | an OCTET STRING without SIZE takes one length octet below 128 octets and two below 16384 |
| `PerForms.OpenSize` | runtime/src/PerCodec.cpp:307-316 | an open type takes whole octets, one at least |
| `PerForms.IntegerForm` | runtime/src/PerCodec.cpp:386-410 | the extension bit tells values outside the constraint; the rest takes the field or the octets of its kind |
| `PerForms.EnumForm` | runtime/src/PerCodec.cpp:925-949 | root values and additions are told apart by the extension bit and take the root's width or a normally small number |
| `PerForms.ChoiceForm` | runtime/src/PerCodec.cpp:1366-1402 | the same for the alternatives of a CHOICE |
| `PerForms.NaturalBits` | runtime/src/PerCodec.cpp:268-300 | how many bits a character of each type takes without a FROM constraint |
| `PerForms.NumericForm` | runtime/src/PerCodec.cpp:268-281 | a NumericString character that is no digit is written as a space |
| `PerForms.StringAccepted` | runtime/src/PerCodec.cpp:757-845 | which strings are accepted, and that the extension bit tells those outside the root |
| `PerForms.PreambleAt` | runtime/src/PerCodec.cpp:1157-1164 | the preamble bit of an optional member is set when it has a value other than its DEFAULT |
| `PerForms.GroupBitmapAt` | runtime/src/PerCodec.cpp:1215-1227 | inside an addition group a DEFAULT is sent all the same |
| `PerForms.DefaultOmitted` | runtime/src/PerCodec.cpp:1157-1174 | a root member that equals its DEFAULT is encoded as if it were absent |
| `PerForms.ExtensionBit` | runtime/src/PerCodec.cpp:1150-1156 | the extension bit says whether any addition has a value |
| `PerAccept.AcceptedExact` | runtime/src/PerCodec.cpp:367-1402 | a value is encoded if and only if it is made like its type, its sizes and characters are allowed, its mandatory members are there, and what it sends is encoded |
| `PerAnyForm.LengthAnyForm` | runtime/include/asn1cpp/codec/PerCodec.hpp:227-240 | one octet, or two whatever the number; a fragment header is refused |
| `PerAnyForm.SemiAnyForm` | runtime/src/PerCodec.cpp:235-248 | an offset in any number of octets is read when it has 64 bits, else refused |
| `PerAnyForm.NsNumberAnyForm` | runtime/src/PerCodec.cpp:85-104 | an addition's index in any number of octets is read when it is an int, else refused |
| `PerAnyForm.UnconstrainedAnyForm` | runtime/src/PerCodec.cpp:251-266 | one to eight octets in two's complement, redundant ones among them; none and more are refused |
| `PerAnyForm.RootIndexRead` | runtime/src/PerCodec.cpp:960-968 | an index within the root of an ENUMERATED is its value, any other is refused |
| `PerAnyForm.AlternativeRefused` | runtime/src/PerCodec.cpp:1429-1439 | an index beyond the root alternatives is refused |
| `PerAnyForm.CharIndexRead` | runtime/src/PerCodec.cpp:849-916 | a character index beyond its alphabet is refused |
| `PerAnyForm.NumericCodeRead` | runtime/src/PerCodec.cpp:276-281 | a numeric code beyond the digits is read as a question mark |
| `PerLocal.DecLocal` | runtime/src/PerCodec.cpp:367-1475 | a decoded value does not depend on the bits behind it, for every type and any bits |
| `PerLocal.CutShortRefused` | runtime/src/PerCodec.cpp:367-1475 | every proper prefix of an encoding that would be read back is refused |
| `Integers.TrimSignOctets` | runtime/src/PerCodec.cpp:200-220 | the loop over redundant sign octets leaves the fewest octets that hold an int64 |
| `Integers.UOctetsLeast` | runtime/src/PerCodec.cpp:224-233 | the octet count of an unsigned number is the least that holds it |
| `PerWriter.PerEncodeStream.PutBits` | runtime/include/asn1cpp/codec/PerCodec.hpp:49-81 | the low bits of a value are appended, most significant first |
| `PerWriter.PerEncodeStream.Flush` | runtime/include/asn1cpp/codec/PerCodec.hpp:100-105 | the buffer becomes the octets of all bits written, padded with zeros |
| `PerWriter.EncodeInteger` | runtime/src/PerCodec.cpp:386-459 | the INTEGER handlers append what the constraint prescribes |
| `PerWriter.PutOctets` | runtime/include/asn1cpp/codec/PerCodec.hpp:305-310 | octets are appended in blocks of 16K behind their headers |
| `PerEncoder.Encode` | runtime/src/PerCodec.cpp:367-1402 | the handlers append exactly `Enc`, or raise the failure flag exactly when there is none |
| `PerEncoder.EncodeSequence` | runtime/src/PerCodec.cpp:1143-1217 | SEQUENCE: extension bit, preamble, members, unit bitmap, open types |
| `PerEncoder.EncodeChoice` | runtime/src/PerCodec.cpp:1366-1402 | CHOICE: index and alternative, or an added alternative as an open type |
| `PerEncoder.SortedElements` | runtime/src/PerCodec.cpp:1028-1055 | each SET OF element is encoded apart and the finished encodings sorted; a failing element fails the whole |
| `PerEncoder.PutLengthAndItems` | runtime/include/asn1cpp/codec/PerCodec.hpp:256-275 | the fragmentation loop appends the general length form of any number of items |
| `PerEncoder.BinarySearch` | runtime/src/PerCodec.cpp:925-946 | finds the position of a value in the ascending table, or that it is not there |
| `PerReader.PerDecodeStream.GetBits` | runtime/include/asn1cpp/codec/PerCodec.hpp:178-201 | reads the next bits as a number or fails at the end |
| `PerReader.PresenceBits.Read` | runtime/src/PerCodec.cpp:1109-1139 | the words hold the bits of the wire in order |
| `PerReader.PresenceBits.BitIsWireBit` | runtime/src/PerCodec.cpp:1109-1139 | bit `i` of the words is bit `i` of the wire, false past the end |
| `PerReader.ReadInt` | runtime/src/PerCodec.cpp:412-459 | the int64 reader does what the constraint prescribes, on any bits |
| `PerDecoder.Decode` | runtime/src/PerCodec.cpp:367-1475 | the handlers read exactly `Dec`, fail exactly when it fails, and keep the nesting level |
| `PerDecoder.ReadUnits` | runtime/src/PerCodec.cpp:1288-1329 | the loop over extension units reads, skips and marks as specified |
| `PerDecoder.ReadRun` | runtime/src/PerCodec.cpp:1066-1096 | the element loop with its zero-width guard |
| `Alphabet.EmitTables` | compiler/src/codegen/CppBackend.cpp:121-143 | encode and decode tables are inverse, and every other character is marked |
| `Alphabet.AlphabetBitsFor` | compiler/src/codegen/Backend.hpp:1585-1589 | the width loop computes the index width of an alphabet |
| `Alphabet.RangeBitsLeast` | compiler/src/codegen/Backend.hpp:1585-1589 | that width is the least that holds every index |
| `Alphabet.EmittedCodeWf` | compiler/src/codegen/CppBackend.cpp:121-143 | tables and width together are a code the PER string laws hold for |
| `RealNearest.NearestIsNearest` | runtime/src/Real.cpp:36-78 | the result is a nearest double, even on ties, and exact if and only if some double is the value |
| `RealNearest.Overflow` | runtime/src/Real.cpp:36-78 | the result is infinite if and only if the value reaches the rounding bound of IEEE 754 |
| `RealBinary.RealFromBinary` | runtime/src/Real.cpp:36-78 | the bit loops over a mantissa of any length compute that double and its exactness, without leaving the mantissa |
| `RealBinary.MakeBinary` | runtime/src/Real.cpp:163-187 | stripping octets and shifting across them reaches the normal form |
| `RealBinary.BinaryRealKeepsValue` | runtime/src/Real.cpp:163-187 | the normal form has the same value and sign, an odd mantissa and a non-zero first octet, and is kept exactly when no double holds the value |
| `RealBinary.NormalFormUnique` | runtime/src/Real.cpp:163-187 | two mantissas and exponents give the same REAL if and only if they have the same value |
| `RealDecimal.MakeDecimal` | runtime/src/Real.cpp:189-201 | dropping zeros reaches the decimal normal form |
| `RealDecimal.DecimalKeepsValue` | runtime/src/Real.cpp:189-201 | the value survives if and only if the saturating exponent has room for the dropped zeros |
| `RealDecimal.ExponentSaturates` | runtime/src/Real.cpp:189-201 | 100 x 10^(2^63 - 2) is normalised to 1 x 10^(2^63 - 1) |
| `RealDecimal.ReadExponent` | runtime/src/Real.cpp:82-95 | the exponent parser accepts signed digits within int64 and nothing else |
| `RealDecimal.ExponentReadBack` | runtime/src/Real.cpp:82-95 | every written exponent but the least int64 is read back |
| `RealDecimal.ReadDecimal` | runtime/src/Real.cpp:113-150 | the ISO 6093 scanner computes its specification |
| `RealDecimal.Nr3Read` | runtime/src/Real.cpp:113-150 | spaces, sign, digits, mark and exponent of an NR3 form are read as that number |
| `RealDecimal.Nr2Read` | runtime/src/Real.cpp:113-150 | an NR2 form is read as its digits with the mark's scale |
| `RealDecimal.Nr1Read` | runtime/src/Real.cpp:113-150 | an NR1 form is read as its digits |
| `RealCodec.EncodeRealExact` | runtime/src/Real.cpp:239-265 | writes the contents octets of an exact value |
| `RealCodec.EncodeDouble` | runtime/include/asn1cpp/types/Real.hpp:172-245 | writes the contents octets of a double with the fewest mantissa and exponent octets |
| `Octets.PutSigned` | runtime/src/Real.cpp:152-161 | writes the fewest two's complement octets of a number |
| `RealCodec.DecodeRealContents` | runtime/src/Real.cpp:276-359 | the decoder computes its specification on any octets |
| `RealCodec.FastDouble` | runtime/src/Real.cpp:337-358 | the 64-bit path succeeds if and only if a double holds the value, and returns the pattern of the general conversion |
| `RealCodec.FitsExactly` | runtime/src/Real.cpp:337-358 | the guards of the 64-bit path hold if and only if the general conversion is exact, with the same pattern |
| `RealCodec.DoubleReadBack` | runtime/src/Real.cpp:276-359 | every double is decoded bit for bit, any NaN as the quiet one |
| `RealCodec.BinaryReadBack` | runtime/src/Real.cpp:239-359 | an exact binary value is decoded if and only if its exponent has at most 56 bits, else refused |
| `RealCodec.DecimalReadBack` | runtime/src/Real.cpp:239-359 | a decimal value is decoded if and only if its exponent is above the least int64 |
| `RealCodec.ExponentsRefused` | runtime/src/Real.cpp:239-359 | 2^(2^55) and 10^(-2^63) are encoded and their encodings refused |
| `RealForms.BinaryMeaning` | runtime/src/Real.cpp:296-336 | sign, base 2, 8 or 16, scale, exponent and mantissa octets of any length are decoded as S x N x 2^F x B^E with B^E by repeated multiplication, or refused when the exponent has more than 56 bits |
| `RealForms.BinaryWorth` | runtime/src/Real.cpp:296-359 | what is decoded has exactly that sign and magnitude, and is in normal form |
| `RealForms.BinaryZero` | runtime/src/Real.cpp:321-323 | a mantissa of zero is a signed zero whatever the exponent |
| `RealForms.BinaryFormOnly` | runtime/src/Real.cpp:296-318 | nothing else whose first bit is set is decoded |
| `RealForms.WrittenShortest` | runtime/src/Real.cpp:253-264 | no base 2 encoding of the same mantissa and exponent is shorter than the one written |
| `RealForms.DecimalRead` | runtime/src/Real.cpp:113-150 | spaces, sign, digits with or without a mark, and an exponent are read as those digits scaled by the exponent less the digits behind the mark |
| `RealForms.DecimalWorth` | runtime/src/Real.cpp:113-201 | what is decoded is worth exactly that where its exponent has room for the zeros dropped |
| `RealForms.DecimalFormOnly` | runtime/src/Real.cpp:113-150 | no other text is decoded |
| `RealForms.ExponentAnyForm` | runtime/src/Real.cpp:82-95 | an exponent with or without a sign and leading zeros is its number, when that has 63 bits |
| `RealForms.ExponentFormOnly` | runtime/src/Real.cpp:82-95 | nothing else is parsed as an exponent |
| `RealForms.WrittenDecimal` | runtime/src/Real.cpp:241-252 | NR3 with the mark behind the digits, +0 for a zero exponent, no plus sign or leading zero elsewhere |
| `BerTlv.TagReadBack` | runtime/include/asn1cpp/codec/BerReader.hpp:67-92 | every 32-bit tag number but the reader's own mark is read back, whatever follows |
| `BerTlv.TlvReadBack` | runtime/include/asn1cpp/codec/BerReader.hpp:143-229 | a written TLV is read back and the rest is left |
| `BerTlv.TlvPrefixFree` | runtime/include/asn1cpp/codec/BerReader.hpp:143-229 | no TLV, of definite or indefinite length, is a proper prefix of another |
| `BerTlv.TagSizeExact` | runtime/src/BerCodec.cpp:54-60 | counting identifier octets recognises exactly what was written, for all 32-bit tag numbers |
| `BerTlv.RetagTlv` | runtime/src/BerCodec.cpp:78-117 | replacing the tag of an encoding is encoding with the other tag |
| `BerStream.EncodeTagToBuf` | runtime/src/BerCodec.cpp:62-76 | the local buffer holds the tag the writer writes |
| `BerStream.BerWriter.ReplaceAt` | runtime/include/asn1cpp/codec/BerWriter.hpp:106-119 | the replaced octets change size, all others stay |
| `BerStream.BerWriter.CloseConstructed` | runtime/include/asn1cpp/codec/BerWriter.hpp:150-196 | the reserved length octets become the shortest length of all that was written since, moving it down or up |
| `BerStream.TakeTlv` | runtime/include/asn1cpp/codec/BerReader.hpp:143-229 | the quick path and the general one read the same TLV, on any octets |
| `BerOrder.SortElements` | runtime/src/BerCodec.cpp:580-604 | the element buffers are sorted in place |
| `BerOrder.SetOfOrder` | runtime/src/BerCodec.cpp:580-604 | octet-wise sorting gives the zero-padded order of section 11.6 of X.690, a rearrangement, and the same for every order of the elements |
| `BerForms.PaddedIsNumeric` | runtime/src/BerCodec.cpp:580-604 | that order is the order of the numbers the octets are when the shorter string is padded with zeros |
| `BerOrder.SetInTableOrder` | runtime/src/BerCodec.cpp:752-775 | components are copied into table order, unmatched ones last |
| `BerOrder.SlotsIndependentOfOrder` | runtime/src/BerCodec.cpp:728-775 | rearranging distinct components fills the same slots |
| `BerOrder.ComponentsConserved` | runtime/src/BerCodec.cpp:752-775 | slots and unmatched components together are the components received, none lost and none added |
| `BerOrder.UnknownInOrder` | runtime/src/BerCodec.cpp:752-775 | components that belong nowhere stay in the order they came in |
| `BerEncoder.Encode` | runtime/src/BerCodec.cpp:1193-1218 | the handlers append exactly `Enc` and raise the flag exactly as `Flagged` says |
| `BerEncoder.ReplaceTag` | runtime/src/BerCodec.cpp:90-117 | the tag of the last encoding in the buffer is replaced in place, whatever the two tags' sizes |
| `BerEncoder.EncodeImplicit` | runtime/src/BerCodec.cpp:78-117 | encoding with the natural tag and replacing it in place leaves earlier octets untouched and appends the encoding under the override |
| `BerFlag.FlagExact` | runtime/src/BerCodec.cpp:567-924 | a value has no encoding if and only if the failure flag is raised or a SET OF of several elements in it hides the failure |
| `BerFlag.FlagExactNarrow` | runtime/src/BerCodec.cpp:567-924 | where no SET OF in the value has several elements, the flag is raised if and only if the value has no encoding |
| `BerFlag.ConformsExact` | runtime/src/BerCodec.cpp:654-710 | a value is one of its type if and only if it has an encoding in which no mandatory member is missing |
| `BerFlag.UnflaggedWhole` | runtime/src/BerCodec.cpp:567-924 | a value that raises no flag is encoded whole if and only if nothing is hidden in a SET OF and no mandatory member is missing |
| `BerFlag.TruncationDropsRest` | runtime/src/BerCodec.cpp:674-678 | behind a missing mandatory member nothing of the SEQUENCE is written |
| `BerFlag.TruncatedSilently` | runtime/src/BerCodec.cpp:674-678 | a SEQUENCE without its first member is written as 30 00, unflagged |
| `BerFlag.HiddenFailure` | runtime/src/BerCodec.cpp:580-604 | a SET OF of two CHOICE values with one unselected raises no flag |
| `BerFlag.SetOfHidesFailure` | runtime/src/BerCodec.cpp:580-604 | in a SET OF with several elements no element's failure reaches the flag |
| `BerForms.TagShortest` | runtime/include/asn1cpp/codec/BerWriter.hpp:51-69 | no shorter octets are read as the tag |
| `BerForms.LengthShortest` | runtime/include/asn1cpp/codec/BerWriter.hpp:74-86 | nor as the length |
| `BerForms.LengthAnyForm` | runtime/include/asn1cpp/codec/BerReader.hpp:94-116 | lengths in up to eight octets are read, leading zeros among them, larger counts and missing octets refused |
| `BerForms.MalformedTag` | runtime/include/asn1cpp/codec/BerReader.hpp:67-83 | where no tag can be read, the one peeked at has the number 2^32 - 1 |
| `BerForms.BooleanForm` | runtime/src/BerCodec.cpp:162-184 | TRUE is FF and FALSE 00; any other octet reads as TRUE and any other size is refused |
| `BerForms.IntegerForm` | runtime/src/BerCodec.cpp:186-220 | one to eight octets are read in two's complement, and the fewest are written |
| `BerForms.SignExtended` | runtime/src/BerCodec.cpp:201-213 | redundant sign octets do not change an INTEGER |
| `BerForms.DefaultOmitted` | runtime/src/BerCodec.cpp:668-673 | a member that equals its DEFAULT is encoded as if it were absent |
| `BerForms.OverrideForm` | runtime/src/BerCodec.cpp:78-133 | an EXPLICIT override is constructed, an IMPLICIT one as constructed as the type |
| `BerForms.WrongMemberTag` | runtime/src/BerCodec.cpp:842-856 | another tag in place of a mandatory member is refused, in place of an optional one it leaves the member out |
| `BerForms.WrongTypeTag` | runtime/src/BerCodec.cpp:167-175 | a type is decoded from a TLV with exactly its own tag |
| `BerForms.UnknownAlternative` | runtime/src/BerCodec.cpp:1043-1067 | a tag no alternative starts with is skipped whole where the CHOICE is extensible, else refused |
| `BerForms.IndefiniteReadBack` | runtime/include/asn1cpp/codec/BerReader.hpp:190-223 | a TLV of indefinite length is read up to its own end-of-contents octets, however deep others are nested in it |
| `BerDecoder.Decode` | runtime/src/BerCodec.cpp:1220-1252 | the handlers read exactly `Dec` and fail exactly when it fails |
| `BerDecoder.Dispatch` | runtime/src/BerCodec.cpp:924-1067 | the three forms of CHOICE dispatch find the alternative the tables name |
| `BerDispatch.DispatchExact` | runtime/src/BerCodec.cpp:936-1067 | with tables that hold the tags encodings start with, a tag is dispatched to an alternative if and only if the alternative starts with it, in all three forms |
| `BerDispatch.MemberRecognised` | runtime/src/BerCodec.cpp:728-750 | a member is recognised by exactly the tags its encodings start with, through any nesting of untagged CHOICEs |
| `BerDispatch.EmitTagIndex` | compiler/src/codegen/Generator.cpp:2931-2948 | an index is emitted if and only if there are several alternatives, all with context tags within a range of four for each; it runs from the least number to the greatest, each slot with the alternative of its number |
| `BerDispatch.EmittedIndexOk` | compiler/src/codegen/Generator.cpp:2931-2948 | up to 32768 alternatives, that index says exactly which one starts with which tag |
| `BerDispatch.IndexFromOne` | runtime/src/BerCodec.cpp:943-944 | behind an index that starts at 1, [1] leads to the first alternative and [2] to the second |
| `BerRoundTrip.RoundTrip` | runtime/src/BerCodec.cpp:1193-1252 | decoding an encoding of a well-tagged type followed by any octets gives what the receiver is to see and leaves those octets |
| `BerRoundTrip.RoundTripMembers` | runtime/src/BerCodec.cpp:777-882 | greedy recognition by the next tag recovers every member up to DEFAULT filling |
| `BerRoundTrip.RoundTripChoice` | runtime/src/BerCodec.cpp:886-1067 | the encoded alternative is the one decoded |
| `BerRoundTrip.SequenceReadBack` | runtime/src/BerCodec.cpp:777-882 | unknown components behind a SEQUENCE's own change nothing |
| `BerRoundTrip.SetAnyOrder` | runtime/src/BerCodec.cpp:728-882 | a SET decodes to the same value for every order of its components and any unknown ones among them |
| `BerOverride.BackIsValue` | runtime/src/BerCodec.cpp:78-117 | whatever lies under an IMPLICIT override is read as contents |
| `BerOverride.NullOverride` | runtime/src/BerCodec.cpp:258-261 | NULL: always undone |
| `BerOverride.BooleanOverride` | runtime/src/BerCodec.cpp:178-184 | BOOLEAN: over an EXPLICIT tag it is read as TRUE, so undone if and only if the value is TRUE or the type is not EXPLICIT-tagged |
| `BerOverride.IntegerOverride` | runtime/src/BerCodec.cpp:201-213 | INTEGER: undone if and only if the type is not EXPLICIT-tagged |
| `BerOverride.OctetsOverride` | runtime/src/BerCodec.cpp:1261-1269 | OCTET STRING: the same; the octets read are the natural encoding |
| `BerOverride.ChoiceOverride` | runtime/src/BerCodec.cpp:1261-1269 | CHOICE: undone over an EXPLICIT tag, since the alternative's whole encoding lies under it |
| `BerOverride.ListOverride` | runtime/src/BerCodec.cpp:629-651 | SEQUENCE OF, SET OF: undone over an EXPLICIT tag if and only if there is one element and it decodes from its encoding behind the natural tag |
| `BerOverride.RecordOverride` | runtime/src/BerCodec.cpp:777-882 | SEQUENCE, SET whose natural tag no member takes: undone over an EXPLICIT tag if and only if all members are optional and none is seen with a value but its DEFAULT |
| `BerOverride.FalseTurnsTrue` | runtime/src/BerCodec.cpp:178-184 | FALSE under [6] IMPLICIT over [5] EXPLICIT BOOLEAN is A6 03 01 01 00 and is read as TRUE |
| `BerOverride.OneEmptyElement` | runtime/src/BerCodec.cpp:629-651 | a list of one empty SEQUENCE comes back over an EXPLICIT tag |
| `BerOverride.OneEmptyMember` | runtime/src/BerCodec.cpp:777-882 | so does an empty SEQUENCE in a member that takes the natural tag |
| `BerCursor.Cursor.Next` | runtime/src/BerCursor.cpp:38-45 | steps to the next sibling, or turns invalid behind the last well-formed one |
| `BerCursor.Cursor.FindTag` | runtime/src/BerCursor.cpp:51-58 | finds the first sibling with the tag from here on |
| `BerCursor.Layer.Expand` | runtime/src/BerCursor.cpp:114-126 | caches all siblings once, malformed tails included |
| `BerCursor.FindBothWays` | runtime/src/BerCursor.cpp:128-134 | layer and cursor find the same TLV in any buffer |
| `BerCursor.BerWalk` | runtime/src/BerCursor.cpp:206-216 | the recursive walk ends and visits what its specification lists |
| `BerCursor.WalkIsPreorder` | runtime/src/BerCursor.cpp:206-220 | a valid frame is visited once in preorder down to the depth asked for |
| `BerCursor.SiblingsCover` | runtime/src/BerCursor.cpp:114-126 | sibling sizes add up to the buffer if and only if all of it is TLVs of definite length |
| `BerCursor.ForestSizes` | runtime/src/BerCursor.cpp:206-220 | the top-level TLVs of a valid frame take up the whole buffer |
| `BerProjection.BerProjection.EnsureNode` | runtime/src/BerProjection.cpp:24-56 | finds or appends the child with a tag; the arena stays a tree with distinct sibling tags and no slot moves |
| `BerProjection.BerProjection.AddPath` | runtime/src/BerProjection.cpp:58-155 | succeeds if and only if the path's components name a chain of members, and the handle is the slot at their tags with the type they lead to; a new path gets the next slot, a repeated one the same handle with nothing changed, a failing one no slot; no other path's slot changes |
| `BerProjection.RegisterAll` | runtime/src/BerProjection.cpp:58-155 | after any history of registrations, failing ones too, each handle is that of the chain of members its path names, handles are equal if and only if class and number agree at every step, and they number the slots without a gap |
| `BerProjection.AppendNode` | runtime/src/BerProjection.cpp:24-56 | linking a node in the arena is adding a childless branch at the path, and keeps the tree's invariants |
| `BerProjection.SlotSet` | runtime/src/BerProjection.cpp:145-149 | setting one node's slot changes the slot of its tag path and of no other |
| `ProjectionTrie.UpdateBuild` | runtime/src/BerProjection.cpp:24-56 | changing one node of the arena changes the tree at that node's path only |
| `ProjectionNames.ResolveExact` | runtime/src/BerProjection.cpp:69-105 | a path resolves to the tags t[0..n] and a type if and only if its components between slashes name a chain of first members with those tags that leads there |
| `ProjectionNames.Resolved` | runtime/src/BerProjection.cpp:69-118 | a path fails if and only if there is no such chain |
| `ProjectionSpans.BerPath` | runtime/src/BerCursor.cpp:191-204 | following a list of tags reaches the first value along them, or nothing |
| `ProjectionSpans.SpanIsFind` | runtime/src/BerCursor.cpp:51-58 | the span of a single tag is what the cursor finds |
| `ProjectionSpans.EventField` | runtime/src/BerProjection.cpp:197-235 | every hit of a walk is a registered path, in any frame |
| `ProjectionSpans.EventSound` | runtime/src/BerProjection.cpp:197-235 | where no tag the trie looks for repeats among siblings, every hit lies at its path |
| `ProjectionSpans.EventsAscend` | runtime/src/BerProjection.cpp:197-235 | hits come in the order of the octets |
| `ProjectionSpans.SpanFirst` | runtime/src/BerProjection.cpp:197-235 | what lies at a hit's path is the hit or lies before it |
| `ProjectionSpans.EventComplete` | runtime/src/BerProjection.cpp:197-235 | every registered path with a span, not hidden by a shorter one, is hit |
| `ProjectionSpans.PatchedSpan` | runtime/src/BerProjection.cpp:295-319 | overwriting a value leaves offsets and every path apart from it as they were |
| `ProjectionSpans.PatchedEvents` | runtime/src/BerProjection.cpp:295-319 | overwriting a slot's value changes that hit's value and no other hit of a walk |
| `ProjectionSpans.ApartExact` | runtime/src/BerProjection.cpp:141-144 | two paths are apart if and only if class or number differ at a common step |
| `ProjectionResult.BerProjectionResult.Walk` | runtime/src/BerProjection.cpp:197-235 | records the hits in order up to the number of slots, on any octets |
| `ProjectionSlots.WalkFindsAll` | runtime/src/BerProjection.cpp:197-235 | with distinct tags no slot is hit twice, so the hits are no more than the slots and the early exit loses none |
| `ProjectionSlots.WalkRight` | runtime/src/BerProjection.cpp:197-254 | with registered paths apart, a walk leaves in every slot exactly the span at its path, or nothing, if and only if every hit recorded lies in the first TLV with its tag on each level |
| `ProjectionSlots.DistinctFirstHits` | runtime/src/BerProjection.cpp:197-235 | distinct tags suffice for that |
| `ProjectionSlots.PatchedFirstHits` | runtime/src/BerProjection.cpp:295-319 | overwriting a slot's value keeps it so |
| `ProjectionResult.BerProjectionResult.Apply` | runtime/src/BerProjection.cpp:237-272 | every slot is reset and then holds the hits up to the limit, in any frame; with registered paths apart, every slot is right if and only if every hit recorded lies in the first TLV with its tag on each level |
| `ProjectionSlots.RepeatedTagLosesField` | runtime/src/BerProjection.cpp:206-233 | a repeated tag ends the walk before another registered value is recorded |
| `ProjectionSlots.OuterPathLosesField` | runtime/src/BerProjection.cpp:141-149 | with `[a]` and `[a, b]` registered, the value at `[a, b]` is never recorded although all tags differ |
| `ProjectionResult.BerProjectionResult.Commit` | runtime/src/BerProjection.cpp:295-319 | succeeds if and only if the slot is bound, found and of the same size; then only the value's octets change and every other path reads as before |
| `ProjectionResult.CommitAndReapply` | runtime/src/BerProjection.cpp:256-319 | in every frame whose slots were right, with paths apart, applying again after a commit finds every slot where it was, with new contents in that slot alone |
| `JerText.JsonEscape` | runtime/src/JerCodec.cpp:329-344 | the loop escapes quotes, backslashes and control characters |
| `JerText.JerDecodeStream.ReadJsonString` | runtime/src/JerCodec.cpp:245-298 | the reader computes its specification on any text |
| `JerText.StringReadBack` | runtime/src/JerCodec.cpp:245-344 | reading undoes escaping, for every string of octets and whatever follows |
| `JerText.CodePointRead` | runtime/src/JerCodec.cpp:262-289 | an escaped code point, as a surrogate pair where needed, is read as its UTF-8 form; lone surrogates are refused |
| `JerText.Utf8ReadBack` | runtime/src/JerCodec.cpp:212-229 | the octets appended for a code point are its shortest UTF-8 form |
| `JerEscapes.LetterIsCodePoint` | runtime/src/JerCodec.cpp:257-265 | each one-letter escape reads like the four-digit escape of its code point |
| `JerEscapes.OtherLettersRefused` | runtime/src/JerCodec.cpp:285-288 | no other letter but u may follow a backslash |
| `JerEscapes.PlainRead` | runtime/src/JerCodec.cpp:290-297 | octets outside escapes stand for themselves |
| `JerEscapes.HexDigitRead` | runtime/src/JerCodec.cpp:200-209 | hexadecimal digits in either case |
| `JerEscapes.WrittenString` | runtime/src/JerCodec.cpp:329-344 | what is written between quotes is one string of the grammar, without control characters |
| `JerEscapes.PlainUnchanged` | runtime/src/JerCodec.cpp:329-344 | text is left alone if and only if nothing in it has to be escaped |
| `JerEscapes.NullRead` | runtime/src/JerCodec.cpp:469-480 | null is recognised where a token may end behind it |
| `JerEscapes.SpaceSkipped` | runtime/src/JerCodec.cpp:379-380 | tab, line feed, form feed, carriage return and space are skipped, and nothing else |
| `JerEscapes.TokenEnds` | runtime/src/JerCodec.cpp:404-410 | a token ends in front of a comma, a closing bracket or a space |
| `JerSkip.SkipJsonValue` | runtime/src/JerCodec.cpp:379-410 | the skipper computes its specification on any text |
| `JerSkip.SkipExact` | runtime/src/JerCodec.cpp:379-410 | of a text that starts with a value of the grammar, exactly that value is skipped, if and only if its surrogate escapes are paired (for a string) or something ends it (for a token) |
| `JerSkip.LoneSurrogateNotSkipped` | runtime/src/JerCodec.cpp:379-410 | the string "\uD800" is not skipped |
| `JerSkip.UnendedTokenSkipped` | runtime/src/JerCodec.cpp:404-410 | a quote behind a number is skipped with it |
| `JerSkip.CountValue` | runtime/src/JerCodec.cpp:389-402 | a nested value of any kind leaves the count of one bracket kind as it was |
| `JerOrder.ValueLocal` | runtime/src/JerCodec.cpp:379-410 | a value is delimited alike whatever is appended to its text; a token at the very end of it needs something that ends it |
| `JerSequence.Decode` | runtime/src/JerCodec.cpp:1128-1194 | the member loop computes its specification, missing mandatory members included |
| `JerSequence.PeekNull` | runtime/src/JerCodec.cpp:469-480 | recognises a null with its leading spaces and nothing else |
| `JerOrder.ObjectRead` | runtime/src/JerCodec.cpp:1128-1194 | an object, its keys escaped in any way, gives each member the value of its last entry, and fails if and only if a mandatory one has none |
| `JerOrder.LastEntryWins` | runtime/src/JerCodec.cpp:1128-1194 | of several entries for a member the last one counts |
| `JerOrder.OrderIndependent` | runtime/src/JerCodec.cpp:1128-1194 | objects with the same members, each once, decode alike in any order, with any spacing, key escapes and unknown members |
| `JerRoundTrip.Encode` | runtime/src/JerCodec.cpp:1101-1127 | the members with values are written in table order, separated by commas |
| `JerRoundTrip.ObjectReadBack` | runtime/src/JerCodec.cpp:1101-1194 | an encoded SEQUENCE decodes to the same members and stops behind it |
| `JerNested.ObjectForward` | runtime/src/JerCodec.cpp:1128-1194 | an object decoder stops inside its text, so it is itself the codec of a member |
| `JerNested.ObjectIsMember` | runtime/src/JerCodec.cpp:1128-1194 | an object of good entries is read as a member of an outer object, so order, spacing and unknown members do not matter at any level |
| `JerNested.TreeReadBack` | runtime/src/JerCodec.cpp:1101-1194 | a value of SEQUENCEs nested within the depth guard's levels is decoded from its own encoding, and reading stops behind it |

## Left out

- PER: REAL, OBJECT IDENTIFIER, RELATIVE-OID, BIT STRING named-bit trimming, ANY, the pluggable decoders of contained types, and strings the source encodes through BER; NULL descriptors of extension members.
- PER: strings whose octet count is not a multiple of the character width, and permitted alphabets of 256 characters, a count the descriptor has no room for.
- PER: the counter of skipped extensions, and sizes beyond what `std::size_t` holds.
- REAL: `std::to_chars` and `strtod`, so the double cached beside a decimal value; int64 overflow of exponents computed inside `Real::binary`.
- BER: BIT STRING, OBJECT IDENTIFIER, time, REAL and string content handlers, which repeat the OCTET STRING case around other contents; ANY, which takes the rest of its buffer; ENUMERATED, which is INTEGER; contained types.
- BER: a fresh destination object is assumed, so a CHOICE left over from an earlier decode is not modelled.
- `std::stable_sort` and `std::sort` appear as insertion sorts; their results are determined by the order used.
- Projection: `bind` and `load` decode through the BER codec; here a bound slot has a parameter telling which octets decode, and `commit` takes the codec's output as a parameter.  The `is_choice` flag, which the walk never reads, and the node descriptors.
- ProjectionSlots.WalkRight: asks that no registered path leads through another, which the source declares unsupported; `ProjectionSlots.OuterPathLosesField` shows what happens otherwise.
- Cursors: the mutable variants, which repeat the constant ones, and `for_each`.
- JER: the handlers of single types; their codecs are parameters of the SEQUENCE model.
- XER, the debug printers, validation hooks, error texts, object layout, and the compiler beyond the alphabet tables.
- BerOverride.RecordOverride: asks that no member takes the type's natural tag; for members that do, `BerOverride.OneEmptyMember` shows a value that comes back although a field is sent.
- JerSkip.SkipExact: the grammar accepts form feed as a space, as the source's character table does, which RFC 8259 does not.
- JerOrder.OrderIndependent: assumes that a member's codec takes the same value from its text whatever follows, and that no member occurs twice; the source lets the last of two win.
- PerDecode.GetEnumPosition: gives an error for an overflowing sum of root count and ordinal, where the source reads in front of its table; `PerLaws.EnumIndexInTable` says when that is.
- PerDecode.DecAddition: likewise for an added alternative of a CHOICE; signed overflow is taken to wrap, as the hardware does.
- PerNumbers.IntRoundTrip: outside a range that is not extensible, an offset is cut to the field's width, so some values come back changed; the condition says which.
